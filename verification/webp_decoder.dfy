/** `ImageLib::WebP::WebPDecoder`, the native WebP decoder: it claims WebP
    headers, decodes still images to one bitmap, and animates animated ones
    on a dispatcher timer by showing pre-rendered frames in the control.

    The codec is a parameter: what it made of the bytes (`Decoded`). Each
    frame's rendering is a bitmap reference with its size. */
module NativeWebPDecoder {
  import opened Base
  import opened Signatures
  import ImageFormat
  import opened ImagePackage
  import opened ImageControl
  import opened DispatchTimer

  /** `HeaderSize`. */
  const HEADER_SIZE: int := 12

  /** A frame of an animated image: its duration in milliseconds and what
      `RenderFrame()` gives. */
  datatype Frame = Frame(duration: int, bitmap: Ref, width: int, height: int)

  /** A `WebPImage`: the frames and the loop count (0 for forever). */
  datatype Animation = Animation(frames: seq<Frame>, loopCount: int)

  /** What the codec made of the stream: features not readable, a still
      image decoded to a bitmap of the given size, or an animation. */
  datatype Decoded = Unreadable | Still(bitmap: Ref, width: int, height: int) | Animated(image: Animation)

  datatype WebP = WebP(
    initialized: bool,
    animating: bool,
    index: nat,
    loops: int,
    timer: Timer,
    image: Option<Animation>,
    control: Option<Image>)

  function New(): (w: WebP)
    ensures !w.initialized && !w.animating && w.timer == NoTimer && w.image.None?
  {
    WebP(false, false, 0, 0, NoTimer, None, None)
  }

  /** `GetPriority(headerBuffer)`: 1 for a WebP header and -1 otherwise; a
      buffer shorter than the twelve bytes the test reads raises. */
  function GetPriority(header: Bytes): (r: Result<int>)
    ensures r.Throws? <==> |header| < 12
    ensures r.Ok? ==> (r.value == 1 <==> WebPSignature(header))
    ensures r.Ok? ==> r.value == 1 || r.value == -1
  {
    match ImageFormat.IsWebP(header)
    case Throws(e) => Throws(e)
    case Ok(isWebP) => Ok(if isWebP then 1 else -1)
  }

  /** `InitializeAsync`: remembers the control, decodes, and, when the
      features could be read, shows the first bitmap through the UI thread if
      the load is still current. A null `Tag` URI (or a `Tag` that is not a
      URI) or a null `uriSource` makes that comparison dereference null.
      Whatever happened, the decoder ends up initialized. The results are the
      new state, the control, the package (`None` for null) and how the
      dispatched comparison ended. */
  function InitializeAsync(w: WebP, self: Ref, image: Image, uriSource: Option<string>, decoded: Decoded)
    : (r: (WebP, Image, Option<Package>, Outcome))
    ensures r.0.initialized && r.0.control == Some(image)
    ensures r.0.animating == w.animating && r.0.index == w.index && r.0.loops == w.loops && r.0.timer == w.timer
    ensures r.2.Some? <==> decoded.Still? || (decoded.Animated? && |decoded.image.frames| > 0)
    ensures r.2.Some? ==> r.2.value.decoder == Some(self) && r.2.value.source.Some?
    ensures decoded.Unreadable? ==> r.1 == image && r.3 == Done && r.0.image == w.image
    ensures decoded.Animated? ==> r.0.image == Some(decoded.image)
    ensures !decoded.Unreadable? && (image.tag.None? || uriSource.None?) ==>
      r.1 == image && r.3 == Raised(NullReferenceException)
    ensures !decoded.Unreadable? && image.tag.Some? && uriSource.Some? ==>
      r.3 == Done && r.1 == ShowIfCurrent(image, uriSource, if r.2.Some? then r.2.value.source else None)
  {
    var w1 := w.(control := Some(image));
    match decoded
    case Unreadable => (w1.(initialized := true), image, None, Done)
    case Still(b, width, height) =>
      var package := ImagePackage.New(Some(self), Some(b), width, height);
      var shown := ShowOnDispatcher(image, uriSource, Some(b));
      (w1.(initialized := true), shown.0, Some(package), shown.1)
    case Animated(anim) =>
      var w2 := w1.(image := Some(anim), initialized := true);
      if |anim.frames| > 0 then
        var first := anim.frames[0];
        var package := ImagePackage.New(Some(self), Some(first.bitmap), first.width, first.height);
        var shown := ShowOnDispatcher(image, uriSource, Some(first.bitmap));
        (w2, shown.0, Some(package), shown.1)
      else
        var shown := ShowOnDispatcher(image, uriSource, None);
        (w2, shown.0, None, shown.1)
  }

  /** The dispatched handler: compares the absolute URIs of the `Tag` and the
      requested source, dereferencing both. */
  function ShowOnDispatcher(image: Image, uriSource: Option<string>, source: Option<Ref>): (r: (Image, Outcome))
    ensures image.tag.None? || uriSource.None? ==> r == (image, Raised(NullReferenceException))
    ensures image.tag.Some? && uriSource.Some? ==> r == (ShowIfCurrent(image, uriSource, source), Done)
  {
    if image.tag.None? || uriSource.None? then (image, Raised(NullReferenceException))
    else (ShowIfCurrent(image, uriSource, source), Done)
  }

  /** `Start()`: as the GIF decoder, minus the disposal flag. */
  function Start(w: WebP): (r: WebP)
    ensures !(w.initialized && !w.animating) ==> r == w
    ensures w.initialized && !w.animating ==>
      r == w.(index := 0, loops := 0, timer := Running(0), animating := true)
  {
    if w.initialized && !w.animating then
      w.(index := 0, loops := 0, timer := Running(0), animating := true)
    else w
  }

  /** `Stop()`: does nothing unless animating. */
  function Stop(w: WebP): (r: WebP)
    ensures !r.animating
    ensures !w.animating ==> r == w
    ensures w.animating ==> r == w.(timer := StopTimer(w.timer), animating := false)
  {
    if !w.animating then w
    else w.(timer := StopTimer(w.timer), animating := false)
  }

  /** One timer tick (`OnTick`), ignored when the timer is not running. An
      uninitialized decoder or one without an animation does nothing.
      Otherwise the index advances first, wrapping and counting a loop, and
      the frame at the new index is shown in the control without checking
      its `Tag`; the timer is re-armed with that frame's duration while
      loops remain, and stopped otherwise. An animation without frames
      raises when the frame is fetched, after the counters moved. */
  function OnTick(w: WebP): (r: (WebP, Outcome))
    ensures !w.timer.Running? || !w.initialized || w.image.None? ==> r == (w, Done)
    ensures r.0.animating == w.animating && r.0.initialized == w.initialized && r.0.image == w.image
    ensures w.timer.Running? && w.initialized && w.image.Some? ==>
      var n := |w.image.value.frames|;
      var next := w.index + 1;
      && (next >= n ==> r.0.index == 0 && r.0.loops == w.loops + 1)
      && (next < n ==> r.0.index == next && r.0.loops == w.loops)
      && (n == 0 <==> r.1 == Raised(BoundsException))
    ensures w.timer.Running? && w.initialized && w.image.Some? && r.1 == Done ==>
      var anim := w.image.value;
      && 0 <= r.0.index < |anim.frames|
      && (w.control.Some? ==> r.0.control == Some(w.control.value.(source := Some(anim.frames[r.0.index].bitmap))))
      && (r.0.timer.Running? <==> anim.loopCount == 0 || r.0.loops < anim.loopCount)
      && (r.0.timer.Running? ==> r.0.timer.interval == anim.frames[r.0.index].duration * TICKS_PER_MS)
  {
    if !w.timer.Running? || !w.initialized || w.image.None? then (w, Done)
    else
      var anim := w.image.value;
      var next := w.index + 1;
      var wrapped := next >= |anim.frames|;
      var w1 := w.(index := if wrapped then 0 else next, loops := if wrapped then w.loops + 1 else w.loops);
      if !(0 <= w1.index < |anim.frames|) then (w1, Raised(BoundsException))
      else
        var frame := anim.frames[w1.index];
        var timer :=
          if anim.loopCount == 0 || w1.loops < anim.loopCount
          then SetInterval(w1.timer, frame.duration * TICKS_PER_MS)
          else StopTimer(w1.timer);
        var control := if w1.control.Some? then Some(w1.control.value.(source := Some(frame.bitmap))) else None;
        (w1.(timer := timer, control := control), Done)
  }

  /** `k` ticks in a row. */
  function Ticks(w: WebP, k: nat): WebP
  {
    if k == 0 then w else OnTick(Ticks(w, k - 1)).0
  }

  /** The state right after a successful `Start` on an animation with `n`
      frames that loops `l` times. */
  predicate JustStarted(w: WebP, n: nat, l: int)
  {
    && w.initialized && w.animating && w.timer == Running(0)
    && w.index == 0 && w.loops == 0
    && w.image.Some? && |w.image.value.frames| == n && n > 0 && w.image.value.loopCount == l
  }

  /** `k` ticks after the start `w`: counted as whole loops times `n` plus
      the index, with the animation as the start left it. */
  predicate AfterTicks(s: WebP, w: WebP, n: nat, k: nat)
  {
    && s.loops * n + s.index == k && 0 <= s.index < n && s.loops >= 0
    && s.animating && s.initialized && s.image == w.image
  }

  /** A tick on a running timer with frames advances the count by one. */
  lemma TickAdvances(p: WebP)
    requires p.timer.Running? && p.initialized && p.image.Some? && 0 <= p.index < |p.image.value.frames|
    ensures var s := OnTick(p);
      && s.1 == Done
      && s.0.loops * |p.image.value.frames| + s.0.index == p.loops * |p.image.value.frames| + p.index + 1
      && s.0.loops >= p.loops && 0 <= s.0.index < |p.image.value.frames|
      && s.0.animating == p.animating && s.0.initialized && s.0.image == p.image
      && (s.0.timer.Running? <==> p.image.value.loopCount == 0 || s.0.loops < p.image.value.loopCount)
  {
    var n := |p.image.value.frames|;
    var s := OnTick(p).0;
    if p.index + 1 >= n {
      assert s.loops * n == p.loops * n + n;
    }
  }

  /** The base of `TicksClosedForm`. */
  lemma StartCounted(w: WebP, n: nat, l: nat)
    requires JustStarted(w, n, l) && l > 0
    ensures AfterTicks(w, w, n, 0) && 0 < l * n
  {
    assert l * n >= n by {
      assert (l - 1) * n >= 0;
    }
  }

  /** The induction step of `TicksClosedForm`. */
  lemma CountedStep(p: WebP, w: WebP, n: nat, l: nat, k: nat)
    requires k > 0 && AfterTicks(p, w, n, k - 1) && p.timer.Running?
    requires w.image.Some? && |w.image.value.frames| == n && w.image.value.loopCount == l && l > 0
    ensures AfterTicks(OnTick(p).0, w, n, k)
    ensures OnTick(p).0.timer.Running? <==> k < l * n
  {
    TickAdvances(p);
    var s := OnTick(p).0;
    LoopsBelowLimit(s.loops, s.index, n, l, k);
  }

  /** With `n` frames and a loop count `l` > 0, after `k <= l * n` ticks the
      index is `k % n` after `k / n` loops, and the timer runs exactly while
      `k < l * n`, as in the GIF decoder. */
  lemma {:induction false} TicksClosedForm(w: WebP, n: nat, l: nat, k: nat)
    requires JustStarted(w, n, l) && l > 0 && k <= l * n
    ensures AfterTicks(Ticks(w, k), w, n, k)
    ensures Ticks(w, k).timer.Running? <==> k < l * n
  {
    if k == 0 {
      StartCounted(w, n, l);
    } else {
      TicksClosedForm(w, n, l, k - 1);
      CountedStep(Ticks(w, k - 1), w, n, l, k);
    }
  }

  /** Unlike the GIF decoder, which stops on its last frame, this decoder
      advances before showing, so the tick that stops the timer shows frame
      0 again. */
  lemma EndsOnFirstFrame(w: WebP, n: nat, l: nat)
    requires JustStarted(w, n, l) && l > 0 && w.control.Some?
    ensures var s := Ticks(w, l * n);
      && !s.timer.Running? && s.animating && s.index == 0 && s.loops == l
      && s.control.Some? && s.control.value.source == Some(w.image.value.frames[0].bitmap)
  {
    StartCounted(w, n, l);
    TicksClosedForm(w, n, l, l * n - 1);
    TicksClosedForm(w, n, l, l * n);
    var p := Ticks(w, l * n - 1);
    TickAdvances(p);
    var s := OnTick(p).0;
    assert s == Ticks(w, l * n);
    CountAtLimit(s.loops, s.index, n, l);
    assert p.control.Some? by {
      ControlKept(w, l * n - 1);
    }
  }

  /** Ticks never forget the control. */
  lemma {:induction false} ControlKept(w: WebP, k: nat)
    requires w.control.Some?
    ensures Ticks(w, k).control.Some?
  {
    if k > 0 {
      ControlKept(w, k - 1);
    }
  }

  /** A tick shows its frame even when the control's `Tag` names another
      image: only the first bitmap is checked against the `Tag`. */
  lemma TickIgnoresTag(w: WebP)
    requires w.timer.Running? && w.initialized && w.image.Some? && w.control.Some?
    requires 0 <= w.index < |w.image.value.frames|
    ensures var s := OnTick(w).0;
      s.control.Some? && s.control.value.tag == w.control.value.tag
      && s.control.value.source == Some(w.image.value.frames[s.index].bitmap)
  {
    TickAdvances(w);
  }
}
