/** `ImageLib.Gif.GifDecoder`: GIF header test, the rules that turn the
    platform's GIF metadata into delays, disposal flags and loop counts, and
    the timer-driven animation state machine.

    Drawing is not modelled: a tick records which frame it drew and whether
    it cleared the accumulation surface first. Pixel decoding is a parameter. */
module GifDecoder {
  import opened Base
  import opened Signatures
  import opened DispatchTimer

  /** `HeaderSize`. */
  const HEADER_SIZE: int := 6

  /** `IsSupportedFileFormat(header)`: a non-null header that starts with
      either GIF signature. */
  function IsSupportedFileFormat(header: Option<Bytes>): (r: bool)
    ensures r <==> header.Some? && GifSignature(header.value)
  {
    header.Some? && IsGifHeader(header.value)
  }

  // ---------------------------------------------------------------------
  // Metadata rules

  /** A metadata value as the platform reports it: its type and value. */
  type uint16 = x: int | 0 <= x < 0x1_0000

  datatype Prop = UInt8Array(bytes: Bytes) | UInt16(u16: uint16) | UInt8(u8: byte) | OtherType

  /** The metadata a query returned; `None` when the query itself failed. */
  type Props = Option<map<string, Prop>>

  const APPLICATION_PROPERTY: string := "/appext/application"
  const DATA_PROPERTY: string := "/appext/data"
  const DELAY_PROPERTY: string := "/grctlext/Delay"
  const DISPOSAL_PROPERTY: string := "/grctlext/Disposal"

  /** The ASCII bytes of "NETSCAPE2.0" and "ANIMEXTS1.0", the two application
      identifiers of the looping extension (GIF89a section 26, Application
      Extension). Decoding bytes as UTF-8 gives one of these strings exactly
      when the bytes are these. */
  const NETSCAPE: Bytes := [0x4E, 0x45, 0x54, 0x53, 0x43, 0x41, 0x50, 0x45, 0x32, 0x2E, 0x30]
  const ANIMEXTS: Bytes := [0x41, 0x4E, 0x49, 0x4D, 0x45, 0x58, 0x54, 0x53, 0x31, 0x2E, 0x30]

  datatype ImageProps = ImageProps(width: int, height: int, isAnimated: bool, loopCount: int)

  /** `data[2] | data[3] << 8` on bytes, the little-endian 16-bit loop
      count of the looping extension; the two bytes occupy disjoint bits, so
      the or is a sum. The result splits back into the same low and high
      byte. */
  function LoopCountField(lo: byte, hi: byte): (r: int)
    ensures 0 <= r < 0x1_0000
    ensures r % 256 == lo && r / 256 == hi
  {
    lo as int + 256 * hi as int
  }

  /** The looping data of a recognised application extension, if any:
      `(isAnimated, loopCount)`. A data block shorter than four bytes makes
      the indexing throw, which the caller swallows. */
  function LoopingOf(ext: map<string, Prop>): (r: Option<(bool, int)>)
    ensures r.Some? <==>
      && APPLICATION_PROPERTY in ext && ext[APPLICATION_PROPERTY].UInt8Array?
      && (ext[APPLICATION_PROPERTY].bytes == NETSCAPE || ext[APPLICATION_PROPERTY].bytes == ANIMEXTS)
      && DATA_PROPERTY in ext && ext[DATA_PROPERTY].UInt8Array? && |ext[DATA_PROPERTY].bytes| >= 4
    ensures r.Some? ==> var data := ext[DATA_PROPERTY].bytes;
      r.value == (data[1] == 1, data[2] as int + 256 * data[3] as int)
  {
    if APPLICATION_PROPERTY in ext && ext[APPLICATION_PROPERTY].UInt8Array?
      && (ext[APPLICATION_PROPERTY].bytes == NETSCAPE || ext[APPLICATION_PROPERTY].bytes == ANIMEXTS)
      && DATA_PROPERTY in ext && ext[DATA_PROPERTY].UInt8Array?
    then
      var data := ext[DATA_PROPERTY].bytes;
      if |data| < 4 then None else Some((data[1] == 1, LoopCountField(data[2], data[3])))
    else None
  }

  /** `RetrieveImagePropertiesAsync`: the logical screen size, and looping as
      the extension says; by default (no extension, or any failure reading
      it) the image is animated and loops forever (loop count 0). */
  function RetrieveImageProperties(width: int, height: int, ext: Props): (r: ImageProps)
    ensures r.width == width && r.height == height
    ensures 0 <= r.loopCount < 0x1_0000
    ensures (ext.None? || LoopingOf(ext.value).None?) ==> r.isAnimated && r.loopCount == 0
    ensures ext.Some? && LoopingOf(ext.value).Some? ==>
      r.isAnimated == (ext.value[DATA_PROPERTY].bytes[1] == 1)
      && r.loopCount == ext.value[DATA_PROPERTY].bytes[2] as int + 256 * ext.value[DATA_PROPERTY].bytes[3] as int
  {
    var looping := if ext.Some? then LoopingOf(ext.value) else None;
    match looping
    case None => ImageProps(width, height, true, 0)
    case Some((isAnimated, loopCount)) => ImageProps(width, height, isAnimated, loopCount)
  }

  /** The delay of a frame in milliseconds from the Graphic Control
      Extension's delay in hundredths of a second (GIF89a section 23): 3 or
      more is taken as given, 0 becomes 100 ms, and 1 or 2 keep the default
      of 30 ms, so no frame is shorter than 30 ms. */
  function DelayMs(hundredths: uint16): (r: int)
    ensures r >= 30
    ensures hundredths >= 3 ==> r == 10 * hundredths
    ensures hundredths == 0 ==> r == 100
    ensures 0 < hundredths < 3 ==> r == 30
  {
    var delay := 30;
    var delay := if hundredths >= 3 then hundredths * 10 else delay;
    if hundredths == 0 then 100 else delay
  }

  datatype FrameProps = FrameProps(index: nat, delayMs: int, shouldDispose: bool)

  /** `RetrieveFramePropertiesAsync`: a 16-bit delay sets the delay, and a
      disposal method of exactly 2 ("restore to background") requests that
      the surface be cleared before the next frame; methods 0, 1 and 3 do
      not. A failed query keeps the defaults: 30 ms and no disposal. */
  function RetrieveFrameProperties(index: nat, ext: Props): (r: FrameProps)
    ensures r.index == index && r.delayMs >= 30
    ensures r.shouldDispose <==>
      ext.Some? && DISPOSAL_PROPERTY in ext.value && ext.value[DISPOSAL_PROPERTY] == UInt8(2)
    ensures (ext.None? || DELAY_PROPERTY !in ext.value || !ext.value[DELAY_PROPERTY].UInt16?) ==> r.delayMs == 30
    ensures ext.Some? && DELAY_PROPERTY in ext.value && ext.value[DELAY_PROPERTY].UInt16? ==>
      r.delayMs == DelayMs(ext.value[DELAY_PROPERTY].u16)
  {
    match ext
    case None => FrameProps(index, 30, false)
    case Some(m) =>
      var delay :=
        if DELAY_PROPERTY in m && m[DELAY_PROPERTY].UInt16?
        then DelayMs(m[DELAY_PROPERTY].u16) else 30;
      var dispose := DISPOSAL_PROPERTY in m && m[DISPOSAL_PROPERTY].UInt8? && m[DISPOSAL_PROPERTY].u8 == 2;
      FrameProps(index, delay, dispose)
  }

  // ---------------------------------------------------------------------
  // Frames and pixel caching

  /** A frame: its properties, whether it was decoded, and its pixels. */
  datatype Frame = Frame(props: FrameProps, isDecode: bool, pixels: Option<Bytes>)

  /** `FrameProperties.DecodeAsync`: the first call decodes (`decoded` is
      what the platform gives) and caches; later calls return the cache. */
  function DecodeAsync(f: Frame, decoded: Bytes): (r: (Frame, Option<Bytes>))
    ensures r.0.isDecode && r.0.props == f.props
    ensures f.isDecode ==> r == (f, f.pixels)
    ensures !f.isDecode ==> r.1 == Some(decoded) && r.0.pixels == Some(decoded)
  {
    if f.isDecode then (f, f.pixels)
    else (f.(pixels := Some(decoded), isDecode := true), Some(decoded))
  }

  /** `FrameProperties.ReleasePixels`: drops the pixels but not the decoded
      flag. */
  function ReleasePixels(f: Frame): (r: Frame)
    ensures r.pixels.None? && r.isDecode == f.isDecode && r.props == f.props
  {
    f.(pixels := None)
  }

  /** After a release, decoding again returns null instead of decoding
      afresh, since the decoded flag is still set. */
  lemma ReleasedFrameDecodesToNull(f: Frame, first: Bytes, again: Bytes)
    ensures DecodeAsync(ReleasePixels(DecodeAsync(f, first).0), again).1.None?
  {
  }

  // ---------------------------------------------------------------------
  // Animation state machine

  /** What a tick drew: the frame, and whether the accumulation surface was
      cleared first. */
  datatype Draw = Draw(frame: nat, cleared: bool)

  datatype Gif = Gif(
    initialized: bool,
    animating: bool,
    hasCanvas: bool,
    index: int,
    loops: int,
    disposeRequested: bool,
    timer: Timer,
    props: ImageProps,
    frames: seq<Frame>,
    drawn: Option<Draw>)

  /** A new decoder: nothing initialized, no timer, no frames. */
  function New(): (g: Gif)
    ensures !g.initialized && !g.animating && !g.hasCanvas && g.timer == NoTimer && g.frames == []
  {
    Gif(false, false, false, 0, 0, false, NoTimer, ImageProps(0, 0, true, 0), [], None)
  }

  /** `InitializeAsync`, once the stream was copied and the metadata read:
      stores the properties and frames, creates the canvas and marks the
      decoder initialized. The frame index is not reset. */
  function InitializeAsync(g: Gif, props: ImageProps, frames: seq<FrameProps>): (r: Gif)
    ensures r.initialized && r.hasCanvas && r.props == props && |r.frames| == |frames|
    ensures forall i :: 0 <= i < |frames| ==> r.frames[i] == Frame(frames[i], false, None)
    ensures r.animating == g.animating && r.index == g.index && r.loops == g.loops && r.timer == g.timer
  {
    var fs := seq(|frames|, i requires 0 <= i < |frames| => Frame(frames[i], false, None));
    g.(initialized := true, hasCanvas := true, props := props, frames := fs)
  }

  /** `Start()`: only an initialized decoder that is not animating starts,
      from frame 0 with no completed loops, on a new timer with a zero
      interval. */
  function Start(g: Gif): (r: Gif)
    ensures !(g.initialized && !g.animating) ==> r == g
    ensures g.initialized && !g.animating ==>
      && r.animating && r.index == 0 && r.loops == 0 && !r.disposeRequested
      && r.timer == Running(0)
      && r == g.(animating := true, index := 0, loops := 0, disposeRequested := false, timer := Running(0))
  {
    if g.initialized && !g.animating then
      g.(index := 0, loops := 0, disposeRequested := false, timer := Running(0), animating := true)
    else g
  }

  /** `Stop()`: stops any timer and clears the animating flag. */
  function Stop(g: Gif): (r: Gif)
    ensures !r.animating && !r.timer.Running?
    ensures r == g.(animating := false, timer := r.timer)
  {
    g.(timer := StopTimer(g.timer), animating := false)
  }

  /** One timer tick (`AdvanceFrame`, whose exceptions the tick handler
      swallows): ignored when the timer is not running. An uninitialized
      decoder or one without frames does nothing, and an index outside the
      frame list makes the first access throw before anything changed.
      Otherwise the current frame is drawn, the index advances and wraps,
      counting a completed loop, and the timer is re-armed with the drawn
      frame's delay while the image is animated and loops remain, and
      stopped otherwise; `animating` is left as it was. `pixels` is what
      decoding the frame gives. */
  function Tick(g: Gif, pixels: Bytes): (r: Gif)
    ensures !g.timer.Running? || !g.initialized || |g.frames| == 0 ==> r == g
    ensures !(0 <= g.index < |g.frames|) ==> r == g
    ensures r.animating == g.animating && r.initialized == g.initialized && r.props == g.props
    ensures |r.frames| == |g.frames|
    ensures r != g ==>
      var n := |g.frames|;
      && 0 <= g.index < n
      && r.drawn == Some(Draw(g.index, g.disposeRequested || g.index == 0))
      && r.disposeRequested == g.frames[g.index].props.shouldDispose
      && (g.index + 1 < n ==> r.index == g.index + 1 && r.loops == g.loops)
      && (g.index + 1 >= n ==> r.index == 0 && r.loops == g.loops + 1)
      && (r.timer.Running? <==> g.props.isAnimated && (g.props.loopCount == 0 || r.loops < g.props.loopCount))
      && (r.timer.Running? ==> r.timer.interval == g.frames[g.index].props.delayMs * TICKS_PER_MS)
      && r.frames[g.index].isDecode
    ensures 0 <= g.index < |g.frames| ==> 0 <= r.index < |r.frames|
  {
    if !g.timer.Running? || !g.initialized || |g.frames| == 0 then g
    else if !(0 <= g.index < |g.frames|) then g
    else
      var frameIndex := g.index;
      var frame := g.frames[frameIndex];
      var disposeRequested := g.disposeRequested;
      var next := frameIndex + 1;
      var wrapped := next >= |g.frames|;
      var index := if wrapped then 0 else next;
      var loops := if wrapped then g.loops + 1 else g.loops;
      var rearm := g.props.isAnimated && (g.props.loopCount == 0 || loops < g.props.loopCount);
      var timer := if rearm then SetInterval(g.timer, frame.props.delayMs * TICKS_PER_MS) else StopTimer(g.timer);
      var decoded := DecodeAsync(frame, pixels).0;
      g.(index := index, loops := loops, disposeRequested := frame.props.shouldDispose, timer := timer,
         frames := g.frames[frameIndex := decoded],
         drawn := Some(Draw(frameIndex, disposeRequested || frameIndex == 0)))
  }

  /** `RecreateSurfaces()`: with a canvas, new surfaces are made and, if
      animating, `Start()` is called to restart, but `Start()` does nothing
      while animating; so the animation state never changes. Returns whether
      a surface was returned. */
  function RecreateSurfaces(g: Gif): (r: (Gif, bool))
    ensures r.1 <==> g.hasCanvas
    ensures r.0 == g
  {
    if g.hasCanvas then
      var g1 := if g.animating then Start(g) else g;
      (g1, true)
    else (g, false)
  }

  /** `Dispose()`: stops, uninitializes, drops the canvas, releases and
      clears the frames, and drops the timer. */
  function Dispose(g: Gif): (r: Gif)
    ensures !r.initialized && !r.animating && !r.hasCanvas && r.frames == [] && r.timer == NoTimer
    ensures r.index == g.index && r.loops == g.loops && r.props == g.props
  {
    var stopped := Stop(g);
    stopped.(initialized := false, hasCanvas := false, frames := [], timer := NoTimer)
  }

  /** After `Dispose`, neither `Start` nor a tick does anything. */
  lemma DisposedIsInert(g: Gif, pixels: Bytes)
    ensures Start(Dispose(g)) == Dispose(g)
    ensures Tick(Dispose(g), pixels) == Dispose(g)
    ensures Tick(Start(Dispose(g)), pixels) == Dispose(g)
  {
  }

  /** `k` ticks in a row, all decoding to `pixels`. */
  function Ticks(g: Gif, k: nat, pixels: Bytes): Gif
  {
    if k == 0 then g else Tick(Ticks(g, k - 1, pixels), pixels)
  }

  /** The state right after a successful `Start` of an animated image with
      `n` frames that loops `l` times. */
  predicate JustStarted(g: Gif, n: nat, l: nat)
  {
    && g.initialized && g.animating && g.timer == Running(0)
    && g.index == 0 && g.loops == 0
    && |g.frames| == n && n > 0
    && g.props.isAnimated && g.props.loopCount == l
  }

  /** A tick on a running timer with the index in range always advances:
      the count loops * n + index grows by one. */
  lemma TickAdvances(p: Gif, pixels: Bytes)
    requires p.timer.Running? && p.initialized && 0 <= p.index < |p.frames|
    ensures var s := Tick(p, pixels);
      && s.loops * |p.frames| + s.index == p.loops * |p.frames| + p.index + 1
      && s.loops >= p.loops && 0 <= s.index < |p.frames|
      && s.animating == p.animating && s.initialized && |s.frames| == |p.frames| && s.props == p.props
      && (s.timer.Running? <==> p.props.isAnimated && (p.props.loopCount == 0 || s.loops < p.props.loopCount))
  {
    var s := Tick(p, pixels);
    var n := |p.frames|;
    if p.index + 1 < n {
      assert s.index == p.index + 1 && s.loops == p.loops;
    } else {
      assert s.index == 0 && s.loops == p.loops + 1;
      assert s.loops * n == p.loops * n + n;
    }
  }

  /** `k` ticks after the start `g` with `n` frames: `k` counted as whole
      loops times `n` plus the index, with everything but the position as
      the start left it. */
  predicate AfterTicks(s: Gif, g: Gif, n: nat, k: nat)
  {
    && s.loops * n + s.index == k && 0 <= s.index < n && s.loops >= 0
    && s.animating && s.initialized && |s.frames| == n && s.props == g.props
  }

  /** A started GIF with `n` frames and a loop count `l` > 0: after `k <= l*n`
      ticks it has completed `k / n` loops and shows index `k % n` (stated as
      loops * n + index == k), and its timer runs exactly while `k < l * n`.
      So the timer stops on tick `l * n`, with `animating` still set. */
  lemma {:induction false} TicksClosedForm(g: Gif, n: nat, l: nat, k: nat, pixels: Bytes)
    requires JustStarted(g, n, l) && l > 0 && k <= l * n
    ensures AfterTicks(Ticks(g, k, pixels), g, n, k)
    ensures Ticks(g, k, pixels).timer.Running? <==> k < l * n
  {
    if k == 0 {
      StartCounted(g, n, l);
    } else {
      TicksClosedForm(g, n, l, k - 1, pixels);
      CountedStep(Ticks(g, k - 1, pixels), g, n, l, k, pixels);
    }
  }

  /** The base of `TicksClosedForm`: no ticks yet, and the timer runs. */
  lemma StartCounted(g: Gif, n: nat, l: nat)
    requires JustStarted(g, n, l) && l > 0
    ensures AfterTicks(g, g, n, 0) && 0 < l * n
  {
    assert l * n >= n by {
      assert (l - 1) * n >= 0;
    }
  }

  /** The induction step of `TicksClosedForm`. */
  lemma CountedStep(p: Gif, g: Gif, n: nat, l: nat, k: nat, pixels: Bytes)
    requires k > 0 && AfterTicks(p, g, n, k - 1) && p.timer.Running?
    requires g.props.isAnimated && g.props.loopCount == l && l > 0
    ensures AfterTicks(Tick(p, pixels), g, n, k)
    ensures Tick(p, pixels).timer.Running? <==> k < l * n
  {
    TickAdvances(p, pixels);
    var s := Tick(p, pixels);
    LoopsBelowLimit(s.loops, s.index, n, l, k);
  }

  /** The tick that stops the timer, tick `l * n`, draws the last frame; the
      decoder still reports itself animating. */
  lemma EndsOnLastFrame(g: Gif, n: nat, l: nat, pixels: Bytes)
    requires JustStarted(g, n, l) && l > 0
    ensures var s := Ticks(g, l * n, pixels);
      && s.drawn.Some? && s.drawn.value.frame == n - 1
      && !s.timer.Running? && s.animating && s.loops == l && s.index == 0
  {
    StartCounted(g, n, l);
    TicksClosedForm(g, n, l, l * n - 1, pixels);
    TicksClosedForm(g, n, l, l * n, pixels);
    var p := Ticks(g, l * n - 1, pixels);
    TickAdvances(p, pixels);
    var s := Tick(p, pixels);
    assert s == Ticks(g, l * n, pixels);
    CountAtLimit(s.loops, s.index, n, l);
  }

  /** Once the timer has stopped no tick arrives, so the state after `l * n`
      ticks is final. */
  lemma {:induction false} TicksStopAtLimit(g: Gif, n: nat, l: nat, extra: nat, pixels: Bytes)
    requires JustStarted(g, n, l) && l > 0
    ensures Ticks(g, l * n + extra, pixels) == Ticks(g, l * n, pixels)
  {
    if extra > 0 {
      TicksStopAtLimit(g, n, l, extra - 1, pixels);
      TicksClosedForm(g, n, l, l * n, pixels);
    }
  }

  /** With loop count 0 the animation never stops: after any number of ticks
      the timer still runs and the index cycles through the frames. */
  lemma {:induction false} LoopForever(g: Gif, n: nat, k: nat, pixels: Bytes)
    requires JustStarted(g, n, 0)
    ensures AfterTicks(Ticks(g, k, pixels), g, n, k)
    ensures Ticks(g, k, pixels).timer.Running?
  {
    if k > 0 {
      LoopForever(g, n, k - 1, pixels);
      TickAdvances(Ticks(g, k - 1, pixels), pixels);
    }
  }

  /** An image whose extension says it is not animated shows its first frame
      on the first tick and stops the timer there. */
  lemma StillImageStopsAfterFirstTick(g: Gif, n: nat, pixels: Bytes)
    requires g.initialized && g.animating && g.timer == Running(0) && g.index == 0 && g.loops == 0
    requires |g.frames| == n && n > 0 && !g.props.isAnimated
    ensures Tick(g, pixels).drawn == Some(Draw(0, true))
    ensures !Tick(g, pixels).timer.Running?
    ensures Tick(Tick(g, pixels), pixels) == Tick(g, pixels)
  {
  }
}
