/** `ImageLib.ImagePresenter`: loads a URI's stream, picks the first
    registered decoder whose format test accepts the stream's header, and
    shows the result in an `Image` control, as a still frame or through an
    `ImageAnimation`. Without a decoder the platform bitmap decodes it.

    Opening the stream (`LoadStreamAsync`), the chosen decoder's work and
    the platform bitmap are parameters: the stream's bytes or null, the
    frame list the decoder leaves in `Frames`, and the fallback bitmap. */
module ImagePresenter {
  import opened Base
  import opened ImagePackage
  import opened ImageControl
  import ImageHelper
  import ImageAnimation

  /** A decoder as the presenter sees it: how many header bytes it wants
      and its format test. */
  datatype Decoder = Decoder(headerSize: int, accepts: Bytes -> bool)

  /** The bitmap the platform decodes when no decoder claims the stream. */
  datatype Fallback = Fallback(bitmap: Ref, width: int, height: int)

  /** The current cancellation source (a token number, `None` for null),
      every token cancelled so far, the pixel size, and `Frames`. */
  datatype Presenter = Presenter(
    cts: Option<nat>,
    cancelled: set<nat>,
    width: int,
    height: int,
    frames: seq<ImageAnimation.ImageFrame>)

  /** A new presenter: no cancellation source and no frames. */
  function New(): (p: Presenter)
    ensures p.cts.None? && p.cancelled == {} && p.frames == []
  {
    Presenter(None, {}, 0, 0, [])
  }

  /** `decoders.Max(x => x.HeaderSize)`. */
  function MaxHeaderSize(ds: seq<Decoder>): (r: int)
    requires |ds| > 0
    ensures forall i :: 0 <= i < |ds| ==> ds[i].headerSize <= r
    ensures exists i :: 0 <= i < |ds| && ds[i].headerSize == r
  {
    if |ds| == 1 then ds[0].headerSize
    else
      var rest := MaxHeaderSize(ds[1..]);
      assert forall i :: 1 <= i < |ds| ==> ds[i] == ds[1..][i - 1];
      if ds[0].headerSize >= rest then ds[0].headerSize
      else
        var j :| 0 <= j < |ds[1..]| && ds[1..][j].headerSize == rest;
        assert ds[j + 1].headerSize == rest;
        rest
  }

  /** `decoders.FirstOrDefault(x => x.IsSupportedFileFormat(header))`, as an
      index: the first decoder that accepts, or none if none does. */
  function FirstAccepting(ds: seq<Decoder>, header: Bytes): (r: Option<nat>)
    ensures r.Some? ==> r.value < |ds| && ds[r.value].accepts(header)
    ensures r.Some? ==> forall j :: 0 <= j < r.value ==> !ds[j].accepts(header)
    ensures r.None? <==> forall j :: 0 <= j < |ds| ==> !ds[j].accepts(header)
  {
    if |ds| == 0 then None
    else if ds[0].accepts(header) then Some(0)
    else
      match FirstAccepting(ds[1..], header)
      case None =>
        assert forall j :: 1 <= j < |ds| ==> ds[j] == ds[1..][j - 1];
        None
      case Some(i) =>
        assert forall j :: 1 <= j <= i + 1 ==> ds[j] == ds[1..][j - 1];
        Some(i + 1)
  }

  /** Which decoder decodes the stream: with decoders registered and a
      positive largest header size, that many bytes are read from the start
      (zeros where the stream ends) and the first decoder accepting them
      wins; otherwise none. */
  function ChooseDecoder(ds: seq<Decoder>, stream: Bytes): (r: Option<nat>)
    ensures |ds| == 0 ==> r.None?
    ensures |ds| > 0 && MaxHeaderSize(ds) <= 0 ==> r.None?
    ensures |ds| > 0 && MaxHeaderSize(ds) > 0 ==>
      r == FirstAccepting(ds, ImageHelper.ReadHeader(stream, MaxHeaderSize(ds)))
    ensures r.Some? ==> r.value < |ds|
  {
    if |ds| == 0 then None
    else
      var size := MaxHeaderSize(ds);
      if size <= 0 then None
      else FirstAccepting(ds, ImageHelper.ReadHeader(stream, size))
  }

  /** Cancels the current source, if any, and installs a new one. */
  function Renew(p: Presenter, token: nat): (r: Presenter)
    ensures r.cts == Some(token)
    ensures r.cancelled == p.cancelled + (if p.cts.Some? then {p.cts.value} else {})
    ensures r.width == p.width && r.height == p.height && r.frames == p.frames
  {
    var cancelled := if p.cts.Some? then p.cancelled + {p.cts.value} else p.cancelled;
    p.(cts := Some(token), cancelled := cancelled)
  }

  /** `BuildAsync(uri, image, animation, isAutoPlay)`, with `token` the new
      cancellation source, `stream` what opening the URI gives (`None` for
      null), `ds` the available decoders, `decoded` the frames the chosen
      decoder leaves, and `fallback` the platform bitmap. Results: the
      presenter, the control and the animation. */
  function BuildAsync(
    p: Presenter, token: nat, uri: Option<string>, image: Image, animation: ImageAnimation.Animation,
    autoPlay: bool, stream: Option<Bytes>, ds: seq<Decoder>,
    decoded: seq<ImageAnimation.ImageFrame>, fallback: Fallback)
    : (r: (Presenter, Image, ImageAnimation.Animation))
    ensures r.0.cts == Some(token) && r.0.cancelled == Renew(p, token).cancelled
    ensures uri.None? || stream.None? ==> r == (Renew(p, token), image, animation)
    ensures uri.Some? && stream.Some? && ChooseDecoder(ds, stream.value).None? ==>
      && r.0.width == fallback.width && r.0.height == fallback.height && r.0.frames == p.frames
      && r.1 == image.(source := Some(fallback.bitmap)) && r.2 == animation
    ensures uri.Some? && stream.Some? && ChooseDecoder(ds, stream.value).Some? ==>
      && r.0.frames == decoded && r.0.width == p.width && r.0.height == p.height
      && (|decoded| == 0 ==> r.1 == image && r.2 == animation)
      && (|decoded| == 1 ==> r.1 == image.(source := Some(decoded[0].bitmap)) && r.2 == animation)
      && (|decoded| > 1 ==>
            && r.1 == image
            && r.2.children == [ImageAnimation.KeyFrameAnimation(image, ImageAnimation.KeyFramesOf(decoded))]
            && (r.2.state == ImageAnimation.Playing <==> autoPlay))
  {
    var p1 := Renew(p, token);
    if uri.None? || stream.None? then (p1, image, animation)
    else
      match ChooseDecoder(ds, stream.value)
      case None =>
        (p1.(width := fallback.width, height := fallback.height), image.(source := Some(fallback.bitmap)), animation)
      case Some(_) =>
        var p2 := p1.(frames := decoded);
        if |decoded| > 1 then
          var made := ImageAnimation.SetAnimation(animation, image, Some(decoded), AsWritten).0;
          (p2, image, if autoPlay then ImageAnimation.Begin(made) else made)
        else if |decoded| == 1 then (p2, image.(source := Some(decoded[0].bitmap)), animation)
        else (p2, image, animation)
  }

  /** `Clear()`: cancels and drops the source, zeroes the size and empties
      `Frames`. */
  function Clear(p: Presenter): (r: Presenter)
    ensures r.cts.None? && r.width == 0 && r.height == 0 && r.frames == []
    ensures r.cancelled == p.cancelled + (if p.cts.Some? then {p.cts.value} else {})
  {
    var cancelled := if p.cts.Some? then p.cancelled + {p.cts.value} else p.cancelled;
    Presenter(None, cancelled, 0, 0, [])
  }

  /** Tokens are handed out fresh: the current one, if any, is not
      cancelled. */
  predicate Live(p: Presenter)
  {
    p.cts.Some? ==> p.cts.value !in p.cancelled
  }

  /** Each build cancels the build before it: with a fresh token, the new
      one is the only live token, and every earlier token is cancelled. */
  lemma BuildCancelsPrevious(
    p: Presenter, token: nat, uri: Option<string>, image: Image, animation: ImageAnimation.Animation,
    autoPlay: bool, stream: Option<Bytes>, ds: seq<Decoder>,
    decoded: seq<ImageAnimation.ImageFrame>, fallback: Fallback)
    requires Live(p) && token !in p.cancelled && p.cts != Some(token)
    ensures var q := BuildAsync(p, token, uri, image, animation, autoPlay, stream, ds, decoded, fallback).0;
      && Live(q)
      && (p.cts.Some? ==> p.cts.value in q.cancelled)
      && p.cancelled <= q.cancelled
  {
  }

  /** Clearing after a build leaves nothing live and cancels the build. */
  lemma ClearCancelsBuild(
    p: Presenter, token: nat, uri: Option<string>, image: Image, animation: ImageAnimation.Animation,
    autoPlay: bool, stream: Option<Bytes>, ds: seq<Decoder>,
    decoded: seq<ImageAnimation.ImageFrame>, fallback: Fallback)
    ensures var q := Clear(BuildAsync(p, token, uri, image, animation, autoPlay, stream, ds, decoded, fallback).0);
      && token in q.cancelled && q.cts.None? && Live(q) && q.frames == []
  {
  }

  /** Only the header decides the decoder: streams that agree on their
      first `MaxHeaderSize` bytes go to the same decoder. */
  lemma SameHeaderSameDecoder(ds: seq<Decoder>, a: Bytes, b: Bytes)
    requires |ds| > 0 && MaxHeaderSize(ds) > 0
    requires |a| >= MaxHeaderSize(ds) && |b| >= MaxHeaderSize(ds)
    requires a[..MaxHeaderSize(ds)] == b[..MaxHeaderSize(ds)]
    ensures ChooseDecoder(ds, a) == ChooseDecoder(ds, b)
  {
    var n := MaxHeaderSize(ds);
    assert ImageHelper.ReadHeader(a, n) == ImageHelper.ReadHeader(b, n) by {
      assert forall i :: 0 <= i < n ==> a[i] == a[..n][i] && b[i] == b[..n][i];
    }
  }

  /** With no decoder registered, every stream falls back to the platform
      bitmap, whatever its header. */
  lemma NoDecodersFallBack(
    p: Presenter, token: nat, uri: string, image: Image, animation: ImageAnimation.Animation,
    autoPlay: bool, stream: Bytes, decoded: seq<ImageAnimation.ImageFrame>, fallback: Fallback)
    ensures var r := BuildAsync(p, token, Some(uri), image, animation, autoPlay, Some(stream), [], decoded, fallback);
      r.1.source == Some(fallback.bitmap) && r.0.width == fallback.width && r.2 == animation
  {
  }
}
