/** The parts of a XAML `Image` control the decoders touch: its `Tag`, read
    as a URI (`None` when it is null or not a URI), and its current source. */
module ImageControl {
  import opened Base
  import opened ImagePackage

  datatype Image = Image(tag: Option<string>, source: Option<Ref>)

  /** The check every decoder makes on the UI thread before showing what it
      decoded: the source is replaced only if the control's `Tag` still names
      the URI this load was for, so a load that a newer one superseded never
      overwrites the newer image. URI equality is by value, and two nulls are
      equal. */
  function ShowIfCurrent(image: Image, uriSource: Option<string>, source: Option<Ref>): (r: Image)
    ensures r.tag == image.tag
    ensures image.tag == uriSource ==> r.source == source
    ensures image.tag != uriSource ==> r == image
  {
    if image.tag == uriSource then image.(source := source) else image
  }

  /** Of two loads into the same control, only the one its `Tag` names is
      shown, whatever order they finish in. */
  lemma SupersededLoadNotShown(image: Image, older: string, newer: string, a: Option<Ref>, b: Option<Ref>)
    requires older != newer && image.tag == Some(newer)
    ensures ShowIfCurrent(ShowIfCurrent(image, Some(older), a), Some(newer), b).source == b
    ensures ShowIfCurrent(ShowIfCurrent(image, Some(newer), b), Some(older), a).source == b
  {
  }
}

/** The platform-bitmap decoder behind both generations' `DefaultDecoder`:
    it keeps the `BitmapImage` it created, shows it if the load is still
    current, and plays or stops it. Both generations write these members the
    same way; what differs is in `LegacyDefaultDecoder` and
    `CoreDefaultDecoder`. */
module BitmapImageDecoder {
  import opened Base
  import opened ImagePackage
  import opened ImageControl

  /** `HeaderSize`. */
  const HEADER_SIZE: int := 33

  /** The platform bitmap: whether it is animated and playing, and its size. */
  datatype Bitmap = Bitmap(id: nat, animated: bool, playing: bool, width: int, height: int)

  /** The decoder object and the bitmap it holds (`None` for null). */
  datatype Decoder = Decoder(id: nat, bitmap: Option<Bitmap>)

  /** `InitializeAsync`: a new bitmap (`created`, already holding the decoded
      image) is shown if the load is still current, and packaged with its
      dimensions. */
  function InitializeAsync(d: Decoder, image: Image, uriSource: Option<string>, created: Bitmap): (r: (Decoder, Image, Package))
    ensures r.0 == d.(bitmap := Some(created))
    ensures r.1 == ShowIfCurrent(image, uriSource, Some(Ref(created.id)))
    ensures r.2 == ImagePackage.New(Some(Ref(d.id)), Some(Ref(created.id)), created.width, created.height)
  {
    (d.(bitmap := Some(created)), ShowIfCurrent(image, uriSource, Some(Ref(created.id))),
     ImagePackage.New(Some(Ref(d.id)), Some(Ref(created.id)), created.width, created.height))
  }

  /** `RecreateSurfaces()`: there are no surfaces to recreate. */
  function RecreateSurfaces(d: Decoder): (r: Option<Ref>)
    ensures r.None?
  {
    None
  }

  /** `Start()` and `Stop()`: play or stop the bitmap, but only when the
      platform supports animated bitmaps; with no bitmap the call
      dereferences null. */
  function SetPlaying(d: Decoder, platformNewApi: bool, playing: bool): (r: Result<Decoder>)
    ensures !platformNewApi ==> r == Ok(d)
    ensures platformNewApi && d.bitmap.None? ==> r == Throws(NullReferenceException)
    ensures platformNewApi && d.bitmap.Some? ==> r == Ok(d.(bitmap := Some(d.bitmap.value.(playing := playing))))
  {
    if !platformNewApi then Ok(d)
    else if d.bitmap.None? then Throws(NullReferenceException)
    else Ok(d.(bitmap := Some(d.bitmap.value.(playing := playing))))
  }

  /** After `InitializeAsync`, `Start` and `Stop` cannot fail, and stopping
      undoes starting. */
  lemma StartStopAfterInitialize(d: Decoder, image: Image, uriSource: Option<string>, created: Bitmap, platformNewApi: bool)
    ensures var ready := InitializeAsync(d, image, uriSource, created).0;
      && SetPlaying(ready, platformNewApi, true).Ok?
      && SetPlaying(SetPlaying(ready, platformNewApi, true).value, platformNewApi, created.playing) == Ok(ready)
  {
  }
}

/** `ImageLib.IO.DefaultDecoder`: the fallback decoder of the first library
    generation, built on the platform bitmap. It claims GIF headers with top
    priority when the platform can animate them, and otherwise takes
    everything at priority 0. Its `Dispose` does nothing. */
module LegacyDefaultDecoder {
  import opened Base
  import opened Signatures
  import BitmapImageDecoder

  /** The shared bitmap decoder and the `_isGifFormat` field, which
      `GetPriority` writes and nothing reads. */
  datatype Decoder = Decoder(base: BitmapImageDecoder.Decoder, isGifFormat: bool)

  /** `GetPriority(header)`: `platformNewApi` is whether the platform bitmap
      can animate, `configNewApi` the configuration's `NewApiSupported`. The
      header's GIF-ness is recorded in the decoder either way. */
  function GetPriority(d: Decoder, header: Option<Bytes>, platformNewApi: bool, configNewApi: bool): (r: (Decoder, int))
    ensures r.0 == d.(isGifFormat := r.0.isGifFormat)
    ensures r.0.isGifFormat <==> header.Some? && GifSignature(header.value)
    ensures r.1 == INT_MAX <==> r.0.isGifFormat && platformNewApi && configNewApi
    ensures r.1 == 0 || r.1 == INT_MAX
  {
    var isGif := header.Some? && IsGifHeader(header.value);
    (d.(isGifFormat := isGif), if isGif && platformNewApi && configNewApi then INT_MAX else 0)
  }

  /** Priority is never the negative "unsupported" score: this decoder takes
      any image no other decoder claims. */
  lemma PriorityNeverNegative(d: Decoder, header: Option<Bytes>, platformNewApi: bool, configNewApi: bool)
    ensures GetPriority(d, header, platformNewApi, configNewApi).1 >= 0
  {
  }
}

/** `ImageLib.DefaultDecoder` of the second generation: the same decoder
    over a platform buffer, with a disposal that stops a playing animation. */
module CoreDefaultDecoder {
  import opened Base
  import opened Signatures
  import ImageFormat
  import opened BitmapImageDecoder

  /** `GetPriority(headerBuffer)`: a null buffer scores 0; otherwise the GIF
      test reads six bytes (raising on a shorter buffer), and a GIF scores
      `int.MaxValue` when both new-API flags hold, anything else 0. */
  function GetPriority(header: Option<Bytes>, platformNewApi: bool, configNewApi: bool): (r: Result<int>)
    ensures header.None? ==> r == Ok(0)
    ensures header.Some? && |header.value| < 6 ==> r == Throws(BoundsException)
    ensures header.Some? && |header.value| >= 6 ==>
      r.Ok? && (r.value == INT_MAX <==> GifSignature(header.value) && platformNewApi && configNewApi)
    ensures r.Ok? ==> r.value == 0 || r.value == INT_MAX
  {
    match header
    case None => Ok(0)
    case Some(buffer) =>
      match ImageFormat.IsGif(buffer)
      case Throws(e) => Throws(e)
      case Ok(isGifFormat) => Ok(if isGifFormat && platformNewApi && configNewApi then INT_MAX else 0)
  }

  /** `Dispose()`: stops the bitmap if the platform can animate and it is an
      animated bitmap that is playing, then drops the reference. The second
      result is the bitmap as it was left. */
  function Dispose(d: Decoder, platformNewApi: bool): (r: (Decoder, Option<Bitmap>))
    ensures r.0 == d.(bitmap := None)
    ensures d.bitmap.None? <==> r.1.None?
    ensures d.bitmap.Some? ==> r.1.value == d.bitmap.value.(playing := r.1.value.playing)
    ensures d.bitmap.Some? ==>
      (r.1.value.playing <==> d.bitmap.value.playing && !(platformNewApi && d.bitmap.value.animated))
  {
    var left :=
      match d.bitmap
      case None => None
      case Some(b) =>
        if platformNewApi && b.animated && b.playing then Some(b.(playing := false)) else Some(b);
    (d.(bitmap := None), left)
  }

  /** Once disposed, starting the decoder fails on a platform that can
      animate and does nothing on one that cannot. */
  lemma StartAfterDispose(d: Decoder, platformNewApi: bool)
    ensures var disposed := Dispose(d, platformNewApi).0;
      SetPlaying(disposed, platformNewApi, true) ==
        if platformNewApi then Throws(NullReferenceException) else Ok(disposed)
  {
  }
}

/** `ImageLib.Webp.WebpDecoder`: the managed WebP decoder. It holds no state,
    so `Start`, `Stop` and `Dispose` have nothing to change. */
module ManagedWebpDecoder {
  import opened Base
  import opened Signatures
  import opened ImagePackage
  import opened ImageControl

  /** `HeaderSize`. */
  const HEADER_SIZE: int := 12

  /** `Priority`. */
  const PRIORITY: int := 0

  /** `IsSupportedFileFormat(header)`: null and short headers are refused;
      otherwise "RIFF" at 0 and "WEBP" at 8. */
  function IsSupportedFileFormat(header: Option<Bytes>): (r: bool)
    ensures r <==> header.Some? && WebPSignature(header.value)
    ensures header.Some? && |header.value| < HEADER_SIZE ==> !r
  {
    header.Some? && IsWebPHeader(header.value)
  }

  /** `InitializeAsync`: `info` is what the codec reports for the bytes, the
      dimensions or failure. On success the new bitmap becomes the control's
      source at once, without the `Tag` check the other decoders make; on
      failure no bitmap is created, and reading its dimensions for the
      package dereferences null. */
  function InitializeAsync(self: Ref, image: Image, info: Option<(int, int)>, bitmap: Ref): (r: (Image, Result<Package>))
    ensures info.None? <==> r.1 == Throws(NullReferenceException)
    ensures info.None? ==> r.0 == image
    ensures info.Some? ==> r.0 == image.(source := Some(bitmap))
    ensures info.Some? ==> r.1 == Ok(ImagePackage.New(Some(self), Some(bitmap), info.value.0, info.value.1))
  {
    match info
    case None => (image, Throws(NullReferenceException))
    case Some((width, height)) => (image.(source := Some(bitmap)), Ok(ImagePackage.New(Some(self), Some(bitmap), width, height)))
  }

  /** Unlike `ShowIfCurrent`, a WebP load that a newer load superseded still
      replaces the control's source. */
  lemma SupersededWebPLoadShown(self: Ref, image: Image, older: string, info: (int, int), bitmap: Ref)
    requires image.tag.Some? && image.tag != Some(older)
    ensures InitializeAsync(self, image, Some(info), bitmap).0.source == Some(bitmap)
    ensures ShowIfCurrent(image, Some(older), Some(bitmap)) == image
  {
  }

  /** `RecreateSurfaces()`: always null. */
  function RecreateSurfaces(): (r: Option<Ref>)
    ensures r.None?
  {
    None
  }
}
