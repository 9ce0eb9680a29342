/** The two image signatures the library recognises, as the formats define
    them, and the header test every GIF helper implements.

    A GIF stream starts with the Header block of section 17 of the GIF89a
    specification: the three bytes "GIF" followed by the version "87a" or
    "89a". A WebP file starts with the RIFF header of section 2.4 of
    RFC 9649: "RIFF", a four-byte little-endian size, then "WEBP". */
module Signatures {
  import opened Base

  /** "GIF87a". */
  const GIF87A: Bytes := [0x47, 0x49, 0x46, 0x38, 0x37, 0x61]
  /** "GIF89a". */
  const GIF89A: Bytes := [0x47, 0x49, 0x46, 0x38, 0x39, 0x61]
  /** "RIFF". */
  const RIFF: Bytes := [0x52, 0x49, 0x46, 0x46]
  /** "WEBP". */
  const WEBP: Bytes := [0x57, 0x45, 0x42, 0x50]

  /** The buffer starts with a GIF header of either version. */
  predicate GifSignature(b: Bytes)
  {
    |b| >= 6 && (b[..6] == GIF87A || b[..6] == GIF89A)
  }

  /** The buffer starts with a RIFF header whose form type is WEBP; the size
      field in bytes 4-7 is not looked at. */
  predicate WebPSignature(b: Bytes)
  {
    |b| >= 12 && b[..4] == RIFF && b[8..12] == WEBP
  }

  /** `GifHelper.IsGif(byte[])`, and the same code in both `ImageHelper`
      classes: false below six bytes, otherwise a byte-by-byte comparison
      that allows '7' or '9' in the version. */
  function IsGifHeader(header: Bytes): (r: bool)
    ensures r <==> GifSignature(header)
  {
    if |header| >= 6 then
      var r :=
        header[0] == 0x47 && header[1] == 0x49 && header[2] == 0x46 && header[3] == 0x38
        && (header[4] == 0x39 || header[4] == 0x37) && header[5] == 0x61;
      assert r ==> header[..6] == [header[0], header[1], header[2], header[3], header[4], header[5]];
      r
    else false
  }

  /** The comparison of `WebpDecoder.IsSupportedFileFormat` and
      `ImageFormat.IsWebP` on a header of at least 12 bytes. */
  function IsWebPHeader(header: Bytes): (r: bool)
    ensures r <==> WebPSignature(header)
  {
    if |header| >= 12 then
      var r :=
        header[0] == 0x52 && header[1] == 0x49 && header[2] == 0x46 && header[3] == 0x46
        && header[8] == 0x57 && header[9] == 0x45 && header[10] == 0x42 && header[11] == 0x50;
      assert r ==> header[..4] == [header[0], header[1], header[2], header[3]];
      assert r ==> header[8..12] == [header[8], header[9], header[10], header[11]];
      assert forall i :: 0 <= i < 4 ==> header[..4][i] == header[i] && header[8..12][i] == header[8 + i];
      r
    else false
  }

  /** Both versions are accepted, whatever follows the header. */
  lemma BothGifVersionsAccepted(rest: Bytes)
    ensures IsGifHeader(GIF87A + rest) && IsGifHeader(GIF89A + rest)
  {
    assert (GIF87A + rest)[..6] == GIF87A;
    assert (GIF89A + rest)[..6] == GIF89A;
  }

  /** Only the first six bytes decide the GIF test, and only bytes 0-3 and
      8-11 the WebP test. */
  lemma PrefixDecides(a: Bytes, b: Bytes)
    ensures |a| >= 6 && |b| >= 6 && a[..6] == b[..6] ==> (IsGifHeader(a) <==> IsGifHeader(b))
    ensures |a| >= 12 && |b| >= 12 && a[..4] == b[..4] && a[8..12] == b[8..12] ==>
      (IsWebPHeader(a) <==> IsWebPHeader(b))
  {
  }

  /** No buffer is both a GIF and a WebP: byte 0 is 'G' in one and 'R' in
      the other. */
  lemma SignaturesExclusive(b: Bytes)
    ensures !(IsGifHeader(b) && IsWebPHeader(b))
  {
    assert IsGifHeader(b) ==> b[0] == b[..6][0] == 0x47;
    assert IsWebPHeader(b) ==> b[0] == b[..4][0] == 0x52;
  }
}

/** `ImageLib.Support.ImageFormat`: the tests on a platform buffer. Each reads
    a fixed-size prefix through a data reader, which raises when the buffer
    is shorter than that prefix; the length checks after the read are on the
    fixed-size array and always hold. */
module ImageFormat {
  import opened Base
  import opened Signatures

  /** `DataReader.ReadBytes` into a new array of `n` bytes. */
  function ReadPrefix(buffer: Bytes, n: nat): (r: Result<Bytes>)
    ensures r.Throws? <==> |buffer| < n
    ensures r.Throws? ==> r.error == BoundsException
    ensures r.Ok? ==> r.value == buffer[..n]
  {
    if |buffer| < n then Throws(BoundsException) else Ok(buffer[..n])
  }

  /** `ImageFormat.IsGif(buffer)`. */
  function IsGif(buffer: Bytes): (r: Result<bool>)
    ensures r.Throws? <==> |buffer| < 6
    ensures r.Throws? ==> r.error == BoundsException
    ensures r.Ok? ==> (r.value <==> GifSignature(buffer))
  {
    match ReadPrefix(buffer, 6)
    case Throws(e) => Throws(e)
    case Ok(headerBytes) =>
      assert headerBytes[..6] == buffer[..6];
      Ok(IsGifHeader(headerBytes))
  }

  /** `ImageFormat.IsWebP(buffer)`. */
  function IsWebP(buffer: Bytes): (r: Result<bool>)
    ensures r.Throws? <==> |buffer| < 12
    ensures r.Throws? ==> r.error == BoundsException
    ensures r.Ok? ==> (r.value <==> WebPSignature(buffer))
  {
    match ReadPrefix(buffer, 12)
    case Throws(e) => Throws(e)
    case Ok(headerBytes) =>
      assert headerBytes[..4] == buffer[..4] && headerBytes[8..12] == buffer[8..12];
      Ok(IsWebPHeader(headerBytes))
  }

  /** Buffers that share their six-byte prefix get the same GIF answer, and
      buffers that share their twelve-byte prefix the same WebP answer. */
  lemma SharedPrefixSameAnswer(a: Bytes, b: Bytes)
    ensures |a| >= 6 && |b| >= 6 && a[..6] == b[..6] ==> IsGif(a) == IsGif(b)
    ensures |a| >= 12 && |b| >= 12 && a[..12] == b[..12] ==> IsWebP(a) == IsWebP(b)
  {
    if |a| >= 12 && |b| >= 12 && a[..12] == b[..12] {
      assert a[..4] == a[..12][..4] && b[..4] == b[..12][..4];
      assert a[8..12] == a[..12][8..12] && b[8..12] == b[..12][8..12];
    }
  }
}

/** The two `ImageHelper` classes: the GIF test on a random-access stream,
    and the file name `Save` gives a downloaded image. */
module ImageHelper {
  import opened Base
  import opened Signatures

  /** A random-access stream: its contents and read position. */
  datatype Stream = Stream(data: Bytes, position: nat)

  /** Seek to 0 and `Read(header, 0, n)` into a zeroed array of `n` bytes:
      the bytes the stream holds, and zeros where it ran out. */
  function ReadHeader(data: Bytes, n: nat): (r: Bytes)
    ensures |r| == n
    ensures forall i :: 0 <= i < n ==> r[i] == if i < |data| then data[i] else 0
  {
    if n <= |data| then data[..n] else data + seq(n - |data|, _ => 0)
  }

  /** `IsGif(stream)`: tests the first six bytes and leaves the stream at
      position 0. A stream shorter than six bytes is not a GIF, because the
      missing bytes read as zero. */
  function IsGifStream(s: Stream): (r: (Stream, bool))
    ensures r.0 == s.(position := 0)
    ensures r.1 <==> GifSignature(s.data)
  {
    var header := ReadHeader(s.data, 6);
    assert |s.data| >= 6 ==> header[..6] == s.data[..6];
    assert |s.data| < 6 ==> header[5] == 0;
    (s.(position := 0), IsGifHeader(header))
  }

  /** Decimal digits of a non-negative number. */
  function Digits(n: nat): (r: string)
    ensures |r| > 0 && forall i :: 0 <= i < |r| ==> '0' <= r[i] <= '9'
  {
    if n < 10 then [(n + '0' as int) as char]
    else Digits(n / 10) + [((n % 10) + '0' as int) as char]
  }

  /** The file name `Save` chooses: the clock's tick count, then ".gif" for
      GIF bytes and ".jpg" for anything else. */
  function SaveName(bytes: Bytes, ticks: nat): (r: string)
    ensures |r| > 4 && r[..|r| - 4] == Digits(ticks)
    ensures r[|r| - 4..] == ".gif" <==> GifSignature(bytes)
    ensures r[|r| - 4..] == ".jpg" <==> !GifSignature(bytes)
  {
    var extension := if IsGifHeader(bytes) then ".gif" else ".jpg";
    var name := Digits(ticks) + extension;
    assert name[|name| - 4..] == extension;
    name
  }

  /** The number a string of decimal digits denotes. */
  function ValueOf(s: string): nat
    requires forall i :: 0 <= i < |s| ==> '0' <= s[i] <= '9'
  {
    if s == [] then 0 else ValueOf(s[..|s| - 1]) * 10 + (s[|s| - 1] as int - '0' as int)
  }

  /** The tick count can be read back from the name's digits. */
  lemma {:induction false} DigitsRoundTrip(n: nat)
    ensures ValueOf(Digits(n)) == n
  {
    if n >= 10 {
      var d := Digits(n);
      assert d[..|d| - 1] == Digits(n / 10);
      DigitsRoundTrip(n / 10);
    }
  }
}
