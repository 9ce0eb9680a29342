/** `ImagePackage`: what a decoder hands back, namely the decoder itself, the
    image source to show, and the pixel dimensions (integers here). Decoders
    and image sources are references, `None` being null. */
module ImagePackage {
  import opened Base

  /** A reference to a decoder or an image source. */
  datatype Ref = Ref(id: nat)

  datatype Package = Package(decoder: Option<Ref>, source: Option<Ref>, width: int, height: int)

  /** The constructor stores its four arguments as given. */
  function New(decoder: Option<Ref>, source: Option<Ref>, width: int, height: int): (p: Package)
    ensures p.decoder == decoder && p.source == source
    ensures p.width == width && p.height == height
  {
    Package(decoder, source, width, height)
  }

  /** `UpdateSource(source)`: replaces the image source and nothing else. */
  function UpdateSource(p: Package, source: Option<Ref>): (r: Package)
    ensures r.source == source
    ensures r.decoder == p.decoder && r.width == p.width && r.height == p.height
  {
    p.(source := source)
  }

  /** `Release()`: drops the decoder and the source without disposing the
      decoder; the dimensions stay. */
  function Release(p: Package): (r: Package)
    ensures r.decoder.None? && r.source.None?
    ensures r.width == p.width && r.height == p.height
  {
    p.(decoder := None, source := None)
  }

  /** A released package no longer depends on what source it held, and
      releasing twice is releasing once. */
  lemma ReleaseForgetsSource(p: Package, source: Option<Ref>)
    ensures Release(UpdateSource(p, source)) == Release(p)
    ensures Release(Release(p)) == Release(p)
    ensures Release(p) == New(None, None, p.width, p.height)
  {
  }
}
