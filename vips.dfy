/**
  The image library the compositor drives (govips over libvips), kept abstract.

  An image's pixels are never modelled: an `Image` is a term that records the
  operations that produced it, with their arguments, so that the compositor's
  plan (what was layered over what, which region was cut, in which order) can
  be stated and proved. Whether a library call fails, an image's width, its
  metadata and its encoded bytes are all chosen by a `Library` value: a
  deterministic function of the call's arguments.
 */
module Vips {
  import opened Wrappers

  /** The text of an error returned by the library (Go's `err.Error()`). */
  type Cause = string

  type Bytes = seq<bv8>

  /** `vips.BlendModeOver` and `vips.BlendModeDestOver`. */
  datatype BlendMode = Over | DestOver

  /** A rectangle of pixels: left column, top row, width and height. */
  datatype Rect = Rect(left: int, top: int, width: int, height: int)

  /** How an image came about. */
  datatype Image =
    | Decoded(path: string)                                   // NewImageFromFile
    | Layered(base: Image, layers: seq<Layer>)                // CompositeMulti
    | Cropped(source: Image, area: Rect)                      // ExtractArea
    | Composed(base: Image, overlay: Image, mode: BlendMode, x: int, y: int)  // Composite
    | Joined(receiver: Image, parts: seq<Image>)              // Arrayjoin

  /** One entry of a batch composite: the value of a `vips.ImageComposite`. */
  datatype Layer = Layer(image: Image, mode: BlendMode, x: int, y: int)

  /** What an image's metadata holds under a name. */
  datatype Meta = Missing(cause: Cause) | Found(value: int) | Malformed(cause: Cause)

  /** The behaviour of the library: for every call, whether it fails and with what cause. */
  datatype Library = Library(
    loadFailure: string -> Option<Cause>,
    copyFailure: Image -> Option<Cause>,
    extractFailure: (Image, Rect) -> Option<Cause>,
    compositeFailure: (Image, Image, BlendMode, int, int) -> Option<Cause>,
    compositeMultiFailure: (Image, seq<Layer>) -> Option<Cause>,
    joinFailure: (Image, seq<Image>) -> Option<Cause>,
    width: Image -> int,
    meta: (Image, string) -> Meta,
    exportGif: Image -> Result<Bytes, Cause>,
    exportNative: Image -> Result<Bytes, Cause>)

  /** `GetInt`: the integer stored under `name`; absent or unreadable is an error. */
  function MetaInt(lib: Library, img: Image, name: string): (r: Result<int, Cause>)
    ensures r.Ok? <==> lib.meta(img, name).Found?
  {
    match lib.meta(img, name)
    case Found(n) => Ok(n)
    case Missing(c) => Err(c)
    case Malformed(c) => Err(c)
  }

  /** `GetIntDefault`: like `MetaInt`, but an absent field reads as `default`. */
  function MetaIntDefault(lib: Library, img: Image, name: string, default: int): (r: Result<int, Cause>)
    ensures lib.meta(img, name).Missing? ==> r == Ok(default)
    ensures !lib.meta(img, name).Missing? ==> r == MetaInt(lib, img, name)
  {
    if lib.meta(img, name).Missing? then Ok(default) else MetaInt(lib, img, name)
  }

  /** A `*vips.ImageRef`: a handle whose image the library replaces in place. */
  class ImageRef {
    var image: Image

    constructor (image: Image)
      ensures this.image == image
    {
      this.image := image;
    }

    function Width(lib: Library): int
      reads this
    {
      lib.width(image)
    }

    function GetInt(lib: Library, name: string): Result<int, Cause>
      reads this
    {
      MetaInt(lib, image, name)
    }

    function GetIntDefault(lib: Library, name: string, default: int): Result<int, Cause>
      reads this
    {
      MetaIntDefault(lib, image, name, default)
    }

    /** An independent handle on the same image. */
    method Copy(lib: Library) returns (r: Result<ImageRef, Cause>)
      ensures r.Err? <==> lib.copyFailure(image).Some?
      ensures r.Err? ==> r.error == lib.copyFailure(image).value
      ensures r.Ok? ==> fresh(r.value) && r.value.image == image
    {
      match lib.copyFailure(image) {
        case Some(c) =>
          r := Err(c);
        case None =>
          var dup := new ImageRef(image);
          r := Ok(dup);
      }
    }

    /** Cuts this image down to the given region. */
    method ExtractArea(lib: Library, left: int, top: int, width: int, height: int) returns (err: Option<Cause>)
      modifies this
      ensures err == lib.extractFailure(old(image), Rect(left, top, width, height))
      ensures image == if err.None? then Cropped(old(image), Rect(left, top, width, height)) else old(image)
    {
      var area := Rect(left, top, width, height);
      err := lib.extractFailure(image, area);
      if err.None? {
        image := Cropped(image, area);
      }
    }

    /** Layers `overlay` onto this image at (x, y) with the given blend mode. */
    method Composite(lib: Library, overlay: ImageRef, mode: BlendMode, x: int, y: int) returns (err: Option<Cause>)
      modifies this
      ensures err == lib.compositeFailure(old(image), old(overlay.image), mode, x, y)
      ensures image == if err.None? then Composed(old(image), old(overlay.image), mode, x, y) else old(image)
    {
      var top := overlay.image;
      err := lib.compositeFailure(image, top, mode, x, y);
      if err.None? {
        image := Composed(image, top, mode, x, y);
      }
    }

    /** Layers every entry of `layers` onto this image, in order. */
    method CompositeMulti(lib: Library, layers: seq<ImageComposite>) returns (err: Option<Cause>)
      modifies this
      ensures err == lib.compositeMultiFailure(old(image), old(Snapshot(layers)))
      ensures image == if err.None? then Layered(old(image), old(Snapshot(layers))) else old(image)
    {
      var ls := Snapshot(layers);
      err := lib.compositeMultiFailure(image, ls);
      if err.None? {
        image := Layered(image, ls);
      }
    }

    /** Joins this image with `parts` into one image. */
    method Arrayjoin(lib: Library, parts: seq<ImageRef>) returns (err: Option<Cause>)
      modifies this
      ensures err == lib.joinFailure(old(image), old(Images(parts)))
      ensures image == if err.None? then Joined(old(image), old(Images(parts))) else old(image)
    {
      var ps := Images(parts);
      err := lib.joinFailure(image, ps);
      if err.None? {
        image := Joined(image, ps);
      }
    }

    /** The bytes of this image in the gif container. */
    function ExportGif(lib: Library): Result<Bytes, Cause>
      reads this
    {
      lib.exportGif(image)
    }

    /** The bytes of this image in the format it was loaded from. */
    function ExportNative(lib: Library): Result<Bytes, Cause>
      reads this
    {
      lib.exportNative(image)
    }
  }

  /** A `vips.ImageComposite`: a handle to layer, with its blend mode and offset. */
  datatype ImageComposite = ImageComposite(ref: ImageRef, mode: BlendMode, x: int, y: int)

  /** The layers a batch composite sees: each entry's image as it is now. */
  function Snapshot(cs: seq<ImageComposite>): (r: seq<Layer>)
    reads set c | c in cs :: c.ref
    ensures |r| == |cs|
    ensures forall k :: 0 <= k < |cs| ==> r[k] == Layer(cs[k].ref.image, cs[k].mode, cs[k].x, cs[k].y)
  {
    seq(|cs|, k requires 0 <= k < |cs| reads if 0 <= k < |cs| then {cs[k].ref} else {} => Layer(cs[k].ref.image, cs[k].mode, cs[k].x, cs[k].y))
  }

  /** The images the handles in `refs` hold now. */
  function Images(refs: seq<ImageRef>): (r: seq<Image>)
    reads set p | p in refs
    ensures |r| == |refs|
    ensures forall k :: 0 <= k < |refs| ==> r[k] == refs[k].image
  {
    seq(|refs|, k requires 0 <= k < |refs| reads if 0 <= k < |refs| then {refs[k]} else {} => refs[k].image)
  }

  /** What a `(*ImageRef, error)` return means: the error, or the image the handle holds. */
  function Observe<E>(r: Result<ImageRef, E>): Result<Image, E>
    reads if r.Ok? then {r.value} else {}
  {
    match r
    case Ok(ref) => Ok(ref.image)
    case Err(e) => Err(e)
  }

  /** `vips.NewImageFromFile`: a fresh handle on the decoded file. */
  method NewImageFromFile(lib: Library, path: string) returns (r: Result<ImageRef, Cause>)
    ensures r.Err? <==> lib.loadFailure(path).Some?
    ensures r.Err? ==> r.error == lib.loadFailure(path).value
    ensures r.Ok? ==> fresh(r.value) && r.value.image == Decoded(path)
  {
    match lib.loadFailure(path) {
      case Some(c) =>
        r := Err(c);
      case None =>
        var ref := new ImageRef(Decoded(path));
        r := Ok(ref);
    }
  }
}
