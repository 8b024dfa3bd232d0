/**
  The compositing control logic of `vips_utils/composite.go`.

  `CompositeImgFromFiles` splits its input paths into static ("boot") images and
  at most one gif, layers the boot images into one base image
  (`CompositeBootFiles`), and, when a gif is present, lays a copy of that base
  behind every frame of the gif (`CompositeBootAndGif`) before exporting.

  Every method below follows the Go code step by step and is proved equal to a
  pure function of its inputs (`Classify`, `BootOutcome`, `FramesOutcome`,
  `CompositeFiles`); the lemmas state what those functions promise.
 */
module Composite {
  import opened Wrappers
  import opened Vips

  /** The errors the compositor returns. */
  datatype Error =
    | TooFewFiles                           // fewer than two input paths
    | MultiGif                              // a second `.gif` path
    | NoBootFiles                           // `compositeBootFiles` given no path
    | OpenFile(path: string, cause: Cause)  // a later boot file failed to load
    | LibraryError(cause: Cause)            // a library error, returned unchanged
    | NegativePageCount(count: int)         // `make` with a negative `n-pages`

  /** The text of each error: what Go's `err.Error()` gives, and for `NegativePageCount` the message of the runtime panic `make` raises. */
  function Message(e: Error): string
  {
    match e
    case TooFewFiles => "composite files length is <= 1"
    case MultiGif => "not support multi gif"
    case NoBootFiles => "composite boot files length is <= 1"
    case OpenFile(path, cause) => "open file " + path + " error err:" + cause
    case LibraryError(cause) => cause
    case NegativePageCount(_) => "runtime error: makeslice: len out of range"
  }

  // ---------------------------------------------------------------------------
  // Input classification
  // ---------------------------------------------------------------------------

  /** Go's `strings.HasSuffix`: an exact, case-sensitive comparison of the path's last characters. */
  predicate HasSuffix(s: string, suffix: string)
  {
    |suffix| <= |s| && s[|s| - |suffix|..] == suffix
  }

  /** A path is animated exactly when it ends in `.gif`. */
  predicate IsGif(path: string)
  {
    HasSuffix(path, ".gif")
  }

  /** The non-gif paths of `files`, in their order. */
  function BootPaths(files: seq<string>): seq<string>
  {
    if files == [] then []
    else
      var last := files[|files| - 1];
      BootPaths(files[..|files| - 1]) + (if IsGif(last) then [] else [last])
  }

  /** The gif paths of `files`, in their order. */
  function GifPaths(files: seq<string>): seq<string>
  {
    if files == [] then []
    else
      var last := files[|files| - 1];
      GifPaths(files[..|files| - 1]) + (if IsGif(last) then [last] else [])
  }

  /** The outcome of the scan: the boot paths and the gif path, "" when there is none. */
  datatype Split = Split(boot: seq<string>, gif: string)

  /** What the scan at the head of `CompositeImgFromFiles` yields. */
  function Classify(files: seq<string>): Result<Split, Error>
  {
    if |files| <= 1 then Err(TooFewFiles)
    else if |GifPaths(files)| >= 2 then Err(MultiGif)
    else Ok(Split(BootPaths(files), if GifPaths(files) == [] then "" else GifPaths(files)[0]))
  }

  /** The length check and the scan over the paths, failing at the second gif. */
  method ClassifyFiles(files: seq<string>) returns (r: Result<Split, Error>)
    ensures r == Classify(files)
  {
    if |files| <= 1 {
      return Err(TooFewFiles);
    }
    var bootFile: seq<string> := [];
    var gifFile := "";
    var i := 0;
    while i < |files|
      invariant 0 <= i <= |files|
      invariant bootFile == BootPaths(files[..i])
      invariant GifPaths(files[..i]) == if gifFile == "" then [] else [gifFile]
    {
      var f := files[i];
      assert files[..i + 1][..i] == files[..i];
      if IsGif(f) {
        if gifFile != "" {
          PathsAppend(files[..i + 1], files[i + 1..]);
          assert files[..i + 1] + files[i + 1..] == files;
          return Err(MultiGif);
        }
        gifFile := f;
      } else {
        bootFile := bootFile + [f];
      }
      i := i + 1;
    }
    assert files[..i] == files;
    return Ok(Split(bootFile, gifFile));
  }

  /** Filtering distributes over concatenation. */
  lemma {:induction false} PathsAppend(a: seq<string>, b: seq<string>)
    ensures BootPaths(a + b) == BootPaths(a) + BootPaths(b)
    ensures GifPaths(a + b) == GifPaths(a) + GifPaths(b)
  {
    if b == [] {
      assert a + b == a;
    } else {
      var init := b[..|b| - 1];
      assert (a + b)[..|a + b| - 1] == a + init;
      PathsAppend(a, init);
    }
  }

  /** The boot list holds only non-gif paths of the input, the gif list only gif paths of it. */
  lemma {:induction false} PathsMembers(files: seq<string>)
    ensures forall p :: p in BootPaths(files) ==> p in files && !IsGif(p)
    ensures forall p :: p in GifPaths(files) ==> p in files && IsGif(p)
  {
    if files != [] {
      var init := files[..|files| - 1];
      assert files == init + [files[|files| - 1]];
      PathsMembers(init);
    }
  }

  /** Every path goes to exactly one of the two lists. */
  lemma {:induction false} PathsPartition(files: seq<string>)
    ensures multiset(BootPaths(files)) + multiset(GifPaths(files)) == multiset(files)
    ensures |BootPaths(files)| + |GifPaths(files)| == |files|
  {
    if files != [] {
      var init := files[..|files| - 1];
      assert files == init + [files[|files| - 1]];
      PathsPartition(init);
    }
  }

  /** With no gif among them, the boot list is the whole input. */
  lemma {:induction false} NoGifKeepsAll(files: seq<string>)
    requires GifPaths(files) == []
    ensures BootPaths(files) == files
    ensures forall k :: 0 <= k < |files| ==> !IsGif(files[k])
  {
    if files != [] {
      var init := files[..|files| - 1];
      assert files == init + [files[|files| - 1]];
      NoGifKeepsAll(init);
    }
  }

  /** With one gif among them, the boot list is the input with that one path taken out. */
  lemma OneGifRemoved(files: seq<string>, g: string)
    requires GifPaths(files) == [g]
    ensures exists k :: 0 <= k < |files| && files[k] == g && BootPaths(files) == files[..k] + files[k + 1..]
  {
    assert g in files && IsGif(g) by {
      assert g in GifPaths(files);
      PathsMembers(files);
    }
    var k :| 0 <= k < |files| && files[k] == g;
    NoGifsAround(files, k);
    BootSkipsGif(files, k);
  }

  /** When the only gif path sits at position k, the paths before and after it hold no gif. */
  lemma NoGifsAround(files: seq<string>, k: int)
    requires 0 <= k < |files| && IsGif(files[k]) && GifPaths(files) == [files[k]]
    ensures GifPaths(files[..k]) == [] && GifPaths(files[k + 1..]) == []
  {
    var front, back := files[..k], files[k + 1..];
    SplitAround(files, k);
    PathsAppend(front, [files[k]] + back);
    PathsAppend([files[k]], back);
    assert |GifPaths([files[k]])| == 1 by {
      assert [files[k]][..0] == [];
    }
  }

  /** A gif at position k with no gif around it: the boot list is everything but position k. */
  lemma BootSkipsGif(files: seq<string>, k: int)
    requires 0 <= k < |files| && IsGif(files[k])
    requires GifPaths(files[..k]) == [] && GifPaths(files[k + 1..]) == []
    ensures BootPaths(files) == files[..k] + files[k + 1..]
  {
    var front, back := files[..k], files[k + 1..];
    SplitAround(files, k);
    PathsAppend(front, [files[k]] + back);
    PathsAppend([files[k]], back);
    NoGifKeepsAll(front);
    NoGifKeepsAll(back);
    assert BootPaths([files[k]] + back) == back by {
      assert [files[k]][..0] == [];
      assert [] + back == back;
    }
  }

  /** A sequence is its prefix before position k, the element at k, and its suffix after k. */
  lemma SplitAround<T>(s: seq<T>, k: int)
    requires 0 <= k < |s|
    ensures s == s[..k] + ([s[k]] + s[k + 1..])
  {
    assert s[k..] == [s[k]] + s[k + 1..];
    assert s == s[..k] + s[k..];
  }

  /** Two or more gif paths exactly when two positions hold gif paths. */
  lemma TwoGifsIff(files: seq<string>)
    ensures |GifPaths(files)| >= 2 <==>
            exists i, j :: 0 <= i < j < |files| && IsGif(files[i]) && IsGif(files[j])
  {
    if |GifPaths(files)| >= 2 {
      TwoGifPositions(files);
    }
    if exists i, j :: 0 <= i < j < |files| && IsGif(files[i]) && IsGif(files[j]) {
      var i, j :| 0 <= i < j < |files| && IsGif(files[i]) && IsGif(files[j]);
      TwoGifsCounted(files, i, j);
    }
  }

  /** Two or more gif paths sit at two positions of the input. */
  lemma {:induction false} TwoGifPositions(files: seq<string>)
    requires |GifPaths(files)| >= 2
    ensures exists i, j :: 0 <= i < j < |files| && IsGif(files[i]) && IsGif(files[j])
  {
    var n := |files|;
    var init := files[..n - 1];
    if IsGif(files[n - 1]) {
      var p := GifPaths(init)[0];
      PathsMembers(init);
      assert p in GifPaths(init);
      var i :| 0 <= i < |init| && init[i] == p;
      assert IsGif(files[i]) && IsGif(files[n - 1]);
    } else {
      TwoGifPositions(init);
      var i, j :| 0 <= i < j < |init| && IsGif(init[i]) && IsGif(init[j]);
      assert IsGif(files[i]) && IsGif(files[j]);
    }
  }

  /** Two gif positions give at least two gif paths. */
  lemma TwoGifsCounted(files: seq<string>, i: int, j: int)
    requires 0 <= i < j < |files| && IsGif(files[i]) && IsGif(files[j])
    ensures |GifPaths(files)| >= 2
  {
    var front, back := files[..j], files[j..];
    assert front + back == files;
    PathsAppend(front, back);
    assert front[i] == files[i];
    GifMember(front, i);
    assert back[0] == files[j];
    GifMember(back, 0);
  }

  /** A gif path in the input is in the gif list. */
  lemma {:induction false} GifMember(files: seq<string>, i: int)
    requires 0 <= i < |files| && IsGif(files[i])
    ensures GifPaths(files) != []
  {
    var init := files[..|files| - 1];
    if i < |files| - 1 {
      assert init[i] == files[i];
      GifMember(init, i);
    }
  }

  /** The scan's two errors, each exactly when its condition holds. */
  lemma ClassifyErrors(files: seq<string>)
    ensures Classify(files) == Err(TooFewFiles) <==> |files| <= 1
    ensures Classify(files) == Err(MultiGif) <==>
            |files| >= 2 && exists i, j :: 0 <= i < j < |files| && IsGif(files[i]) && IsGif(files[j])
  {
    TwoGifsIff(files);
  }

  /** A successful scan keeps every path: the boot list and the gif path are the input, as a multiset. */
  lemma ClassifyPartition(files: seq<string>)
    requires Classify(files).Ok?
    ensures var s := Classify(files).value;
            multiset(s.boot) + (if s.gif == "" then multiset{} else multiset{s.gif}) == multiset(files)
  {
    PathsPartition(files);
    PathsMembers(files);
    var gifs := GifPaths(files);
    if gifs != [] {
      assert gifs == [gifs[0]];
      assert gifs[0] in gifs;
    }
  }

  /** A successful scan removes the gif path, if any, and keeps the rest in input order. */
  lemma ClassifyRemovesGif(files: seq<string>)
    requires Classify(files).Ok?
    ensures var s := Classify(files).value;
            && (forall p :: p in s.boot ==> !IsGif(p))
            && (s.gif == "" <==> forall k :: 0 <= k < |files| ==> !IsGif(files[k]))
            && (s.gif == "" ==> s.boot == files)
            && (s.gif != "" ==>
                  && IsGif(s.gif)
                  && exists k :: 0 <= k < |files| && files[k] == s.gif && s.boot == files[..k] + files[k + 1..])
  {
    var s := Classify(files).value;
    PathsMembers(files);
    if GifPaths(files) == [] {
      NoGifKeepsAll(files);
    } else {
      SingleGifFound(files);
      var k :| 0 <= k < |files| && files[k] == s.gif && s.boot == files[..k] + files[k + 1..];
      assert IsGif(files[k]);
    }
  }

  /** The one gif path of a successful scan is a gif at some position, and the boot list skips that position. */
  lemma SingleGifFound(files: seq<string>)
    requires |GifPaths(files)| == 1
    ensures var g := GifPaths(files)[0];
            && IsGif(g) && g != ""
            && exists k :: 0 <= k < |files| && files[k] == g && BootPaths(files) == files[..k] + files[k + 1..]
  {
    var g := GifPaths(files)[0];
    assert GifPaths(files) == [g];
    PathsMembers(files);
    assert g in GifPaths(files);
    OneGifRemoved(files, g);
  }

  /** A successful scan of two or more paths leaves at least one boot path. */
  lemma ClassifyBootNonEmpty(files: seq<string>)
    requires Classify(files).Ok?
    ensures |Classify(files).value.boot| >= 1
  {
    PathsPartition(files);
  }

  // ---------------------------------------------------------------------------
  // Static layer plan
  // ---------------------------------------------------------------------------

  /** The composite entry for a later boot file: its image, source-over, at the origin. */
  function LayerFor(path: string): Layer
  {
    Layer(Decoded(path), Over, 0, 0)
  }

  /** Loading the later boot files in order: their layers, or the first load error naming its path. */
  function LoadLayers(lib: Library, rest: seq<string>): Result<seq<Layer>, Error>
  {
    if rest == [] then Ok([])
    else
      var last := rest[|rest| - 1];
      match LoadLayers(lib, rest[..|rest| - 1])
      case Err(e) => Err(e)
      case Ok(layers) =>
        match lib.loadFailure(last)
        case Some(c) => Err(OpenFile(last, c))
        case None => Ok(layers + [LayerFor(last)])
  }

  /** What `compositeBootFiles` yields: the base image after layering, or the error. */
  function BootOutcome(lib: Library, files: seq<string>): Result<Image, Error>
  {
    if files == [] then Err(NoBootFiles)
    else match lib.loadFailure(files[0])
      case Some(c) => Err(LibraryError(c))
      case None =>
        var base := Decoded(files[0]);
        match LoadLayers(lib, files[1..])
        case Err(e) => Err(e)
        case Ok(layers) =>
          if |layers| > 0 then
            match lib.compositeMultiFailure(base, layers)
            case Some(c) => Err(LibraryError(c))
            case None => Ok(Layered(base, layers))
          else Ok(base)
  }

  /** Load the first path as the base, the rest as layers over it, then layer them in one call. */
  method CompositeBootFiles(lib: Library, files: seq<string>) returns (r: Result<ImageRef, Error>)
    ensures r.Ok? ==> fresh(r.value)
    ensures Observe(r) == BootOutcome(lib, files)
  {
    if |files| == 0 {
      return Err(NoBootFiles);
    }
    var loaded := NewImageFromFile(lib, files[0]);
    if loaded.Err? {
      return Err(LibraryError(loaded.error));
    }
    var boot := loaded.value;
    var images: seq<ImageComposite> := [];
    var i := 1;
    while i < |files|
      invariant 1 <= i <= |files|
      invariant fresh(boot) && boot.image == Decoded(files[0])
      invariant LoadLayers(lib, files[1..i]).Ok?
      invariant |images| == i - 1
      invariant forall k :: 0 <= k < i - 1 ==>
                  images[k].ref.image == Decoded(files[k + 1]) && images[k].mode == Over && images[k].x == 0 && images[k].y == 0
    {
      assert files[1..i + 1][..i - 1] == files[1..i];
      var image := NewImageFromFile(lib, files[i]);
      if image.Err? {
        LoadLayersErrPersists(lib, files[1..], i);
        assert files[1..][..i] == files[1..i + 1];
        return Err(OpenFile(files[i], image.error));
      }
      images := images + [ImageComposite(image.value, Over, 0, 0)];
      i := i + 1;
    }
    assert files[1..i] == files[1..];
    LoadLayersShape(lib, files[1..]);
    assert Snapshot(images) == LoadLayers(lib, files[1..]).value;
    if |images| > 0 {
      var err := boot.CompositeMulti(lib, images);
      if err.Some? {
        return Err(LibraryError(err.value));
      }
    }
    return Ok(boot);
  }

  /** Once a prefix of the later files fails to load, loading all of them fails the same way. */
  lemma {:induction false} LoadLayersErrPersists(lib: Library, rest: seq<string>, m: nat)
    requires m <= |rest| && LoadLayers(lib, rest[..m]).Err?
    ensures LoadLayers(lib, rest) == LoadLayers(lib, rest[..m])
    decreases |rest| - m
  {
    if m < |rest| {
      assert rest[..m + 1][..m] == rest[..m];
      LoadLayersErrPersists(lib, rest, m + 1);
    } else {
      assert rest[..m] == rest;
    }
  }

  /** The layer list has one entry per later file: entry k is file k's image, source-over at (0, 0). */
  lemma {:induction false} LoadLayersShape(lib: Library, rest: seq<string>)
    requires LoadLayers(lib, rest).Ok?
    ensures var layers := LoadLayers(lib, rest).value;
            |layers| == |rest| && forall k :: 0 <= k < |rest| ==> layers[k] == LayerFor(rest[k])
  {
    if rest != [] {
      LoadLayersShape(lib, rest[..|rest| - 1]);
    }
  }

  /** Loading the later files fails exactly when one of them fails, and then with the first such path. */
  lemma {:induction false} LoadLayersFailsAtFirst(lib: Library, rest: seq<string>)
    ensures LoadLayers(lib, rest).Ok? <==> forall k :: 0 <= k < |rest| ==> lib.loadFailure(rest[k]).None?
    ensures LoadLayers(lib, rest).Err? ==>
              exists k :: 0 <= k < |rest| && lib.loadFailure(rest[k]).Some?
                && (forall j :: 0 <= j < k ==> lib.loadFailure(rest[j]).None?)
                && LoadLayers(lib, rest).error == OpenFile(rest[k], lib.loadFailure(rest[k]).value)
  {
    if rest != [] {
      var init := rest[..|rest| - 1];
      LoadLayersFailsAtFirst(lib, init);
      assert forall k :: 0 <= k < |init| ==> init[k] == rest[k];
    }
  }

  /** The load errors differ by position: the first file's is returned unchanged, a later one's names its path. */
  lemma BootLoadErrors(lib: Library, files: seq<string>)
    requires files != []
    ensures lib.loadFailure(files[0]).Some? ==>
              BootOutcome(lib, files) == Err(LibraryError(lib.loadFailure(files[0]).value))
    ensures forall k :: 1 <= k < |files| && lib.loadFailure(files[0]).None? && lib.loadFailure(files[k]).Some? &&
                        (forall j :: 1 <= j < k ==> lib.loadFailure(files[j]).None?) ==>
              BootOutcome(lib, files) == Err(OpenFile(files[k], lib.loadFailure(files[k]).value))
  {
    var rest := files[1..];
    LoadLayersFailsAtFirst(lib, rest);
    forall k | 1 <= k < |files| && lib.loadFailure(files[0]).None? && lib.loadFailure(files[k]).Some? &&
               (forall j :: 1 <= j < k ==> lib.loadFailure(files[j]).None?)
      ensures BootOutcome(lib, files) == Err(OpenFile(files[k], lib.loadFailure(files[k]).value))
    {
      assert lib.loadFailure(rest[k - 1]).Some?;
      var k' :| 0 <= k' < |rest| && lib.loadFailure(rest[k']).Some?
                && (forall j :: 0 <= j < k' ==> lib.loadFailure(rest[j]).None?)
                && LoadLayers(lib, rest).error == OpenFile(rest[k'], lib.loadFailure(rest[k']).value);
      assert k' == k - 1;
    }
  }

  /** The message of a later file's load error names that file's path, after "open file ". */
  lemma OpenFileMessageNamesPath(lib: Library, files: seq<string>, k: int)
    requires 1 <= k < |files|
    requires lib.loadFailure(files[0]).None? && lib.loadFailure(files[k]).Some?
    requires forall j :: 1 <= j < k ==> lib.loadFailure(files[j]).None?
    ensures BootOutcome(lib, files).Err?
    ensures var m := Message(BootOutcome(lib, files).error);
            |m| >= 10 + |files[k]| && m[..10] == "open file " && m[10..10 + |files[k]|] == files[k]
  {
    BootLoadErrors(lib, files);
  }

  /** A successful base is file 0 with every later file layered over it in order; a lone file is not layered. */
  lemma BootLayering(lib: Library, files: seq<string>)
    requires BootOutcome(lib, files).Ok?
    ensures |files| >= 1
    ensures |files| == 1 ==> BootOutcome(lib, files).value == Decoded(files[0])
    ensures |files| >= 2 ==>
              var img := BootOutcome(lib, files).value;
              img.Layered? && img.base == Decoded(files[0]) && |img.layers| == |files| - 1 &&
              forall k :: 0 <= k < |files| - 1 ==> img.layers[k] == LayerFor(files[k + 1])
  {
    LoadLayersShape(lib, files[1..]);
  }

  /** A single boot file that loads is returned as loaded, whatever the batch composite would do. */
  lemma SingleBootUnlayered(lib: Library, path: string)
    requires lib.loadFailure(path).None?
    ensures BootOutcome(lib, [path]) == Ok(Decoded(path))
  {
    assert [path][1..] == [];
  }

  // ---------------------------------------------------------------------------
  // Per-frame plan
  // ---------------------------------------------------------------------------

  /** The region of frame `pageNum`: full width, `pageHeight` rows starting at row `pageNum * pageHeight`. */
  function FrameRect(pageNum: int, pageHeight: int, width: int): Rect
  {
    Rect(0, pageNum * pageHeight, width, pageHeight)
  }

  /** Row `y` lies within `area`. */
  predicate RowIn(y: int, area: Rect)
  {
    area.top <= y < area.top + area.height
  }

  /** Row `y` lies within one of the first `nPages` frame regions. */
  predicate InFrames(y: int, pageHeight: int, width: int, nPages: int)
  {
    exists i :: 0 <= i < nPages && RowIn(y, FrameRect(i, pageHeight, width))
  }

  /** A frame: the gif's region with the base composited behind it (destination-over) at (0, 0). */
  function FrameImage(base: Image, gif: Image, area: Rect): Image
  {
    Composed(Cropped(gif, area), base, DestOver, 0, 0)
  }

  /** One pass of the frame loop: copy the gif, cut its region, copy the base, composite. */
  function FrameStep(lib: Library, base: Image, gif: Image, pageHeight: int, pageNum: int): Result<Image, Error>
  {
    var area := FrameRect(pageNum, pageHeight, lib.width(gif));
    if lib.copyFailure(gif).Some? then Err(LibraryError(lib.copyFailure(gif).value))
    else if lib.extractFailure(gif, area).Some? then Err(LibraryError(lib.extractFailure(gif, area).value))
    else if lib.copyFailure(base).Some? then Err(LibraryError(lib.copyFailure(base).value))
    else if lib.compositeFailure(Cropped(gif, area), base, DestOver, 0, 0).Some? then
      Err(LibraryError(lib.compositeFailure(Cropped(gif, area), base, DestOver, 0, 0).value))
    else Ok(FrameImage(base, gif, area))
  }

  /** The first `n` frames in ascending order, or the first error met building them. */
  function ComposeFrames(lib: Library, base: Image, gif: Image, pageHeight: int, n: nat): Result<seq<Image>, Error>
  {
    if n == 0 then Ok([])
    else match ComposeFrames(lib, base, gif, pageHeight, n - 1)
      case Err(e) => Err(e)
      case Ok(frames) =>
        match FrameStep(lib, base, gif, pageHeight, n - 1)
        case Err(e) => Err(e)
        case Ok(frame) => Ok(frames + [frame])
  }

  /** The number of frames `n-pages` announces: 0 when the field is absent. */
  function PageCount(lib: Library, gif: Image): int
    requires !lib.meta(gif, "n-pages").Malformed?
  {
    if lib.meta(gif, "n-pages").Found? then lib.meta(gif, "n-pages").value else 0
  }

  /** What `compositeBootAndGif` yields: the joined frames, or the error. */
  function FramesOutcome(lib: Library, base: Image, gif: Image): Result<Image, Error>
  {
    match MetaInt(lib, gif, "page-height")
    case Err(c) => Err(LibraryError(c))
    case Ok(pageHeight) =>
      match MetaIntDefault(lib, gif, "n-pages", 0)
      case Err(c) => Err(LibraryError(c))
      case Ok(nPages) =>
        if nPages < 0 then Err(NegativePageCount(nPages))
        else match ComposeFrames(lib, base, gif, pageHeight, nPages)
          case Err(e) => Err(e)
          case Ok(frames) =>
            match lib.joinFailure(base, frames)
            case Some(c) => Err(LibraryError(c))
            case None => Ok(Joined(base, frames))
  }

  /** Read the page layout, build one frame per page, then join the frames into `boot`. */
  method CompositeBootAndGif(lib: Library, boot: ImageRef, gif: ImageRef) returns (r: Result<ImageRef, Error>)
    modifies boot
    ensures r.Ok? ==> r.value == boot
    ensures r.Err? ==> boot.image == old(boot.image)
    ensures boot != gif ==> gif.image == old(gif.image)
    ensures Observe(r) == FramesOutcome(lib, old(boot.image), old(gif.image))
  {
    var pageHeight := gif.GetInt(lib, "page-height");
    if pageHeight.Err? {
      return Err(LibraryError(pageHeight.error));
    }
    var nPages := gif.GetIntDefault(lib, "n-pages", 0);
    if nPages.Err? {
      return Err(LibraryError(nPages.error));
    }
    var ph, n := pageHeight.value, nPages.value;
    if n < 0 {
      return Err(NegativePageCount(n));
    }
    var frames := FillFrames(lib, boot, gif, ph, n);
    if frames.Err? {
      return Err(frames.error);
    }
    var err := boot.Arrayjoin(lib, frames.value);
    if err.Some? {
      return Err(LibraryError(err.value));
    }
    return Ok(boot);
  }

  /** The frame loop: one fresh frame per page in ascending order, or the first failing pass's error. */
  method FillFrames(lib: Library, boot: ImageRef, gif: ImageRef, pageHeight: int, n: nat)
    returns (r: Result<seq<ImageRef>, Error>)
    ensures r.Ok? <==> ComposeFrames(lib, boot.image, gif.image, pageHeight, n).Ok?
    ensures r.Err? ==> r.error == ComposeFrames(lib, boot.image, gif.image, pageHeight, n).error
    ensures r.Ok? ==> Images(r.value) == ComposeFrames(lib, boot.image, gif.image, pageHeight, n).value
  {
    var frames := new ImageRef?[n];
    var pageNum := 0;
    while pageNum < n
      invariant 0 <= pageNum <= n
      invariant ComposeFrames(lib, boot.image, gif.image, pageHeight, pageNum).Ok?
      invariant forall k :: 0 <= k < pageNum ==>
                  frames[k] != null && frames[k].image == FrameImage(boot.image, gif.image, FrameRect(k, pageHeight, lib.width(gif.image)))
    {
      var frame := ComposeFrame(lib, boot, gif, pageHeight, pageNum);
      if frame.Err? {
        ComposeFramesErrPersists(lib, boot.image, gif.image, pageHeight, pageNum + 1, n);
        return Err(frame.error);
      }
      frames[pageNum] := frame.value;
      pageNum := pageNum + 1;
    }
    var parts: seq<ImageRef> := frames[..];
    ComposeFramesShape(lib, boot.image, gif.image, pageHeight, n);
    assert Images(parts) == ComposeFrames(lib, boot.image, gif.image, pageHeight, n).value;
    return Ok(parts);
  }

  /** One pass of the frame loop: a fresh handle on region `pageNum` of the gif with a copy of `boot` behind it. */
  method ComposeFrame(lib: Library, boot: ImageRef, gif: ImageRef, pageHeight: int, pageNum: int)
    returns (r: Result<ImageRef, Error>)
    ensures r.Ok? ==> fresh(r.value)
    ensures Observe(r) == FrameStep(lib, boot.image, gif.image, pageHeight, pageNum)
  {
    var copied := gif.Copy(lib);
    if copied.Err? {
      return Err(LibraryError(copied.error));
    }
    var newGif := copied.value;
    var err := newGif.ExtractArea(lib, 0, pageNum * pageHeight, gif.Width(lib), pageHeight);
    if err.Some? {
      return Err(LibraryError(err.value));
    }
    var copiedBase := boot.Copy(lib);
    if copiedBase.Err? {
      return Err(LibraryError(copiedBase.error));
    }
    var newFrame := copiedBase.value;
    err := newGif.Composite(lib, newFrame, DestOver, 0, 0);
    if err.Some? {
      return Err(LibraryError(err.value));
    }
    return Ok(newGif);
  }

  /** Once a frame fails, building more frames fails with the same error. */
  lemma {:induction false} ComposeFramesErrPersists(lib: Library, base: Image, gif: Image, pageHeight: int, m: nat, n: nat)
    requires m <= n && ComposeFrames(lib, base, gif, pageHeight, m).Err?
    ensures ComposeFrames(lib, base, gif, pageHeight, n) == ComposeFrames(lib, base, gif, pageHeight, m)
    decreases n - m
  {
    if m < n {
      ComposeFramesErrPersists(lib, base, gif, pageHeight, m + 1, n);
    }
  }

  /** There are `n` frames and frame i is the gif's i-th region with the base behind it. */
  lemma {:induction false} ComposeFramesShape(lib: Library, base: Image, gif: Image, pageHeight: int, n: nat)
    requires ComposeFrames(lib, base, gif, pageHeight, n).Ok?
    ensures var frames := ComposeFrames(lib, base, gif, pageHeight, n).value;
            |frames| == n &&
            forall i :: 0 <= i < n ==> frames[i] == FrameImage(base, gif, FrameRect(i, pageHeight, lib.width(gif)))
  {
    if n > 0 {
      ComposeFramesShape(lib, base, gif, pageHeight, n - 1);
    }
  }

  /** Building the frames fails exactly when some frame's step fails, and then with the lowest such frame's error. */
  lemma {:induction false} ComposeFramesFailsAtFirst(lib: Library, base: Image, gif: Image, pageHeight: int, n: nat)
    ensures ComposeFrames(lib, base, gif, pageHeight, n).Ok? <==>
            forall i :: 0 <= i < n ==> FrameStep(lib, base, gif, pageHeight, i).Ok?
    ensures ComposeFrames(lib, base, gif, pageHeight, n).Err? ==>
              exists i :: 0 <= i < n && FrameStep(lib, base, gif, pageHeight, i).Err?
                && (forall j :: 0 <= j < i ==> FrameStep(lib, base, gif, pageHeight, j).Ok?)
                && ComposeFrames(lib, base, gif, pageHeight, n).error == FrameStep(lib, base, gif, pageHeight, i).error
  {
    if n > 0 {
      var m := n - 1;
      ComposeFramesFailsAtFirst(lib, base, gif, pageHeight, m);
      var prev := ComposeFrames(lib, base, gif, pageHeight, m);
      var step := FrameStep(lib, base, gif, pageHeight, m);
      if prev.Err? {
        assert ComposeFrames(lib, base, gif, pageHeight, n) == prev;
        var i :| 0 <= i < m && FrameStep(lib, base, gif, pageHeight, i).Err?
                 && (forall j :: 0 <= j < i ==> FrameStep(lib, base, gif, pageHeight, j).Ok?)
                 && prev.error == FrameStep(lib, base, gif, pageHeight, i).error;
        assert 0 <= i < n;
      } else if step.Err? {
        assert ComposeFrames(lib, base, gif, pageHeight, n) == Err(step.error);
      } else {
        assert ComposeFrames(lib, base, gif, pageHeight, n) == Ok(prev.value + [step.value]);
      }
    }
  }

  /** Two frame regions that share a row are the same frame. */
  lemma FrameRowsDisjoint(pageHeight: int, width: int, i: int, j: int, y: int)
    requires pageHeight > 0
    requires RowIn(y, FrameRect(i, pageHeight, width)) && RowIn(y, FrameRect(j, pageHeight, width))
    ensures i == j
  {
    if i != j {
      var lo, hi := if i < j then i else j, if i < j then j else i;
      assert (lo + 1) * pageHeight == lo * pageHeight + pageHeight;
      MulMono(lo + 1, hi, pageHeight);
    }
  }

  /** A row lies in [0, nPages * pageHeight) exactly when it lies in one of the first nPages frame regions. */
  lemma FrameRowCovered(pageHeight: int, width: int, nPages: nat, y: int)
    requires pageHeight > 0
    ensures RowIn(y, Rect(0, 0, width, nPages * pageHeight)) <==> InFrames(y, pageHeight, width, nPages)
  {
    if 0 <= y < nPages * pageHeight {
      var i := y / pageHeight;
      assert y == i * pageHeight + y % pageHeight;
      assert (i + 1) * pageHeight == i * pageHeight + pageHeight;
      if i >= nPages {
        MulMono(nPages, i, pageHeight);
      }
      assert RowIn(y, FrameRect(i, pageHeight, width));
    }
    if InFrames(y, pageHeight, width, nPages) {
      var i :| 0 <= i < nPages && RowIn(y, FrameRect(i, pageHeight, width));
      MulMono(0, i, pageHeight);
      MulMono(i + 1, nPages, pageHeight);
      assert (i + 1) * pageHeight == i * pageHeight + pageHeight;
    }
  }

  /** The frame regions tile the gif: disjoint, adjacent, full width, and together exactly rows [0, nPages * pageHeight). */
  lemma FrameRectsTile(pageHeight: int, width: int, nPages: nat)
    requires pageHeight > 0
    ensures forall i, j, y ::
              (0 <= i < nPages && 0 <= j < nPages &&
               RowIn(y, FrameRect(i, pageHeight, width)) && RowIn(y, FrameRect(j, pageHeight, width))) ==> i == j
    ensures forall i :: 0 <= i < nPages - 1 ==>
              FrameRect(i + 1, pageHeight, width).top == FrameRect(i, pageHeight, width).top + pageHeight
    ensures forall i :: 0 <= i < nPages ==>
              FrameRect(i, pageHeight, width).left == 0 && FrameRect(i, pageHeight, width).width == width
    ensures forall y :: RowIn(y, Rect(0, 0, width, nPages * pageHeight)) <==> InFrames(y, pageHeight, width, nPages)
  {
    forall i, j, y | RowIn(y, FrameRect(i, pageHeight, width)) && RowIn(y, FrameRect(j, pageHeight, width))
      ensures i == j
    {
      FrameRowsDisjoint(pageHeight, width, i, j, y);
    }
    forall i | 0 <= i < nPages - 1
      ensures FrameRect(i + 1, pageHeight, width).top == FrameRect(i, pageHeight, width).top + pageHeight
    {
      assert (i + 1) * pageHeight == i * pageHeight + pageHeight;
    }
    forall y
      ensures RowIn(y, Rect(0, 0, width, nPages * pageHeight)) <==> InFrames(y, pageHeight, width, nPages)
    {
      FrameRowCovered(pageHeight, width, nPages, y);
    }
  }

  /** Multiplying by a non-negative factor keeps order: the monotonicity the frame-row lemmas use. */
  lemma MulMono(a: int, b: int, c: int)
    requires a <= b && c >= 0
    ensures a * c <= b * c
  {
    assert (b - a) * c >= 0;
  }

  /** The metadata cases: `page-height` must be there; a missing `n-pages` still joins, on no frames. */
  lemma FramesMetadata(lib: Library, base: Image, gif: Image)
    ensures !lib.meta(gif, "page-height").Found? ==> FramesOutcome(lib, base, gif).Err?
    ensures lib.meta(gif, "page-height").Found? && lib.meta(gif, "n-pages").Malformed? ==>
              FramesOutcome(lib, base, gif) == Err(LibraryError(lib.meta(gif, "n-pages").cause))
    ensures lib.meta(gif, "page-height").Found? && lib.meta(gif, "n-pages").Missing? ==>
              FramesOutcome(lib, base, gif) ==
                if lib.joinFailure(base, []).Some? then Err(LibraryError(lib.joinFailure(base, []).value))
                else Ok(Joined(base, []))
  {
  }

  /** A successful result is the base joined with one frame per page, frame i cut from rows [i*h, (i+1)*h). */
  lemma FramesResult(lib: Library, base: Image, gif: Image)
    requires FramesOutcome(lib, base, gif).Ok?
    ensures lib.meta(gif, "page-height").Found? && !lib.meta(gif, "n-pages").Malformed?
    ensures var img := FramesOutcome(lib, base, gif).value;
            var pageHeight := lib.meta(gif, "page-height").value;
            img.Joined? && img.receiver == base && |img.parts| == PageCount(lib, gif) &&
            forall i :: 0 <= i < |img.parts| ==>
              img.parts[i] == FrameImage(base, gif, Rect(0, i * pageHeight, lib.width(gif), pageHeight))
  {
    var pageHeight := lib.meta(gif, "page-height").value;
    ComposeFramesShape(lib, base, gif, pageHeight, PageCount(lib, gif));
  }

  /** Any failing step of any frame fails the whole, with no result. */
  lemma FramesFailFast(lib: Library, base: Image, gif: Image, i: nat)
    requires lib.meta(gif, "page-height").Found? && lib.meta(gif, "n-pages").Found?
    requires i < lib.meta(gif, "n-pages").value
    requires FrameStep(lib, base, gif, lib.meta(gif, "page-height").value, i).Err?
    ensures FramesOutcome(lib, base, gif).Err?
  {
    var pageHeight := lib.meta(gif, "page-height").value;
    ComposeFramesFailsAtFirst(lib, base, gif, pageHeight, lib.meta(gif, "n-pages").value);
  }

  // ---------------------------------------------------------------------------
  // Orchestration and export
  // ---------------------------------------------------------------------------

  /** Which export produced the bytes. */
  datatype ExportKind = GifExport | NativeExport

  /** The file the compositor writes: where, what, which export, with which permission bits. */
  datatype Output = Output(path: string, data: Bytes, kind: ExportKind, perm: int)

  /** The permission bits of the written file, octal 0644. */
  const OutputPerm: int := 0x1A4

  /** What `CompositeImgFromFiles` yields: the file to write, or the first error met. */
  function CompositeFiles(lib: Library, files: seq<string>, outFile: string): Result<Output, Error>
  {
    match Classify(files)
    case Err(e) => Err(e)
    case Ok(split) =>
      match BootOutcome(lib, split.boot)
      case Err(e) => Err(e)
      case Ok(boot) =>
        if |split.gif| > 0 then
          match lib.loadFailure(split.gif)
          case Some(c) => Err(LibraryError(c))
          case None =>
            match FramesOutcome(lib, boot, Decoded(split.gif))
            case Err(e) => Err(e)
            case Ok(result) =>
              match lib.exportGif(result)
              case Err(c) => Err(LibraryError(c))
              case Ok(buf) => Ok(Output(outFile, buf, GifExport, OutputPerm))
        else
          match lib.exportNative(boot)
          case Err(c) => Err(LibraryError(c))
          case Ok(buf) => Ok(Output(outFile, buf, NativeExport, OutputPerm))
  }

  /** Classify, build the base, lay it behind every gif frame if there is a gif, and export. */
  method CompositeImgFromFiles(lib: Library, files: seq<string>, outFile: string) returns (r: Result<Output, Error>)
    ensures r == CompositeFiles(lib, files, outFile)
  {
    var split := ClassifyFiles(files);
    if split.Err? {
      return Err(split.error);
    }
    var bootFile, gifFile := split.value.boot, split.value.gif;
    var booted := CompositeBootFiles(lib, bootFile);
    if booted.Err? {
      return Err(booted.error);
    }
    var boot := booted.value;
    if |gifFile| > 0 {
      var loaded := NewImageFromFile(lib, gifFile);
      if loaded.Err? {
        return Err(LibraryError(loaded.error));
      }
      var gif := loaded.value;
      var result := CompositeBootAndGif(lib, boot, gif);
      if result.Err? {
        return Err(result.error);
      }
      var buf := result.value.ExportGif(lib);
      if buf.Err? {
        return Err(LibraryError(buf.error));
      }
      return Ok(Output(outFile, buf.value, GifExport, OutputPerm));
    }
    var buf := boot.ExportNative(lib);
    if buf.Err? {
      return Err(LibraryError(buf.error));
    }
    return Ok(Output(outFile, buf.value, NativeExport, OutputPerm));
  }

  /** Fewer than two paths fail before anything is loaded: the same error whatever the library does. */
  lemma TooFewFilesRejected(lib: Library, files: seq<string>, outFile: string)
    requires |files| <= 1
    ensures CompositeFiles(lib, files, outFile) == Err(TooFewFiles)
  {
  }

  /** Two gif paths fail during the scan: the same error whatever the library does, so no image is opened. */
  lemma MultiGifRejected(lib: Library, files: seq<string>, outFile: string, i: int, j: int)
    requires 0 <= i < j < |files| && IsGif(files[i]) && IsGif(files[j])
    ensures CompositeFiles(lib, files, outFile) == Err(MultiGif)
  {
    TwoGifsIff(files);
  }

  /** The boot list handed on is never empty, so the empty-list error cannot arise from the top. */
  lemma NoBootFilesUnreachable(lib: Library, files: seq<string>, outFile: string)
    ensures CompositeFiles(lib, files, outFile) != Err(NoBootFiles)
  {
    if Classify(files).Ok? {
      var split := Classify(files).value;
      ClassifyBootNonEmpty(files);
      LoadLayersFailsAtFirst(lib, split.boot[1..]);
      if BootOutcome(lib, split.boot).Ok? && |split.gif| > 0 {
        var gif := Decoded(split.gif);
        var base := BootOutcome(lib, split.boot).value;
        if lib.meta(gif, "page-height").Found? && !lib.meta(gif, "n-pages").Malformed? && PageCount(lib, gif) >= 0 {
          ComposeFramesFailsAtFirst(lib, base, gif, lib.meta(gif, "page-height").value, PageCount(lib, gif));
        }
      }
    }
  }

  /** The export is the gif export exactly when a gif path was given, and the file goes to `outFile` as 0644. */
  lemma ExportChoice(lib: Library, files: seq<string>, outFile: string)
    requires CompositeFiles(lib, files, outFile).Ok?
    ensures var out := CompositeFiles(lib, files, outFile).value;
            && out.path == outFile && out.perm == OutputPerm
            && (out.kind == GifExport <==> exists k :: 0 <= k < |files| && IsGif(files[k]))
  {
    ClassifyRemovesGif(files);
  }

  // ---------------------------------------------------------------------------
  // Worked scenarios
  // ---------------------------------------------------------------------------

  /** A library under which no call fails. */
  ghost predicate NeverFails(lib: Library)
  {
    && (forall path :: lib.loadFailure(path).None?)
    && (forall img :: lib.copyFailure(img).None?)
    && (forall img, area :: lib.extractFailure(img, area).None?)
    && (forall base, top, mode, x, y :: lib.compositeFailure(base, top, mode, x, y).None?)
    && (forall base, layers :: lib.compositeMultiFailure(base, layers).None?)
    && (forall base, parts :: lib.joinFailure(base, parts).None?)
    && (forall img :: lib.exportGif(img).Ok?)
    && (forall img :: lib.exportNative(img).Ok?)
  }

  /** Two still images: the second is layered source-over onto the first and exported natively. */
  lemma StaticScenario(lib: Library, outFile: string)
    requires NeverFails(lib)
    ensures CompositeFiles(lib, ["a.png", "b.png"], outFile) ==
            Ok(Output(outFile, lib.exportNative(Layered(Decoded("a.png"), [LayerFor("b.png")])).value,
                      NativeExport, OutputPerm))
  {
    StaticClassify();
    StaticBoot(lib);
  }

  /** Neither `a.png` nor `b.png` is a gif, so the scan keeps both as boot files. */
  lemma StaticClassify()
    ensures Classify(["a.png", "b.png"]) == Ok(Split(["a.png", "b.png"], ""))
  {
    PngsNotGif();
    var files := ["a.png", "b.png"];
    assert BootPaths(["a.png"]) == ["a.png"] && GifPaths(["a.png"]) == [] by {
      assert ["a.png"][..0] == [];
    }
    assert files[..1] == ["a.png"];
    assert BootPaths(files) == files && GifPaths(files) == [] by {
      assert ["a.png"] + ["b.png"] == files;
    }
  }

  /** Neither `a.png` nor `b.png` ends in `.gif`. */
  lemma PngsNotGif()
    ensures !IsGif("a.png") && !IsGif("b.png")
  {
    assert "a.png"[1..][1] != ".gif"[1] && "b.png"[1..][1] != ".gif"[1];
  }

  /** With a library that never fails, `b.png` is layered source-over onto `a.png`. */
  lemma StaticBoot(lib: Library)
    requires NeverFails(lib)
    ensures BootOutcome(lib, ["a.png", "b.png"]) == Ok(Layered(Decoded("a.png"), [LayerFor("b.png")]))
  {
    var rest := ["a.png", "b.png"][1..];
    assert rest == ["b.png"];
    LoadLayersFailsAtFirst(lib, rest);
    assert lib.loadFailure(rest[0]).None?;
    LoadLayersShape(lib, rest);
    var layers := LoadLayers(lib, rest).value;
    assert layers == [layers[0]];
  }

  /** A still image and a three-frame gif of frames 50 rows high: each frame gets the still behind it. */
  lemma AnimatedScenario(lib: Library, outFile: string)
    requires NeverFails(lib)
    requires lib.meta(Decoded("anim.gif"), "page-height") == Found(50)
    requires lib.meta(Decoded("anim.gif"), "n-pages") == Found(3)
    ensures var base, gif := Decoded("a.png"), Decoded("anim.gif");
            var w := lib.width(gif);
            CompositeFiles(lib, ["a.png", "anim.gif"], outFile) ==
              Ok(Output(outFile,
                        lib.exportGif(Joined(base, [FrameImage(base, gif, Rect(0, 0, w, 50)),
                                                    FrameImage(base, gif, Rect(0, 50, w, 50)),
                                                    FrameImage(base, gif, Rect(0, 100, w, 50))])).value,
                        GifExport, OutputPerm))
  {
    AnimatedClassify();
    assert BootOutcome(lib, ["a.png"]) == Ok(Decoded("a.png")) by {
      assert ["a.png"][1..] == [];
    }
    AnimatedFrames(lib);
  }

  /** `a.png` is the one boot file and `anim.gif` the gif. */
  lemma AnimatedClassify()
    ensures Classify(["a.png", "anim.gif"]) == Ok(Split(["a.png"], "anim.gif"))
  {
    PngsNotGif();
    AnimIsGif();
    var files := ["a.png", "anim.gif"];
    assert BootPaths(["a.png"]) == ["a.png"] && GifPaths(["a.png"]) == [] by {
      assert ["a.png"][..0] == [];
    }
    assert BootPaths(files) == ["a.png"] && GifPaths(files) == ["anim.gif"] by {
      assert files[..1] == ["a.png"];
      assert ["a.png"] + [] == ["a.png"] && [] + ["anim.gif"] == ["anim.gif"];
    }
  }

  /** `anim.gif` ends in `.gif`. */
  lemma AnimIsGif()
    ensures IsGif("anim.gif")
  {
    assert "anim.gif"[4..] == ".gif";
  }

  /** Three pages 50 rows high, with a library that never fails: three frames, joined onto the base. */
  lemma AnimatedFrames(lib: Library)
    requires NeverFails(lib)
    requires lib.meta(Decoded("anim.gif"), "page-height") == Found(50)
    requires lib.meta(Decoded("anim.gif"), "n-pages") == Found(3)
    ensures var base, gif := Decoded("a.png"), Decoded("anim.gif");
            var w := lib.width(gif);
            FramesOutcome(lib, base, gif) ==
              Ok(Joined(base, [FrameImage(base, gif, Rect(0, 0, w, 50)),
                               FrameImage(base, gif, Rect(0, 50, w, 50)),
                               FrameImage(base, gif, Rect(0, 100, w, 50))]))
  {
    var base, gif := Decoded("a.png"), Decoded("anim.gif");
    ComposeFramesFailsAtFirst(lib, base, gif, 50, 3);
    ComposeFramesShape(lib, base, gif, 50, 3);
    var frames := ComposeFrames(lib, base, gif, 50, 3).value;
    var w := lib.width(gif);
    assert frames == [FrameImage(base, gif, Rect(0, 0, w, 50)),
                      FrameImage(base, gif, Rect(0, 50, w, 50)),
                      FrameImage(base, gif, Rect(0, 100, w, 50))];
  }
}
