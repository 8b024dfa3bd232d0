# Compositing still images and one gif, modelled in Dafny

`vips_utils/composite.go` takes a list of image paths and an output path. It
splits the paths into still ("boot") images and at most one `.gif`. It layers
the boot images into one base image. When a gif is present, it cuts the gif
into its frames, puts a copy of the base behind each frame, and joins the
frames again. It then exports the result, as a gif when a gif was given and
natively otherwise, and writes it to the output path.

This project models that control logic and proves what it promises. The
image library (govips over libvips) is kept abstract in module `Vips`
(`vips.dfy`):

- An `Image` is a term that records how the image was made: `Decoded(path)`,
  `Layered(base, layers)` (batch composite), `Cropped(source, area)` (extract
  area), `Composed(base, overlay, mode, x, y)` (composite) and
  `Joined(receiver, parts)` (array join). Pixels are never modelled.
- A `Library` value fixes how every library call behaves. It says whether a
  load, copy, extract, composite, batch composite or join fails, and with what
  cause. It also gives each image's width, its integer metadata and its
  exported bytes. Each of these is a deterministic function of the call's
  arguments.
- `ImageRef` is a class whose `image` field the library replaces in place, as
  govips' `*ImageRef` does. `CompositeMulti`, `ExtractArea`, `Composite` and
  `Arrayjoin` modify the handle. `Copy` and `NewImageFromFile` return fresh
  handles.

Module `Composite` (`composite.dfy`) holds the compositor. Each Go function is
a method that follows the code step by step: the same checks in the same
order, the same loops, the same early error returns. Each method is proved
equal to a pure function of its inputs:

- `ClassifyFiles` is proved equal to `Classify`.
- `CompositeBootFiles` is proved equal to `BootOutcome`.
- `CompositeBootAndGif` is proved equal to `FramesOutcome`.
- `CompositeImgFromFiles` is proved equal to `CompositeFiles`.

The lemmas state the properties of those functions. `Message` gives the text
of each error as the Go code spells it.

Four details of the code the model keeps:

- A failure to load the first boot file returns the library's error
  unchanged. It does not name the path.
- Frame failures return the library's error unchanged. They do not name the
  frame index.
- The `.gif` suffix test is case-sensitive.
- The join is a method on the base image. That handle is mutated and returned
  as the result.

## Model

| member | source | states |
|---|---|---|
| `Composite.ClassifyFiles` | vips_utils/composite.go:15-37 | The length check followed by the single scan. It returns exactly `Classify(files)`: `TooFewFiles` for fewer than two paths, `MultiGif` at the second gif, otherwise the boot list and the gif path ("" when there is none). |
| `Composite.ClassifyErrors` | vips_utils/composite.go:15-31 | `TooFewFiles` is returned exactly when there are at most one path. `MultiGif` is returned exactly when there are at least two paths and two positions i < j both end in `.gif`. |
| `Composite.TwoGifsIff` | vips_utils/composite.go:26-31 | There are two or more gif paths exactly when two distinct positions hold gif paths. |
| `Composite.PathsPartition` | vips_utils/composite.go:20-37 | Every path goes to exactly one of the boot list and the gif list. As multisets they add up to the input, and so do their lengths. |
| `Composite.PathsMembers` | vips_utils/composite.go:26-36 | The boot list holds only non-gif input paths. The gif list holds only gif input paths. |
| `Composite.OneGifRemoved` | vips_utils/composite.go:26-37 | When there is exactly one gif path g, some position k holds g and the boot list is the input with position k removed. |
| `Composite.ClassifyPartition` | vips_utils/composite.go:20-37 | After a successful scan, the boot list plus the gif path (if any) is exactly the input multiset. |
| `Composite.ClassifyRemovesGif` | vips_utils/composite.go:26-37 | After a successful scan, no boot path is a gif. The gif path is "" exactly when no input is a gif, and then the boot list is the whole input. Otherwise the gif path ends in `.gif` and the boot list is the input with that one position removed, in order. |
| `Composite.ClassifyBootNonEmpty` | vips_utils/composite.go:15-37 | A successful scan leaves at least one boot path. |
| `Composite.CompositeBootFiles` | vips_utils/composite.go:76-104 | Loads the first path as the base and each later path as a layer, in order, then batch-composites. It returns a fresh handle holding exactly `BootOutcome(lib, files)`, or that function's error. |
| `Composite.LoadLayersShape` | vips_utils/composite.go:87-94 | The layer list has one entry per later file. Entry k is file k+1's image with `BlendModeOver` at (0,0). |
| `Composite.LoadLayersFailsAtFirst` | vips_utils/composite.go:88-92 | Loading the later files succeeds exactly when none of them fails to load. On failure the error is `OpenFile` naming the first failing path, with the library's cause. |
| `Composite.BootLoadErrors` | vips_utils/composite.go:82-92 | A failure loading the first file is returned unchanged as the library's error. A failure loading a later file (the first such) returns `OpenFile` with that file's path. |
| `Composite.OpenFileMessageNamesPath` | vips_utils/composite.go:89-91 | When a later boot file is the first to fail to load, the error's text starts with "open file " followed by that file's path. |
| `Composite.BootLayering` | vips_utils/composite.go:87-103 | A successful base is file 0 when there is one file. With two or more files it is file 0 layered with every later file, in input order, source-over at (0,0). |
| `Composite.SingleBootUnlayered` | vips_utils/composite.go:96-103 | A single file that loads is returned as loaded, whatever the batch composite would do. So the batch composite is not called for an empty layer list. |
| `Composite.CompositeBootAndGif` | vips_utils/composite.go:106-154 | Reads `page-height` and `n-pages`, builds the frames with `FillFrames`, and joins them into `boot`. The result is `boot` itself, and its image is exactly `FramesOutcome` of the old base and gif images. On every error `boot` keeps its old image. The gif's handle is left unchanged. |
| `Composite.FillFrames` | vips_utils/composite.go:120-146 | Fills a fresh array of `n` slots, one pass per page in ascending order, stopping at the first failing pass. It succeeds exactly when `ComposeFrames` does, then returns handles whose images are exactly those frames; otherwise it returns the same error. |
| `Composite.ComposeFrame` | vips_utils/composite.go:124-142 | One loop pass: copy the gif, extract region `pageNum`, copy the base, and composite that copy destination-over. It returns a fresh handle holding exactly `FrameStep(...)`, or the first failing call's error. |
| `Composite.ComposeFramesShape` | vips_utils/composite.go:121-146 | On success there are exactly n frames. Frame i is the gif cut to `Rect(0, i*pageHeight, width, pageHeight)` with the base composited behind it (`BlendModeDestOver`, (0,0)). |
| `Composite.ComposeFramesFailsAtFirst` | vips_utils/composite.go:122-142 | Building the frames succeeds exactly when every frame's step succeeds. On failure the error is that of the lowest failing frame. |
| `Composite.FrameRowsDisjoint` | vips_utils/composite.go:129 | Two frame regions that share a row are the same frame. |
| `Composite.FrameRowCovered` | vips_utils/composite.go:122-129 | A row lies in [0, nPages*pageHeight) exactly when it lies in one of the first nPages frame regions. |
| `Composite.FrameRectsTile` | vips_utils/composite.go:121-146 | The frame regions are pairwise disjoint, adjacent (frame i+1 starts where frame i ends) and full width starting at column 0. Together they cover exactly rows [0, nPages*pageHeight). |
| `Composite.FramesMetadata` | vips_utils/composite.go:109-151 | A missing or unreadable `page-height` is an error. A malformed `n-pages` returns the library's error. A missing `n-pages` still attempts the join, on the empty frame list. |
| `Composite.FramesResult` | vips_utils/composite.go:121-153 | A successful result is the base joined with exactly `n-pages` frames (0 when absent). Frame i is cut from rows [i*pageHeight, (i+1)*pageHeight) at full width. |
| `Composite.FramesFailFast` | vips_utils/composite.go:122-142 | A failing copy, extract or composite for any announced frame fails the whole operation, with no result. |
| `Composite.CompositeImgFromFiles` | vips_utils/composite.go:13-74 | The whole flow: scan, base, gif load, frames, export. It returns exactly `CompositeFiles(lib, files, outFile)`. |
| `Composite.TooFewFilesRejected` | vips_utils/composite.go:15-17 | Fewer than two paths give `TooFewFiles` whatever the library does. No load, export or write can influence the outcome. |
| `Composite.MultiGifRejected` | vips_utils/composite.go:26-31 | Two gif paths give `MultiGif` whatever the library does. The scan fails before any image is opened. |
| `Composite.NoBootFilesUnreachable` | vips_utils/composite.go:15-79 | The whole flow never returns `NoBootFiles`. The empty-list check of `compositeBootFiles` cannot be reached from `CompositeImgFromFiles`. |
| `Composite.ExportChoice` | vips_utils/composite.go:46-73 | A successful run writes to `outFile` with mode 0644. It uses the gif export exactly when some input path ends in `.gif`, and the native export otherwise. |
| `Composite.StaticScenario` | vips_utils/composite.go:13-74 | With `a.png`, `b.png` and a library that never fails, the output is the native export of `b.png` layered source-over onto `a.png`. |
| `Composite.AnimatedScenario` | vips_utils/composite.go:13-74 | With `a.png`, `anim.gif` (page height 50, 3 pages) and a library that never fails, the output is the gif export of `a.png` joined with three frames. Those frames are rows 0, 50 and 100 of the gif, 50 high, each with `a.png` behind it. |

## Left out

- Pixel content: what `CompositeMulti`, `Composite`, `ExtractArea`, `Copy` and `Arrayjoin` compute is library internals. The model records each call, its arguments and their order, as an `Image` term.
- Decoding and encoding (`NewImageFromFile`, `ExportGif`, `ExportNative`) come from the `Library` value. Its outcomes are deterministic functions of the call's arguments, so a transient failure of the same call is not modelled.
- Whether the join includes the receiver's own pixels, and the `page-height` metadata of the joined result, are library semantics. The `Joined` term keeps both the receiver and the frame list.
- `ioutil.WriteFile`: the file write and its error are I/O. The model returns the `Output` that would be written (path, bytes, export kind, mode 0644).
- `log.Println` calls: logging only.
- Paths are modelled as Unicode strings, not Go's byte strings. A path that is not valid UTF-8 has no counterpart in the model.
- Handle release: the code never releases handles, so there is no lifetime to model.
- A negative `n-pages` makes Go's `make` panic. The model reports it as the error `NegativePageCount` instead of a crash.
- `pageNum*pageHeight` is Go `int` arithmetic. Its 64-bit overflow is not modelled.
- Export parameters: `ExportGif(nil)` uses the library's defaults, and the metadata that both exports also return is ignored.
- `FillFrames` and `ComposeFrame` are the frame loop and its body, factored out of `compositeBootAndGif` so that each method stays small. The loop still fills a fresh array of `n-pages` slots, calls `ComposeFrame` once per page in ascending order, and stores its handle at slot `pageNum`.
