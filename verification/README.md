# OptimusIMG core, modelled in Dafny

OptimusIMG is a small image-optimisation toolkit. At build time it walks an
image folder and does two jobs. It advises on compression, or on converting
single-colour icons to SVG, by counting the distinguishable colours of every
image. It also writes blurred low-resolution `-OptimusIMG-progressive`
variants for progressive loading. At run time it lazy-loads images that come
near the viewport and advances image carousels on a timer. It swaps the
low-resolution variants for their originals, and it checks the format of the
`srcset` and `sizes` attributes of responsive images.

This project models that logic as pure Dafny functions over immutable data,
plus three methods with loops. One module corresponds to each source file:

| module | file |
|---|---|
| `ColorHelpers` | `src/buildtime/helpers/color.helpers.ts` |
| `AnalyseImages` | `src/buildtime/analyse_images.ts` |
| `PolyfillHelpers` | `src/helpers/polyfill.helpers.ts` |
| `FileHelpers` | `src/buildtime/helpers/file.helpers.ts` |
| `PrepareProgressive` | `src/buildtime/prepare_progressive_images.ts` |
| `ProgressiveLoad` | `src/runtime/progressive_load.ts` |
| `HtmlElementsHelpers` | `src/runtime/helpers/html_elements.helpers.ts` |
| `LazyLoad` | `src/runtime/lazy_load.ts` |

Four shared modules support them. `Wrappers` holds `Option` and `Result`.
`Seqs` holds the order-preserving `Filter` and the search behind `find`.
`Iteration` holds a step applied n times, with the invariant and countdown
arguments the carousel timers are proved with. It also holds a step folded
along a sequence, and the loop that folds until the accumulator grows past a
limit: the shape of the image analyser's pixel scan. `Text` holds the JavaScript
string operations the source uses, each with exact semantics:

- `includes` and `indexOf`;
- `replace` with a string pattern, which replaces only the first occurrence;
- `split` on one character;
- the `\d` and `\s` character classes.

How the outside world enters the model:

- **Maths library.** `Math.pow` and `Math.sqrt` are a parameter, `MathLib`.
  Proofs that need them assume only `ColorHelpers.Lawful`:
  - `pow(1, y) = 1`;
  - `pow(x, 2) = x·x`;
  - `sqrt(0) = 0`;
  - `sqrt(x·x) = x` for `x ≥ 0`.
- **Image codec.** The compression level and the decoded, already
  contrast-adjusted pixels of an image are inputs. Each may be an error.
- **File system.** It is an abstract tree. A folder whose listing cannot be
  read is `Unreadable`.
- **Browser.** Timers, scroll events and element geometry are explicit
  inputs. The page is a value, and each step maps it to the next page.

Some points follow the code exactly where its behaviour is surprising:

- **`IMAGE_REGEX`** is `/(\.jpeg)|(\.jpg)|(\.png)$/`. Its `$` binds only to
  the `.png` alternative, so `.jpeg` and `.jpg` match anywhere in a path.
  The model keeps that behaviour; see `FileHelpers.AnchorBindsOnlyPng`.
- **Progressive names** come from a regex `split` that has capturing groups.
  A group that did not take part yields `undefined`. The pieces are
  filtered, then indexed. A path with no match therefore gets the literal
  text `undefined` as its second piece; see `PrepareProgressive.NoExtensionName`.
- **Carousels.** A carousel that has `data-optimus-interval` but no images
  makes `carousels` read `IMAGES[0]` of an empty list. That throws and ends
  the loop. `LazyLoad.SetUpCarousels` reports it as `threw`.

## Model

| member | source | states |
|---|---|---|
| ColorHelpers.ColorDiffCategory | src/buildtime/helpers/color.helpers.ts:13-29 | Each of the seven buckets holds exactly for its range of the difference: ≤1, (1,2), [2,10), [10,49), [49,100), =100, >100 |
| ColorHelpers.CategoryMonotone | src/buildtime/helpers/color.helpers.ts:13-29 | A larger difference never lands in an earlier bucket |
| ColorHelpers.Composite | src/buildtime/helpers/color.helpers.ts:36-41 | A composited channel is the foreground when alpha is 1 and the background when alpha is 0. For alpha in [0,1] it lies between the two channels |
| ColorHelpers.BlendBetween | src/buildtime/helpers/color.helpers.ts:36-41 | For alpha in [0,1] the blend of a foreground and a background channel lies between the two, whichever is larger |
| ColorHelpers.Rgba2Rgb | src/buildtime/helpers/color.helpers.ts:35-43 | Opaque foregrounds come through unchanged and transparent ones give the background. Valid channels stay in 0..255 |
| ColorHelpers.LinearizeChannel | src/buildtime/helpers/color.helpers.ts:70-74 | Channel 0 takes the linear branch and linearises to 0 |
| ColorHelpers.LinearizeFullIntensity | src/buildtime/helpers/color.helpers.ts:70-74 | Channel 255 linearises to exactly 1 |
| ColorHelpers.LabCompand | src/buildtime/helpers/color.helpers.ts:76-86 | Zero takes the linear branch to 16/116 |
| ColorHelpers.CompandReference | src/buildtime/helpers/color.helpers.ts:76-86 | A channel equal to its reference white compands to 1 |
| ColorHelpers.Rgb2Xyz | src/buildtime/helpers/color.helpers.ts:46-56 | Each matrix row sums to the D65 coordinate, so a grey maps to the D65 white scaled by its linearised intensity |
| ColorHelpers.Xyz2Lab | src/buildtime/helpers/color.helpers.ts:58-68 | `a` is 0 when X and Y stand in the white point's proportion, and `b` is 0 when Y and Z do |
| ColorHelpers.GreysAreNeutral | src/buildtime/helpers/color.helpers.ts:46-68 | Every grey has CIELAB `a` = `b` = 0 |
| ColorHelpers.Rgba2Lab | src/buildtime/helpers/color.helpers.ts:31-33 | A fully transparent colour converts like the background, and an opaque one like its own channels, whatever the background |
| ColorHelpers.OpaqueGreyIsNeutral | src/buildtime/helpers/color.helpers.ts:31-68 | An opaque grey has CIELAB `a` = `b` = 0 over any background |
| ColorHelpers.ColorDiff | src/buildtime/helpers/color.helpers.ts:4-11 | Two colours that composite to the same RGB over the background differ by 0 |
| ColorHelpers.XyzOfBlackAndWhite | src/buildtime/helpers/color.helpers.ts:46-56 | Black maps to XYZ (0,0,0). White maps to the matrix row sums, the D65 white (0.95047, 1.0000001, 1.08883) |
| ColorHelpers.LabOfWhitePointAndZero | src/buildtime/helpers/color.helpers.ts:58-68 | The D65 white is CIELAB (100,0,0), and XYZ zero is CIELAB (0,0,0) |
| ColorHelpers.LabDistanceSymmetric | src/buildtime/helpers/color.helpers.ts:8-10 | The Euclidean CIELAB distance is symmetric |
| ColorHelpers.LabDistanceSelf | src/buildtime/helpers/color.helpers.ts:8-10 | A CIELAB colour is at distance 0 from itself |
| ColorHelpers.BlackToWhiteDistance | src/buildtime/helpers/color.helpers.ts:8-10 | CIELAB black (0,0,0) and white (100,0,0) are exactly 100 apart |
| ColorHelpers.ColorDiffSymmetric | src/buildtime/helpers/color.helpers.ts:4-11 | The colour difference is symmetric in its two colours |
| ColorHelpers.ColorDiffSelf | src/buildtime/helpers/color.helpers.ts:4-11 | A colour is at difference 0 from itself |
| ColorHelpers.TransparentColorsIndistinguishable | src/buildtime/helpers/color.helpers.ts:4-43 | Two fully transparent colours over the same background differ by 0 |
| ColorHelpers.BlackWhiteDiffIsHundred | src/buildtime/helpers/color.helpers.ts:4-11 | Opaque black and opaque white differ by exactly 100, the exact-opposite bucket, over any background |
| AnalyseImages.Normalize | src/buildtime/analyse_images.ts:47-51 | The stored alpha is a/255: in [0,1], positive exactly for visible pixels, 1 exactly for opaque ones. Channels are kept |
| AnalyseImages.NearIffBelowTwo | src/buildtime/analyse_images.ts:53-57 | "Not or hardly perceptible" over white means a difference below 2 |
| AnalyseImages.NearReflexive | src/buildtime/analyse_images.ts:53-57 | Every colour is near itself |
| AnalyseImages.FindNear | src/buildtime/analyse_images.ts:53-57 | `colors.find` returns the first near entry, and it returns nothing exactly when no entry is near |
| AnalyseImages.Visit | src/buildtime/analyse_images.ts:47-59 | Transparent pixels leave the palette alone. A visible colour is appended exactly when no entry is near it, and afterwards it is represented |
| AnalyseImages.VisitPreserves | src/buildtime/analyse_images.ts:47-59 | One pixel step keeps the palette a spread: drawn from visible pixels, with no entry near a later one. The step also extends the covered prefix by that pixel |
| AnalyseImages.ScanPalette | src/buildtime/analyse_images.ts:39-70 | The scan starts from an empty palette and visits the pixels in raster order. It stops at the first pixel after which the palette exceeds 128, or after the last pixel. The palette it ends with is the greedy palette of exactly the pixels examined, and no earlier prefix overflowed. That palette has at most 129 entries and exceeds 128 exactly when the scan stopped early. It is a spread with alphas in (0,1] and represents every visible pixel examined |
| Iteration.FoldUntilOver | src/buildtime/analyse_images.ts:42-70 | The scan loop with its early exit: the result is the fold of exactly the elements visited, it stops early exactly when the result is past the limit, no shorter prefix was past the limit, and without an early stop every element was visited |
| AnalyseImages.GreedyIsSpread | src/buildtime/analyse_images.ts:42-59 | The greedy palette of any raster prefix, built from an empty palette, is a spread of visible colours with alphas in (0,1], and it represents every visible pixel of that prefix |
| AnalyseImages.GreedyStep | src/buildtime/analyse_images.ts:53-59 | One more pixel either leaves the greedy palette unchanged or appends that pixel's normalised colour at the end |
| AnalyseImages.StopAt | src/buildtime/analyse_images.ts:61-64 | The number of pixels scanned is the first prefix length whose greedy palette exceeds 128, or all the pixels if none does. Every shorter prefix stays within 128 |
| AnalyseImages.StopAtUnique | src/buildtime/analyse_images.ts:61-64 | Any count with the stopping properties, where all shorter prefixes stay within the limit and this one overflows or ends the image, is that stopping point |
| AnalyseImages.ScanEnds | src/buildtime/analyse_images.ts:58-72 | At a count where every shorter prefix stayed within 128 and this one overflows or ends the image, the count is the stopping point. The greedy palette there has at most 129 entries, is a spread with alphas in (0,1], and represents every visible pixel visited |
| AnalyseImages.ScanAdviceFits | src/buildtime/analyse_images.ts:42-77 | The advisory of the greedy scan fits the image. "No action" comes with 129 mutually distinct colours, "consider SVG" with at most 128 colours representing every visible pixel |
| AnalyseImages.Classify | src/buildtime/analyse_images.ts:72-77 | "No action" exactly when the palette exceeds 128, otherwise "consider SVG" |
| AnalyseImages.AnalyseImage | src/buildtime/analyse_images.ts:25-83 | A compression error is reported. Low compression gives the big-effect advisory and medium the medium one, without decoding. A decode error is reported. Otherwise the advisory is the classification of the greedy palette at the point where the raster scan stops. "No action" therefore comes only with 129 mutually distinct colours, and "consider SVG" only with at most 128 colours representing every visible pixel |
| AnalyseImages.SolidImageSpreadsAtMostOne | src/buildtime/analyse_images.ts:53-59 | An image with one visible colour never has two mutually distinct palette entries |
| AnalyseImages.SolidImageSuggestsSvg | src/buildtime/analyse_images.ts:53-77 | A single-colour image that reaches the scan is always advised to become an SVG |
| AnalyseImages.Analyse | src/buildtime/analyse_images.ts:17-87 | Progressive variants are dropped and the rest keep their order. Each image gets one report fitting its own inputs, so an error affects only that image. Every image that reaches the scan is reported with the classification of its own greedy scan. The run reports success |
| PolyfillHelpers.AsyncForEach | src/helpers/polyfill.helpers.ts:2-6 | The callback runs once per index in increasing order, with (array[i], i, array). Each call sees the state the previous one left. An empty array gives no calls |
| PolyfillHelpers.CollectInOrder | src/helpers/polyfill.helpers.ts:2-6 | A callback that appends its result collects, after n calls, exactly the results for the first n items in index order |
| PolyfillHelpers.CompletionOrderIsIndexOrder | src/helpers/polyfill.helpers.ts:3-5 | Calls complete in index order |
| FileHelpers.FirstMatchFrom | src/buildtime/helpers/file.helpers.ts:7 | The regex search finds the least position where an alternative matches |
| FileHelpers.ImageRegexTest | src/buildtime/helpers/file.helpers.ts:7 | `IMAGE_REGEX.test` holds exactly when the name contains `.jpeg` or `.jpg`, or ends with `.png` |
| FileHelpers.AnchorBindsOnlyPng | src/buildtime/helpers/file.helpers.ts:7 | `a.jpg.txt` and `a.png` match, but `a.png.txt` does not |
| FileHelpers.FindFilesInDir | src/buildtime/helpers/file.helpers.ts:9-32 | An unreadable start folder gives no paths, and every returned path passes the filter |
| FileHelpers.FindIsFilteredTraversal | src/buildtime/helpers/file.helpers.ts:20-31 | The listing is exactly the filtered depth-first list of the tree's files, in listing order, with each folder's results at the folder's position |
| FileHelpers.FoundAreFiles | src/buildtime/helpers/file.helpers.ts:24-28 | Every returned path is a file of the tree, never a folder |
| PrepareProgressive.SplitPieces | src/buildtime/prepare_progressive_images.ts:18 | `split` always yields a last piece, and that piece is defined |
| PrepareProgressive.DefinedPieces | src/buildtime/prepare_progressive_images.ts:18 | The filter keeps only defined, non-empty pieces, drawn from its input, and never more than it was given |
| PrepareProgressive.Construct | src/buildtime/prepare_progressive_images.ts:18 | The pieces are non-empty and, written one after the other, give the path back: the captures hold exactly the matched extensions |
| PrepareProgressive.SplitCovers | src/buildtime/prepare_progressive_images.ts:18 | From any piece start, the defined split pieces spell the rest of the text |
| PrepareProgressive.ProgressiveName | src/buildtime/prepare_progressive_images.ts:18-22 | Every generated name contains the progressive identifier |
| PrepareProgressive.SplitSkipsNonMatches | src/buildtime/prepare_progressive_images.ts:18 | Positions where the regex does not match emit no split piece |
| PrepareProgressive.CapturesDefineExtension | src/buildtime/prepare_progressive_images.ts:18 | Of a match's three captures, only the matched extension survives the undefined/empty filter |
| PrepareProgressive.SplitAtFinalExtension | src/buildtime/prepare_progressive_images.ts:18 | Splitting `stem + ext`, with no match inside the stem, gives the stem, the three captures of the extension's match, and an empty tail |
| PrepareProgressive.PlainPathName | src/buildtime/prepare_progressive_images.ts:18-22 | A path whose only match is its final extension gets the name stem + identifier + extension |
| PrepareProgressive.NoExtensionName | src/buildtime/prepare_progressive_images.ts:18-22 | A path without any match gets the name path + identifier + "undefined" |
| PrepareProgressive.GeneratedNamesSkipped | src/buildtime/prepare_progressive_images.ts:15-22 | A generated name never survives the variant filter |
| PrepareProgressive.SecondRunIgnoresVariants | src/buildtime/prepare_progressive_images.ts:15 | Adding the variants an earlier run wrote does not change which files a later run prepares |
| PrepareProgressive.RuntimeRecoversOriginal | src/buildtime/prepare_progressive_images.ts:22 | The runtime's high-resolution clone of a generated variant points back at the original path |
| PrepareProgressive.ProcessFile | src/buildtime/prepare_progressive_images.ts:17-31 | A file is prepared exactly when it can be read and its variant written; a prepared file reports the variant's name |
| PrepareProgressive.OutcomesInOrder | src/buildtime/prepare_progressive_images.ts:17-31 | The outcomes after n calls are those of the first n files, in order, whatever happened to earlier ones |
| PrepareProgressive.PrepareProgressiveImages | src/buildtime/prepare_progressive_images.ts:8-35 | Each non-variant file is processed once, in order, with failures isolated per file. The run reports success |
| ProgressiveLoad.SrcIdentifierNoBorder | src/runtime/progressive_load.ts:7 | The identifier `-OptimusIMG-progressive` cannot overlap itself, so its first occurrence is well defined after any prefix without it |
| ProgressiveLoad.LoadProgressiveImage | src/runtime/progressive_load.ts:15-26 | A clone is made exactly when `src` contains the identifier |
| ProgressiveLoad.HighResClone | src/runtime/progressive_load.ts:18-24 | The clone's lazy source equals its new `src`, its class gains the marker suffix, its listener is attached, and `src` loses exactly the identifier's length |
| ProgressiveLoad.HighResSource | src/runtime/progressive_load.ts:19-20 | `stem + identifier + ext` becomes `stem + ext`, for `src` and lazy source alike |
| ProgressiveLoad.OnLoad | src/runtime/progressive_load.ts:39-44 | The handler detaches itself and unwraps once. Without a listener nothing changes. `src` is kept, and a class without the suffix is kept |
| ProgressiveLoad.HandlerRunsOnce | src/runtime/progressive_load.ts:24-44 | However many load events fire, the clone is unwrapped at most once |
| ProgressiveLoad.ClassRoundTrip | src/runtime/progressive_load.ts:21-43 | After loading, the clone's class is the original class again, unless the original already carried the suffix |
| ProgressiveLoad.Execute | src/runtime/progressive_load.ts:28-37 | One clone per progressive image without a high-res sibling, in document order |
| ProgressiveLoad.NothingSelectedNoClones | src/runtime/progressive_load.ts:28-37 | When every progressive image already has its sibling, no clone is made |
| HtmlElementsHelpers.WhitespaceBeforeDigitRun | src/runtime/helpers/html_elements.helpers.ts:38 | `\s\d*` before a suffix matches exactly when white space precedes the maximal digit run |
| HtmlElementsHelpers.SrcsetPieceOk | src/runtime/helpers/html_elements.helpers.ts:38 | The piece test agrees with the pattern `.*\s\d*[xw]$` |
| HtmlElementsHelpers.SizesPieceOk | src/runtime/helpers/html_elements.helpers.ts:60 | The piece test agrees with the pattern `.*\s\d+` followed by px, em, rem or vw at the end |
| HtmlElementsHelpers.UnitOk | src/runtime/helpers/html_elements.helpers.ts:60 | Trying the units from a given one on agrees with some remaining unit matching |
| HtmlElementsHelpers.EmptyPieceFailsBoth | src/runtime/helpers/html_elements.helpers.ts:38-60 | An empty piece passes neither pattern |
| HtmlElementsHelpers.PieceOk | src/runtime/helpers/html_elements.helpers.ts:38-60 | Each attribute's piece test agrees with that attribute's pattern |
| HtmlElementsHelpers.CheckAttribute | src/runtime/helpers/html_elements.helpers.ts:29-49 | Empty is `missing`, no comma is `one_size_only`, and `value_format` holds exactly when some comma piece fails. Valid means a comma is present and every piece passes. The fault names the attribute |
| HtmlElementsHelpers.CheckSrcset | src/runtime/helpers/html_elements.helpers.ts:29-49 | `srcset` is valid exactly when it has several pieces all matching the `srcset` pattern; a fault names `srcset` |
| HtmlElementsHelpers.CheckSizes | src/runtime/helpers/html_elements.helpers.ts:51-71 | `sizes` is valid exactly when it has several pieces all matching the `sizes` pattern; a fault names `sizes` |
| HtmlElementsHelpers.TrailingCommaIsValueFormat | src/runtime/helpers/html_elements.helpers.ts:40 | A trailing comma always gives `value_format` |
| HtmlElementsHelpers.ImageSourceResponsiveness | src/runtime/helpers/html_elements.helpers.ts:8-27 | Valid with no faults exactly when both checks pass. Otherwise each check's fault is listed, the `srcset` fault before the `sizes` fault |
| LazyLoad.Margin | src/runtime/lazy_load.ts:90 | 300 on the first pass, 100 on scroll passes |
| LazyLoad.NearOrInView | src/runtime/lazy_load.ts:92-102 | An element counts as in view exactly when its box overlaps the window widened by the margin above and below |
| LazyLoad.WindowIgnoresScroll | src/runtime/lazy_load.ts:92-104 | The decision is the same for every scroll offset: it uses only viewport-relative positions |
| LazyLoad.Load | src/runtime/lazy_load.ts:108-111 | Loading sets `src` to the lazy URL, or "null" when it is absent, and marks the image loaded |
| LazyLoad.LoadNearOrInView | src/runtime/lazy_load.ts:89-106 | An image ends up loaded exactly when it was loaded or is in the window. Images in the window are loaded; the others are untouched |
| LazyLoad.FirstPassOnTallWindow | src/runtime/lazy_load.ts:89-106 | In a 768-pixel window, images at −500..350, 350..500 and 800..1000 load, and one at 2000..2500 does not |
| LazyLoad.ScrollPass | src/runtime/lazy_load.ts:80-87 | Only images not yet loaded are considered, with margin 100. Nothing changes when every image is loaded |
| LazyLoad.ScrollVisit | src/runtime/lazy_load.ts:97-104 | On a scroll pass an unloaded image within the 100-pixel margin is loaded; a loaded image, or one outside the margin, is untouched |
| LazyLoad.ScrollPassIdempotent | src/runtime/lazy_load.ts:80-87 | A second scroll pass at the same position loads nothing more |
| LazyLoad.PassesNeverUnload | src/runtime/lazy_load.ts:80-111 | No pass unmarks a loaded image |
| LazyLoad.LoadAll | src/runtime/lazy_load.ts:70-76 | Without an interval every carousel image is loaded |
| LazyLoad.FirstUnloaded | src/runtime/lazy_load.ts:53 | Returns the first unloaded image, or nothing exactly when all are loaded |
| LazyLoad.LoadingReducesCount | src/runtime/lazy_load.ts:55-56 | Loading a waiting image leaves one fewer waiting |
| LazyLoad.CountZeroIffAllLoaded | src/runtime/lazy_load.ts:53-56 | No images are waiting exactly when all are loaded |
| LazyLoad.FindEntry | src/runtime/lazy_load.ts:58-59 | Finds the first entry with the key, and finds none exactly when no entry has it |
| LazyLoad.WithoutKey | src/runtime/lazy_load.ts:64 | Exactly the entries with another key remain |
| LazyLoad.WithoutKeyIsFilter | src/runtime/lazy_load.ts:64 | Dropping a key is `filter` with "another key": the remaining entries keep their order and multiplicity |
| LazyLoad.Fire | src/runtime/lazy_load.ts:52-65 | A successful tick keeps the number of carousels, the lazy images, the timer counter and the scroll listeners |
| LazyLoad.FireEffect | src/runtime/lazy_load.ts:52-65 | A tick loads the carousel's first waiting image and leaves the timers alone. With nothing waiting it clears one timer recorded under the carousel's key and drops only that key's entries. Other carousels are untouched |
| LazyLoad.Tick | src/runtime/lazy_load.ts:52-65 | A firing of a timer that has been cleared changes nothing |
| LazyLoad.FirePreservesConsistent | src/runtime/lazy_load.ts:52-69 | In a consistent state a tick never fails, stays consistent, and clears exactly its own timer once nothing is waiting |
| LazyLoad.TickPreservesConsistent | src/runtime/lazy_load.ts:52-69 | One firing of any timer keeps the bookkeeping consistent |
| LazyLoad.TicksPreserveConsistent | src/runtime/lazy_load.ts:52-69 | Any number of firings keeps the bookkeeping consistent |
| LazyLoad.TickAdvances | src/runtime/lazy_load.ts:52-65 | With images waiting, one firing loads one of them and the timer keeps running for its carousel. With none waiting, it clears the timer, every image having loaded |
| LazyLoad.TicksLoadWholeCarousel | src/runtime/lazy_load.ts:52-67 | Given more ticks than images waiting, every image of the carousel is loaded and its timer is cleared |
| LazyLoad.CarouselTicksEarly | src/runtime/lazy_load.ts:48-69 | An interval of 5000 starts one timer with period 4000, records it under key 0, and loads the first image at once |
| LazyLoad.ClearIntervals | src/runtime/lazy_load.ts:22-23 | Every recorded timer is stopped and the list is emptied; other state is kept |
| LazyLoad.SetUpCarousels | src/runtime/lazy_load.ts:41-78 | The run throws exactly when some carousel still to be started has an interval and no images. The carousels already passed, the lazy images and the scroll listeners are kept |
| LazyLoad.SetUpStartsCarousels | src/runtime/lazy_load.ts:45-76 | Without a throw every carousel is started: with an interval its first image is loaded, the rest untouched, and a timer with period interval − 1000 is recorded under its key; without one all its images are loaded |
| LazyLoad.SetUpGrows | src/runtime/lazy_load.ts:45-77 | Starting carousels only adds: the timer counter never goes down, and earlier timers and entries stay |
| LazyLoad.StartedSurvivesGrowth | src/runtime/lazy_load.ts:45-77 | A started carousel stays started while later carousels add timers and entries |
| LazyLoad.SetUpStep | src/runtime/lazy_load.ts:48-76 | Starting carousel k touches no other carousel, the lazy images or the listeners, and takes one fresh timer id exactly when k has an interval |
| LazyLoad.SetUpStepConsistent | src/runtime/lazy_load.ts:48-69 | Starting one carousel keeps the bookkeeping consistent and records entries only under keys up to that carousel's |
| LazyLoad.SetUpKeepsConsistent | src/runtime/lazy_load.ts:41-78 | Starting carousels keeps the timer bookkeeping consistent and uses only fresh timer ids |
| LazyLoad.SetUpCarouselsStep | src/runtime/lazy_load.ts:48-76 | One carousel step starts that carousel and keeps the bookkeeping consistent |
| LazyLoad.Execute | src/runtime/lazy_load.ts:21-39 | Corrected `execute`: exactly one scroll listener, and the first pass with the wide margin. Carousels are started, and a consistent state stays consistent. Timers recorded before are stopped |
| LazyLoad.ExecuteAsWritten | src/runtime/lazy_load.ts:21-39 | `execute` as written adds a scroll listener on every call |
| LazyLoad.SetUpIgnoresListeners | src/runtime/lazy_load.ts:41-78 | Starting carousels neither reads nor changes the number of scroll listeners |
| LazyLoad.ExecuteAsWrittenOnlyAddsListener | src/runtime/lazy_load.ts:21-39 | `execute` as written differs from the corrected one only by the extra listener: the same throw, timers, carousels and images |
| LazyLoad.ScrollListenersAccumulate | src/runtime/lazy_load.ts:34-38 | Two calls as written leave two scroll listeners |
| LazyLoad.ScrollListenerRegisteredOnce | src/runtime/lazy_load.ts:34-38 | With the listener replaced, two calls leave one listener |
| LazyLoad.ReExecuteStopsOldTimers | src/runtime/lazy_load.ts:21-26 | A second `execute` stops every carousel timer the first one started |
| Text.IndexOf | src/runtime/progressive_load.ts:16 | Finds the first occurrence, and finds one exactly when the pattern is contained |
| Text.ReplaceFirst | src/runtime/progressive_load.ts:19 | Only the first occurrence is replaced, the length changing by the difference of the two, and a string without the pattern is unchanged |
| Text.FirstOccurrenceAfter | src/runtime/progressive_load.ts:19 | In `a + pat + b`, with `pat` border-free and absent from `a`, the first occurrence of `pat` starts right after `a` |
| Text.RemoveFirstOccurrence | src/runtime/progressive_load.ts:43 | Removing a border-free pattern from `a + pat + b` gives `a + b` when `a` lacks it |
| Text.Split | src/runtime/helpers/html_elements.helpers.ts:34 | `split(',')` gives at least one piece, and no piece contains the separator |
| Text.JoinSplit | src/runtime/helpers/html_elements.helpers.ts:34 | Joining the pieces gives the string back |
| Text.SplitSinglePiece | src/runtime/helpers/html_elements.helpers.ts:34 | Exactly one piece exactly when there is no separator |
| Text.SplitTrailingSeparator | src/runtime/helpers/html_elements.helpers.ts:40 | A trailing separator adds one empty last piece |
| Seqs.FindFrom | src/buildtime/analyse_images.ts:53 | `find` from index k returns the first passing index, and nothing exactly when no element from k on passes |
| Seqs.Filter | src/buildtime/analyse_images.ts:19 | The kept elements satisfy the test and come from the input, and every input element that passes is kept |
| Seqs.FilterConcat | src/buildtime/helpers/file.helpers.ts:25 | Filtering a concatenation concatenates the filtered parts |

## Left out

- Jimp (`read`, `contrast`, `scan`, `getPixelColor`, `scale`, `blur`, `write`) is an external codec. The decoded pixels and the success of reading and writing are inputs.
- `FileHelpers.imageCompressionLevel` is not part of this model. Its result is an input.
- The file system, the `promptly` prompts and all console messages are I/O. Joining paths is plain concatenation with `/`, without `path.join` normalisation.
- `fs.lstatSync` throwing on a vanished entry is not modelled. Every listed entry is a file or a folder.
- IEEE doubles are not modelled. Colours use exact reals, and `Math.floor` is `.Floor` of an exact real. The many-decimal colour test vectors depend on doubles and on real `pow`, cube root and `sqrt`, so they are not restated.
- ColorHelpers.Rgb2Xyz: states the result only for greys, because `Math.pow` is a parameter here and a colour's XYZ has no closed form without it.
- ColorHelpers.Xyz2Lab: states only when `a` and `b` vanish and the values at the white point and at zero, because the cube root is a parameter here.
- PolyfillHelpers.AsyncForEach: the array is an immutable sequence whose length is fixed before the first call. The source re-reads `array.length` on every iteration and hands each callback the live array, so a callback that pushes or splices would change which indices run. Neither caller, `analyseImages` nor `prepareProgressiveImages`, changes the array it iterates.
- AnalyseImages.Analyse: errors thrown inside the scan by the colour maths are not modelled, because the maths is total here. Decode and compression errors are modelled, and are isolated per image.
- `wrapImage`, `unwrapImage` and `getSiblings` are not part of this model. Unwrapping is counted, and "has a high-res sibling" is an input.
- The absolute URL the browser returns for `image.src` is not modelled. `src` is the attribute text.
- Timers, event listeners, `querySelectorAll` and `getBoundingClientRect` are browser machinery. Ticks and scroll passes are explicit steps, element positions are inputs, and timer ids come from a counter.
- LazyLoad.SetUpGrows: keeps earlier timers only for ids below the next id, because the browser's uniqueness of ids is an assumption (`Consistent`), not a fact the function can check.
- LazyLoad.Tick: a firing that would throw (no entry recorded under the carousel's key, which a consistent state rules out) leaves the state unchanged and the interval keeps firing; the browser's logging of the uncaught error is not modelled.
- LazyLoad.Execute: keeps the bookkeeping consistent, and stops earlier timers, only when the starting state is consistent.
- `parseInt` returning `NaN` for a non-numeric `data-optimus-interval` is not modelled. The interval is an integer.
- An image that is both a lazy image and a carousel image is modelled as two independent copies.
- The carousel toggle buttons, the `srcset`/`sizes` size-expansion warnings, `supportsWebp`, `html_elements_check.ts`, `inject_css.ts`, `helpers.ts`, `index.ts` and the webpack configuration are outside this model: they are DOM or Promise plumbing.

## Findings

| source | as written | input that shows it | evidently intended | confidence | as-written member | corrected member |
|---|---|---|---|---|---|---|
| src/runtime/lazy_load.ts:34-38 | `removeEventListener` is given a new arrow function created on this call. That function was never attached, so the listener of an earlier `execute` stays and a new one is added | calling `execute` twice (a single-page application re-running lazy loading) leaves two scroll listeners | the comment says multiple scroll listeners are to be prevented: one listener after any number of calls | high, not executed | LazyLoad.ExecuteAsWritten (ScrollListenersAccumulate) | LazyLoad.Execute (ScrollListenerRegisteredOnce) |

The duplicate listener does no functional harm, because a repeated scroll
pass loads nothing more (`LazyLoad.ScrollPassIdempotent`). It does repeat the
work on every scroll event.
