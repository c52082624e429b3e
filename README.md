# Image segmentation by runs and union-find

This project models the image handler of the ImageViewer application
(`ImageViewer/src/src/de/uni_bremen/pi2/ImageHandler.java`). The handler takes an
original image and derives three images from it, each computed on first request and
kept from then on:

- a greyscale image;
- a black-and-white image, cut at the Otsu threshold of the greyscale histogram;
- a segmented image, in which every connected white region is meant to get its own
  colour (see Findings).

Segmentation works in four steps:

1. Extract the maximal horizontal white intervals ("runs") in scan order.
2. Unite each pair of runs that overlap on adjacent rows in a disjoint-set forest. The
   forest uses path-halving find, and a union that hangs the later root under the
   earlier one.
3. Drive the unions with a two-index sweep over the run list.
4. Paint every run, drawing a fresh colour whenever the visited run is a root.

Modules, one file each:

- `Raster` (`raster.dfy`): pixel grids, the low byte `v & 255`, the black/white tone,
  the paint of a segmented pixel.
- `Otsu` (`otsu.dfy`): the histogram, the running class counts and sums, the
  between-class variance, and the threshold sweep as a function (`BestThreshold`). It
  also holds the imperative `BuildHistogram` and `OtsuThreshold`, which are proved
  equal to that function.
- `Binarize` (`binarize.dfy`): the black/white cut, pixel by pixel.
- `Runs` (`runs.dfy`): run extraction.
- `UnionFind` (`unionfind.dfy`): the forest as a `parent: array<int>` in the class
  `RunForest`. Run `k`'s parent is an index no greater than `k`; a root is its own
  parent. The file has the recursive root function, `GetRoot`, `Merge` and the merge
  sweep. Connectivity is defined by walks over vertically adjacent, overlapping runs.
- `Colouring` (`colouring.dfy`): the colouring loop, both as written and corrected (see
  Findings), plus the counterexample image.
- `Handler` (`handler.dfy`): the class `ImageHandler` with its three memo fields, and
  the whole segmentation `Segment` with the pixel-level facts about its result.

The threshold the code selects for an image with exactly two intensities `a < b` is `a`
itself, not a value strictly between the two; the model follows the code
(`Otsu.TwoClusterThreshold`).

## Model

| member | source | states |
|---|---|---|
| Otsu.BuildHistogram | ImageViewer/src/src/de/uni_bremen/pi2/ImageHandler.java:255-260 | the array built by the nested loops holds, in bin `b`, the number of pixels whose low byte is `b` |
| Otsu.HistogramTotal | ImageViewer/src/src/de/uni_bremen/pi2/ImageHandler.java:255-263 | the 256 bins are non-negative and sum to `width * height`, the initial `countHigh` |
| Otsu.PrefixHistogram | ImageViewer/src/src/de/uni_bremen/pi2/ImageHandler.java:262-276 | the first `n` bins sum to the number of pixels of intensity below `n`, so `countLow` at threshold `t` counts the pixels of intensity at most `t` |
| Otsu.OtsuThreshold | ImageViewer/src/src/de/uni_bremen/pi2/ImageHandler.java:254-291 | the sweep with running `countLow`/`countHigh`/`sumLow`/`sumHigh` returns a threshold in `[0, 255]` whose variance no threshold exceeds and which every smaller threshold falls strictly short of; it equals `BestThreshold` of the histogram |
| Otsu.SweepFrom | ImageViewer/src/src/de/uni_bremen/pi2/ImageHandler.java:271-288 | the sweep from any start yields a threshold in `[0, 255]` |
| Otsu.BestThreshold | ImageViewer/src/src/de/uni_bremen/pi2/ImageHandler.java:271-290 | the selected threshold is in `[0, 255]` |
| Otsu.SweepFindsFirstMaximum | ImageViewer/src/src/de/uni_bremen/pi2/ImageHandler.java:273-288 | from a state where `bestThreshold` is the first maximum so far, the remaining sweep ends at the first maximum over all 256 thresholds |
| Otsu.BestIsFirstMaximum | ImageViewer/src/src/de/uni_bremen/pi2/ImageHandler.java:271-290 | the selected threshold maximises the score, and the strict `>` makes it the smallest maximiser |
| Otsu.VarianceNonNegative | ImageViewer/src/src/de/uni_bremen/pi2/ImageHandler.java:279-282 | `countLow * countHigh * diff * diff` is never negative |
| Otsu.ScoreNonNegative | ImageViewer/src/src/de/uni_bremen/pi2/ImageHandler.java:278-287 | the score of every threshold is at least the initial `bestVar` of 0 |
| Otsu.NoSplitGivesZero | ImageViewer/src/src/de/uni_bremen/pi2/ImageHandler.java:271-290 | when no threshold leaves both classes non-empty, the result is the default 0 |
| Otsu.SplitScorePositive | ImageViewer/src/src/de/uni_bremen/pi2/ImageHandler.java:278-287 | a threshold that leaves both classes non-empty has variance at least 1, so strictly above 0 |
| Otsu.BestSplitsWhenPossible | ImageViewer/src/src/de/uni_bremen/pi2/ImageHandler.java:271-290 | if some threshold splits the pixels into two non-empty classes, the selected one does |
| Otsu.TwoClusterThreshold | ImageViewer/src/src/de/uni_bremen/pi2/ImageHandler.java:254-291 | for a histogram with exactly two occupied intensities `a < b`, the result is `a` |
| Otsu.OneBinThreshold | ImageViewer/src/src/de/uni_bremen/pi2/ImageHandler.java:271-290 | a histogram with one occupied intensity gives threshold 0 |
| Otsu.UniformImageThreshold | ImageViewer/src/src/de/uni_bremen/pi2/ImageHandler.java:254-291 | an image whose pixels are all equal gives threshold 0 |
| Otsu.EmptyImageThreshold | ImageViewer/src/src/de/uni_bremen/pi2/ImageHandler.java:254-291 | an image with no pixels gives threshold 0 |
| Binarize.BlackAndWhite | ImageViewer/src/src/de/uni_bremen/pi2/ImageHandler.java:146-150 | the nested loops produce the binary image of the same size in which a pixel is black exactly when `(grey & 255) <= threshold` |
| Binarize.RowBlackIsLow | ImageViewer/src/src/de/uni_bremen/pi2/ImageHandler.java:148 | the black pixels of a row are its pixels of intensity at most the threshold |
| Binarize.BlackCountIsLow | ImageViewer/src/src/de/uni_bremen/pi2/ImageHandler.java:146-150 | the black pixels of the image are its pixels of intensity at most the threshold |
| Binarize.BlackPixelsAreLowClass | ImageViewer/src/src/de/uni_bremen/pi2/ImageHandler.java:145-148 | the number of black pixels is the `countLow` of the chosen threshold |
| Runs.ExtractRuns | ImageViewer/src/src/de/uni_bremen/pi2/ImageHandler.java:170-190 | every run is inside the image, non-empty, white throughout and bounded by a black pixel or the border on both sides; runs come in scan order with same-row runs apart; every white pixel lies in exactly one run |
| UnionFind.RootOf | ImageViewer/src/src/de/uni_bremen/pi2/ImageHandler.java:85-94 | following parents from `k` ends at a run that is its own parent and is not later than `k` |
| UnionFind.HalvingKeepsRoot | ImageViewer/src/src/de/uni_bremen/pi2/ImageHandler.java:89-90 | replacing a parent by its grandparent keeps the forest acyclic and the root of every run unchanged |
| UnionFind.LinkMovesOneTree | ImageViewer/src/src/de/uni_bremen/pi2/ImageHandler.java:238-244 | hanging a root under an earlier root moves exactly the runs of that tree to the new root |
| UnionFind.WalkKeepsRoot | ImageViewer/src/src/de/uni_bremen/pi2/ImageHandler.java:192-207 | once all adjacent runs share roots, connected runs share a root |
| UnionFind.WalksAfterMerge | ImageViewer/src/src/de/uni_bremen/pi2/ImageHandler.java:197-200 | after a merge of adjacent runs every run still has a walk of adjacent runs to its new root |
| UnionFind.SweepStep | ImageViewer/src/src/de/uni_bremen/pi2/ImageHandler.java:195-207 | one iteration keeps the sweep invariant: runs before `i` share roots with their adjacent runs, runs before `j` meet no run after `i`, and `j <= i` |
| UnionFind.TrailingAdvance | ImageViewer/src/src/de/uni_bremen/pi2/ImageHandler.java:202-203 | advancing `j` is safe when run `j` lies too far up or left to meet run `i` or any later run |
| UnionFind.LeadingAdvance | ImageViewer/src/src/de/uni_bremen/pi2/ImageHandler.java:204-205 | otherwise no run after `j` meets run `i`, so advancing `i` is safe |
| UnionFind.SameRootIsConnected | ImageViewer/src/src/de/uni_bremen/pi2/ImageHandler.java:192-207 | when adjacent runs share roots and every run walks to its root, sharing a root is the same as being connected |
| UnionFind.RunForest.constructor | ImageViewer/src/src/de/uni_bremen/pi2/ImageHandler.java:70-75 | every run starts as its own parent, hence its own root |
| UnionFind.RunForest.GetRoot | ImageViewer/src/src/de/uni_bremen/pi2/ImageHandler.java:85-94 | returns the root of `k`, a run that is its own parent, while path halving leaves every run's root unchanged, so a second call returns the same root |
| UnionFind.RunForest.Merge | ImageViewer/src/src/de/uni_bremen/pi2/ImageHandler.java:232-245 | afterwards both runs share a root, namely the old root that lies higher up, or on the same row further left; runs of neither tree keep their root and runs of both trees move to the new one |
| UnionFind.RunForest.Link | ImageViewer/src/src/de/uni_bremen/pi2/ImageHandler.java:240-243 | setting a root's parent moves exactly that root's tree |
| UnionFind.RunForest.MergeTracked | ImageViewer/src/src/de/uni_bremen/pi2/ImageHandler.java:197-200 | merging adjacent runs never separates runs that shared a root, and joins the two runs |
| UnionFind.RunForest.SweepOnce | ImageViewer/src/src/de/uni_bremen/pi2/ImageHandler.java:196-206 | one iteration merges only strictly overlapping runs on adjacent rows, advances exactly one of `i` and `j`, and keeps the sweep invariant |
| UnionFind.RunForest.MergeSweep | ImageViewer/src/src/de/uni_bremen/pi2/ImageHandler.java:191-207 | the sweep ends after at most `2 * runs.size()` iterations with every pair of adjacent runs sharing a root, and two runs share a root exactly when they are connected |
| Colouring.RootsAreRootMap | ImageViewer/src/src/de/uni_bremen/pi2/ImageHandler.java:211-215 | the roots of a forest are roots themselves and never later than their runs |
| Colouring.Draws | ImageViewer/src/src/de/uni_bremen/pi2/ImageHandler.java:211-215 | at most one colour is drawn per visited run |
| Colouring.FirstRunDraws | ImageViewer/src/src/de/uni_bremen/pi2/ImageHandler.java:209-215 | run 0 is a root, so a colour is drawn before any run is painted and the initial `WHITE` is never used |
| Colouring.DrawsGrowPastRoot | ImageViewer/src/src/de/uni_bremen/pi2/ImageHandler.java:211-215 | visiting a root draws a colour not drawn before |
| Colouring.CarriedColour | ImageViewer/src/src/de/uni_bremen/pi2/ImageHandler.java:209-220 | the colour held when run `z` is painted is one of the draws made up to `z` |
| Colouring.CarriedAgreesAtRoots | ImageViewer/src/src/de/uni_bremen/pi2/ImageHandler.java:212-215 | at a root, the colour as written is the region's own colour |
| Colouring.CarriedChoice | ImageViewer/src/src/de/uni_bremen/pi2/ImageHandler.java:212-215 | as written, a root draws the next colour and every other run keeps the colour held |
| Colouring.ColourizeAsWritten | ImageViewer/src/src/de/uni_bremen/pi2/ImageHandler.java:208-220 | the loop as written leaves the forest's roots unchanged and paints each run with the last colour drawn at or before it, the last run covering a pixel deciding its paint |
| Colouring.CarriedColourCrossesRegions | ImageViewer/src/src/de/uni_bremen/pi2/ImageHandler.java:209-220 | on the notch image the loop as written gives the isolated run 1 and the lower part of region {0, 2} the same colour, while the region colour keeps them apart |
| Colouring.ComponentColour | ImageViewer/src/src/de/uni_bremen/pi2/ImageHandler.java:209-220 | the colour of a run is a draw made at or before its root |
| Colouring.ComponentColourStep | ImageViewer/src/src/de/uni_bremen/pi2/ImageHandler.java:212-215 | a root takes the next draw and every other run its root's colour |
| Colouring.ComponentColourIffSameRoot | ImageViewer/src/src/de/uni_bremen/pi2/ImageHandler.java:209-220 | two runs get the same region colour exactly when they have the same root |
| Colouring.ColourChoice | ImageViewer/src/src/de/uni_bremen/pi2/ImageHandler.java:212-215 | one step of the corrected loop keeps the list of region colours |
| Colouring.RegionColour | ImageViewer/src/src/de/uni_bremen/pi2/ImageHandler.java:212-215 | the colour chosen for run `z` is its region colour, and the draws and colour list stay consistent |
| Colouring.Blank | ImageViewer/src/src/de/uni_bremen/pi2/ImageHandler.java:167 | the fresh segmented image has the binary image's size with every pixel unpainted |
| Colouring.PaintAtCovering | ImageViewer/src/src/de/uni_bremen/pi2/ImageHandler.java:216-219 | a pixel covered by exactly one painted run carries that run's colour, and one covered by none stays unpainted |
| Colouring.PaintedStep | ImageViewer/src/src/de/uni_bremen/pi2/ImageHandler.java:216-219 | painting run `n` over the raster of runs before it gives the raster of runs up to `n` |
| Colouring.PaintRun | ImageViewer/src/src/de/uni_bremen/pi2/ImageHandler.java:217-219 | the inner loop paints exactly the pixels of run `n` with its colour and leaves every other pixel as it was |
| Colouring.Colourize | ImageViewer/src/src/de/uni_bremen/pi2/ImageHandler.java:208-220 | the corrected loop leaves the forest's roots unchanged and paints each run with the colour drawn for its root |
| Colouring.NotchRunsAreItsRuns | ImageViewer/src/src/de/uni_bremen/pi2/ImageHandler.java:170-190 | the three runs listed are the runs of the notch image, in scan order, covering its white pixels |
| Colouring.NotchRegions | ImageViewer/src/src/de/uni_bremen/pi2/ImageHandler.java:192-207 | runs 0 and 2 of the notch form one region and run 1 another |
| Colouring.NotchRoots | ImageViewer/src/src/de/uni_bremen/pi2/ImageHandler.java:192-207 | any forest whose roots match the notch regions has root snapshot `[0, 1, 0]` |
| Handler.Segment | ImageViewer/src/src/de/uni_bremen/pi2/ImageHandler.java:162-224 | extraction, sweep and colouring give an image of the binary image's size, painted exactly at its white pixels, that is a segmentation: each run painted with one colour, and two runs share a colour exactly when they are connected |
| Handler.SegmentFacts | ImageViewer/src/src/de/uni_bremen/pi2/ImageHandler.java:162-224 | the painted raster of correctly extracted runs with connectivity-exact roots is a segmentation |
| Handler.PaintedIffWhite | ImageViewer/src/src/de/uni_bremen/pi2/ImageHandler.java:155-161 | a segmented pixel is painted exactly when it is white |
| Handler.RowNeighboursShareColour | ImageViewer/src/src/de/uni_bremen/pi2/ImageHandler.java:155-161 | two white neighbours on a row carry the same colour |
| Handler.ColumnNeighboursShareColour | ImageViewer/src/src/de/uni_bremen/pi2/ImageHandler.java:155-161 | two white neighbours in a column carry the same colour |
| Handler.ColourIffConnected | ImageViewer/src/src/de/uni_bremen/pi2/ImageHandler.java:155-161 | two white pixels carry the same colour exactly when their runs are connected |
| Handler.ImageHandler.constructor | ImageViewer/src/src/de/uni_bremen/pi2/ImageHandler.java:102-104 | keeps the original image; no derived image is computed yet |
| Handler.ImageHandler.GetOriginal | ImageViewer/src/src/de/uni_bremen/pi2/ImageHandler.java:111-113 | returns the original image |
| Handler.ImageHandler.GetGrayscale | ImageViewer/src/src/de/uni_bremen/pi2/ImageHandler.java:121-132 | the greyscale image is computed only while absent, is then kept unchanged, and equals the pixelwise conversion of the original; the other memo fields are untouched |
| Handler.ImageHandler.GetBlackAndWhite | ImageViewer/src/src/de/uni_bremen/pi2/ImageHandler.java:141-153 | the black-and-white image is computed only while absent, from the greyscale image and its Otsu threshold, and is then kept unchanged |
| Handler.ImageHandler.GetSegmented | ImageViewer/src/src/de/uni_bremen/pi2/ImageHandler.java:162-224 | the segmented image is computed only while absent, from the black-and-white image, is a segmentation of it (with the corrected colouring), and is then kept unchanged |

## Left out

- Greyscale conversion: the conversion of an original pixel into the grey raster happens
  inside the imaging library. It is the parameter `luma` of `Handler.ImageHandler`, and
  only its low byte is used afterwards.
- `getRandomColor`, `java.util.Random` and the HSB-to-RGB conversion use floating point
  and library code. A colour is modelled as the index of its draw. Distinct draws may
  yield equal RGB values in the program; the model treats them as distinct colours.
- Image objects, their allocation, `getRGB`/`setRGB` and the packed ARGB values are not
  modelled. Images are grids of values: pixel values for the original image, which
  `luma` maps to grey values; intensities for the greyscale image; black/white tones for
  the binary image; and unpainted or colour-index pixels for the segmented image.
- The unused `jdk.internal.jimage.ImageReader` import and the viewer's user interface
  are not part of this model.
- Otsu.OtsuThreshold: the variance is compared in exact rational arithmetic, not in
  `double`. Rounding could make the program pick a different threshold when two
  variances are nearly equal.
- Otsu.OtsuThreshold: integers are unbounded, so the wrap-around of Java's 32-bit `int`
  is not modelled. The `int` values that can wrap are `sumHigh` (lines 268 and 277),
  which starts as the sum of all intensities, `sumLow` (line 276), and the products
  `histogram[i] * i` (line 268) and `histogram[threshold] * threshold` (lines 276-277).
  `sumHigh` wraps once the pixel count times the mean intensity exceeds 2^31 - 1, for
  example on a 4000 x 3000 image of mean intensity 179 or more. The product
  `histogram[b] * b` wraps once bin `b` holds more than (2^31 - 1) / b pixels (bin 0
  never), so no product wraps before some bin holds more than (2^31 - 1) / 255, about
  8.4 million, pixels. On such images the program's threshold can differ from the
  modelled one. `countLow * countHigh` (line 282) is computed in `double`, after the
  cast, and does not wrap; `countHigh` (line 263) wraps only beyond 2^31 - 1 pixels.
- Run objects with `parentRun` references are indices into one `parent` array. A run's
  parent is a run no later than itself in scan order, which rules out cycles by
  construction.
- UnionFind.RunForest.MergeSweep: it requires the forest of singletons. The program
  calls the sweep right after creating the runs, so that is the only state it meets.
- Handler.Segment: it uses the corrected colouring `Colouring.Colourize`, not the loop
  as written (see Findings).
- Handler.ImageHandler.GetSegmented: it computes the segmented image with
  `Handler.Segment`, hence with the corrected colouring `Colouring.Colourize`. The
  program's loop as written does not give every region one colour of its own (see
  Findings), so its `getSegmented` does not promise a segmentation in this sense.
- Handler.Segment: connectivity of a segmentation is stated for runs, as walks between
  vertically adjacent, overlapping runs. At pixel level, the model proves that white
  row and column neighbours share a colour, and that two white pixels share a colour
  exactly when their runs are connected. It does not state a separate pixel-path
  definition of regions.
- Handler.ImageHandler: the methods run sequentially. Concurrent calls are not modelled.
- Handler.ImageHandler: the program stores a fresh blank image in each memo field before
  filling it (lines 124, 144, 167); the model sets the field only once the image is
  computed. The two differ only when the computation is interrupted by an exception or
  observed by a concurrent call, neither of which is modelled.

## Findings

| source | as written | input that shows it | evidently intended | confidence | as-written member | corrected member |
|---|---|---|---|---|---|---|
| ImageViewer/src/src/de/uni_bremen/pi2/ImageHandler.java:209-220 | `color` is carried across loop iterations and changes only when the visited run is a root. A non-root run is painted with the colour of the most recent root in scan order, which can belong to another region. | The 3 × 2 image with rows white-black-white and white-black-black. Its runs are 0 = (0..1, row 0), 1 = (2..3, row 0) and 2 = (0..1, row 1). Runs 0 and 2 form one region with root 0; run 1 is its own region. Run 2 is painted with run 1's colour, so region {0, 2} gets two colours, one of which it shares with region {1}. | Every run gets the colour drawn for its own root, so that each connected region has one colour of its own. | not executed | Colouring.CarriedColourCrossesRegions | Colouring.ComponentColourIffSameRoot |
