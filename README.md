# slice-of-life, modelled in Dafny

slice-of-life makes one picture out of a directory of photos taken over time,
for example a webcam's frames across a day. The picture is a montage. The
first image (after sorting the file names) fixes the canvas size. The canvas
is then cut into one band per image, vertical columns or horizontal rows
with `-horizontal`, for as long as there is room: with N images and a canvas
E units long along the cut, there are min(N, E) bands. Band k shows image k
at exactly the position it has in that image. The result is written as
`[prefix_]slice_of_life_<dir>_<N>.jpeg`.

Two versions of the merge are modelled:

- `merge` (merge.go) is the current one. The slicer, run by `wait` on the
  calling goroutine, cuts the canvas into bands. Each band becomes a *photo job* (path, band `toCopy`, read
  corner `toPlace`). Worker goroutines load each job's image and crop the
  band out of it. A combiner draws the crops onto a fresh canvas.
- main.go's older `mergeAction` copies one column per image, from left to
  right.

Modules:

| module | file | what it holds |
|---|---|---|
| `Wrappers` | wrappers.dfy | `Option`, `Result` |
| `Geometry` | geometry.dfy | `image.Point`, `image.Rectangle`, `image.Rect` |
| `Raster` | raster.dfy | RGBA rasters as `array2<Pixel>` indexed `[x, y]`; `image.NewRGBA`; `At`, the definition of `RGBA.At` (the stored pixel inside the bounds, the zero colour outside) that the pixel-level contracts are stated with; `draw.Draw` with the `Src` operator (`DrawSrc`), clipped to both the source and the destination |
| `Strings` | strings.dfy | Go's string order, `sort.Strings` (`SortStrings`), fmt's `%d` (`Decimal`) |
| `Listing` | listing.dfy | the directory filter and `getImageList` |
| `Naming` | naming.dfy | the output file names of both commands |
| `Jobs` | jobs.dfy | the class `PhotoJob` (`newPhotoJob`, `load`, `Bounds`); the decoded files as a `Disk` map |
| `Partition` | partition.dfy | the band-cutting loop of both slicers as the pure function `SlicePlan`, and the lemmas saying the bands tile the canvas |
| `Merge` | merge.dfy | the class `ImageSlicer` (slicers, handleImage, straightCombiner, wait) and `MergeAction` |
| `Legacy` | legacy.dfy | main.go's `mergeAction` and its relation to the vertical slicer |

How the source becomes Dafny:

- **Goroutines and workers.** They run one after another: the slicer, then
  the handling of every job in the order sent, then the combiner. This is
  faithful to the result: the combiner's postcondition fixes every pixel of
  the canvas, and `Merge.CombineOrderIrrelevant` proves that any order of the
  same jobs gives the same canvas. The bands are pairwise disjoint
  (`Partition.SlicePlanDisjoint`), so that postcondition can be met at all.
- **Panics become errors.** In Go, three situations end in a runtime panic:
  - neither `-vertical` nor `-horizontal` is set, so `is.slicer` is nil;
  - a worker's image does not load; the error is ignored at merge.go:244
    and `draw.Draw` then dereferences the nil image;
  - in main.go, an image of the column loop does not load; the error is
    ignored at main.go:268.

  The model reports each of these as an error value
  (`NoSlicer`, `SliceLoadFailed`). When several bands fail, the first one in
  slicing order is the one reported.
- **Both flags set.** `horizontalSlicer` wins, because it is assigned last
  (merge.go:144-149).
- **I/O and the file system are inputs.**
  - The directory listing is a `Result<seq<Entry>, ListError>`.
  - What `os.Open` plus `image.Decode` yield for each path is a
    `Disk` map. A path the map lacks fails with `OpenFailed`.
  - The directory's base name is passed in as `base`.

Three behaviours of the code worth knowing:

- **The filter.** The file filter is the regular expression `.(jpe?g|png)$`
  (merge.go:93). Its dot is not escaped, so it stands for any character but
  a newline and a `.` before the extension is not required: `xpng` is kept
  too. The match is case sensitive. `Listing.IsImageNameMatchesPattern`
  shows that the model matches the expression as written.
- **The extents.** Floor division (merge.go:173) gives the remainder to the
  last images, so ten columns over three images give `[3, 3, 4]`
  (`Partition.SlicePlanExample`).
- **The number of jobs.** The slicer loop (merge.go:171) stops once the
  extent is used up, so it emits min(N, E) jobs and the last N - E images
  get none (`Partition.SlicePlanJobs`).

## Model

| member | source | states |
|---|---|---|
| `Geometry.Rect` | merge.go:179 | `image.Rect` gives a canonical rectangle whose size is the distance between the corners, equal to the rectangle given when the corners are already ordered |
| `Raster.BoundsOf` | merge.go:75 | a raster's bounds start at the origin and contain exactly the array's points |
| `Raster.NewRGBA` | merge.go:250 | a new RGBA buffer is fresh, has the requested bounds and is all zero colour |
| `Raster.DrawSrc` | merge.go:251 | `draw.Draw` with `Src`: every destination point inside the rectangle whose aligned source point exists takes that source pixel; every other destination pixel is unchanged |
| `Strings.LeTotal` | merge.go:103 | the string order compares every pair |
| `Strings.LeAntisymmetric` | merge.go:103 | two strings each at most the other are equal |
| `Strings.LeTransitive` | merge.go:103 | the string order is transitive |
| `Strings.LeReflexive` | merge.go:103 | every string is at most itself |
| `Strings.SortedPairwise` | merge.go:103 | in a sorted list every earlier string is at most every later one |
| `Strings.SortedFrom` | merge.go:103 | in a sorted list the string at i is at most the one at j for i <= j |
| `Strings.Insert` | merge.go:103 | inserting into a sorted list keeps it sorted and adds exactly one copy of the string |
| `Strings.SortStrings` | merge.go:103 | `sort.Strings` yields a sorted permutation of its input |
| `Strings.SortedHeads` | merge.go:103 | two sorted permutations of each other start with the same string |
| `Strings.TailMultiset` | merge.go:103 | dropping the head removes one copy of it, and a sorted list stays sorted |
| `Strings.SortedPermutationUnique` | merge.go:103 | there is only one sorted permutation, so any correct sort gives the same list |
| `Strings.Decimal` | merge.go:158 | `%d` of a count is a non-empty string of digits with no leading zero: it starts with `0` only when it is `0` itself |
| `Strings.DecimalRoundTrip` | merge.go:158 | reading back the decimal rendering of a count gives the count |
| `Listing.IsImageNameMatchesPattern` | merge.go:93 | the suffix test says yes exactly when the source's regular expression finds a match: a non-newline character followed by an extension that ends the name |
| `Listing.ImagePathsMembers` | merge.go:88-102 | a path is collected exactly when some non-directory entry with an image name yields that path |
| `Listing.ImagePathsStep` | merge.go:88-102 | each further entry appends exactly what that entry contributes, in listing order |
| `Listing.GetImageList` | merge.go:78-105 | a listing error gives no files and the error; otherwise the result is sorted, is the sorted list of collected paths, and is their permutation |
| `Naming.Sanitize` | merge.go:153-158 | the sanitized name keeps the length and every letter or digit, and every other character becomes `_` |
| `Naming.SanitizeIdempotent` | merge.go:158 | sanitizing twice changes nothing more, and only letters, digits and `_` remain |
| `Naming.DigitsBeforeExtension` | merge.go:158 | a head ending in `_`, then digits, then `.jpeg`: the digits can be cut back out before `.jpeg` |
| `Naming.OutputFilenameSuffix` | merge.go:153-158 | the output name ends in `_`, the decimal image count and `.jpeg` |
| `Naming.OutputFilenamePrefix` | merge.go:153-158 | a non-empty prefix starts the output name, followed by `_` |
| `Naming.OutputFilenameNoSlash` | merge.go:153-158 | with no `/` in the prefix the output name has no `/`, so the file lands in the working directory |
| `Naming.OutputFilenameParts` | merge.go:153-158 | the output name has the prefix and `_` in front, and ends in `.jpeg`; the image count reads back from the digits before `.jpeg`; no `/` is added |
| `Naming.LegacyFilenameCount` | main.go:278 | the older name is `slice_of_life_`, then digits that read back as the image count, then `.jpeg` |
| `Jobs.PhotoJob.constructor` | merge.go:42-49 | a new job carries the path, band and corner it was given, and holds no image yet |
| `Jobs.PhotoJob.Load` | merge.go:51-68 | a loaded job keeps its image; otherwise it either holds the decoded raster and its size, or reports the open or decode error and holds no image |
| `Jobs.PhotoJob.Bounds` | merge.go:70-76 | the empty rectangle at the origin before loading; afterwards exactly the raster's points |
| `Partition.Step` | merge.go:173-177 | a band is at least one unit long and never longer than what remains |
| `Partition.StepMatchesLoop` | merge.go:173-177 | the band length is the quotient `remaining / (numImages - i)`, raised to 1 when that is 0 |
| `Partition.StepIsFloor` | merge.go:173 | with at least as much extent as images left, the band length is the floor of remaining over images left |
| `Partition.StepIsQuotient` | merge.go:173 | with at least as much extent as images left, no raising to 1 happens |
| `Partition.StepLast` | merge.go:173 | the last image takes all that remains |
| `Partition.StepLeavesEnough` | merge.go:173-183 | one step leaves at least one unit for every later image |
| `Partition.StepNext` | merge.go:173-183 | after one step the next quotient is not smaller and its ceiling is not larger |
| `Partition.CutsUnfold` | merge.go:171-186 | one turn of the loop: the first cut, then the cuts of what is left |
| `Partition.CutsLength` | merge.go:171 | the loop cuts min(images left, extent left) times |
| `Partition.CutAt` | merge.go:171-186 | cut k lies within the extent, is at least one unit wide, and its width is the step rule applied to what remained |
| `Partition.CutNext` | merge.go:183-184 | each cut starts where the previous one ends |
| `Partition.CutLast` | merge.go:171-186 | the last cut ends at the end of the extent |
| `Partition.CutsOrdered` | merge.go:171-186 | a later cut starts at or after the end of an earlier one |
| `Partition.CutsCover` | merge.go:171-186 | every point of the extent falls in some cut |
| `Partition.WidthsSum` | merge.go:171-186 | the widths add up to the whole extent |
| `Partition.WidthBounded` | merge.go:173-177 | with at least one unit per image, each width lies between the floor and the ceiling of extent over images |
| `Partition.WidthMonotone` | merge.go:173-177 | with at least one unit per image the widths never shrink from one band to the next |
| `Partition.BandShape` | merge.go:179-180 | a band spans its cut along the axis and the whole canvas across it, and is read from its own corner |
| `Partition.BandIsRect` | merge.go:179-180 | a band is exactly what `newPhotoJob` receives: `image.Rect` of the corners and `image.Pt` of the first corner |
| `Partition.PlanHead` | merge.go:171-186 | from image i the loop emits image i's band, then the jobs from image i + 1 |
| `Partition.PlanLength` | merge.go:171 | the loop emits min(images left, extent left) jobs |
| `Partition.PlanIndex` | merge.go:171-186 | job k from image i is image i's band when k is 0, else job k - 1 from image i + 1 |
| `Partition.CutsIndex` | merge.go:171-186 | cut k is the first cut, or cut k - 1 of what the first cut leaves |
| `Partition.CutsIndexFrom` | merge.go:171-186 | the same, counting images left as numImages - i |
| `Partition.PlanAt` | merge.go:171-186 | job k from image i uses image i + k and cut k |
| `Partition.SlicePlanAt` | merge.go:165-189 | job k uses `list[k]`, is canonical, is read from its corner, lies on cut k along the axis and spans the canvas across it |
| `Partition.UnitStep` | merge.go:175-177 | with no more extent left than images, each step is one unit |
| `Partition.UnitCuts` | merge.go:175-177 | with no more extent than images, cut k starts k units in and is one unit wide |
| `Partition.SlicePlanJobs` | merge.go:165-189 | the slicer emits min(N, E) jobs; job k uses `list[k]`, is at least one unit long, lies inside [0, E), spans the canvas across, and is read from its corner; the trailing images get no job |
| `Partition.SlicePlanEnds` | merge.go:165-189 | the first job starts at 0 and the last one ends at the extent |
| `Partition.SlicePlanAdjacent` | merge.go:183-184 | each job starts where the previous one ends |
| `Partition.SlicePlanSum` | merge.go:165-189 | the job extents add up to exactly the canvas extent |
| `Partition.SlicePlanContiguous` | merge.go:165-189 | the jobs run contiguously from 0 to the extent, and their extents add up to it |
| `Partition.CanvasRectShape` | merge.go:168 | the canvas holds the points within the extent along the axis and the cross extent across it |
| `Partition.ContainsAlongAcross` | merge.go:179 | a band holds exactly the points within it along and across the axis |
| `Partition.SlicePlanInside` | merge.go:165-189 | every job's band lies inside the canvas |
| `Partition.SlicePlanDisjoint` | merge.go:165-189 | no two jobs' bands overlap |
| `Partition.SlicePlanCovers` | merge.go:165-189 | every canvas point lies in some job's band |
| `Partition.SlicePlanBalanced` | merge.go:173-177 | with at least one unit per image, the bands never shrink, differ by at most one unit, and none is thinner than E / N |
| `Partition.SlicePlanExample` | merge.go:173-177 | ten columns over three images give extents 3, 3 and 4 |
| `Partition.SlicePlanUnitBands` | merge.go:175-177 | with at least as many images as units, job k is the unit band [k, k + 1) from image k, so there are exactly E jobs |
| `Merge.PlanForShape` | merge.go:165-214 | for either slicer: at most one job per image, job k uses image k, is canonical and is read from its own corner |
| `Merge.PlanForDisjoint` | merge.go:165-214 | for either slicer no two bands overlap |
| `Merge.PlanForCovers` | merge.go:165-214 | with at least one image, every canvas point lies in some band, for either slicer |
| `Merge.SentJob` | merge.go:181 | sending one more job adds its arguments at the end of what was sent |
| `Merge.SlicerStep` | merge.go:171-186 | one turn of a slicer loop keeps its invariant: the jobs sent, followed by the jobs still to send, are the whole plan |
| `Merge.BandsApart` | merge.go:219-221 | two different jobs of a disjoint plan have no common point |
| `Merge.DrawnIsBand` | merge.go:220 | drawing a crop of the band's size from its origin writes exactly the band |
| `Merge.CropShowsSource` | merge.go:246-253 | a canvas point showing a crop that was read from the band's corner shows the source image at that same point |
| `Merge.JobsOfPlan` | merge.go:181 | job k carries the path, band and corner of plan entry k |
| `Merge.CanvasShowsSources` | merge.go:216-222 | once every crop is drawn, each point in band k shows band k's image at that same point |
| `Merge.CombineOrderIrrelevant` | merge.go:216-222 | the canvas the combiner leaves is the same whatever order the same jobs arrive in |
| `Merge.CanvasOutsideBands` | merge.go:217 | a point outside every job's band is outside every band of the plan, and keeps the zero colour |
| `Merge.FirstFailureExists` | merge.go:244 | some band fails to load exactly when there is a first failing band, and it is unique |
| `Merge.FirstFailureBelow` | merge.go:244 | at or below any failing band there is a first failing band |
| `Merge.ImageSlicer.constructor` | merge.go:224-238 | the slicer keeps the bounds and starts with a fresh blank canvas of that size |
| `Merge.ImageSlicer.VerticalSlicer` | merge.go:165-189 | the jobs sent are exactly the column plan of the canvas width and height; they are distinct, fresh and unloaded |
| `Merge.ImageSlicer.HorizontalSlicer` | merge.go:191-214 | the jobs sent are exactly the row plan of the canvas height and width; they are distinct, fresh and unloaded |
| `Merge.ImageSlicer.HandleImage` | merge.go:240-259 | the load succeeds exactly when the job's source decodes; on success the job holds a fresh crop of the band's size whose pixel (u, v) is the source's pixel at toPlace + (u, v) (zero colour past the source); on failure the error is returned |
| `Merge.ImageSlicer.HandleJobs` | merge.go:240-259 | every job is handled in the order sent; the result is no error exactly when every band's image decodes; otherwise the error is the first failing band's; on success every job holds its crop |
| `Merge.ImageSlicer.StraightCombiner` | merge.go:216-222 | the canvas is fresh and has the slicer's bounds; each band shows its job's crop from the crop's origin; points in no band keep the zero colour |
| `Merge.ImageSlicer.RunSlicer` | merge.go:143-149 | the chosen slicer's jobs are the plan of the canvas for its axis; they are distinct, fresh, unloaded and canonical |
| `Merge.ImageSlicer.Wait` | merge.go:270-283 | the merge fails exactly when some band's image does not load, reporting the first one; on success the canvas has the bounds, shows band k's image at the same points inside band k, and is blank elsewhere |
| `Merge.PixelsComeFromImages` | merge.go:114-163 | with at least one image, every pixel of a filled canvas is the pixel at the same position of one of the listed images |
| `Merge.SingleImageIsCopy` | merge.go:114-163 | merging a single image reproduces it, whichever slicer is used |
| `Merge.ChosenAxis` | merge.go:144-149 | no slicer exactly when neither flag is set; vertical exactly when only `-vertical` is set; horizontal otherwise |
| `Merge.MergeAction` | merge.go:114-163 | each error case in order: a listing error, no images, a first image that does not load, no slicer, the first band whose image does not load; on success the name is the prefixed, sanitized output name with the image count, and the canvas has the first image's bounds, shows each band's image in place and is blank elsewhere |
| `Legacy.ColumnDrawn` | main.go:272 | drawing column x from image x at (x, 0) writes exactly the points of column x the image has, with the image's pixel at the same position |
| `Legacy.CopyColumns` | main.go:256-276 | the canvas is fresh and has the first image's size; the loop fails exactly when one of the first min(width, N) images does not load, reporting the first; on success column x shows image x at the same position while images last, and is blank after |
| `Legacy.LegacyMergeAction` | main.go:182-284 | each error case in order: a listing error, no images, a first image that does not load, the first column image that does not load; on success the name is `slice_of_life_<N>.jpeg` and the columns show their images |
| `Legacy.CrowdedVerticalIsLegacy` | main.go:256-276 | with at least as many images as columns, the vertical merge and the older column loop produce the same picture |

## Left out

- The goroutines, the `in`, `out` and `quit` channels and the polling in
  `wait` (merge.go:270-283) are left out. The model runs the stages in
  sequence. A worker takes a quit value only between jobs, after its send on
  `out` has completed (merge.go:242-257). `wait` sends one quit per worker
  (merge.go:276-278), so every worker has returned before `close(is.out)`,
  and the `len(is.out)` poll on the unbuffered channel has no effect. One
  hazard of the Go code is not modelled: `wait` does not wait for the
  combiner, which can still be drawing its last crop when `saveImage` reads
  the canvas.
- The worker count `runtime.NumCPU() - 1` (merge.go:232, merge.go:275) is
  left out. On a single-CPU host it is 0, so no worker receives the first
  job; every goroutine then blocks and the Go runtime aborts the program
  with its "all goroutines are asleep - deadlock!" error.
- Image decoding, `jpeg.Encode`, `saveImage` (merge.go:261-268), `os.Open`,
  `os.OpenFile` and `ioutil.ReadDir` are left out. They are I/O: decoded
  images and the listing are inputs, and the canvas is returned, not written.
- The CLI (`cli.Context`, the flag lookups) is left out. The flags are
  parameters.
- `filepath.Abs` and `filepath.Base` are left out. The directory is taken as
  already absolute, and its base name is a parameter. The error of
  `filepath.Abs` is not modelled.
- Listing.GetImageList: the `regexp.MatchString` error branch (merge.go:94-96,
  main.go:216-218) is not modelled, because the pattern is a valid constant
  and never yields an error.
- Legacy.LegacyMergeAction: the `sync.Map` cache and the `WaitGroup`
  (main.go:208-233) are left out. Nothing ever stores into the cache, so
  `images.Load` always misses and every image is read through `getPhoto`.
- The progress print with its float percentage (main.go:259), `log` and
  `debugMessage` are left out. They are output only.
- Image bounds are always at the origin. Decoded JPEG and PNG images start
  there, so `toPlace` offsets are not modelled against a shifted source.
- Merge.MergeAction: when neither `-vertical` nor `-horizontal` is set,
  `is.slicer` stays nil and `is.wait()` (merge.go:144-151) panics when it
  calls it. The model returns `NoSlicer` instead. A worker's failed load
  (merge.go:244) makes `draw.Draw` panic on the nil image; the model returns
  `SliceLoadFailed` with that load's error.
- Legacy.CopyColumns: the error of `getPhoto` in the column loop is ignored
  (main.go:268), so `draw.Draw` panics on the nil image at main.go:272. The
  model stops the loop and returns that load's error instead, which
  `Legacy.LegacyMergeAction` reports as `SliceLoadFailed`.
- Merge.ImageSlicer.HandleJobs: concurrent workers make the Go run's order
  undefined. The model reports the first failing band in slicing order,
  where Go panics in whichever worker hits a failure first.
- Strings.SortStrings: strings are sequences of characters compared by code
  point. Go compares UTF-8 bytes, and the two orders agree. Naming.Sanitize
  replaces each character, where Go's regexp replaces each UTF-8 rune; these
  agree as well.
- The `width` and `height` fields of a photo job are set by `load` but read
  nowhere. They are kept, and not used further.
- Error messages are left out. Errors are constructors of `MergeError`, not
  texts.
