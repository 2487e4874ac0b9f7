/**
 * The montage of merge.go: a slicer cuts the canvas into one band per
 * image, the workers crop each band out of its image, and the combiner
 * draws the crops onto a fresh canvas.  The goroutines and channels are
 * run in sequence: every job the slicer sends is handled by a worker and
 * then drawn by the combiner, in the order sent.
 */
module Merge {
  import opened Wrappers
  import opened Geometry
  import opened Raster
  import opened Partition
  import opened Jobs
  import opened Listing
  import opened Naming
  import opened Strings

  /** The canvas size along the sliced axis, and across it */
  function AlongSize(axis: Axis, bounds: Rectangle): nat
    requires bounds.Canonical()
  {
    if axis == Vertical then bounds.Dx() else bounds.Dy()
  }

  function AcrossSize(axis: Axis, bounds: Rectangle): nat
    requires bounds.Canonical()
  {
    if axis == Vertical then bounds.Dy() else bounds.Dx()
  }

  /** The bands of a canvas with the given bounds: along x for Vertical, along y for Horizontal */
  function PlanFor(axis: Axis, list: seq<string>, bounds: Rectangle): seq<Slice>
    requires bounds.Canonical()
  {
    SlicePlan(axis, list, AlongSize(axis, bounds), AcrossSize(axis, bounds))
  }

  /** Every band is canonical, is read from the point it is drawn at, and comes from the image at its own index. */
  lemma PlanForShape(axis: Axis, list: seq<string>, bounds: Rectangle)
    requires bounds.Canonical()
    ensures var plan := PlanFor(axis, list, bounds);
      && |plan| <= |list|
      && forall k :: 0 <= k < |plan| ==>
           && plan[k].path == list[k]
           && plan[k].toCopy.Canonical() && plan[k].toPlace == plan[k].toCopy.min
  {
    var extent, cross := AlongSize(axis, bounds), AcrossSize(axis, bounds);
    var plan := PlanFor(axis, list, bounds);
    assert plan == SlicePlan(axis, list, extent, cross);
    PlanLength(axis, list, 0, 0, extent, cross);
    forall k | 0 <= k < |plan|
      ensures && plan[k].path == list[k]
              && plan[k].toCopy.Canonical() && plan[k].toPlace == plan[k].toCopy.min
    {
      SlicePlanAt(axis, list, extent, cross, k);
    }
  }

  /** No two bands overlap. */
  lemma PlanForDisjoint(axis: Axis, list: seq<string>, bounds: Rectangle)
    requires bounds.Canonical()
    ensures Disjoint(PlanFor(axis, list, bounds))
  {
    if |list| >= 1 {
      SlicePlanDisjoint(axis, list, AlongSize(axis, bounds), AcrossSize(axis, bounds));
    } else {
      assert PlanFor(axis, list, bounds) == [];
    }
  }

  /** With at least one image every point of the canvas lies in some band. */
  lemma PlanForCovers(axis: Axis, list: seq<string>, bounds: Rectangle, p: Point)
    requires bounds.min == Origin && bounds.Canonical()
    requires |list| >= 1 && bounds.Contains(p)
    ensures var plan := PlanFor(axis, list, bounds);
      exists k :: 0 <= k < |plan| && plan[k].toCopy.Contains(p)
  {
    var extent, cross := AlongSize(axis, bounds), AcrossSize(axis, bounds);
    assert PlanFor(axis, list, bounds) == SlicePlan(axis, list, extent, cross);
    CanvasRectShape(axis, extent, cross, p);
    assert 0 <= Along(axis, p) < extent && 0 <= Across(axis, p) < cross;
    SlicePlanCovers(axis, list, extent, cross, p);
  }

  /** Sending one more job adds its descriptor at the end. */
  lemma {:induction false} SentJob(jobs: seq<PhotoJob>, job: PhotoJob)
    ensures Descriptors(jobs + [job]) == Descriptors(jobs) + [Descriptor(job)]
  {
    assert (jobs + [job])[..|jobs|] == jobs;
  }

  /**
   * One turn of a slicer loop keeps its invariant: the jobs sent so far
   * followed by the plan still to send are the whole plan.
   */
  lemma {:induction false} SlicerStep(axis: Axis, list: seq<string>, jobs: seq<PhotoJob>, job: PhotoJob,
                   i: nat, pos: int, remaining: nat, cross: nat, whole: seq<Slice>)
    requires i < |list| && remaining > 0
    requires Descriptors(jobs) + Plan(axis, list, i, pos, remaining, cross) == whole
    requires Descriptor(job) == Band(axis, list[i], pos, Step(remaining, |list| - i), cross)
    ensures var s := Step(remaining, |list| - i);
      Descriptors(jobs + [job]) + Plan(axis, list, i + 1, pos + s, remaining - s, cross) == whole
  {
    var s := Step(remaining, |list| - i);
    PlanHead(axis, list, i, pos, remaining, cross);
    SentJob(jobs, job);
    var rest := Plan(axis, list, i + 1, pos + s, remaining - s, cross);
    assert (Descriptors(jobs) + [Descriptor(job)]) + rest == Descriptors(jobs) + ([Descriptor(job)] + rest);
  }

  /** Two different jobs of a disjoint sequence never share a point. */
  lemma {:induction false} BandsApart(jobs: seq<PhotoJob>, k: nat, n: nat, p: Point)
    requires k < |jobs| && n < |jobs| && k != n
    requires Disjoint(Descriptors(jobs)) && jobs[k].toCopy.Contains(p)
    ensures !jobs[n].toCopy.Contains(p)
  {
    DescriptorsAt(jobs, k);
    DescriptorsAt(jobs, n);
    if jobs[n].toCopy.Contains(p) {
      CommonPointOverlaps(jobs[k].toCopy, jobs[n].toCopy, p);
    }
  }

  /** Drawing a crop of the band's own size from its origin writes exactly the band. */
  lemma DrawnIsBand(r: Rectangle, width: int, height: int, x: int, y: int)
    requires width == r.Dx() && height == r.Dy()
    ensures Drawn(r, width, height, Origin, x, y) <==> r.Contains(Point(x, y))
  {
  }

  /** A job after a worker has handled it: it holds a crop exactly the size of its band */
  predicate Cropped(job: PhotoJob)
    reads job
  {
    job.image != null && job.toCopy.Canonical() &&
    job.image.Length0 == job.toCopy.Dx() && job.image.Length1 == job.toCopy.Dy()
  }

  /** The job holds a crop of its band's size whose pixel (u, v) is the source's pixel at toPlace + (u, v). */
  predicate HoldsCrop(job: PhotoJob, src: array2<Pixel>)
    reads job, job.image, src
  {
    Cropped(job) &&
    forall u, v :: 0 <= u < job.toCopy.Dx() && 0 <= v < job.toCopy.Dy() ==>
      job.image[u, v] == At(src, job.toPlace.x + u, job.toPlace.y + v)
  }

  /** Over the job's band the canvas shows the job's image, read from the image's origin. */
  predicate ShowsCrop(canvas: array2<Pixel>, job: PhotoJob)
    reads canvas, job, job.image
  {
    job.image != null &&
    forall x, y :: 0 <= x < canvas.Length0 && 0 <= y < canvas.Length1 && job.toCopy.Contains(Point(x, y)) ==>
      canvas[x, y] == At(job.image, x - job.toCopy.min.x, y - job.toCopy.min.y)
  }

  /** A canvas point showing a crop read from the band's corner shows the source at that same point. */
  lemma CropShowsSource(canvas: array2<Pixel>, job: PhotoJob, src: array2<Pixel>, x: int, y: int)
    requires HoldsCrop(job, src) && ShowsCrop(canvas, job) && job.toPlace == job.toCopy.min
    requires 0 <= x < canvas.Length0 && 0 <= y < canvas.Length1 && job.toCopy.Contains(Point(x, y))
    ensures canvas[x, y] == At(src, x, y)
  {
    var u, v := x - job.toCopy.min.x, y - job.toCopy.min.y;
    assert canvas[x, y] == At(job.image, u, v);
    assert job.image[u, v] == At(src, job.toPlace.x + u, job.toPlace.y + v);
  }

  /** Job k carries the path, band and corner of entry k of its descriptors. */
  lemma {:induction false} JobsOfPlan(jobs: seq<PhotoJob>, plan: seq<Slice>)
    requires Descriptors(jobs) == plan
    ensures |jobs| == |plan|
    ensures forall k :: 0 <= k < |jobs| ==>
      jobs[k].path == plan[k].path && jobs[k].toCopy == plan[k].toCopy && jobs[k].toPlace == plan[k].toPlace
  {
    forall k | 0 <= k < |jobs|
      ensures jobs[k].path == plan[k].path && jobs[k].toCopy == plan[k].toCopy && jobs[k].toPlace == plan[k].toPlace
    {
      DescriptorsAt(jobs, k);
    }
  }

  /** The images some path decodes to */
  function Decoded(disk: Disk): set<array2<Pixel>> {
    set p | p in disk && disk[p].Success? :: disk[p].value
  }

  /** Inside band k the canvas shows, at every point, the image of band k at that same point. */
  predicate ShowsPlan(canvas: array2<Pixel>, plan: seq<Slice>, disk: Disk)
    reads canvas, Decoded(disk)
  {
    forall k, x, y ::
      (0 <= k < |plan| && 0 <= x < canvas.Length0 && 0 <= y < canvas.Length1 && plan[k].toCopy.Contains(Point(x, y))) ==>
      Decode(disk, plan[k].path).Success? && canvas[x, y] == At(Decode(disk, plan[k].path).value, x, y)
  }

  /** A canvas point outside every band keeps the zero colour. */
  predicate BlankOutside(canvas: array2<Pixel>, plan: seq<Slice>)
    reads canvas
  {
    forall x, y ::
      (0 <= x < canvas.Length0 && 0 <= y < canvas.Length1 &&
       forall k :: 0 <= k < |plan| ==> !plan[k].toCopy.Contains(Point(x, y))) ==>
      canvas[x, y] == Transparent
  }

  /**
   * A canvas on which the combiner drew the crops of jobs made from a plan
   * shows, inside band k, the image of band k at the very same point.
   */
  lemma {:induction false} CanvasShowsSources(canvas: array2<Pixel>, jobs: seq<PhotoJob>, plan: seq<Slice>, disk: Disk)
    requires Descriptors(jobs) == plan
    requires forall k :: 0 <= k < |plan| ==> plan[k].toPlace == plan[k].toCopy.min
    requires forall k :: 0 <= k < |jobs| ==> Decode(disk, jobs[k].path).Success?
    requires forall k :: 0 <= k < |jobs| ==> HoldsCrop(jobs[k], Decode(disk, jobs[k].path).value)
    requires forall k :: 0 <= k < |jobs| ==> ShowsCrop(canvas, jobs[k])
    ensures ShowsPlan(canvas, plan, disk)
  {
    forall k, x, y | 0 <= k < |plan| && 0 <= x < canvas.Length0 && 0 <= y < canvas.Length1 && plan[k].toCopy.Contains(Point(x, y))
      ensures Decode(disk, plan[k].path).Success? && canvas[x, y] == At(Decode(disk, plan[k].path).value, x, y)
    {
      DescriptorsAt(jobs, k);
      var job := jobs[k];
      assert job.path == plan[k].path;
      assert job.toPlace == job.toCopy.min;
      assert job.toCopy.Contains(Point(x, y));
      var src := Decode(disk, job.path).value;
      assert HoldsCrop(job, src);
      assert ShowsCrop(canvas, job);
      CropShowsSource(canvas, job, src, x, y);
    }
  }

  /** A canvas point outside every job's band lies outside every band of the plan the jobs were made from. */
  lemma {:induction false} CanvasOutsideBands(canvas: array2<Pixel>, jobs: seq<PhotoJob>, plan: seq<Slice>)
    requires Descriptors(jobs) == plan
    requires forall x, y ::
      (0 <= x < canvas.Length0 && 0 <= y < canvas.Length1 &&
       forall k :: 0 <= k < |jobs| ==> !jobs[k].toCopy.Contains(Point(x, y))) ==>
      canvas[x, y] == Transparent
    ensures BlankOutside(canvas, plan)
  {
    JobsOfPlan(jobs, plan);
  }

  /**
   * What straightCombiner leaves does not depend on the order the crops
   * arrive in: two canvases of one size that each show every crop of a
   * job sequence over its band, and keep the zero colour outside all bands,
   * are equal when the two sequences are permutations of each other.
   */
  lemma {:induction false} CombineOrderIrrelevant(c1: array2<Pixel>, c2: array2<Pixel>,
                                                  jobs1: seq<PhotoJob>, jobs2: seq<PhotoJob>)
    requires c1.Length0 == c2.Length0 && c1.Length1 == c2.Length1
    requires multiset(jobs1) == multiset(jobs2)
    requires forall k :: 0 <= k < |jobs1| ==> ShowsCrop(c1, jobs1[k])
    requires forall k :: 0 <= k < |jobs2| ==> ShowsCrop(c2, jobs2[k])
    requires forall x, y ::
               (0 <= x < c1.Length0 && 0 <= y < c1.Length1 &&
                forall k :: 0 <= k < |jobs1| ==> !jobs1[k].toCopy.Contains(Point(x, y))) ==>
               c1[x, y] == Transparent
    requires forall x, y ::
               (0 <= x < c2.Length0 && 0 <= y < c2.Length1 &&
                forall k :: 0 <= k < |jobs2| ==> !jobs2[k].toCopy.Contains(Point(x, y))) ==>
               c2[x, y] == Transparent
    ensures forall x, y :: 0 <= x < c1.Length0 && 0 <= y < c1.Length1 ==> c1[x, y] == c2[x, y]
  {
    forall x, y | 0 <= x < c1.Length0 && 0 <= y < c1.Length1
      ensures c1[x, y] == c2[x, y]
    {
      var p := Point(x, y);
      if k :| 0 <= k < |jobs1| && jobs1[k].toCopy.Contains(p) {
        var job := jobs1[k];
        assert job in multiset(jobs2);
        var n :| 0 <= n < |jobs2| && jobs2[n] == job;
        assert ShowsCrop(c1, job) && ShowsCrop(c2, job);
        assert c1[x, y] == At(job.image, x - job.toCopy.min.x, y - job.toCopy.min.y);
        assert c2[x, y] == At(job.image, x - job.toCopy.min.x, y - job.toCopy.min.y);
      } else {
        forall n | 0 <= n < |jobs2|
          ensures !jobs2[n].toCopy.Contains(p)
        {
          assert jobs2[n] in multiset(jobs1);
          var k :| 0 <= k < |jobs1| && jobs1[k] == jobs2[n];
        }
      }
    }
  }

  /** Every band's image decodes. */
  predicate AllLoad(disk: Disk, plan: seq<Slice>) {
    forall k :: 0 <= k < |plan| ==> Decode(disk, plan[k].path).Success?
  }

  /** Band k is the first band whose image does not decode. */
  predicate FirstFailure(disk: Disk, plan: seq<Slice>, k: int) {
    0 <= k < |plan| && Decode(disk, plan[k].path).Failure? &&
    forall j :: 0 <= j < k ==> Decode(disk, plan[j].path).Success?
  }

  /** Some band fails to load exactly when there is a first one, and there is only one first one. */
  lemma {:induction false} FirstFailureExists(disk: Disk, plan: seq<Slice>)
    ensures !AllLoad(disk, plan) <==> exists k :: FirstFailure(disk, plan, k)
    ensures forall k, j :: FirstFailure(disk, plan, k) && FirstFailure(disk, plan, j) ==> k == j
  {
    if !AllLoad(disk, plan) {
      var k :| 0 <= k < |plan| && Decode(disk, plan[k].path).Failure?;
      FirstFailureBelow(disk, plan, k);
    }
  }

  /** Below any failing band lies the first failing band. */
  lemma {:induction false} FirstFailureBelow(disk: Disk, plan: seq<Slice>, k: nat)
    requires k < |plan| && Decode(disk, plan[k].path).Failure?
    ensures exists j :: j <= k && FirstFailure(disk, plan, j)
    decreases k
  {
    if !FirstFailure(disk, plan, k) {
      var j :| 0 <= j < k && Decode(disk, plan[j].path).Failure?;
      FirstFailureBelow(disk, plan, j);
    }
  }

  class ImageSlicer {
    const bounds: Rectangle
    var image: array2<Pixel>

    /** newImageSlicer: the canvas bounds and a blank canvas of that size */
    constructor (bounds: Rectangle)
      requires bounds.min == Origin && bounds.Canonical()
      ensures this.bounds == bounds && fresh(image) && BoundsOf(image) == bounds
      ensures forall x, y :: 0 <= x < image.Length0 && 0 <= y < image.Length1 ==> image[x, y] == Transparent
    {
      var canvas := NewRGBA(bounds);
      this.bounds := bounds;
      image := canvas;
    }

    /**
     * verticalSlicer: the jobs sent on the in channel, one column band per
     * image from left to right; they are exactly the plan of the canvas
     * width, fresh and not loaded.
     */
    method VerticalSlicer(list: seq<string>) returns (jobs: seq<PhotoJob>)
      requires bounds.Canonical()
      ensures Descriptors(jobs) == SlicePlan(Vertical, list, bounds.Dx(), bounds.Dy())
      ensures forall j :: j in jobs ==> fresh(j) && j.image == null
      ensures forall k :: 0 <= k < |jobs| ==> jobs[k] !in jobs[..k]
    {
      var numImages := |list|;
      var remainingWidth: nat := bounds.Dx();
      var x, i := 0, 0;
      jobs := [];
      ghost var whole := SlicePlan(Vertical, list, bounds.Dx(), bounds.Dy());
      while remainingWidth > 0 && i < numImages
        invariant 0 <= i <= numImages
        invariant whole == SlicePlan(Vertical, list, bounds.Dx(), bounds.Dy())
        invariant Descriptors(jobs) + Plan(Vertical, list, i, x, remainingWidth, bounds.Dy()) == whole
        invariant forall j :: j in jobs ==> fresh(j) && j.image == null
        invariant forall k :: 0 <= k < |jobs| ==> jobs[k] !in jobs[..k]
      {
        var numColsToCopy := remainingWidth / (numImages - i);
        if numColsToCopy == 0 {
          numColsToCopy := 1;
        }
        StepMatchesLoop(remainingWidth, numImages - i);
        var r := Rect(x, 0, x + numColsToCopy, bounds.Dy());
        var pt := Pt(x, 0);
        var job := new PhotoJob(list[i], r, pt);
        SlicerStep(Vertical, list, jobs, job, i, x, remainingWidth, bounds.Dy(), whole);
        jobs := jobs + [job];
        remainingWidth := remainingWidth - numColsToCopy;
        x := x + numColsToCopy;
        i := i + 1;
      }
    }

    /**
     * horizontalSlicer: as verticalSlicer with rows, one row band per image
     * from top to bottom.
     */
    method HorizontalSlicer(list: seq<string>) returns (jobs: seq<PhotoJob>)
      requires bounds.Canonical()
      ensures Descriptors(jobs) == SlicePlan(Horizontal, list, bounds.Dy(), bounds.Dx())
      ensures forall j :: j in jobs ==> fresh(j) && j.image == null
      ensures forall k :: 0 <= k < |jobs| ==> jobs[k] !in jobs[..k]
    {
      var numImages := |list|;
      var remainingHeight: nat := bounds.Dy();
      var y, i := 0, 0;
      jobs := [];
      ghost var whole := SlicePlan(Horizontal, list, bounds.Dy(), bounds.Dx());
      while remainingHeight > 0 && i < numImages
        invariant 0 <= i <= numImages
        invariant whole == SlicePlan(Horizontal, list, bounds.Dy(), bounds.Dx())
        invariant Descriptors(jobs) + Plan(Horizontal, list, i, y, remainingHeight, bounds.Dx()) == whole
        invariant forall j :: j in jobs ==> fresh(j) && j.image == null
        invariant forall k :: 0 <= k < |jobs| ==> jobs[k] !in jobs[..k]
      {
        var numColsToCopy := remainingHeight / (numImages - i);
        if numColsToCopy == 0 {
          numColsToCopy := 1;
        }
        StepMatchesLoop(remainingHeight, numImages - i);
        var r := Rect(0, y, bounds.Dx(), y + numColsToCopy);
        var pt := Pt(0, y);
        var job := new PhotoJob(list[i], r, pt);
        SlicerStep(Horizontal, list, jobs, job, i, y, remainingHeight, bounds.Dx(), whole);
        jobs := jobs + [job];
        remainingHeight := remainingHeight - numColsToCopy;
        y := y + numColsToCopy;
        i := i + 1;
      }
    }

    /**
     * handleImage, for one job taken from the in channel: load the job's
     * image, crop the band's size out of it starting at toPlace into a
     * fresh raster, and make the crop the job's image.  Where the band
     * reaches past the source image the crop keeps the zero colour.  A
     * failed load leaves the job without an image, and Go's draw.Draw then
     * panics; here the load error is returned.
     */
    method HandleImage(photo: PhotoJob, disk: Disk) returns (err: Option<LoadError>)
      requires photo.toCopy.Canonical()
      modifies photo
      ensures err == None <==> Source(old(photo.image), disk, photo.path).Success?
      ensures err.Some? ==> err.value == Source(old(photo.image), disk, photo.path).error && photo.image == null
      ensures err == None ==> Cropped(photo) && fresh(photo.image)
      ensures err == None ==>
        forall u, v :: 0 <= u < photo.toCopy.Dx() && 0 <= v < photo.toCopy.Dy() ==>
          photo.image[u, v] == At(Source(old(photo.image), disk, photo.path).value, photo.toPlace.x + u, photo.toPlace.y + v)
    {
      err := photo.Load(disk);
      if err.Some? {
        return;
      }
      var src := photo.image;
      var r := Rect(0, 0, photo.toCopy.Dx(), photo.toCopy.Dy());
      var slice := NewRGBA(r);
      DrawSrc(slice, r, src, photo.toPlace);
      photo.image := slice;
    }

    /**
     * The workers' loop of handleImage, run over the jobs in the order the
     * slicer sent them: each job is loaded and cropped.  The first job whose
     * load fails stops the loop with that error; the jobs before it hold
     * their crops.  On success every job holds its crop.
     */
    method HandleJobs(jobs: seq<PhotoJob>, disk: Disk) returns (err: Option<LoadError>)
      requires forall k :: 0 <= k < |jobs| ==> jobs[k].image == null && jobs[k].toCopy.Canonical()
      requires forall k :: 0 <= k < |jobs| ==> jobs[k] !in jobs[..k]
      modifies jobs
      ensures err == None <==> AllLoad(disk, Descriptors(jobs))
      ensures err.Some? ==>
        exists k :: FirstFailure(disk, Descriptors(jobs), k) && err.value == Decode(disk, Descriptors(jobs)[k].path).error
      ensures err == None ==> forall k :: 0 <= k < |jobs| ==>
        Decode(disk, jobs[k].path).Success? && HoldsCrop(jobs[k], Decode(disk, jobs[k].path).value)
    {
      ghost var plan := Descriptors(jobs);
      JobsOfPlan(jobs, plan);
      var n := 0;
      while n < |jobs|
        invariant 0 <= n <= |jobs|
        invariant forall k :: 0 <= k < n ==> Decode(disk, plan[k].path).Success?
        invariant forall k :: 0 <= k < n ==> HoldsCrop(jobs[k], Decode(disk, jobs[k].path).value)
        invariant forall k :: n <= k < |jobs| ==> jobs[k].image == null
      {
        var e := HandleImage(jobs[n], disk);
        if e.Some? {
          assert FirstFailure(disk, plan, n);
          return e;
        }
        n := n + 1;
      }
      return None;
    }

    /**
     * straightCombiner: a fresh canvas of the slicer's bounds onto which
     * every crop is drawn over its band.  Each canvas point in a band shows
     * that band's crop at the same offset; a point in no band keeps the
     * zero colour.  Bands that do not overlap make the drawing order
     * irrelevant.
     */
    method StraightCombiner(jobs: seq<PhotoJob>)
      requires bounds.min == Origin && bounds.Canonical()
      requires forall k :: 0 <= k < |jobs| ==> Cropped(jobs[k])
      requires Disjoint(Descriptors(jobs))
      modifies this
      ensures fresh(image) && BoundsOf(image) == bounds
      ensures forall k :: 0 <= k < |jobs| ==> ShowsCrop(image, jobs[k])
      ensures forall x, y ::
                (0 <= x < image.Length0 && 0 <= y < image.Length1 &&
                 forall k :: 0 <= k < |jobs| ==> !jobs[k].toCopy.Contains(Point(x, y))) ==>
                image[x, y] == Transparent
    {
      var canvas := NewRGBA(bounds);
      image := canvas;
      var n := 0;
      while n < |jobs|
        invariant 0 <= n <= |jobs|
        invariant image == canvas && fresh(canvas) && BoundsOf(canvas) == bounds
        invariant forall k :: 0 <= k < |jobs| ==> jobs[k].image != canvas
        invariant forall k, x, y ::
                    (0 <= k < n && 0 <= x < canvas.Length0 && 0 <= y < canvas.Length1 &&
                     jobs[k].toCopy.Contains(Point(x, y))) ==>
                    canvas[x, y] == At(jobs[k].image, x - jobs[k].toCopy.min.x, y - jobs[k].toCopy.min.y)
        invariant forall x, y ::
                    (0 <= x < canvas.Length0 && 0 <= y < canvas.Length1 &&
                     forall k :: 0 <= k < n ==> !jobs[k].toCopy.Contains(Point(x, y))) ==>
                    canvas[x, y] == Transparent
      {
        var job := jobs[n];
        DrawSrc(canvas, job.toCopy, job.image, Origin);
        forall k, x, y | 0 <= k <= n && 0 <= x < canvas.Length0 && 0 <= y < canvas.Length1 &&
                         jobs[k].toCopy.Contains(Point(x, y))
          ensures canvas[x, y] == At(jobs[k].image, x - jobs[k].toCopy.min.x, y - jobs[k].toCopy.min.y)
        {
          DrawnIsBand(job.toCopy, job.image.Length0, job.image.Length1, x, y);
          if k < n {
            BandsApart(jobs, k, n, Point(x, y));
          }
        }
        forall x, y | 0 <= x < canvas.Length0 && 0 <= y < canvas.Length1 &&
                      forall k :: 0 <= k <= n ==> !jobs[k].toCopy.Contains(Point(x, y))
          ensures canvas[x, y] == Transparent
        {
          DrawnIsBand(job.toCopy, job.image.Length0, job.image.Length1, x, y);
        }
        n := n + 1;
      }
      forall k | 0 <= k < |jobs|
        ensures ShowsCrop(image, jobs[k])
      {
      }
    }

    /**
     * is.slicer, the slicer MergeAction chose: verticalSlicer for Vertical,
     * horizontalSlicer for Horizontal.  Its jobs are the plan of the canvas,
     * all distinct, fresh, not loaded and with canonical bands.
     */
    method RunSlicer(axis: Axis, list: seq<string>) returns (jobs: seq<PhotoJob>)
      requires bounds.Canonical()
      ensures Descriptors(jobs) == PlanFor(axis, list, bounds)
      ensures forall k :: 0 <= k < |jobs| ==> fresh(jobs[k]) && jobs[k].image == null && jobs[k].toCopy.Canonical()
      ensures forall k :: 0 <= k < |jobs| ==> jobs[k] !in jobs[..k]
    {
      if axis == Vertical {
        jobs := VerticalSlicer(list);
      } else {
        jobs := HorizontalSlicer(list);
      }
      PlanForShape(axis, list, bounds);
      JobsOfPlan(jobs, PlanFor(axis, list, bounds));
      forall k | 0 <= k < |jobs|
        ensures fresh(jobs[k]) && jobs[k].image == null
      {
        assert jobs[k] in jobs;
      }
    }

    /**
     * wait: run the slicer, hand every job to a worker in the order sent,
     * and once all of them hold their crops run the combiner.  A worker
     * whose load fails stops the merge with that load's error (in Go,
     * draw.Draw panics on the missing image); the first failing band in
     * slicing order is the one reported.  On success every canvas point
     * inside band k shows the image of band k at the same point, and a
     * point in no band keeps the zero colour.
     */
    method Wait(axis: Axis, list: seq<string>, disk: Disk) returns (err: Option<LoadError>)
      requires bounds.min == Origin && bounds.Canonical()
      modifies this
      ensures err == None <==> AllLoad(disk, PlanFor(axis, list, bounds))
      ensures err.Some? ==>
        exists k :: FirstFailure(disk, PlanFor(axis, list, bounds), k) &&
          err.value == Decode(disk, PlanFor(axis, list, bounds)[k].path).error
      ensures err == None ==> fresh(image) && BoundsOf(image) == bounds
      ensures err == None ==> ShowsPlan(image, PlanFor(axis, list, bounds), disk)
      ensures err == None ==> BlankOutside(image, PlanFor(axis, list, bounds))
    {
      var jobs := RunSlicer(axis, list);
      ghost var plan := PlanFor(axis, list, bounds);
      PlanForShape(axis, list, bounds);
      PlanForDisjoint(axis, list, bounds);
      err := HandleJobs(jobs, disk);
      if err.Some? {
        return;
      }
      StraightCombiner(jobs);
      CanvasShowsSources(image, jobs, plan, disk);
      CanvasOutsideBands(image, jobs, plan);
      err := None;
    }
  }

  /**
   * On a filled canvas every pixel is the pixel at the same position of
   * one of the listed images: with at least one image no point is left
   * blank.
   */
  lemma {:induction false} PixelsComeFromImages(axis: Axis, canvas: array2<Pixel>, files: seq<string>, bounds: Rectangle, disk: Disk)
    requires bounds.min == Origin && bounds.Canonical() && |files| >= 1 && BoundsOf(canvas) == bounds
    requires ShowsPlan(canvas, PlanFor(axis, files, bounds), disk)
    ensures forall x, y :: 0 <= x < canvas.Length0 && 0 <= y < canvas.Length1 ==>
      exists k :: 0 <= k < |files| && Decode(disk, files[k]).Success? && canvas[x, y] == At(Decode(disk, files[k]).value, x, y)
  {
    var plan := PlanFor(axis, files, bounds);
    PlanForShape(axis, files, bounds);
    forall x, y | 0 <= x < canvas.Length0 && 0 <= y < canvas.Length1
      ensures exists k :: 0 <= k < |files| && Decode(disk, files[k]).Success? && canvas[x, y] == At(Decode(disk, files[k]).value, x, y)
    {
      PlanForCovers(axis, files, bounds, Point(x, y));
      var k :| 0 <= k < |plan| && plan[k].toCopy.Contains(Point(x, y));
      assert plan[k].path == files[k];
    }
  }

  /** Merging a single image reproduces it, whichever slicer is used. */
  lemma {:induction false} SingleImageIsCopy(axis: Axis, canvas: array2<Pixel>, file: string, bounds: Rectangle, disk: Disk)
    requires bounds.min == Origin && bounds.Canonical() && BoundsOf(canvas) == bounds
    requires ShowsPlan(canvas, PlanFor(axis, [file], bounds), disk)
    ensures forall x, y :: 0 <= x < canvas.Length0 && 0 <= y < canvas.Length1 ==>
      Decode(disk, file).Success? && canvas[x, y] == At(Decode(disk, file).value, x, y)
  {
    var files := [file];
    var plan := PlanFor(axis, files, bounds);
    PlanForShape(axis, files, bounds);
    forall x, y | 0 <= x < canvas.Length0 && 0 <= y < canvas.Length1
      ensures Decode(disk, file).Success? && canvas[x, y] == At(Decode(disk, file).value, x, y)
    {
      PlanForCovers(axis, files, bounds, Point(x, y));
      var k :| 0 <= k < |plan| && plan[k].toCopy.Contains(Point(x, y));
      assert plan[k].path == files[k] == file;
    }
  }

  /** Why MergeAction stops without producing an image */
  datatype MergeError =
    | ListFailed(listError: ListError)      // getImageList failed
    | NoImages                              // "no images to work with"
    | FirstLoadFailed(firstError: LoadError) // the first image does not load
    | NoSlicer                              // neither flag is set: is.slicer is nil and calling it panics
    | SliceLoadFailed(sliceError: LoadError) // a worker's load failed and draw.Draw panics on the missing image

  /** What a successful merge saves: the file name and the canvas */
  datatype Merged = Merged(filename: string, canvas: array2<Pixel>)

  /** The slicer the two flags select: horizontal is assigned last, so it wins when both are set. */
  function ChosenAxis(vertical: bool, horizontal: bool): (a: Option<Axis>)
    ensures a.None? <==> !vertical && !horizontal
    ensures a == Some(Vertical) <==> vertical && !horizontal
  {
    if horizontal then Some(Horizontal) else if vertical then Some(Vertical) else None
  }

  /**
   * MergeAction: list the images of the directory, load the first one to
   * size the canvas, cut the canvas into one band per image with the
   * chosen slicer, fill the bands and name the output after the prefix,
   * the sanitized directory name and the image count.  The directory is
   * taken as already absolute, with base its last element; the listing and
   * the decoded images are inputs, and saving the JPEG is left to the
   * caller.
   */
  method MergeAction(directory: string, base: string, vertical: bool, horizontal: bool, prefix: string,
                     listing: Result<seq<Entry>, ListError>, disk: Disk)
    returns (r: Result<Merged, MergeError>)
    ensures listing.Failure? ==> r == Failure(ListFailed(listing.error))
    ensures listing.Success? && ImageList(directory, listing.value) == [] ==> r == Failure(NoImages)
    ensures listing.Success? && ImageList(directory, listing.value) != [] ==>
      var files := ImageList(directory, listing.value);
      var first := Decode(disk, files[0]);
      && (first.Failure? ==> r == Failure(FirstLoadFailed(first.error)))
      && (first.Success? && ChosenAxis(vertical, horizontal).None? ==> r == Failure(NoSlicer))
      && (first.Success? && ChosenAxis(vertical, horizontal).Some? ==>
            var plan := PlanFor(ChosenAxis(vertical, horizontal).value, files, BoundsOf(first.value));
            && (!AllLoad(disk, plan) ==>
                  exists k :: FirstFailure(disk, plan, k) && r == Failure(SliceLoadFailed(Decode(disk, plan[k].path).error)))
            && (AllLoad(disk, plan) ==>
                  && r.Success?
                  && r.value.filename == OutputFilename(prefix, base, |files|)
                  && fresh(r.value.canvas) && BoundsOf(r.value.canvas) == BoundsOf(first.value)
                  && ShowsPlan(r.value.canvas, plan, disk)
                  && BlankOutside(r.value.canvas, plan)))
  {
    var imageFiles, err := GetImageList(directory, listing);
    if err.Some? {
      return Failure(ListFailed(err.value));
    }
    var numImages := |imageFiles|;
    if numImages == 0 {
      return Failure(NoImages);
    }
    var first := new PhotoJob(imageFiles[0], Rect(0, 0, 0, 0), Pt(0, 0));
    var loadErr := first.Load(disk);
    if loadErr.Some? {
      return Failure(FirstLoadFailed(loadErr.value));
    }
    var slicerState := new ImageSlicer(first.Bounds());
    var slicer: Option<Axis> := None;
    if vertical {
      slicer := Some(Vertical);
    }
    if horizontal {
      slicer := Some(Horizontal);
    }
    if slicer.None? {
      return Failure(NoSlicer);
    }
    var sliceErr := slicerState.Wait(slicer.value, imageFiles, disk);
    if sliceErr.Some? {
      return Failure(SliceLoadFailed(sliceErr.value));
    }
    var namePrefix := prefix;
    if "" != namePrefix {
      namePrefix := namePrefix + "_";
    }
    var filename := namePrefix + "slice_of_life_" + Sanitize(base) + "_" + Decimal(numImages) + ".jpeg";
    return Success(Merged(filename, slicerState.image));
  }
}
