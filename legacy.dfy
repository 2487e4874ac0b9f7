/**
 * The older merge command of main.go: the same directory filter, then one
 * column per image from left to right, column x taken from image x at the
 * same position, until the canvas width or the images run out.
 */
module Legacy {
  import opened Wrappers
  import opened Geometry
  import opened Raster
  import opened Partition
  import opened Jobs
  import opened Listing
  import opened Naming
  import opened Strings
  import opened Merge

  /** Column c is the first column whose image does not decode. */
  predicate FirstColumnFailure(disk: Disk, files: seq<string>, columns: nat, c: int) {
    0 <= c < columns && c < |files| && Decode(disk, files[c]).Failure? &&
    forall j :: 0 <= j < c ==> Decode(disk, files[j]).Success?
  }

  /** Canvas column x shows column x of image x while images last; the columns after them keep the zero colour. */
  predicate ColumnsShown(canvas: array2<Pixel>, files: seq<string>, disk: Disk)
    reads canvas, Decoded(disk)
  {
    forall x, y :: 0 <= x < canvas.Length0 && 0 <= y < canvas.Length1 ==>
      canvas[x, y] == if x < |files| && Decode(disk, files[x]).Success? then At(Decode(disk, files[x]).value, x, y) else Transparent
  }

  /**
   * draw.Draw(rgba, image.Rect(x, 0, x+1, height), photo, image.Pt(x, 0), draw.Src)
   * writes exactly the points of column x that the photo also has, with the
   * photo's pixel at the same position.
   */
  lemma {:induction false} ColumnDrawn(x: int, height: int, w: int, h: int, a: int, b: int)
    requires 0 <= b < height
    ensures Drawn(Rect(x, 0, x + 1, height), w, h, Pt(x, 0), a, b) <==> a == x && 0 <= x < w && b < h
    ensures a == x ==> a - Rect(x, 0, x + 1, height).min.x + Pt(x, 0).x == x && b - Rect(x, 0, x + 1, height).min.y + Pt(x, 0).y == b
  {
  }

  /**
   * The column loop of mergeAction: a fresh canvas of the first image's
   * size, then for x from 0 while x < width and x < the number of images,
   * column x copied from image x.  The first image of the loop that does
   * not load stops it with that load's error.
   */
  method CopyColumns(width: nat, height: nat, imageFiles: seq<string>, disk: Disk)
    returns (rgba: array2<Pixel>, err: Option<LoadError>)
    ensures fresh(rgba) && rgba.Length0 == width && rgba.Length1 == height
    ensures err == None <==> forall c :: 0 <= c < Min(width, |imageFiles|) ==> Decode(disk, imageFiles[c]).Success?
    ensures err.Some? ==>
      exists c :: FirstColumnFailure(disk, imageFiles, Min(width, |imageFiles|), c) &&
        err.value == Decode(disk, imageFiles[c]).error
    ensures err == None ==> ColumnsShown(rgba, imageFiles, disk)
  {
    rgba := NewRGBA(Rect(0, 0, width, height));
    var numImages := |imageFiles|;
    var x, i := 0, 0;
    while x < width
      invariant 0 <= x <= width && i == x && x <= numImages
      invariant forall c :: 0 <= c < x ==> Decode(disk, imageFiles[c]).Success?
      invariant forall a, b :: 0 <= a < width && 0 <= b < height ==>
        rgba[a, b] == if a < x then At(Decode(disk, imageFiles[a]).value, a, b) else Transparent
    {
      if i >= numImages {
        break;
      }
      var photo := Decode(disk, imageFiles[i]);
      if photo.Failure? {
        assert FirstColumnFailure(disk, imageFiles, Min(width, numImages), i);
        return rgba, Some(photo.error);
      }
      var numColsToCopy := 1;
      DrawSrc(rgba, Rect(x, 0, x + numColsToCopy, height), photo.value, Pt(x, 0));
      forall a, b | 0 <= a < width && 0 <= b < height
        ensures rgba[a, b] == if a < x + 1 then At(Decode(disk, imageFiles[a]).value, a, b) else Transparent
      {
        ColumnDrawn(x, height, photo.value.Length0, photo.value.Length1, a, b);
      }
      x := x + numColsToCopy;
      i := i + 1;
    }
    return rgba, None;
  }

  /**
   * mergeAction of main.go.  A listing error or an empty list stops it, as
   * does a first image that does not load.  The canvas takes the first
   * image's bounds and the column loop fills it; an image of the loop that
   * does not load stops the merge (in Go, draw.Draw panics on the nil
   * image).  The sync.Map cache is never filled, so every image is read by
   * getPhoto.  Opening and writing the output file are left to the caller.
   */
  method LegacyMergeAction(directory: string, listing: Result<seq<Entry>, ListError>, disk: Disk)
    returns (r: Result<Merged, MergeError>)
    ensures listing.Failure? ==> r == Failure(ListFailed(listing.error))
    ensures listing.Success? && ImageList(directory, listing.value) == [] ==> r == Failure(NoImages)
    ensures listing.Success? && ImageList(directory, listing.value) != [] ==>
      var files := ImageList(directory, listing.value);
      var first := Decode(disk, files[0]);
      && (first.Failure? ==> r == Failure(FirstLoadFailed(first.error)))
      && (first.Success? ==>
            var columns := Min(first.value.Length0, |files|);
            && (r.Failure? <==> exists c :: 0 <= c < columns && Decode(disk, files[c]).Failure?)
            && (r.Failure? ==>
                  exists c :: FirstColumnFailure(disk, files, columns, c) &&
                    r == Failure(SliceLoadFailed(Decode(disk, files[c]).error)))
            && (r.Success? ==>
                  && r.value.filename == LegacyFilename(|files|)
                  && fresh(r.value.canvas) && BoundsOf(r.value.canvas) == BoundsOf(first.value)
                  && ColumnsShown(r.value.canvas, files, disk)))
  {
    var imageFiles, err := GetImageList(directory, listing);
    if err.Some? {
      return Failure(ListFailed(err.value));
    }
    var numImages := |imageFiles|;
    if numImages == 0 {
      return Failure(NoImages);
    }
    var first := Decode(disk, imageFiles[0]);
    if first.Failure? {
      return Failure(FirstLoadFailed(first.error));
    }
    var rgba, loadErr := CopyColumns(first.value.Length0, first.value.Length1, imageFiles, disk);
    if loadErr.Some? {
      return Failure(SliceLoadFailed(loadErr.value));
    }
    var filename := "slice_of_life_" + Decimal(numImages) + ".jpeg";
    return Success(Merged(filename, rgba));
  }

  /**
   * With at least as many images as canvas columns the vertical slicer cuts
   * one column per image, so a canvas the new merge fills and one the old
   * column loop fills are the same picture.
   */
  lemma {:induction false} CrowdedVerticalIsLegacy(merged: array2<Pixel>, legacy: array2<Pixel>,
                                                   files: seq<string>, bounds: Rectangle, disk: Disk)
    requires bounds.min == Origin && bounds.Canonical() && |files| >= bounds.Dx()
    requires BoundsOf(merged) == bounds && BoundsOf(legacy) == bounds
    requires ShowsPlan(merged, PlanFor(Vertical, files, bounds), disk)
    requires ColumnsShown(legacy, files, disk)
    ensures forall x, y :: 0 <= x < merged.Length0 && 0 <= y < merged.Length1 ==> merged[x, y] == legacy[x, y]
  {
    var plan := PlanFor(Vertical, files, bounds);
    assert plan == SlicePlan(Vertical, files, bounds.Dx(), bounds.Dy());
    SlicePlanUnitBands(Vertical, files, bounds.Dx(), bounds.Dy());
    forall x, y | 0 <= x < merged.Length0 && 0 <= y < merged.Length1
      ensures merged[x, y] == legacy[x, y]
    {
      assert plan[x].toCopy.Contains(Point(x, y));
    }
  }
}
