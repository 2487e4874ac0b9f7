/**
 * photoJob: one slice of the montage.  A job names the source image, the
 * rectangle of the output it fills (toCopy) and the point of the source
 * it starts reading from (toPlace); load decodes the source lazily.
 */
module Jobs {
  import opened Wrappers
  import opened Geometry
  import opened Raster
  import opened Partition

  /** The two ways loading an image fails: os.Open or image.Decode */
  datatype LoadError = OpenFailed(path: string) | DecodeFailed(path: string)

  /**
   * The file system seen through os.Open and image.Decode: for each path
   * the decoded raster or the error.  A path the map does not hold cannot
   * be opened.
   */
  type Disk = map<string, Result<array2<Pixel>, LoadError>>

  function Decode(disk: Disk, path: string): Result<array2<Pixel>, LoadError> {
    if path in disk then disk[path] else Failure(OpenFailed(path))
  }

  /** The raster a job works from: the one it holds, or else what its path decodes to */
  function Source(image: array2?<Pixel>, disk: Disk, path: string): Result<array2<Pixel>, LoadError> {
    if image != null then Success(image) else Decode(disk, path)
  }

  class PhotoJob {
    var image: array2?<Pixel>
    const path: string
    var width: int
    var height: int
    const toCopy: Rectangle
    const toPlace: Point

    /** newPhotoJob: a job that has not been loaded yet */
    constructor (path: string, toCopy: Rectangle, toPlace: Point)
      ensures this.path == path && this.toCopy == toCopy && this.toPlace == toPlace
      ensures image == null && width == 0 && height == 0
    {
      this.path := path;
      this.toCopy := toCopy;
      this.toPlace := toPlace;
      image := null;
      width := 0;
      height := 0;
    }

    /**
     * load: a job that holds an image keeps it and succeeds.  Otherwise the
     * path is decoded; on failure the error is returned and the job holds
     * no image, on success the job holds the raster and records its size.
     */
    method Load(disk: Disk) returns (err: Option<LoadError>)
      modifies this
      ensures old(image) != null ==> err == None && image == old(image) && width == old(width) && height == old(height)
      ensures old(image) == null && Decode(disk, path).Failure? ==>
        err == Some(Decode(disk, path).error) && image == null && width == old(width) && height == old(height)
      ensures old(image) == null && Decode(disk, path).Success? ==>
        err == None && image == Decode(disk, path).value && width == image.Length0 && height == image.Length1
      ensures err == None <==> Source(old(image), disk, path).Success?
      ensures err == None ==> image == Source(old(image), disk, path).value && Bounds() == BoundsOf(image)
      ensures old(image) == null && err == None ==> Bounds() == Rect(0, 0, width, height)
    {
      if image == null {
        var decoded := Decode(disk, path);
        if decoded.Failure? {
          image := null;
          return Some(decoded.error);
        }
        image := decoded.value;
        width := image.Length0;
        height := image.Length1;
      }
      return None;
    }

    /** Bounds: the held raster's bounds, and the empty rectangle at the origin before loading */
    function Bounds(): (r: Rectangle)
      reads this
      ensures r.min == Origin && r.Canonical()
      ensures image == null ==> r.Empty() && r.Dx() == 0 && r.Dy() == 0
      ensures image != null ==> forall p :: r.Contains(p) <==> 0 <= p.x < image.Length0 && 0 <= p.y < image.Length1
    {
      if image == null then Rect(0, 0, 0, 0) else BoundsOf(image)
    }
  }

  /** The arguments a job was made with */
  function Descriptor(job: PhotoJob): Slice {
    Slice(job.path, job.toCopy, job.toPlace)
  }

  /** The arguments of a sequence of jobs, in order */
  function Descriptors(jobs: seq<PhotoJob>): (d: seq<Slice>)
    ensures |d| == |jobs|
  {
    if jobs == [] then [] else Descriptors(jobs[..|jobs| - 1]) + [Descriptor(jobs[|jobs| - 1])]
  }

  /** Entry k of the descriptors describes job k. */
  lemma {:induction false} DescriptorsAt(jobs: seq<PhotoJob>, k: nat)
    requires k < |jobs|
    ensures Descriptors(jobs)[k] == Descriptor(jobs[k])
  {
    if k < |jobs| - 1 {
      DescriptorsAt(jobs[..|jobs| - 1], k);
    }
  }
}
