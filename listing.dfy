/**
 * The directory filter of getImageList (and of main.go's mergeAction):
 * keep the entries that are not directories and whose name matches the
 * regular expression `.(jpe?g|png)$`, prefix them with the directory, and
 * sort the result.
 */
module Listing {
  import opened Wrappers
  import opened Strings

  /** One entry of ioutil.ReadDir: its name and whether it is a directory */
  datatype Entry = Entry(name: string, isDir: bool)

  /** ioutil.ReadDir failed; its cause is not modelled */
  datatype ListError = ReadDirFailed

  predicate IsExtension(s: string) { s == "jpg" || s == "jpeg" || s == "png" }

  /** name ends in ext, preceded by at least one character that is not a newline */
  predicate EndsWithExt(name: string, ext: string) {
    |name| > |ext| && name[|name| - |ext|..] == ext && name[|name| - |ext| - 1] != '\n'
  }

  /**
   * regexp.MatchString(".(jpe?g|png)$", name).  The dot is not escaped, so
   * it stands for any character except a newline; the match is case
   * sensitive, unanchored at the start, and `$` is the end of the text.
   */
  predicate IsImageName(name: string) {
    EndsWithExt(name, "jpg") || EndsWithExt(name, "jpeg") || EndsWithExt(name, "png")
  }

  /** The regular expression read as a search: some non-newline character followed by an extension that ends the name */
  ghost predicate MatchesPattern(name: string) {
    exists k :: 0 <= k < |name| && name[k] != '\n' && IsExtension(name[k + 1..])
  }

  /** The suffix test and the search agree on every name. */
  lemma IsImageNameMatchesPattern(name: string)
    ensures IsImageName(name) <==> MatchesPattern(name)
  {
    if IsImageName(name) {
      var ext := if EndsWithExt(name, "jpg") then "jpg" else if EndsWithExt(name, "jpeg") then "jpeg" else "png";
      var k := |name| - |ext| - 1;
      assert name[k + 1..] == ext;
    }
    if MatchesPattern(name) {
      var k :| 0 <= k < |name| && name[k] != '\n' && IsExtension(name[k + 1..]);
      var ext := name[k + 1..];
      assert k == |name| - |ext| - 1;
      assert EndsWithExt(name, ext);
    }
  }

  /** What one entry contributes to the list */
  function Kept(directory: string, e: Entry): seq<string> {
    if !e.isDir && IsImageName(e.name) then [directory + "/" + e.name] else []
  }

  /** The paths the loop appends, in listing order */
  function ImagePaths(directory: string, entries: seq<Entry>): seq<string> {
    if entries == [] then []
    else ImagePaths(directory, entries[..|entries| - 1]) + Kept(directory, entries[|entries| - 1])
  }

  /** A path is kept exactly when some non-directory entry with an image name gives it. */
  lemma {:induction false} ImagePathsMembers(directory: string, entries: seq<Entry>, p: string)
    ensures p in ImagePaths(directory, entries) <==>
      exists e :: e in entries && !e.isDir && IsImageName(e.name) && p == directory + "/" + e.name
  {
    if entries != [] {
      var init := entries[..|entries| - 1];
      ImagePathsMembers(directory, init, p);
      assert entries == init + [entries[|entries| - 1]];
      assert forall e :: e in entries <==> e in init || e == entries[|entries| - 1];
    }
  }

  /** One more entry appends what that entry contributes. */
  lemma {:induction false} ImagePathsStep(directory: string, entries: seq<Entry>, k: nat)
    requires k < |entries|
    ensures ImagePaths(directory, entries[..k + 1]) == ImagePaths(directory, entries[..k]) + Kept(directory, entries[k])
  {
    assert entries[..k + 1][..k] == entries[..k];
  }

  /** getImageList's result for a successful listing */
  function ImageList(directory: string, entries: seq<Entry>): seq<string> {
    SortStrings(ImagePaths(directory, entries))
  }

  /**
   * getImageList: on a listing error, the empty list and the error; else
   * the kept paths, sorted.
   */
  method GetImageList(directory: string, listing: Result<seq<Entry>, ListError>) returns (files: seq<string>, err: Option<ListError>)
    ensures listing.Failure? ==> files == [] && err == Some(listing.error)
    ensures listing.Success? ==> err == None && files == ImageList(directory, listing.value)
    ensures Sorted(files)
    ensures listing.Success? ==> multiset(files) == multiset(ImagePaths(directory, listing.value))
  {
    if listing.Failure? {
      return [], Some(listing.error);
    }
    var entries := listing.value;
    var imageFiles: seq<string> := [];
    var k := 0;
    while k < |entries|
      invariant 0 <= k <= |entries|
      invariant imageFiles == ImagePaths(directory, entries[..k])
    {
      var f := entries[k];
      ImagePathsStep(directory, entries, k);
      if f.isDir {
        k := k + 1;
        continue;
      }
      var ok := IsImageName(f.name);
      if ok {
        var path := directory + "/" + f.name;
        imageFiles := imageFiles + [path];
      }
      k := k + 1;
    }
    assert entries[..|entries|] == entries;
    files := SortStrings(imageFiles);
    err := None;
  }
}
