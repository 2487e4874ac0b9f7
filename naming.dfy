/** The output file names of the two merge commands. */
module Naming {
  import opened Strings

  predicate IsAlnum(c: char) { 'a' <= c <= 'z' || 'A' <= c <= 'Z' || '0' <= c <= '9' }

  /**
   * regexp.MustCompile("[^a-zA-Z0-9]").ReplaceAllString(s, "_"): every
   * character outside a-z, A-Z and 0-9 becomes one underscore, the others
   * stay.
   */
  function Sanitize(s: string): (r: string)
    ensures |r| == |s|
    ensures forall k :: 0 <= k < |s| && IsAlnum(s[k]) ==> r[k] == s[k]
    ensures forall k :: 0 <= k < |s| && !IsAlnum(s[k]) ==> r[k] == '_'
  {
    if s == [] then [] else (if IsAlnum(s[0]) then [s[0]] else ['_']) + Sanitize(s[1..])
  }

  /** Sanitizing twice is sanitizing once, and nothing but letters, digits and underscores is left. */
  lemma {:induction false} SanitizeIdempotent(s: string)
    ensures Sanitize(Sanitize(s)) == Sanitize(s)
    ensures forall k :: 0 <= k < |s| ==> IsAlnum(Sanitize(s)[k]) || Sanitize(s)[k] == '_'
  {
    var r := Sanitize(s);
    assert forall k :: 0 <= k < |r| ==> Sanitize(r)[k] == r[k];
  }

  /** The prefix flag, followed by an underscore when it is not empty */
  function PrefixPart(prefix: string): string {
    if prefix == "" then "" else prefix + "_"
  }

  /** fmt.Sprintf("%sslice_of_life_%s_%d.jpeg", prefix, sanitized directory name, image count) */
  function OutputFilename(prefix: string, base: string, numImages: nat): string {
    PrefixPart(prefix) + "slice_of_life_" + Sanitize(base) + "_" + Decimal(numImages) + ".jpeg"
  }

  /** fmt.Sprintf("slice_of_life_%d.jpeg", numImages) of main.go's mergeAction */
  function LegacyFilename(numImages: nat): string {
    "slice_of_life_" + Decimal(numImages) + ".jpeg"
  }

  /** A name made of a head ending in '_', some digits and ".jpeg" gives the digits back from before ".jpeg". */
  lemma DigitsBeforeExtension(head: string, digits: string)
    requires |head| >= 1 && head[|head| - 1] == '_'
    ensures var name := head + digits + ".jpeg";
      && |name| >= |digits| + 6
      && name[|name| - 5..] == ".jpeg"
      && name[|name| - 5 - |digits|..|name| - 5] == digits
      && name[|name| - 6 - |digits|] == '_'
  {
    var name := head + digits + ".jpeg";
    assert name[|head|..|head| + |digits|] == digits;
    assert name[|head| + |digits|..] == ".jpeg";
  }

  /** The output name ends in '_', the decimal image count and ".jpeg". */
  lemma {:induction false} OutputFilenameSuffix(prefix: string, base: string, numImages: nat)
    ensures var name := OutputFilename(prefix, base, numImages);
      var digits := Decimal(numImages);
      && |name| >= |digits| + 6
      && name[|name| - 5..] == ".jpeg"
      && name[|name| - 5 - |digits|..|name| - 5] == digits
      && name[|name| - 6 - |digits|] == '_'
  {
    var head := PrefixPart(prefix) + "slice_of_life_" + Sanitize(base) + "_";
    assert OutputFilename(prefix, base, numImages) == head + Decimal(numImages) + ".jpeg";
    DigitsBeforeExtension(head, Decimal(numImages));
  }

  /** A given prefix comes first in the output name, followed by an underscore. */
  lemma OutputFilenamePrefix(prefix: string, base: string, numImages: nat)
    requires prefix != ""
    ensures var name := OutputFilename(prefix, base, numImages);
      |name| > |prefix| && name[..|prefix| + 1] == prefix + "_"
  {
    var rest := "slice_of_life_" + Sanitize(base) + "_" + Decimal(numImages) + ".jpeg";
    assert OutputFilename(prefix, base, numImages) == (prefix + "_") + rest;
  }

  /** Without a '/' in the prefix there is none in the output name. */
  lemma OutputFilenameNoSlash(prefix: string, base: string, numImages: nat)
    requires '/' !in prefix
    ensures '/' !in OutputFilename(prefix, base, numImages)
  {
    assert '/' !in Sanitize(base);
    assert '/' !in Decimal(numImages);
  }

  /**
   * The output name starts with the prefix and an underscore when a prefix
   * is given, ends with ".jpeg", the image count can be read back from the
   * digits before ".jpeg", and the directory name contributes no '/',
   * so without one in the prefix the file lands in the working directory.
   */
  lemma {:induction false} OutputFilenameParts(prefix: string, base: string, numImages: nat)
    ensures var name := OutputFilename(prefix, base, numImages);
      var digits := Decimal(numImages);
      && |name| >= |digits| + 6
      && name[|name| - 5..] == ".jpeg"
      && name[|name| - 5 - |digits|..|name| - 5] == digits
      && name[|name| - 6 - |digits|] == '_'
      && DecimalValue(name[|name| - 5 - |digits|..|name| - 5]) == numImages
      && (prefix != "" ==> name[..|prefix| + 1] == prefix + "_")
      && ('/' !in prefix ==> '/' !in name)
  {
    OutputFilenameSuffix(prefix, base, numImages);
    DecimalRoundTrip(numImages);
    if prefix != "" {
      OutputFilenamePrefix(prefix, base, numImages);
    }
    if '/' !in prefix {
      OutputFilenameNoSlash(prefix, base, numImages);
    }
  }

  /** main.go's name reads back as its image count. */
  lemma LegacyFilenameCount(numImages: nat)
    ensures var name := LegacyFilename(numImages);
      && |name| > 19 && name[..14] == "slice_of_life_" && name[|name| - 5..] == ".jpeg"
      && (forall k :: 14 <= k < |name| - 5 ==> IsDigit(name[k]))
      && DecimalValue(name[14..|name| - 5]) == numImages
  {
    var name := LegacyFilename(numImages);
    assert name[14..|name| - 5] == Decimal(numImages);
    DecimalRoundTrip(numImages);
  }
}
