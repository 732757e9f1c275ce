/**
 The System.IO.Path conventions of a Windows host that the dispatch uses:
 the two directory separators, String.Split on both of them with empty
 entries removed, and Path.GetExtension.
 */
module Paths {
  import opened Strings

  const DirectorySeparatorChar: char := '\\'
  const AltDirectorySeparatorChar: char := '/'
  const VolumeSeparatorChar: char := ':'

  predicate IsSeparator(c: char) {
    c == DirectorySeparatorChar || c == AltDirectorySeparatorChar
  }

  /** `s` contains either directory separator. */
  predicate HasSeparator(s: string) {
    DirectorySeparatorChar in s || AltDirectorySeparatorChar in s
  }

  /** Concatenation of a list of strings. */
  function Concat(names: seq<string>): string {
    if |names| == 0 then "" else names[0] + Concat(names[1..])
  }

  /** `s` with every separator deleted. */
  function RemoveSeparators(s: string): string {
    if |s| == 0 then "" else (if IsSeparator(s[0]) then "" else [s[0]]) + RemoveSeparators(s[1..])
  }

  /** The length of the longest separator-free prefix of `s`. */
  function SegmentLength(s: string): (k: nat)
    ensures k <= |s|
    ensures forall i | 0 <= i < k :: !IsSeparator(s[i])
    ensures k < |s| ==> IsSeparator(s[k])
  {
    if |s| == 0 || IsSeparator(s[0]) then 0 else 1 + SegmentLength(s[1..])
  }

  /** Deleting separators from a string whose first `k` characters are none. */
  lemma {:induction false} RemoveSeparatorsAfterSegment(s: string, k: nat)
    requires k <= |s|
    requires forall i | 0 <= i < k :: !IsSeparator(s[i])
    ensures RemoveSeparators(s) == s[..k] + RemoveSeparators(s[k..])
    decreases k
  {
    if k > 0 {
      RemoveSeparatorsAfterSegment(s[1..], k - 1);
      assert s[1..][k - 1..] == s[k..];
      assert [s[0]] + s[1..][..k - 1] == s[..k];
    }
  }

  /**
   String.Split(new[] { '\\', '/' }, StringSplitOptions.RemoveEmptyEntries):
   the maximal separator-free runs of `s`, left to right.
   */
  function Split(s: string): (names: seq<string>)
    ensures ValidNames(names)
    ensures IsLowerCase(s) ==> forall i | 0 <= i < |names| :: IsLowerCase(names[i])
    ensures Concat(names) == RemoveSeparators(s)
    decreases |s|
  {
    if |s| == 0 then []
    else if IsSeparator(s[0]) then Split(s[1..])
    else
      var k := SegmentLength(s);
      var head := s[..k];
      var tail := Split(s[k..]);
      assert head != "" && !HasSeparator(head) by {
        assert head[0] == s[0];
        assert forall i | 0 <= i < |head| :: head[i] == s[i];
      }
      assert IsLowerCase(s) ==> IsLowerCase(head);
      RemoveSeparatorsAfterSegment(s, k);
      assert ([head] + tail)[1..] == tail;
      [head] + tail
  }

  /** Joins non-empty names with one separator between each two. */
  function Join(names: seq<string>, sep: char): string {
    if |names| == 0 then ""
    else if |names| == 1 then names[0]
    else names[0] + [sep] + Join(names[1..], sep)
  }

  /** The names a path may be built from: non-empty and separator-free. */
  predicate ValidNames(names: seq<string>) {
    forall i | 0 <= i < |names| :: names[i] != "" && !HasSeparator(names[i])
  }

  /** A leading separator contributes no name. */
  lemma SplitLeadingSeparator(sep: char, t: string)
    requires IsSeparator(sep)
    ensures Split([sep] + t) == Split(t)
  {
    assert ([sep] + t)[1..] == t;
  }

  /** A separator-free name followed by a separator (or nothing) splits off as one name. */
  lemma SplitSegment(n: string, t: string)
    requires n != "" && !HasSeparator(n)
    requires t == "" || IsSeparator(t[0])
    ensures Split(n + t) == [n] + Split(t)
  {
    var s := n + t;
    assert SegmentLength(s) == |n| by {
      assert forall i | 0 <= i < |n| :: s[i] == n[i];
      SegmentLengthOf(s, |n|);
    }
    assert s[..|n|] == n;
    assert s[|n|..] == t;
  }

  /** The separator-free run of `s` ends exactly at the first separator. */
  lemma {:induction false} SegmentLengthOf(s: string, k: nat)
    requires k <= |s|
    requires forall i | 0 <= i < k :: !IsSeparator(s[i])
    requires k == |s| || IsSeparator(s[k])
    ensures SegmentLength(s) == k
    decreases k
  {
    if k > 0 {
      SegmentLengthOf(s[1..], k - 1);
    }
  }

  /** Splitting undoes joining: Split(Join(names)) gives back the names. */
  lemma {:induction false} SplitJoin(names: seq<string>, sep: char)
    requires IsSeparator(sep)
    requires ValidNames(names)
    ensures Split(Join(names, sep)) == names
    decreases |names|
  {
    if |names| == 1 {
      SplitSegment(names[0], "");
      assert names[0] + "" == names[0];
    } else if |names| > 1 {
      var rest := Join(names[1..], sep);
      SplitSegment(names[0], [sep] + rest);
      SplitLeadingSeparator(sep, rest);
      SplitJoin(names[1..], sep);
      assert names[0] + [sep] + rest == names[0] + ([sep] + rest);
      assert names == [names[0]] + names[1..];
    }
  }

  /** Joining names that avoid `pat` with a separator outside `pat` avoids `pat`. */
  lemma {:induction false} JoinAvoids(names: seq<string>, sep: char, pat: string)
    requires |pat| > 0 && sep !in pat
    requires forall i | 0 <= i < |names| :: !Occurs(names[i], pat)
    ensures !Occurs(Join(names, sep), pat)
    decreases |names|
  {
    if |names| > 1 {
      JoinAvoids(names[1..], sep, pat);
      OccursAroundChar(names[0], sep, Join(names[1..], sep), pat);
    }
  }

  /** A separator-free string is a single name, or none when it is empty. */
  lemma SplitWithoutSeparator(s: string)
    requires !HasSeparator(s)
    ensures Split(s) == if s == "" then [] else [s]
  {
    if s != "" {
      SplitSegment(s, "");
      assert s + "" == s;
    }
  }

  /** The characters at which Path.GetExtension stops looking for a dot. */
  predicate EndsExtensionScan(c: char) {
    IsSeparator(c) || c == VolumeSeparatorChar
  }

  /** A well-formed extension: a dot followed by one or more characters, none a dot or separator. */
  predicate IsExtension(ext: string) {
    && |ext| >= 2
    && ext[0] == '.'
    && forall k | 1 <= k < |ext| :: ext[k] != '.' && !EndsExtensionScan(ext[k])
  }

  /**
   The scan of Path.GetExtension from index `i` down to the start: the text
   from the last dot on, unless a separator or the start of the string comes
   first, or the dot is the last character of `path`.
   */
  function ExtensionScan(path: string, i: nat): (ext: string)
    requires i <= |path|
    requires forall k | i <= k < |path| :: path[k] != '.' && !EndsExtensionScan(path[k])
    ensures ext == "" || (IsExtension(ext) && EndsWith(path, ext))
    decreases i
  {
    if i == 0 then ""
    else if path[i - 1] == '.' then (if i == |path| then "" else path[i - 1..])
    else if EndsExtensionScan(path[i - 1]) then ""
    else ExtensionScan(path, i - 1)
  }

  /** Path.GetExtension: the extension of the final path component, dot included, or "". */
  function Extension(path: string): (ext: string)
    ensures ext == "" || (IsExtension(ext) && EndsWith(path, ext))
  {
    ExtensionScan(path, |path|)
  }

  /** The scan passes over the tail of a suffix extension and stops at its dot. */
  lemma {:induction false} ExtensionScanFindsSuffix(path: string, ext: string, i: nat)
    requires IsExtension(ext) && EndsWith(path, ext)
    requires |path| - |ext| < i <= |path|
    ensures forall k | i <= k < |path| :: path[k] != '.' && !EndsExtensionScan(path[k])
    ensures ExtensionScan(path, i) == ext
    decreases i
  {
    var start := |path| - |ext|;
    assert forall k | start < k < |path| :: path[k] == ext[k - start];
    if i - 1 != start {
      ExtensionScanFindsSuffix(path, ext, i - 1);
    }
  }

  /** A path has a given extension exactly when it ends with it. */
  lemma ExtensionIsSuffix(path: string, ext: string)
    requires IsExtension(ext)
    ensures Extension(path) == ext <==> EndsWith(path, ext)
  {
    if EndsWith(path, ext) {
      ExtensionScanFindsSuffix(path, ext, |path|);
    }
  }
}
