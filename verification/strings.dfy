/**
 The few .NET string operations the path dispatch relies on, modelled on
 `seq<char>`: lower-casing, suffix tests, searching for the last occurrence
 of a pattern, replacing every occurrence of a pattern, and the
 null-or-white-space test. Only ASCII letters are case-mapped.
 */
module Strings {

  /** `None` stands for a .NET `null` string. */
  datatype Option<+T> = None | Some(value: T)

  predicate IsUpper(c: char) {
    'A' <= c <= 'Z'
  }

  /** `s` holds no upper-case ASCII letter. */
  predicate IsLowerCase(s: string) {
    forall i | 0 <= i < |s| :: !IsUpper(s[i])
  }

  function LowerChar(c: char): char {
    if IsUpper(c) then (c as int - 'A' as int + 'a' as int) as char else c
  }

  /** String.ToLower, restricted to the ASCII letters. */
  function ToLower(s: string): (r: string)
    ensures |r| == |s|
    ensures IsLowerCase(r)
    ensures forall i | 0 <= i < |s| && !IsUpper(s[i]) :: r[i] == s[i]
    ensures forall i | 0 <= i < |s| && IsUpper(s[i]) :: r[i] as int == s[i] as int + 32
  {
    if |s| == 0 then "" else [LowerChar(s[0])] + ToLower(s[1..])
  }

  /** `pat` occurs in `s` starting at index `i`. */
  predicate OccursAt(s: string, pat: string, i: int) {
    0 <= i && i + |pat| <= |s| && s[i..i + |pat|] == pat
  }

  /** String.Contains(pat). */
  predicate Occurs(s: string, pat: string) {
    exists i | 0 <= i <= |s| - |pat| :: OccursAt(s, pat, i)
  }

  /** String.EndsWith(suffix), compared ordinally. */
  predicate EndsWith(s: string, suffix: string) {
    |suffix| <= |s| && s[|s| - |suffix|..] == suffix
  }

  /**
   String.LastIndexOf(pat): the start of the last occurrence of `pat` in `s`,
   or -1 when there is none.
   */
  function LastIndexOf(s: string, pat: string): (r: int)
    ensures r == -1 <==> !Occurs(s, pat)
    ensures r != -1 ==> OccursAt(s, pat, r)
    ensures forall j | r < j :: !OccursAt(s, pat, j)
    decreases |s|
  {
    if |s| < |pat| then -1
    else if EndsWith(s, pat) then assert OccursAt(s, pat, |s| - |pat|); |s| - |pat|
    else
      var t := s[..|s| - 1];
      var r := LastIndexOf(t, pat);
      OccursAtInPrefix(s, pat, |s| - 1);
      r
  }

  /** Occurrences that end within the first `n` characters are the occurrences in `s[..n]`. */
  lemma OccursAtInPrefix(s: string, pat: string, n: nat)
    requires n <= |s|
    ensures forall j | j + |pat| <= n :: OccursAt(s[..n], pat, j) <==> OccursAt(s, pat, j)
  {
    forall j | 0 <= j && j + |pat| <= n ensures OccursAt(s[..n], pat, j) <==> OccursAt(s, pat, j) {
      assert s[..n][j..j + |pat|] == s[j..j + |pat|];
    }
  }

  /**
   String.Replace(oldValue, newValue): every occurrence of `oldValue` found
   scanning left to right, and not overlapping the previous one, is replaced.
   .NET rejects an empty `oldValue`.
   */
  function Replace(s: string, oldValue: string, newValue: string): (r: string)
    requires |oldValue| > 0
    ensures !Occurs(s, oldValue) ==> r == s
    decreases |s|
  {
    if |s| < |oldValue| then s
    else if s[..|oldValue|] == oldValue then
      assert OccursAt(s, oldValue, 0);
      newValue + Replace(s[|oldValue|..], oldValue, newValue)
    else
      var rest := Replace(s[1..], oldValue, newValue);
      assert !Occurs(s, oldValue) ==> !Occurs(s[1..], oldValue) by {
        if Occurs(s[1..], oldValue) {
          var j :| 0 <= j <= |s[1..]| - |oldValue| && OccursAt(s[1..], oldValue, j);
          assert s[1..][j..j + |oldValue|] == s[j + 1..j + 1 + |oldValue|];
          assert OccursAt(s, oldValue, j + 1);
        }
      }
      assert s == [s[0]] + s[1..];
      [s[0]] + rest
  }

  /**
   Removing a leading `w` that occurs nowhere after itself leaves exactly the
   rest of the string: the replacement touches only that leading copy.
   */
  lemma {:induction false} ReplaceLeadingOnly(s: string, w: string)
    requires |w| > 0 && w <= s
    requires !Occurs(s[|w|..], w)
    ensures Replace(s, w, "") == s[|w|..]
  {
    assert s[..|w|] == w;
  }

  /** An occurrence of `w`, which ends with `pat`, contains an occurrence of `pat`. */
  lemma OccurrenceOfSuffix(t: string, w: string, pat: string, j: int)
    requires EndsWith(w, pat)
    requires OccursAt(t, w, j)
    ensures OccursAt(t, pat, j + |w| - |pat|)
  {
    assert t[j + |w| - |pat|..j + |w|] == t[j..j + |w|][|w| - |pat|..];
  }

  /**
   An occurrence of `pat` in `a + [c] + b` lies wholly inside `a` or inside
   `b` when `c` is not a character of `pat`.
   */
  lemma OccursAroundChar(a: string, c: char, b: string, pat: string)
    requires c !in pat
    ensures Occurs(a + [c] + b, pat) ==> Occurs(a, pat) || Occurs(b, pat)
  {
    var s := a + [c] + b;
    forall j | 0 <= j <= |s| - |pat| && j <= |a| < j + |pat|
      ensures !OccursAt(s, pat, j)
    {
      assert s[j..j + |pat|][|a| - j] == c;
    }
    forall j | 0 <= j <= |s| - |pat| && OccursAt(s, pat, j)
      ensures Occurs(a, pat) || Occurs(b, pat)
    {
      if j + |pat| <= |a| {
        assert s[j..j + |pat|] == a[j..j + |pat|];
        assert OccursAt(a, pat, j);
      } else if j > |a| {
        assert s[j..j + |pat|] == b[j - |a| - 1..j - |a| - 1 + |pat|];
        assert OccursAt(b, pat, j - |a| - 1);
      }
    }
  }

  /** Char.IsWhiteSpace: the control characters tab to carriage return, NEL, and the Unicode space, line and paragraph separators. */
  predicate IsWhiteSpace(c: char) {
    || c == ' ' || '\t' <= c <= '\r' || c == 0x85 as char || c == 0xA0 as char
    || c == 0x1680 as char || 0x2000 as char <= c <= 0x200A as char
    || c == 0x2028 as char || c == 0x2029 as char || c == 0x202F as char
    || c == 0x205F as char || c == 0x3000 as char
  }

  /** String.IsNullOrWhiteSpace. */
  predicate IsNullOrWhiteSpace(s: Option<string>) {
    s.None? || forall i | 0 <= i < |s.value| :: IsWhiteSpace(s.value[i])
  }
}
