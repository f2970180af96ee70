/**
 * The few Python and JavaScript string operations the two components rely on:
 * `str.find`, `str.lstrip(chars)`, `str.strip()` with Python's notion of
 * whitespace, and the decimal rendering of a number inside a template string.
 */
module Strings {

  /** `pat` occurs in `s` starting at index `i`. */
  predicate OccursAt(s: string, pat: string, i: int) {
    0 <= i && i + |pat| <= |s| && s[i..i + |pat|] == pat
  }

  /** `i` is the lowest index at which `pat` occurs in `s`. */
  predicate FirstOccurrence(s: string, pat: string, i: int) {
    OccursAt(s, pat, i) && forall j :: 0 <= j < i ==> !OccursAt(s, pat, j)
  }

  /** `pat` occurs nowhere in `s`. */
  predicate Absent(s: string, pat: string) {
    forall j :: 0 <= j <= |s| ==> !OccursAt(s, pat, j)
  }

  /** The first occurrence of a pattern is unique. */
  lemma FirstOccurrenceUnique(s: string, pat: string, i: int, k: int)
    requires FirstOccurrence(s, pat, i) && FirstOccurrence(s, pat, k)
    ensures i == k
  {
  }

  /** The lowest index from `from` on at which `pat` occurs in `s`, or -1. */
  function FindFrom(s: string, pat: string, from: nat): (r: int)
    requires from <= |s| + 1
    ensures r == -1 <==> forall j :: from <= j <= |s| ==> !OccursAt(s, pat, j)
    ensures r != -1 ==> from <= r && OccursAt(s, pat, r)
                        && forall j :: from <= j < r ==> !OccursAt(s, pat, j)
    decreases |s| + 1 - from
  {
    if from + |pat| > |s| then -1
    else if s[from..from + |pat|] == pat then
      assert OccursAt(s, pat, from);
      from
    else FindFrom(s, pat, from + 1)
  }

  /**
   * Python's `s.find(pat)`: the lowest index at which `pat` occurs in `s`,
   * or -1 when it occurs nowhere.
   */
  function Find(s: string, pat: string): (r: int)
    ensures r == -1 <==> Absent(s, pat)
    ensures r != -1 ==> FirstOccurrence(s, pat, r)
  {
    FindFrom(s, pat, 0)
  }

  /** `find` returns the first occurrence whenever there is one. */
  lemma FindLocates(s: string, pat: string, i: int)
    requires FirstOccurrence(s, pat, i)
    ensures Find(s, pat) == i
  {
    assert !Absent(s, pat);
    FirstOccurrenceUnique(s, pat, i, Find(s, pat));
  }

  /** The number of leading characters of `s[from..]` equal to `c`, counted from `from`. */
  function SkipChar(s: string, c: char, from: nat): (n: nat)
    requires from <= |s|
    ensures from <= n <= |s|
    ensures forall i :: from <= i < n ==> s[i] == c
    ensures n == |s| || s[n] != c
    decreases |s| - from
  {
    if from < |s| && s[from] == c then SkipChar(s, c, from + 1) else from
  }

  /**
   * Python's `s.lstrip(c)` for a single character: `s` with every leading
   * `c` removed.
   */
  function LStrip(s: string, c: char): (r: string)
    ensures |r| <= |s| && r == s[|s| - |r|..]
    ensures r == [] || r[0] != c
    ensures forall i :: 0 <= i < |s| - |r| ==> s[i] == c
  {
    s[SkipChar(s, c, 0)..]
  }

  /** The characters Python's `str.strip()` and `str.isspace()` treat as whitespace. */
  predicate IsSpace(ch: char) {
    || ch == ' '
    || '\t' <= ch <= '\r'
    || '\U{1C}' <= ch <= '\U{1F}'
    || ch == '\U{85}'
    || ch == '\U{A0}'
    || ch == '\U{1680}'
    || '\U{2000}' <= ch <= '\U{200A}'
    || ch == '\U{2028}'
    || ch == '\U{2029}'
    || ch == '\U{202F}'
    || ch == '\U{205F}'
    || ch == '\U{3000}'
  }

  /** Every character of `s` is whitespace (vacuously so for `""`). */
  predicate Blank(s: string) {
    forall i :: 0 <= i < |s| ==> IsSpace(s[i])
  }

  /** The index of the first non-whitespace character of `s` at or after `from`, or `|s|`. */
  function SkipSpace(s: string, from: nat): (n: nat)
    requires from <= |s|
    ensures from <= n <= |s|
    ensures forall i :: from <= i < n ==> IsSpace(s[i])
    ensures n == |s| || !IsSpace(s[n])
    decreases |s| - from
  {
    if from < |s| && IsSpace(s[from]) then SkipSpace(s, from + 1) else from
  }

  /** The length of `s[..to]` once its trailing whitespace is dropped. */
  function TrimSpace(s: string, to: nat): (n: nat)
    requires to <= |s|
    ensures n <= to
    ensures forall i :: n <= i < to ==> IsSpace(s[i])
    ensures n == 0 || !IsSpace(s[n - 1])
  {
    if to > 0 && IsSpace(s[to - 1]) then TrimSpace(s, to - 1) else to
  }

  /** `s` with its leading whitespace removed. */
  function LStripSpace(s: string): (r: string)
    ensures |r| <= |s| && r == s[|s| - |r|..]
    ensures r == [] || !IsSpace(r[0])
    ensures Blank(s[..|s| - |r|])
  {
    s[SkipSpace(s, 0)..]
  }

  /** `s` with its trailing whitespace removed. */
  function RStripSpace(s: string): (r: string)
    ensures |r| <= |s| && r == s[..|r|]
    ensures r == [] || !IsSpace(r[|r| - 1])
    ensures Blank(s[|r|..])
  {
    s[..TrimSpace(s, |s|)]
  }

  /**
   * Python's `s.strip()`: `s` is whitespace, then the result, then whitespace,
   * and the result neither starts nor ends with whitespace.
   */
  function Strip(s: string): (r: string)
    ensures exists i :: OccursAt(s, r, i) && Blank(s[..i]) && Blank(s[i + |r|..])
    ensures r == [] || (!IsSpace(r[0]) && !IsSpace(r[|r| - 1]))
  {
    var l := LStripSpace(s);
    var r := RStripSpace(l);
    var i := |s| - |l|;
    assert OccursAt(s, r, i) by {
      assert r == s[i..i + |r|];
    }
    assert s[i + |r|..] == l[|r|..];
    r
  }

  /** Stripping leaves nothing exactly when the text is all whitespace. */
  lemma StripEmptyIffBlank(s: string)
    ensures Strip(s) == [] <==> Blank(s)
  {
    var l := LStripSpace(s);
    if Strip(s) == [] {
      assert l[0..] == l && Blank(l[0..]);
      assert l == [];
      assert s[..|s|] == s;
    } else {
      var r := Strip(s);
      assert r[0] == l[0];
      assert !IsSpace(s[|s| - |l|]);
    }
  }

  /** The decimal digit character for `d`. */
  function DigitChar(d: nat): (ch: char)
    requires d < 10
    ensures '0' <= ch <= '9' && ch as int - '0' as int == d
  {
    ('0' as int + d) as char
  }

  /** `s` is a non-empty string of decimal digits. */
  predicate IsDigits(s: string) {
    |s| > 0 && forall i :: 0 <= i < |s| ==> '0' <= s[i] <= '9'
  }

  /** The number a string of decimal digits denotes. */
  function DecimalValue(s: string): nat
    requires forall i :: 0 <= i < |s| ==> '0' <= s[i] <= '9'
  {
    if s == [] then 0 else DecimalValue(s[..|s| - 1]) * 10 + (s[|s| - 1] as int - '0' as int)
  }

  /**
   * The decimal rendering of a number, as a JavaScript template string gives
   * it: digits only, no leading zero, and denoting `n`.
   */
  function DecimalString(n: nat): (r: string)
    ensures IsDigits(r)
    ensures DecimalValue(r) == n
    ensures r[0] == '0' ==> r == "0"
    decreases n
  {
    if n < 10 then [DigitChar(n)]
    else
      var prefix := DecimalString(n / 10);
      var r := prefix + [DigitChar(n % 10)];
      assert r[..|r| - 1] == prefix;
      r
  }
}
