/**
 * String facilities the scripts take from Python's `str`: prefix tests,
 * `strip()` with its default whitespace set, the comparison used by
 * `sorted`, and lower-casing as the sort key.
 */
module Strings {

  /** `s.startswith(prefix)` */
  predicate StartsWith(s: string, prefix: string) {
    |prefix| <= |s| && s[..|prefix|] == prefix
  }

  /** The characters `str.isspace()` accepts, and so the ones `str.strip()` removes. */
  predicate IsSpace(c: char) {
    var n := c as int;
    (0x09 <= n <= 0x0D) || (0x1C <= n <= 0x20) || n == 0x85 || n == 0xA0 || n == 0x1680
    || (0x2000 <= n <= 0x200A) || n == 0x2028 || n == 0x2029 || n == 0x202F || n == 0x205F
    || n == 0x3000
  }

  /** Every character of s[lo..hi] is whitespace. */
  predicate AllSpace(s: string, lo: int, hi: int)
    requires 0 <= lo <= hi <= |s|
  {
    forall m :: lo <= m < hi ==> IsSpace(s[m])
  }

  /** s[lo..hi] is what is left of s once its leading and trailing whitespace is removed. */
  ghost predicate StripsTo(s: string, lo: int, hi: int) {
    0 <= lo <= hi <= |s| && AllSpace(s, 0, lo) && AllSpace(s, hi, |s|)
    && (lo < hi ==> !IsSpace(s[lo]) && !IsSpace(s[hi - 1]))
  }

  /** The first index at or after `from` that is not whitespace (or |s|). */
  function FirstNonSpace(s: string, from: nat): (lo: nat)
    requires from <= |s| && AllSpace(s, 0, from)
    ensures from <= lo <= |s| && AllSpace(s, 0, lo)
    ensures lo < |s| ==> !IsSpace(s[lo])
    decreases |s| - from
  {
    if from < |s| && IsSpace(s[from]) then FirstNonSpace(s, from + 1) else from
  }

  /** The end of s[lo..upTo] once trailing whitespace is dropped, given s[upTo..] is whitespace. */
  function LastNonSpace(s: string, lo: nat, upTo: nat): (hi: nat)
    requires lo <= upTo <= |s| && AllSpace(s, upTo, |s|)
    ensures lo <= hi <= upTo && AllSpace(s, hi, |s|)
    ensures lo < hi ==> !IsSpace(s[hi - 1])
    decreases upTo
  {
    if lo < upTo && IsSpace(s[upTo - 1]) then LastNonSpace(s, lo, upTo - 1) else upTo
  }

  /** `s.strip()` */
  function Strip(s: string): (r: string)
    ensures exists lo, hi :: StripsTo(s, lo, hi) && r == s[lo..hi]
    ensures r == [] || (!IsSpace(r[0]) && !IsSpace(r[|r| - 1]))
  {
    var lo := FirstNonSpace(s, 0);
    var hi := LastNonSpace(s, lo, |s|);
    assert StripsTo(s, lo, hi);
    s[lo..hi]
  }

  /** Stripping is unique: any two ways of removing edge whitespace agree. */
  lemma StripsToUnique(s: string, lo: int, hi: int, lo': int, hi': int)
    requires StripsTo(s, lo, hi) && StripsTo(s, lo', hi')
    ensures s[lo..hi] == s[lo'..hi']
  {
    if lo < hi {
      assert !IsSpace(s[lo]) && !IsSpace(s[hi - 1]);
    }
  }

  /** Stripping an already stripped line changes nothing. */
  lemma StripIdempotent(s: string)
    ensures Strip(Strip(s)) == Strip(s)
  {
    var t := Strip(s);
    assert StripsTo(t, 0, |t|);
    var lo, hi :| StripsTo(t, lo, hi) && Strip(t) == t[lo..hi];
    StripsToUnique(t, lo, hi, 0, |t|);
  }

  /** ASCII approximation of `str.casefold()` on one character. */
  function CasefoldChar(c: char): (d: char)
    ensures 'A' <= c <= 'Z' ==> d as int == c as int + 32
    ensures !('A' <= c <= 'Z') ==> d == c
  {
    if 'A' <= c <= 'Z' then (c as int + 32) as char else c
  }

  /** ASCII approximation of `str.casefold()`, the sort key of the section listing. */
  function Casefold(s: string): (r: string)
    ensures |r| == |s|
    ensures forall m :: 0 <= m < |r| ==> !('A' <= r[m] <= 'Z')
    ensures forall m :: 0 <= m < |s| && 'A' <= s[m] <= 'Z' ==> r[m] as int == s[m] as int + 32
    ensures forall m :: 0 <= m < |s| && !('A' <= s[m] <= 'Z') ==> r[m] == s[m]
  {
    seq(|s|, m requires 0 <= m < |s| => CasefoldChar(s[m]))
  }

  /** Python's `a <= b` on strings: lexicographic by code point, a prefix before its extensions. */
  predicate LexLessEq(a: string, b: string)
    decreases |a|
  {
    a == [] || (b != [] && (a[0] < b[0] || (a[0] == b[0] && LexLessEq(a[1..], b[1..]))))
  }

  lemma {:induction false} LexReflexive(a: string)
    ensures LexLessEq(a, a)
    decreases |a|
  {
    if a != [] { LexReflexive(a[1..]); }
  }

  lemma {:induction false} LexTotal(a: string, b: string)
    ensures LexLessEq(a, b) || LexLessEq(b, a)
    decreases |a|
  {
    if a != [] && b != [] && a[0] == b[0] { LexTotal(a[1..], b[1..]); }
  }

  lemma {:induction false} LexTransitive(a: string, b: string, c: string)
    requires LexLessEq(a, b) && LexLessEq(b, c)
    ensures LexLessEq(a, c)
    decreases |a|
  {
    if a != [] && a[0] == b[0] && b[0] == c[0] { LexTransitive(a[1..], b[1..], c[1..]); }
  }

  lemma {:induction false} LexAntisymmetric(a: string, b: string)
    requires LexLessEq(a, b) && LexLessEq(b, a)
    ensures a == b
    decreases |a|
  {
    if a != [] {
      LexAntisymmetric(a[1..], b[1..]);
      assert a == [a[0]] + a[1..] && b == [b[0]] + b[1..];
    }
  }
}
