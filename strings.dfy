/**
 * The few pieces of Python string behaviour the scrubber relies on: slicing
 * with non-negative bounds (which clamps to the string), ASCII `lower()`,
 * the substring test `needle in hay`, and `<` on strings.
 */
module Strings {

  function Min(a: int, b: int): int
  {
    if a <= b then a else b
  }

  function Max(a: int, b: int): int
  {
    if a <= b then b else a
  }

  /**
   * Python's `s[lo:hi]` for non-negative bounds: both bounds are clamped to
   * the length, and a slice whose start is not before its end is empty.
   */
  function Slice(s: string, lo: nat, hi: nat): (r: string)
    ensures |r| == Max(0, Min(hi, |s|) - Min(lo, |s|))
    ensures forall k :: 0 <= k < |r| ==> r[k] == s[lo + k]
    ensures lo <= hi <= |s| ==> r == s[lo..hi]
  {
    var a, b := Min(lo, |s|), Min(hi, |s|);
    if a < b then s[a..b] else []
  }

  /** ASCII `lower()`: upper-case Latin letters map to lower case, everything else is kept. */
  function Lower(c: char): (d: char)
    ensures 'A' <= c <= 'Z' ==> 'a' <= d <= 'z' && d as int == c as int + 32
    ensures !('A' <= c <= 'Z') ==> d == c
  {
    if 'A' <= c <= 'Z' then (c as int - 'A' as int + 'a' as int) as char else c
  }

  /** `s.lower()`, one character at a time, so the length is kept. */
  function LowerStr(s: string): (r: string)
    ensures |r| == |s|
    ensures forall k :: 0 <= k < |s| ==> r[k] == Lower(s[k])
  {
    seq(|s|, k requires 0 <= k < |s| => Lower(s[k]))
  }

  /** `needle` sits in `hay` starting at offset `i`. */
  predicate OccursAt(needle: string, hay: string, i: int)
  {
    0 <= i && i + |needle| <= |hay| && hay[i..i + |needle|] == needle
  }

  /** Python's `needle in hay`: tries every offset from the left. */
  function Occurs(needle: string, hay: string): (r: bool)
    ensures r <==> exists i :: OccursAt(needle, hay, i)
    decreases |hay|
  {
    if |hay| < |needle| then false
    else if hay[..|needle|] == needle then
      assert OccursAt(needle, hay, 0);
      true
    else
      OccursAfterFirst(needle, hay);
      Occurs(needle, hay[1..])
  }

  /** Offsets in `hay[1..]` are the non-zero offsets in `hay`, shifted by one. */
  lemma OccursAfterFirst(needle: string, hay: string)
    requires hay != [] && !OccursAt(needle, hay, 0)
    ensures (exists i :: OccursAt(needle, hay[1..], i)) <==> exists i :: OccursAt(needle, hay, i)
  {
    if i :| OccursAt(needle, hay[1..], i) {
      assert hay[1..][i..i + |needle|] == hay[i + 1..i + 1 + |needle|];
      assert OccursAt(needle, hay, i + 1);
    }
    if i :| OccursAt(needle, hay, i) {
      assert hay[1..][i - 1..i - 1 + |needle|] == hay[i..i + |needle|];
      assert OccursAt(needle, hay[1..], i - 1);
    }
  }

  /** Python's `a < b` on strings: code-point lexicographic order, a proper prefix first. */
  predicate StrLess(a: string, b: string)
  {
    if a == [] then b != []
    else if b == [] then false
    else if a[0] != b[0] then a[0] < b[0]
    else StrLess(a[1..], b[1..])
  }

  /** String `<` is irreflexive. */
  lemma {:induction false} StrLessIrreflexive(a: string)
    ensures !StrLess(a, a)
  {
    if a != [] {
      StrLessIrreflexive(a[1..]);
    }
  }

  /** String `<` is transitive. */
  lemma {:induction false} StrLessTransitive(a: string, b: string, c: string)
    requires StrLess(a, b) && StrLess(b, c)
    ensures StrLess(a, c)
  {
    if a != [] && a[0] == b[0] && b[0] == c[0] {
      StrLessTransitive(a[1..], b[1..], c[1..]);
    }
  }
}
