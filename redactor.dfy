/**
 * `scrub_text`: rewrites the text by replacing each span with its label in
 * brackets, working through the spans from the rightmost start to the
 * leftmost so that earlier offsets stay valid.
 */
module Redactor {
  import opened Spans
  import opened Sorting
  import opened Strings

  /** The placeholder written over a span, `"[" + type + "]"`. */
  function Tag(l: Label): string
  {
    "[" + LabelName(l) + "]"
  }

  /** One rewriting step, `s[:start] + tag + s[end:]`, with Python's clamping slices. */
  function Replace(s: string, sp: Span): string
  {
    Slice(s, 0, sp.start) + Tag(sp.kind) + Slice(s, sp.end, |s|)
  }

  /** The rewriting steps, applied to `s` in the order of `order`. */
  function ApplyAll(s: string, order: seq<Span>): string
    decreases |order|
  {
    if order == [] then s else ApplyAll(Replace(s, order[0]), order[1..])
  }

  /** The sort key of `scrub_text`, a span's start. */
  function StartKey(s: Span): int
  {
    s.start
  }

  /**
   * `sorted(..., key=start, reverse=True)`: Python's reversed sort is still
   * stable, which is a stable sort on the negated start.
   */
  function DescStartKey(s: Span): int
  {
    -(s.start as int)
  }

  /** Spans laid out left to right inside a text of length `n`: each ends before the next begins. */
  predicate LeftToRight(ps: seq<Span>, n: nat)
  {
    (forall i :: 0 <= i < |ps| ==> ps[i].start <= ps[i].end <= n) &&
    (forall i, j :: 0 <= i < j < |ps| ==> ps[i].end <= ps[j].start)
  }

  /**
   * The redacted text for spans `ps` laid out left to right: the text after
   * the last span is kept verbatim, the last span becomes its tag, and the
   * text before it is redacted with the remaining spans. So the gaps between
   * spans appear unchanged, interleaved with one tag per span.
   */
  function Redacted(text: string, ps: seq<Span>): string
    decreases |ps|
  {
    if ps == [] then text
    else
      var last := ps[|ps| - 1];
      Redacted(Slice(text, 0, last.start), ps[..|ps| - 1]) + Tag(last.kind) + Slice(text, last.end, |text|)
  }

  /** Spans inside a text of length `n`, each ending before the previous one begins: the rightmost first. */
  predicate RightToLeft(r: seq<Span>, n: nat)
  {
    (forall k :: 0 <= k < |r| ==> r[k].start <= r[k].end) &&
    (|r| > 0 ==> r[0].end <= n) &&
    (forall k :: 0 <= k < |r| - 1 ==> r[k + 1].end <= r[k].start)
  }

  /** Spans laid out left to right, taken in reverse, run from right to left. */
  lemma ReverseRunsRightToLeft(ps: seq<Span>, n: nat)
    requires LeftToRight(ps, n)
    ensures RightToLeft(Reverse(ps), n)
  {
    var r := Reverse(ps);
    forall k | 0 <= k < |r| - 1 ensures r[k + 1].end <= r[k].start {
      assert r[k + 1] == ps[|ps| - 2 - k] && r[k] == ps[|ps| - 1 - k];
    }
  }

  /** Without its last span, a left-to-right layout lies before that span's start. */
  lemma FrontLeftToRight(ps: seq<Span>, n: nat)
    requires LeftToRight(ps, n) && ps != []
    ensures LeftToRight(ps[..|ps| - 1], ps[|ps| - 1].start)
  {
  }

  /** Replacing a span inside `p` never touches text appended after `p`, and keeps the text before the span. */
  lemma ReplaceKeepsSuffix(p: string, m: string, x: Span)
    requires x.start <= x.end <= |p|
    ensures Replace(p + m, x) == Replace(p, x) + m
    ensures |Replace(p, x)| >= x.start
  {
    var a, t, b := p[..x.start], Tag(x.kind), p[x.end..];
    assert Slice(p + m, 0, x.start) == a;
    assert Slice(p + m, x.end, |p + m|) == b + m;
    assert Slice(p, 0, x.start) == a;
    assert Slice(p, x.end, |p|) == b;
    ConcatAssoc(a + t, b, m);
  }

  /** After the rightmost span is replaced, the remaining spans lie before its start. */
  lemma RightToLeftTail(r: seq<Span>, n: nat, n': nat)
    requires RightToLeft(r, n) && r != [] && r[0].start <= n'
    ensures RightToLeft(r[1..], n')
  {
  }

  /**
   * Rewriting spans that all lie inside `p`, from right to left, never
   * touches text appended after `p`.
   */
  lemma {:induction false} ApplyAllKeepsSuffix(p: string, m: string, r: seq<Span>)
    requires RightToLeft(r, |p|)
    ensures ApplyAll(p + m, r) == ApplyAll(p, r) + m
    decreases |r|
  {
    if r != [] {
      var q := Replace(p, r[0]);
      ReplaceKeepsSuffix(p, m, r[0]);
      RightToLeftTail(r, |p|, |q|);
      ApplyAllKeepsSuffix(q, m, r[1..]);
    }
  }

  /** Applying a list of replacements starts with its first one. */
  lemma ApplyAllCons(s: string, x: Span, rest: seq<Span>)
    ensures ApplyAll(s, [x] + rest) == ApplyAll(Replace(s, x), rest)
  {
    assert ([x] + rest)[1..] == rest;
  }

  /** For a span inside the text, the replacement keeps the text before and after it. */
  lemma ReplaceInside(text: string, sp: Span)
    requires sp.start <= sp.end <= |text|
    ensures Replace(text, sp) == text[..sp.start] + (Tag(sp.kind) + text[sp.end..])
  {
    assert Slice(text, 0, sp.start) == text[..sp.start];
    assert Slice(text, sp.end, |text|) == text[sp.end..];
    ConcatAssoc(text[..sp.start], Tag(sp.kind), text[sp.end..]);
  }

  /** Replacing the rightmost span first leaves the text before it, then the tag and the rest. */
  lemma FirstReplacement(text: string, ps: seq<Span>)
    requires ps != [] && ps[|ps| - 1].start <= ps[|ps| - 1].end <= |text|
    ensures var last := ps[|ps| - 1];
            ApplyAll(text, Reverse(ps)) ==
            ApplyAll(text[..last.start] + (Tag(last.kind) + text[last.end..]), Reverse(ps[..|ps| - 1]))
  {
    var last := ps[|ps| - 1];
    assert Reverse(ps) == [last] + Reverse(ps[..|ps| - 1]);
    ApplyAllCons(text, last, Reverse(ps[..|ps| - 1]));
    ReplaceInside(text, last);
  }

  /** The redacted text ends with the last span's tag and the text after it. */
  lemma RedactedLast(text: string, ps: seq<Span>)
    requires ps != [] && ps[|ps| - 1].start <= ps[|ps| - 1].end <= |text|
    ensures var last := ps[|ps| - 1];
            Redacted(text, ps) ==
            Redacted(text[..last.start], ps[..|ps| - 1]) + Tag(last.kind) + text[last.end..]
  {
    var last := ps[|ps| - 1];
    assert Slice(text, 0, last.start) == text[..last.start];
    assert Slice(text, last.end, |text|) == text[last.end..];
  }

  /**
   * Replacing spans laid out left to right in the opposite order, rightmost
   * first, yields the redacted text.
   */
  lemma {:induction false} RightToLeftIsRedacted(text: string, ps: seq<Span>)
    requires LeftToRight(ps, |text|)
    ensures ApplyAll(text, Reverse(ps)) == Redacted(text, ps)
    decreases |ps|
  {
    if ps != [] {
      var n := |ps|;
      var front, last := ps[..n - 1], ps[n - 1];
      var p, t, rest := text[..last.start], Tag(last.kind), text[last.end..];
      FirstReplacement(text, ps);
      RedactedLast(text, ps);
      FrontLeftToRight(ps, |text|);
      ReverseRunsRightToLeft(front, |p|);
      ApplyAllKeepsSuffix(p, t + rest, Reverse(front));
      RightToLeftIsRedacted(p, front);
      ConcatAssoc(Redacted(p, front), t, rest);
    }
  }

  /** Sorted by start, non-empty and non-overlapping: the spans are laid out left to right, starts strictly rising. */
  lemma AscendingLeftToRight(asc: seq<Span>, n: nat)
    requires SortedBy(asc, StartKey) && NonEmptyWithin(asc, n) && Disjoint(asc)
    ensures LeftToRight(asc, n) && StrictlySortedBy(asc, StartKey)
  {
    forall i, j | 0 <= i < j < |asc| ensures asc[i].end <= asc[j].start {
      assert StartKey(asc[i]) <= StartKey(asc[j]);
    }
  }

  /** Sorted by descending start, non-empty and non-overlapping: starts strictly fall. */
  lemma DescendingStrict(desc: seq<Span>, n: nat)
    requires SortedBy(desc, DescStartKey) && NonEmptyWithin(desc, n) && Disjoint(desc)
    ensures StrictlySortedBy(desc, DescStartKey)
  {
    forall i, j | 0 <= i < j < |desc| ensures DescStartKey(desc[i]) < DescStartKey(desc[j]) {
      assert DescStartKey(desc[i]) <= DescStartKey(desc[j]);
    }
  }

  /** Reversing a sequence with strictly rising starts gives strictly falling starts. */
  lemma ReverseFalls(asc: seq<Span>)
    requires StrictlySortedBy(asc, StartKey)
    ensures StrictlySortedBy(Reverse(asc), DescStartKey)
  {
    var rev := Reverse(asc);
    forall i, j | 0 <= i < j < |rev| ensures DescStartKey(rev[i]) < DescStartKey(rev[j]) {
      assert rev[i] == asc[|asc| - 1 - i] && rev[j] == asc[|asc| - 1 - j];
      assert StartKey(asc[|asc| - 1 - j]) < StartKey(asc[|asc| - 1 - i]);
    }
  }

  /** Rearranging non-empty, in-bounds, non-overlapping spans keeps them so. */
  lemma PermutationWellFormed(xs: seq<Span>, ys: seq<Span>, n: nat)
    requires multiset(xs) == multiset(ys)
    requires NonEmptyWithin(xs, n) && Disjoint(xs)
    ensures NonEmptyWithin(ys, n) && Disjoint(ys)
  {
    DisjointPermutation(xs, ys);
    forall i | 0 <= i < |ys| ensures ys[i].start < ys[i].end <= n {
      assert ys[i] in multiset(xs);
      var k :| 0 <= k < |xs| && xs[k] == ys[i];
    }
  }

  /**
   * For non-empty, in-bounds, non-overlapping spans, the descending sort of
   * `scrub_text` is the ascending sort reversed, and the ascending sort lays
   * the spans out left to right.
   */
  lemma DescendingIsReversedAscending(spans: seq<Span>, n: nat)
    requires NonEmptyWithin(spans, n) && Disjoint(spans)
    ensures LeftToRight(SortBy(spans, StartKey), n)
    ensures SortBy(spans, DescStartKey) == Reverse(SortBy(spans, StartKey))
  {
    var asc, desc := SortBy(spans, StartKey), SortBy(spans, DescStartKey);
    PermutationWellFormed(spans, asc, n);
    PermutationWellFormed(spans, desc, n);
    AscendingLeftToRight(asc, n);
    DescendingStrict(desc, n);
    ReverseFalls(asc);
    StrictlySortedUnique(desc, Reverse(asc), DescStartKey);
  }

  /**
   * `scrub_text`: sorts the spans by descending start (ties in input order)
   * and replaces them one at a time. Without spans the text is returned
   * unchanged; for non-empty, in-bounds, non-overlapping spans the result is
   * the redacted text, gaps kept verbatim and one tag per span.
   */
  method ScrubText(text: string, spans: seq<Span>) returns (scrubbed: string)
    ensures scrubbed == ApplyAll(text, SortBy(spans, DescStartKey))
    ensures spans == [] ==> scrubbed == text
    ensures NonEmptyWithin(spans, |text|) && Disjoint(spans) ==>
              scrubbed == Redacted(text, SortBy(spans, StartKey))
  {
    var order := SortBy(spans, DescStartKey);
    scrubbed := text;
    for i := 0 to |order|
      invariant ApplyAll(scrubbed, order[i..]) == ApplyAll(text, order)
    {
      assert order[i..][1..] == order[i + 1..];
      scrubbed := Replace(scrubbed, order[i]);
    }
    if NonEmptyWithin(spans, |text|) && Disjoint(spans) {
      DescendingIsReversedAscending(spans, |text|);
      RightToLeftIsRedacted(text, SortBy(spans, StartKey));
    }
  }
}
