/**
 * The span vocabulary of the scrubber: the closed set of labels, the
 * priority table used to arbitrate overlaps, per-label confidences, and the
 * half-open interval predicates `overlaps` and `inside_any`.
 */
module Spans {

  import opened Sorting

  /** The categories of sensitive data a span can carry. */
  datatype Label =
    | Email | Phone | Dob | ApptId | InsuranceId | GovId | Url
    | Name | Provider | Address

  /** The tag written for a label, in `[LABEL]` placeholders and in `types_found`. */
  function LabelName(l: Label): string
  {
    match l
    case Email => "EMAIL"
    case Phone => "PHONE"
    case Dob => "DOB"
    case ApptId => "APPT_ID"
    case InsuranceId => "INSURANCE_ID"
    case GovId => "GOV_ID"
    case Url => "URL"
    case Name => "NAME"
    case Provider => "PROVIDER"
    case Address => "ADDRESS"
  }

  /** Strength of a label when two spans compete; higher wins. */
  function Priority(l: Label): (p: int)
    ensures 30 <= p <= 100
  {
    match l
    case GovId => 100
    case InsuranceId => 90
    case ApptId => 80
    case Dob => 70
    case Url => 65
    case Email => 60
    case Address => 50
    case Provider => 45
    case Name => 40
    case Phone => 30
  }

  /** No two labels share a priority, and no two labels share a name. */
  lemma LabelTablesInjective(a: Label, b: Label)
    ensures Priority(a) == Priority(b) <==> a == b
    ensures LabelName(a) == LabelName(b) <==> a == b
  {
    if a != b {
      // the names differ in their first two characters
      assert LabelName(a)[0] != LabelName(b)[0] || LabelName(a)[1] != LabelName(b)[1];
    }
  }

  /**
   * The fixed confidence each matcher attaches to its spans, written in
   * hundredths (95 stands for 0.95). It is carried along, never computed with.
   */
  function Confidence(l: Label): nat
  {
    match l
    case Name => 75
    case Provider => 80
    case Address => 85
    case _ => 95
  }

  /** A labelled half-open character range `[start, end)` of the text. */
  datatype Span = Span(kind: Label, start: nat, end: nat, confidence: nat)

  /** Position `p` lies inside the half-open range of `s`. */
  predicate Covers(s: Span, p: int)
  {
    s.start <= p < s.end
  }

  /** The `overlaps` test of the scrubber. */
  function Overlaps(a: Span, b: Span): (r: bool)
  {
    !(a.end <= b.start || b.end <= a.start)
  }

  /**
   * Two non-empty ranges overlap exactly when some position lies in both;
   * the test is symmetric, and ranges sharing a position always overlap.
   */
  lemma OverlapsIffSharedPosition(a: Span, b: Span)
    ensures (exists p :: Covers(a, p) && Covers(b, p)) ==> Overlaps(a, b)
    ensures a.start < a.end && b.start < b.end ==>
              (Overlaps(a, b) <==> exists p :: Covers(a, p) && Covers(b, p))
    ensures Overlaps(a, b) == Overlaps(b, a)
  {
    if Overlaps(a, b) && a.start < a.end && b.start < b.end {
      var p := if a.start < b.start then b.start else a.start;
      assert Covers(a, p) && Covers(b, p);
    }
  }

  /**
   * For an empty range the test is not about shared positions: `[5, 5)` covers
   * no position, yet it overlaps `[3, 8)`.
   */
  lemma EmptyRangeOverlaps()
    ensures var e, w := Span(Phone, 5, 5, 95), Span(Url, 3, 8, 95);
            Overlaps(e, w) && !exists p :: Covers(e, p)
  {
  }

  /** `inner` lies within `outer` (the containment test of `inside_any`). */
  predicate Contained(inner: Span, outer: Span)
  {
    inner.start >= outer.start && inner.end <= outer.end
  }

  /**
   * The `inside_any` search: scans `spans` from the front and answers true at
   * the first span labelled `l` that contains `span`.
   */
  function InsideAny(span: Span, spans: seq<Span>, l: Label): (r: bool)
    ensures r <==> exists i :: 0 <= i < |spans| && spans[i].kind == l && Contained(span, spans[i])
  {
    if spans == [] then false
    else if spans[0].kind == l && Contained(span, spans[0]) then true
    else
      var r := InsideAny(span, spans[1..], l);
      assert forall i :: 1 <= i < |spans| ==> spans[i] == spans[1..][i - 1];
      r
  }

  /** Spans appended after the ones labelled `l` do not change the answer of `inside_any` for `l`. */
  lemma InsideAnyIgnoresOtherLabels(span: Span, a: seq<Span>, b: seq<Span>, l: Label)
    requires forall x :: x in b ==> x.kind != l
    ensures InsideAny(span, a + b, l) == InsideAny(span, a, l)
  {
    var ab := a + b;
    if InsideAny(span, ab, l) {
      var i :| 0 <= i < |ab| && ab[i].kind == l && Contained(span, ab[i]);
      assert a[i] == ab[i];
    }
    if InsideAny(span, a, l) {
      var i :| 0 <= i < |a| && a[i].kind == l && Contained(span, a[i]);
      assert ab[i] == a[i];
    }
  }

  /** Every two distinct positions of `xs` hold non-overlapping spans. */
  predicate Disjoint(xs: seq<Span>)
  {
    forall i, j :: 0 <= i < j < |xs| ==> !Overlaps(xs[i], xs[j])
  }

  /** Every span of `xs` is non-empty and ends within a text of length `n`. */
  predicate NonEmptyWithin(xs: seq<Span>, n: nat)
  {
    forall i :: 0 <= i < |xs| ==> xs[i].start < xs[i].end <= n
  }

  /** Concatenating two disjoint sequences whose spans do not meet keeps them disjoint. */
  lemma DisjointConcat(a: seq<Span>, b: seq<Span>)
    requires Disjoint(a) && Disjoint(b)
    requires forall x, y :: x in a && y in b ==> !Overlaps(x, y)
    ensures Disjoint(a + b)
  {
    var ab := a + b;
    forall i, j | 0 <= i < j < |ab| ensures !Overlaps(ab[i], ab[j]) {
      if j < |a| {
        assert ab[i] == a[i] && ab[j] == a[j];
      } else if i >= |a| {
        assert ab[i] == b[i - |a|] && ab[j] == b[j - |a|];
      } else {
        assert ab[i] in a && ab[j] in b;
      }
    }
  }

  /** Rearranging a disjoint sequence keeps it disjoint. */
  lemma DisjointPermutation(xs: seq<Span>, ys: seq<Span>)
    requires multiset(xs) == multiset(ys) && Disjoint(xs)
    ensures Disjoint(ys)
  {
    forall i, j | 0 <= i < j < |ys| ensures !Overlaps(ys[i], ys[j]) {
      if ys[i] == ys[j] {
        RepeatedValueCountsTwice(ys, i, j);
        CountTwiceHasTwoPositions(xs, ys[i]);
        var p, q :| 0 <= p < q < |xs| && xs[p] == ys[i] && xs[q] == ys[i];
        assert !Overlaps(xs[p], xs[q]);
      } else {
        assert ys[i] in multiset(xs) && ys[j] in multiset(xs);
        var p :| 0 <= p < |xs| && xs[p] == ys[i];
        var q :| 0 <= q < |xs| && xs[q] == ys[j];
        if p < q {
          assert !Overlaps(xs[p], xs[q]);
        } else {
          assert !Overlaps(xs[q], xs[p]);
        }
      }
    }
  }
}
