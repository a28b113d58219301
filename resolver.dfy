/**
 * The overlap resolver (`resolve_overlaps`): candidates are sorted by
 * `(start ascending, priority descending)` and swept once; each candidate
 * scans a snapshot of the survivors, evicting weaker overlapping survivors
 * one by one and giving up at the first overlapping survivor at least as
 * strong, without restoring the survivors it already evicted.
 */
module Resolver {

  import opened Spans
  import opened Sorting

  /**
   * The sort key `(start, -priority)` as one integer: priorities lie in
   * [30, 100], so `start * 128 - priority` orders spans exactly as the pair does.
   */
  function SortKey(s: Span): int
  {
    s.start * 128 - Priority(s.kind)
  }

  /**
   * The key orders lexicographically by start, then by descending priority,
   * and it separates any two spans that differ in start or in label.
   */
  lemma SortKeyIsLexicographic(a: Span, b: Span)
    ensures SortKey(a) < SortKey(b) <==>
              a.start < b.start || (a.start == b.start && Priority(a.kind) > Priority(b.kind))
    ensures SortKey(a) == SortKey(b) <==> a.start == b.start && a.kind == b.kind
  {
    LabelTablesInjective(a.kind, b.kind);
  }

  /** Survivor `r` stops candidate `s`: they overlap and `s` is not strictly stronger. */
  predicate Blocks(r: Span, s: Span)
  {
    Overlaps(s, r) && Priority(s.kind) <= Priority(r.kind)
  }

  /** The position at which the scan over `rs` stops for candidate `s` (`|rs|` if it never stops). */
  function FirstBlocker(rs: seq<Span>, s: Span): (k: nat)
    ensures k <= |rs|
    ensures forall i :: 0 <= i < k ==> !Blocks(rs[i], s)
    ensures k < |rs| ==> Blocks(rs[k], s)
  {
    if rs == [] then 0
    else if Blocks(rs[0], s) then 0
    else
      var k := FirstBlocker(rs[1..], s);
      assert forall i :: 1 <= i < |rs| ==> rs[i] == rs[1..][i - 1];
      1 + k
  }

  /** The spans of `rs` that do not overlap `s`, in their order. */
  function Survivors(rs: seq<Span>, s: Span): (r: seq<Span>)
    ensures |r| <= |rs|
    ensures multiset(r) <= multiset(rs)
  {
    if rs == [] then []
    else
      var front, last := rs[..|rs| - 1], rs[|rs| - 1];
      SplitLast(rs);
      Survivors(front, s) + (if Overlaps(s, last) then [] else [last])
  }

  /** A span survives exactly when it was a survivor and does not overlap `s`. */
  lemma {:induction false} SurvivorsMembers(rs: seq<Span>, s: Span)
    ensures forall x :: x in Survivors(rs, s) <==> x in rs && !Overlaps(s, x)
  {
    if rs != [] {
      SplitLast(rs);
      SurvivorsMembers(rs[..|rs| - 1], s);
    }
  }

  /**
   * One iteration of the sweep for candidate `s`: when no survivor blocks it,
   * every overlapping survivor is evicted and `s` is appended; otherwise the
   * overlapping survivors before the first blocker stay evicted and `s` is dropped.
   */
  function Step(rs: seq<Span>, s: Span): seq<Span>
  {
    var k := FirstBlocker(rs, s);
    if k == |rs| then Survivors(rs, s) + [s]
    else Survivors(rs[..k], s) + rs[k..]
  }

  /** The survivors after sweeping the candidates `cs` in order. */
  function Resolve(cs: seq<Span>): seq<Span>
  {
    if cs == [] then [] else Step(Resolve(cs[..|cs| - 1]), cs[|cs| - 1])
  }

  /** What `resolve_overlaps` returns for `spans`. */
  function ResolvedSpans(spans: seq<Span>): seq<Span>
  {
    Resolve(SortBy(spans, SortKey))
  }

  /** Sweeping one more candidate is one more step. */
  lemma ResolveSnoc(cs: seq<Span>, s: Span)
    ensures Resolve(cs + [s]) == Step(Resolve(cs), s)
  {
    assert (cs + [s])[..|cs|] == cs;
  }

  /** The sweep over a prefix of `cs` ends with a step for the prefix's last candidate. */
  lemma ResolveTake(cs: seq<Span>, m: nat)
    requires 0 < m <= |cs|
    ensures Resolve(cs[..m]) == Step(Resolve(cs[..m - 1]), cs[m - 1])
  {
    TakeSnoc(cs, m - 1);
    ResolveSnoc(cs[..m - 1], cs[m - 1]);
  }

  /** The position of the first element of `xs` equal to `v`. */
  function FirstIndex(xs: seq<Span>, v: Span): (i: nat)
    requires v in xs
    ensures i < |xs| && xs[i] == v && v !in xs[..i]
  {
    if xs[0] == v then 0
    else
      var i := FirstIndex(xs[1..], v);
      assert xs[..i + 1] == [xs[0]] + xs[1..][..i];
      i + 1
  }

  /**
   * Python's `list.remove`: drops the first element equal to `v`. The resolver
   * only removes survivors it has just found in the list.
   */
  function RemoveFirst(xs: seq<Span>, v: Span): (r: seq<Span>)
    requires v in xs
    ensures exists i :: 0 <= i < |xs| && xs[i] == v && v !in xs[..i] && r == xs[..i] + xs[i + 1..]
    ensures multiset(r) == multiset(xs) - multiset{v}
  {
    var i := FirstIndex(xs, v);
    assert xs == xs[..i] + [v] + xs[i + 1..];
    xs[..i] + xs[i + 1..]
  }

  lemma RemoveFirstAfterPrefix(a: seq<Span>, v: Span, b: seq<Span>)
    requires v !in a
    ensures RemoveFirst(a + [v] + b, v) == a + b
  {
    var xs := a + [v] + b;
    var i := FirstIndex(xs, v);
    assert xs[|a|] == v;
    assert i == |a|;
    assert xs[..i] == a && xs[i + 1..] == b;
  }

  /**
   * The sweep: sorts the candidates, then lets each one in turn arbitrate
   * against the survivor list, which it mutates.
   */
  method ResolveOverlaps(spans: seq<Span>) returns (resolved: seq<Span>)
    ensures resolved == ResolvedSpans(spans)
    ensures Disjoint(resolved)
    ensures forall i, j :: 0 <= i < j < |resolved| ==> resolved[i].start <= resolved[j].start
    ensures multiset(resolved) <= multiset(spans)
  {
    var candidates := SortBy(spans, SortKey);
    resolved := [];
    for i := 0 to |candidates|
      invariant resolved == Resolve(candidates[..i])
    {
      resolved := Arbitrate(resolved, candidates[i]);
      TakeSnoc(candidates, i);
      ResolveSnoc(candidates[..i], candidates[i]);
    }
    assert candidates[..|candidates|] == candidates;
    ResolvedSpansInvariant(spans);
  }

  /**
   * The body of the sweep for one candidate: scans a snapshot of the survivors
   * with a `keep` flag, removes each weaker overlapping survivor, and stops at
   * the first overlapping survivor that is at least as strong.
   */
  method Arbitrate(survivors: seq<Span>, span: Span) returns (resolved: seq<Span>)
    ensures resolved == Step(survivors, span)
  {
    resolved := survivors;
    var snapshot := survivors;
    var keep := true;
    var j := 0;
    while j < |snapshot|
      invariant 0 <= j <= |snapshot|
      invariant keep && j <= FirstBlocker(snapshot, span)
      invariant resolved == ScanState(snapshot, span, j)
    {
      var r := snapshot[j];
      if Overlaps(span, r) {
        if Priority(span.kind) <= Priority(r.kind) {
          StepWhenBlocked(snapshot, span, j);
          keep := false;
          break;
        }
        ScanEvicts(snapshot, span, j);
        resolved := RemoveFirst(resolved, r);
      } else {
        ScanPasses(snapshot, span, j);
      }
      BlockerLiesBeyond(snapshot, span, j);
      j := j + 1;
    }
    if keep {
      StepWhenClear(snapshot, span);
      resolved := resolved + [span];
    }
  }

  /**
   * The survivor list after the scan for `s` has passed `j` survivors of the
   * snapshot `rs`: the overlapping ones among them removed, the rest untouched.
   */
  function ScanState(rs: seq<Span>, s: Span, j: nat): seq<Span>
    requires j <= |rs|
  {
    Survivors(rs[..j], s) + rs[j..]
  }

  /** A candidate blocked at position `k` drops out, leaving the evictions before `k`. */
  lemma StepWhenBlocked(rs: seq<Span>, s: Span, k: nat)
    requires k < |rs| && k <= FirstBlocker(rs, s) && Blocks(rs[k], s)
    ensures Step(rs, s) == ScanState(rs, s, k)
  {
  }

  /** A candidate nothing blocks evicts every survivor it overlaps and joins the end. */
  lemma StepWhenClear(rs: seq<Span>, s: Span)
    requires FirstBlocker(rs, s) >= |rs|
    ensures Step(rs, s) == ScanState(rs, s, |rs|) + [s]
  {
    assert rs[..|rs|] == rs && rs[|rs|..] == [];
  }

  /** A survivor that does not stop the scan is not its first blocker. */
  lemma BlockerLiesBeyond(snapshot: seq<Span>, span: Span, j: nat)
    requires j < |snapshot| && j <= FirstBlocker(snapshot, span)
    requires !Blocks(snapshot[j], span)
    ensures j < FirstBlocker(snapshot, span)
  {
  }

  /** Filtering one more span filters the shorter list, then that span. */
  lemma SurvivorsSnoc(rs: seq<Span>, x: Span, s: Span)
    ensures Survivors(rs + [x], s) == Survivors(rs, s) + (if Overlaps(s, x) then [] else [x])
  {
    assert (rs + [x])[..|rs|] == rs;
  }

  /** The scan passes over a survivor that does not overlap the candidate. */
  lemma ScanPasses(snapshot: seq<Span>, span: Span, j: nat)
    requires j < |snapshot| && !Overlaps(span, snapshot[j])
    ensures ScanState(snapshot, span, j) == ScanState(snapshot, span, j + 1)
  {
    TakeSnoc(snapshot, j);
    SurvivorsSnoc(snapshot[..j], snapshot[j], span);
    DropCons(snapshot, j);
    ConcatAssoc(Survivors(snapshot[..j], span), [snapshot[j]], snapshot[j + 1..]);
  }

  /** The scan evicts an overlapping survivor: removing it from the list gives the next state. */
  lemma ScanEvicts(snapshot: seq<Span>, span: Span, j: nat)
    requires j < |snapshot| && Overlaps(span, snapshot[j])
    ensures snapshot[j] in ScanState(snapshot, span, j)
    ensures RemoveFirst(ScanState(snapshot, span, j), snapshot[j]) == ScanState(snapshot, span, j + 1)
  {
    var r, rest := snapshot[j], snapshot[j + 1..];
    var pre := Survivors(snapshot[..j], span);
    assert snapshot[j..] == [r] + rest by {
      DropCons(snapshot, j);
    }
    assert pre + snapshot[j..] == pre + [r] + rest by {
      ConcatAssoc(pre, [r], rest);
    }
    assert Survivors(snapshot[..j + 1], span) == pre by {
      TakeSnoc(snapshot, j);
      SurvivorsSnoc(snapshot[..j], r, span);
      assert pre + [] == pre;
    }
    assert r !in pre by {
      SurvivorsMembers(snapshot[..j], span);
    }
    RemoveFirstAfterPrefix(pre, r, rest);
  }

  /**
   * `resolve_overlaps` returns pairwise non-overlapping spans, ordered by
   * start, each taken from its input (as often as it occurs there at most).
   */
  lemma ResolvedSpansInvariant(spans: seq<Span>)
    ensures Disjoint(ResolvedSpans(spans))
    ensures SortedBy(ResolvedSpans(spans), SortKey)
    ensures forall i, j :: 0 <= i < j < |ResolvedSpans(spans)| ==>
              ResolvedSpans(spans)[i].start <= ResolvedSpans(spans)[j].start
    ensures multiset(ResolvedSpans(spans)) <= multiset(spans)
  {
    var resolved := ResolvedSpans(spans);
    ResolveInvariant(SortBy(spans, SortKey));
    forall i, j | 0 <= i < j < |resolved| ensures resolved[i].start <= resolved[j].start {
      SortKeyIsLexicographic(resolved[j], resolved[i]);
    }
  }

  /** Non-empty candidates inside a text of length `n` give non-empty resolved spans inside it. */
  lemma ResolvedWithin(spans: seq<Span>, n: nat)
    requires NonEmptyWithin(spans, n)
    ensures NonEmptyWithin(ResolvedSpans(spans), n)
  {
    var resolved := ResolvedSpans(spans);
    ResolvedSpansInvariant(spans);
    forall i | 0 <= i < |resolved| ensures resolved[i].start < resolved[i].end <= n {
      assert resolved[i] in multiset(resolved);
      var k :| 0 <= k < |spans| && spans[k] == resolved[i];
    }
  }

  /** Filtering keeps a disjoint sequence disjoint. */
  lemma {:induction false} SurvivorsDisjoint(rs: seq<Span>, s: Span)
    requires Disjoint(rs)
    ensures Disjoint(Survivors(rs, s))
  {
    if rs != [] {
      var front, last := rs[..|rs| - 1], rs[|rs| - 1];
      SurvivorsDisjoint(front, s);
      SurvivorsMembers(front, s);
      forall x | x in Survivors(front, s) ensures !Overlaps(x, last) {
        var p :| 0 <= p < |front| && front[p] == x;
        assert rs[p] == x;
      }
      DisjointConcat(Survivors(front, s), if Overlaps(s, last) then [] else [last]);
    }
  }

  /** Filtering keeps a sorted sequence sorted. */
  lemma {:induction false} SurvivorsSorted(rs: seq<Span>, s: Span)
    requires SortedBy(rs, SortKey)
    ensures SortedBy(Survivors(rs, s), SortKey)
  {
    if rs != [] {
      var front, last := rs[..|rs| - 1], rs[|rs| - 1];
      SortedPrefix(rs, |rs| - 1, SortKey);
      SurvivorsSorted(front, s);
      SurvivorsMembers(front, s);
      forall x | x in Survivors(front, s) ensures SortKey(x) <= SortKey(last) {
        var p :| 0 <= p < |front| && front[p] == x;
        assert rs[p] == x;
      }
      SortedConcat(Survivors(front, s), if Overlaps(s, last) then [] else [last], SortKey);
    }
  }

  /** Nothing is filtered when no span of `rs` overlaps `s`. */
  lemma {:induction false} SurvivorsOfNoOverlap(rs: seq<Span>, s: Span)
    requires forall i :: 0 <= i < |rs| ==> !Overlaps(s, rs[i])
    ensures Survivors(rs, s) == rs
  {
    if rs != [] {
      var front := rs[..|rs| - 1];
      SurvivorsOfNoOverlap(front, s);
      SplitLast(rs);
    }
  }

  /** A step that keeps the candidate leaves disjoint, sorted survivors. */
  lemma StepKeptInvariant(rs: seq<Span>, s: Span)
    requires Disjoint(rs) && SortedBy(rs, SortKey)
    requires forall x :: x in rs ==> SortKey(x) <= SortKey(s)
    ensures Disjoint(Survivors(rs, s) + [s]) && SortedBy(Survivors(rs, s) + [s], SortKey)
  {
    SurvivorsDisjoint(rs, s);
    SurvivorsSorted(rs, s);
    SurvivorsMembers(rs, s);
    DisjointConcat(Survivors(rs, s), [s]);
    SortedConcat(Survivors(rs, s), [s], SortKey);
  }

  /** A slice of a disjoint, sorted sequence is disjoint and sorted. */
  lemma SliceInvariant(rs: seq<Span>, lo: nat, hi: nat)
    requires Disjoint(rs) && SortedBy(rs, SortKey) && lo <= hi <= |rs|
    ensures Disjoint(rs[lo..hi]) && SortedBy(rs[lo..hi], SortKey)
  {
    var part := rs[lo..hi];
    forall i, j | 0 <= i < j < |part| ensures !Overlaps(part[i], part[j]) && SortKey(part[i]) <= SortKey(part[j]) {
      assert part[i] == rs[lo + i] && part[j] == rs[lo + j];
    }
  }

  /** In a disjoint, sorted sequence every span before position `k` is disjoint from and sorts before every span from `k` on. */
  lemma PrefixBeforeSuffix(rs: seq<Span>, k: nat)
    requires Disjoint(rs) && SortedBy(rs, SortKey) && k <= |rs|
    ensures forall x, y :: x in rs[..k] && y in rs[k..] ==> !Overlaps(x, y) && SortKey(x) <= SortKey(y)
  {
    forall x, y | x in rs[..k] && y in rs[k..] ensures !Overlaps(x, y) && SortKey(x) <= SortKey(y) {
      var p :| 0 <= p < k && rs[..k][p] == x;
      var q :| 0 <= q < |rs| - k && rs[k..][q] == y;
      assert rs[p] == x && rs[k + q] == y;
    }
  }

  /** A step that drops the candidate leaves disjoint, sorted survivors drawn from `rs`. */
  lemma StepDroppedInvariant(rs: seq<Span>, s: Span, k: nat)
    requires Disjoint(rs) && SortedBy(rs, SortKey) && k <= |rs|
    ensures Disjoint(Survivors(rs[..k], s) + rs[k..])
    ensures SortedBy(Survivors(rs[..k], s) + rs[k..], SortKey)
    ensures multiset(Survivors(rs[..k], s) + rs[k..]) <= multiset(rs)
  {
    var pre, post := rs[..k], rs[k..];
    var kept := Survivors(pre, s);
    assert Disjoint(kept) && SortedBy(kept, SortKey) by {
      SliceInvariant(rs, 0, k);
      assert rs[0..k] == pre;
      SurvivorsDisjoint(pre, s);
      SurvivorsSorted(pre, s);
    }
    assert Disjoint(post) && SortedBy(post, SortKey) by {
      SliceInvariant(rs, k, |rs|);
      assert rs[k..|rs|] == post;
    }
    assert forall x, y :: x in kept && y in post ==> !Overlaps(x, y) && SortKey(x) <= SortKey(y) by {
      PrefixBeforeSuffix(rs, k);
      SurvivorsMembers(pre, s);
    }
    DisjointConcat(kept, post);
    SortedConcat(kept, post, SortKey);
    assert multiset(rs) == multiset(pre) + multiset(post) by {
      TakeDrop(rs, k);
    }
  }

  /**
   * One step keeps the survivors disjoint and in sort order, and adds nothing
   * but the candidate.
   */
  lemma StepInvariant(rs: seq<Span>, s: Span)
    requires Disjoint(rs) && SortedBy(rs, SortKey)
    requires forall x :: x in rs ==> SortKey(x) <= SortKey(s)
    ensures Disjoint(Step(rs, s)) && SortedBy(Step(rs, s), SortKey)
    ensures multiset(Step(rs, s)) <= multiset(rs) + multiset{s}
  {
    var k := FirstBlocker(rs, s);
    if k == |rs| {
      StepKeptInvariant(rs, s);
    } else {
      StepDroppedInvariant(rs, s, k);
    }
  }

  /**
   * The sweep over key-sorted candidates yields disjoint survivors, in sort
   * order, drawn from the candidates.
   */
  lemma {:induction false} ResolveInvariant(cs: seq<Span>)
    requires SortedBy(cs, SortKey)
    ensures Disjoint(Resolve(cs)) && SortedBy(Resolve(cs), SortKey)
    ensures multiset(Resolve(cs)) <= multiset(cs)
  {
    if cs != [] {
      var front, s := cs[..|cs| - 1], cs[|cs| - 1];
      SplitLast(cs);
      SortedPrefix(cs, |cs| - 1, SortKey);
      ResolveInvariant(front);
      var rs := Resolve(front);
      forall x | x in rs ensures SortKey(x) <= SortKey(s) {
        assert x in multiset(rs);
        SortedBeforeLast(cs, x, SortKey);
      }
      StepInvariant(rs, s);
    }
  }

  /** A step adds nothing but the candidate, and a dropped candidate adds nothing at all. */
  lemma StepDrawnFrom(rs: seq<Span>, s: Span)
    ensures multiset(Step(rs, s)) <= multiset(rs) + multiset{s}
    ensures FirstBlocker(rs, s) < |rs| ==> multiset(Step(rs, s)) <= multiset(rs)
  {
    var k := FirstBlocker(rs, s);
    if k < |rs| {
      TakeDrop(rs, k);
      assert multiset(rs) == multiset(rs[..k]) + multiset(rs[k..]);
    }
  }

  /**
   * A candidate is kept exactly when no survivor it overlaps is at least as
   * strong, and then every survivor it overlaps is evicted. A candidate that
   * meets such a survivor is dropped: the survivors from its first blocker on
   * stay, and the weaker overlapping ones before it stay evicted.
   */
  lemma StepOutcome(rs: seq<Span>, s: Span)
    ensures (forall r :: r in rs && Overlaps(s, r) ==> Priority(r.kind) < Priority(s.kind)) ==>
              Step(rs, s) == Survivors(rs, s) + [s] &&
              forall r :: r in rs && Overlaps(s, r) ==> r !in Step(rs, s) || r == s
    ensures (exists r :: r in rs && Blocks(r, s)) ==>
              var k := FirstBlocker(rs, s);
              k < |rs| && Step(rs, s) == Survivors(rs[..k], s) + rs[k..] &&
              multiset(Step(rs, s)) <= multiset(rs)
  {
    var k := FirstBlocker(rs, s);
    SurvivorsMembers(rs, s);
    if exists r :: r in rs && Blocks(r, s) {
      var r :| r in rs && Blocks(r, s);
      var i :| 0 <= i < |rs| && rs[i] == r;
      assert k <= i;
      StepDrawnFrom(rs, s);
    }
  }

  /**
   * Survivors that are pairwise disjoint and start no later than the
   * candidate: at most one of them overlaps it.
   */
  lemma AtMostOneOverlap(rs: seq<Span>, s: Span)
    requires Disjoint(rs)
    requires forall x :: x in rs ==> x.start <= s.start
    ensures forall i, j :: 0 <= i < j < |rs| && Overlaps(s, rs[i]) ==> !Overlaps(s, rs[j])
  {
    forall i, j | 0 <= i < j < |rs| && Overlaps(s, rs[i]) ensures !Overlaps(s, rs[j]) {
      assert rs[i] in rs && rs[j] in rs;
      assert !Overlaps(rs[i], rs[j]);
    }
  }

  /** When at most one span overlaps `s`, filtering removes at most one. */
  lemma {:induction false} SurvivorsDropAtMostOne(rs: seq<Span>, s: Span)
    requires forall i, j :: 0 <= i < j < |rs| && Overlaps(s, rs[i]) ==> !Overlaps(s, rs[j])
    ensures |Survivors(rs, s)| + 1 >= |rs|
  {
    if rs != [] {
      var front, last := rs[..|rs| - 1], rs[|rs| - 1];
      if Overlaps(s, last) {
        SurvivorsOfNoOverlap(front, s);
      } else {
        SurvivorsDropAtMostOne(front, s);
      }
    }
  }

  /**
   * Inside the sweep the dropped-candidate case never strands an eviction:
   * since candidates arrive in start order and the survivors stay disjoint,
   * a candidate overlaps at most one survivor, so a dropped candidate leaves
   * the survivors exactly as they were, and a kept one evicts at most one.
   */
  lemma SweepNeverStrandsEvictions(cs: seq<Span>)
    requires SortedBy(cs, SortKey) && cs != []
    ensures var rs, s := Resolve(cs[..|cs| - 1]), cs[|cs| - 1];
            (FirstBlocker(rs, s) < |rs| ==> Resolve(cs) == rs) &&
            (FirstBlocker(rs, s) == |rs| ==>
               Resolve(cs) == Survivors(rs, s) + [s] && |Survivors(rs, s)| + 1 >= |rs|)
  {
    var rs, s := Resolve(cs[..|cs| - 1]), cs[|cs| - 1];
    SweepSurvivorsStartEarlier(cs);
    AtMostOneOverlap(rs, s);
    var k := FirstBlocker(rs, s);
    if k < |rs| {
      DroppedAfterSoleOverlap(rs, s);
    } else {
      SurvivorsDropAtMostOne(rs, s);
    }
  }

  /** In the sweep, the survivors are disjoint and start no later than the next candidate. */
  lemma SweepSurvivorsStartEarlier(cs: seq<Span>)
    requires SortedBy(cs, SortKey) && cs != []
    ensures Disjoint(Resolve(cs[..|cs| - 1]))
    ensures forall x :: x in Resolve(cs[..|cs| - 1]) ==> x.start <= cs[|cs| - 1].start
  {
    var front, s := cs[..|cs| - 1], cs[|cs| - 1];
    SortedPrefix(cs, |cs| - 1, SortKey);
    ResolveInvariant(front);
    forall x | x in Resolve(front) ensures x.start <= s.start {
      assert x in multiset(Resolve(front));
      SortedBeforeLast(cs, x, SortKey);
      SortKeyIsLexicographic(s, x);
    }
  }

  /** A candidate dropped while overlapping only its blocker leaves the survivors unchanged. */
  lemma DroppedAfterSoleOverlap(rs: seq<Span>, s: Span)
    requires FirstBlocker(rs, s) < |rs|
    requires forall i, j :: 0 <= i < j < |rs| && Overlaps(s, rs[i]) ==> !Overlaps(s, rs[j])
    ensures Step(rs, s) == rs
  {
    var k := FirstBlocker(rs, s);
    assert Overlaps(s, rs[k]);
    forall i | 0 <= i < k ensures !Overlaps(s, rs[..k][i]) {
      assert rs[..k][i] == rs[i];
    }
    SurvivorsOfNoOverlap(rs[..k], s);
    TakeDrop(rs, k);
  }

  /**
   * The dropped-candidate case on its own does keep its evictions: here the
   * candidate evicts the PHONE span, then meets the stronger GOV_ID span and
   * is dropped, and the PHONE span stays evicted. The survivors start after
   * the candidate, so the sweep never produces this state.
   */
  lemma DroppedCandidateKeepsEvictions()
    ensures var phone, gov, email := Span(Phone, 0, 3, 95), Span(GovId, 4, 8, 95), Span(Email, 2, 6, 95);
            Overlaps(email, phone) && Step([phone, gov], email) == [gov]
  {
    var phone, gov, email := Span(Phone, 0, 3, 95), Span(GovId, 4, 8, 95), Span(Email, 2, 6, 95);
    assert !Blocks(phone, email) && Blocks(gov, email);
    assert [phone, gov][1..] == [gov];
    assert FirstBlocker([phone, gov], email) == 1;
    assert [phone, gov][..1] == [phone] && [phone][..0] == [];
    assert Survivors([phone], email) == [];
  }

  /** A sequence of mutually disjoint candidates passes the sweep unchanged. */
  lemma {:induction false} ResolveOfDisjoint(cs: seq<Span>)
    requires Disjoint(cs)
    ensures Resolve(cs) == cs
  {
    if cs != [] {
      var front, s := cs[..|cs| - 1], cs[|cs| - 1];
      SplitLast(cs);
      LastMeetsNoEarlier(front, s);
      ResolveOfDisjoint(front);
      AppendedWhenNothingOverlaps(front, s);
    }
  }

  /** The last span of a disjoint sequence meets none before it, and those are disjoint too. */
  lemma LastMeetsNoEarlier(front: seq<Span>, s: Span)
    requires Disjoint(front + [s])
    ensures Disjoint(front)
    ensures forall i :: 0 <= i < |front| ==> !Overlaps(s, front[i])
  {
    var cs := front + [s];
    forall i | 0 <= i < |front| ensures !Overlaps(s, front[i]) {
      assert cs[i] == front[i] && cs[|front|] == s;
    }
    forall i, j | 0 <= i < j < |front| ensures !Overlaps(front[i], front[j]) {
      assert cs[i] == front[i] && cs[j] == front[j];
    }
  }

  /** A candidate that overlaps no survivor is appended and evicts nothing. */
  lemma AppendedWhenNothingOverlaps(rs: seq<Span>, s: Span)
    requires forall i :: 0 <= i < |rs| ==> !Overlaps(s, rs[i])
    ensures Step(rs, s) == rs + [s]
  {
    SurvivorsOfNoOverlap(rs, s);
    assert FirstBlocker(rs, s) == |rs|;
  }

  /**
   * Mutually non-overlapping candidates are all returned, in sort order;
   * in particular no candidates give no spans.
   */
  lemma DisjointCandidatesAllKept(spans: seq<Span>)
    requires Disjoint(spans)
    ensures ResolvedSpans(spans) == SortBy(spans, SortKey)
    ensures spans == [] ==> ResolvedSpans(spans) == []
  {
    DisjointPermutation(spans, SortBy(spans, SortKey));
    ResolveOfDisjoint(SortBy(spans, SortKey));
  }

  /**
   * The sweep is greedy, not maximal: the EMAIL span evicts the PHONE span and
   * is then evicted by the GOV_ID span, so the PHONE span is lost although it
   * does not overlap the only survivor.
   */
  lemma SweepIsNotMaximal()
    ensures var phone, email, gov := Span(Phone, 0, 3, 95), Span(Email, 2, 6, 95), Span(GovId, 4, 8, 95);
            ResolvedSpans([phone, email, gov]) == [gov] && !Overlaps(phone, gov)
  {
    var phone, email, gov := Span(Phone, 0, 3, 95), Span(Email, 2, 6, 95), Span(GovId, 4, 8, 95);
    var cs := [phone, email, gov];
    assert SortedBy(cs, SortKey);
    SortBySortedIsIdentity(cs, SortKey);
    PhoneLostToEmailThenGov(phone, email, gov);
  }

  /** The sweep of the example above, candidate by candidate. */
  lemma PhoneLostToEmailThenGov(phone: Span, email: Span, gov: Span)
    requires phone == Span(Phone, 0, 3, 95) && email == Span(Email, 2, 6, 95) && gov == Span(GovId, 4, 8, 95)
    ensures Resolve([phone, email, gov]) == [gov]
  {
    ResolveSnoc([], phone);
    AppendedWhenNothingOverlaps([], phone);
    assert Resolve([phone]) == [phone] by {
      assert [] + [phone] == [phone];
    }
    ResolveSnoc([phone], email);
    StrongerEvictsSole(phone, email);
    assert Resolve([phone, email]) == [email] by {
      assert [phone] + [email] == [phone, email];
    }
    ResolveSnoc([phone, email], gov);
    StrongerEvictsSole(email, gov);
    assert [phone, email] + [gov] == [phone, email, gov];
  }

  /** A stronger candidate overlapping the only survivor replaces it. */
  lemma StrongerEvictsSole(r: Span, s: Span)
    requires Overlaps(s, r) && Priority(r.kind) < Priority(s.kind)
    ensures Step([r], s) == [s]
  {
    assert FirstBlocker([r], s) == 1;
    assert [r][..0] == [];
    assert Survivors([r], s) == [];
  }

  /** A survivor at least as strong as the candidate is never evicted by it. */
  lemma StrongerSurvivorStays(rs: seq<Span>, x: Span, w: Span)
    requires w in rs && Priority(w.kind) >= Priority(x.kind)
    ensures w in Step(rs, x)
  {
    var k := FirstBlocker(rs, x);
    var p :| 0 <= p < |rs| && rs[p] == w;
    if k == |rs| || p < k {
      assert !Blocks(w, x) && !Overlaps(x, w);
      if k < |rs| {
        assert rs[..k][p] == w;
        SurvivorsMembers(rs[..k], x);
      } else {
        SurvivorsMembers(rs, x);
      }
    } else {
      assert rs[k..][p - k] == w;
    }
  }

  /**
   * Once candidate `a` (at position `ia`) has been swept, and while the
   * candidates after it sort no later than `b`, a weaker span starting
   * where `a` starts and covering it, some survivor at least as strong as
   * `a` overlaps `b`.
   */
  lemma {:induction false} StrongWitnessPersists(cs: seq<Span>, a: Span, b: Span, ia: nat, m: nat)
    requires SortedBy(cs, SortKey)
    requires ia < m <= |cs| && cs[ia] == a
    requires a.start == b.start && a.start < a.end <= b.end
    requires Priority(a.kind) > Priority(b.kind)
    requires SortKey(cs[m - 1]) <= SortKey(b)
    ensures exists w :: w in Resolve(cs[..m]) && Priority(w.kind) >= Priority(a.kind) && Overlaps(b, w)
    decreases m
  {
    var rs, x := Resolve(cs[..m - 1]), cs[m - 1];
    ResolveTake(cs, m);
    if m == ia + 1 {
      var k := FirstBlocker(rs, a);
      if k == |rs| {
        assert a in Step(rs, a);
        assert Overlaps(b, a);
      } else {
        assert rs[k..][0] == rs[k];
        assert rs[k] in Step(rs, a);
        assert Overlaps(b, rs[k]);
      }
    } else {
      assert SortKey(cs[m - 2]) <= SortKey(cs[m - 1]);
      StrongWitnessPersists(cs, a, b, ia, m - 1);
      var w :| w in rs && Priority(w.kind) >= Priority(a.kind) && Overlaps(b, w);
      assert SortKey(a) <= SortKey(x);
      SortKeyIsLexicographic(x, a);
      SortKeyIsLexicographic(b, x);
      StrongerSurvivorStays(rs, x, w);
    }
  }

  /** A candidate that a survivor blocks, and that is not already a survivor, stays out. */
  lemma BlockedCandidateAbsent(rs: seq<Span>, s: Span, w: Span)
    requires w in rs && Blocks(w, s) && s !in rs
    ensures s !in Step(rs, s)
  {
    var p :| 0 <= p < |rs| && rs[p] == w;
    assert FirstBlocker(rs, s) <= p;
    StepDrawnFrom(rs, s);
    assert s !in multiset(rs);
  }

  /** A weaker span starting where candidate `a` starts and covering it is never among the survivors. */
  lemma {:induction false} SameStartCoverNeverEnters(cs: seq<Span>, a: Span, b: Span, ia: nat, m: nat)
    requires SortedBy(cs, SortKey)
    requires ia < |cs| && cs[ia] == a && m <= |cs|
    requires a.start == b.start && a.start < a.end <= b.end
    requires Priority(a.kind) > Priority(b.kind)
    ensures b !in Resolve(cs[..m])
  {
    if m > 0 {
      SameStartCoverNeverEnters(cs, a, b, ia, m - 1);
      if cs[m - 1] == b {
        CoverMeetsStrongWitness(cs, a, b, ia, m - 1);
      } else {
        SweepKeepsOut(cs, m, b);
      }
    }
  }

  /**
   * When the weaker cover `b` of candidate `a` comes up as the candidate
   * after the first `m` ones, a survivor at least as strong as `a` blocks it.
   */
  lemma CoverMeetsStrongWitness(cs: seq<Span>, a: Span, b: Span, ia: nat, m: nat)
    requires SortedBy(cs, SortKey)
    requires ia < |cs| && cs[ia] == a && m < |cs| && cs[m] == b
    requires a.start == b.start && a.start < a.end <= b.end
    requires Priority(a.kind) > Priority(b.kind)
    requires b !in Resolve(cs[..m])
    ensures b !in Resolve(cs[..m + 1])
  {
    ResolveTake(cs, m + 1);
    SortKeyIsLexicographic(a, b);
    assert ia < m;
    assert SortKey(cs[m - 1]) <= SortKey(cs[m]);
    StrongWitnessPersists(cs, a, b, ia, m);
    var w :| w in Resolve(cs[..m]) && Priority(w.kind) >= Priority(a.kind) && Overlaps(b, w);
    BlockedCandidateAbsent(Resolve(cs[..m]), b, w);
  }

  /** Whether a candidate is kept or blocked, a weaker span covering it is not a survivor afterwards. */
  lemma CoverLeavesWithCandidate(rs: seq<Span>, a: Span, b: Span)
    requires Disjoint(rs)
    requires a.start < a.end && Contained(a, b) && Priority(a.kind) > Priority(b.kind)
    ensures b !in Step(rs, a)
  {
    var k := FirstBlocker(rs, a);
    StepDrawnFrom(rs, a);
    SurvivorsMembers(rs, a);
    if k < |rs| {
      assert Overlaps(rs[k], b);
      forall i | 0 <= i < |rs| ensures rs[i] != b {
        if i < k {
          assert !Overlaps(rs[i], rs[k]);
        } else if k < i {
          assert !Overlaps(rs[k], rs[i]);
        }
      }
      assert b !in multiset(rs);
    }
  }

  /**
   * A weaker span that starts before candidate `a` and covers it is gone
   * once `a` has been swept: either `a` evicts it, or what blocks `a`
   * overlaps it, so it cannot be a survivor then; and no later candidate
   * brings it back.
   */
  lemma {:induction false} EarlierCoverGone(cs: seq<Span>, a: Span, b: Span, ia: nat, m: nat)
    requires SortedBy(cs, SortKey)
    requires ia < m <= |cs| && cs[ia] == a
    requires b.start < a.start && a.start < a.end <= b.end
    requires Priority(a.kind) > Priority(b.kind)
    ensures b !in Resolve(cs[..m])
    decreases m
  {
    ResolveTake(cs, m);
    if m == ia + 1 {
      CoverGoneWithCandidate(cs, a, b, ia);
    } else {
      EarlierCoverGone(cs, a, b, ia, m - 1);
      assert SortKey(a) <= SortKey(cs[m - 1]);
      SortKeyIsLexicographic(b, a);
      AbsentStaysAbsent(Resolve(cs[..m - 1]), cs[m - 1], b);
    }
  }

  /** Sweeping candidate `a` removes a weaker span that starts before it and covers it. */
  lemma CoverGoneWithCandidate(cs: seq<Span>, a: Span, b: Span, ia: nat)
    requires SortedBy(cs, SortKey)
    requires ia < |cs| && cs[ia] == a
    requires b.start < a.start && a.start < a.end <= b.end
    requires Priority(a.kind) > Priority(b.kind)
    ensures b !in Step(Resolve(cs[..ia]), a)
  {
    var rs := Resolve(cs[..ia]);
    SortedPrefix(cs, ia, SortKey);
    ResolveInvariant(cs[..ia]);
    CoverLeavesWithCandidate(rs, a, b);
  }

  /** A span that is not a survivor, and is not the next candidate, is not a survivor after it either. */
  lemma SweepKeepsOut(cs: seq<Span>, m: nat, b: Span)
    requires 0 < m <= |cs| && b !in Resolve(cs[..m - 1]) && cs[m - 1] != b
    ensures b !in Resolve(cs[..m])
  {
    ResolveTake(cs, m);
    AbsentStaysAbsent(Resolve(cs[..m - 1]), cs[m - 1], b);
  }

  /** A span that is not a survivor, and is not the candidate, is not a survivor after the step. */
  lemma AbsentStaysAbsent(rs: seq<Span>, x: Span, b: Span)
    requires b !in rs && x != b
    ensures b !in Step(rs, x)
  {
    StepDrawnFrom(rs, x);
    assert b !in multiset(rs) + multiset{x};
  }

  /**
   * Priority dominance: a candidate covering a stronger, non-empty
   * candidate is never returned.
   */
  lemma DominatedCoverDropped(spans: seq<Span>, a: Span, b: Span)
    requires a in spans && a.start < a.end && Contained(a, b)
    requires Priority(a.kind) > Priority(b.kind)
    ensures b !in ResolvedSpans(spans)
  {
    var cs := SortBy(spans, SortKey);
    assert a in multiset(cs);
    var ia :| 0 <= ia < |cs| && cs[ia] == a;
    assert cs[..|cs|] == cs;
    if a.start == b.start {
      SameStartCoverNeverEnters(cs, a, b, ia, |cs|);
    } else {
      EarlierCoverGone(cs, a, b, ia, |cs|);
    }
  }

  /**
   * The converse fails: a weaker span inside a stronger one can outlive it.
   * The EMAIL span `[0, 10)` is kept, then evicted by the GOV_ID span
   * `[1, 3)`, after which the PHONE span `[5, 7)`, inside the vanished
   * EMAIL span, meets no survivor and is kept.
   */
  lemma ContainedWeakerCanOutlive()
    ensures var email, gov, phone := Span(Email, 0, 10, 95), Span(GovId, 1, 3, 95), Span(Phone, 5, 7, 95);
            Contained(phone, email) && Priority(phone.kind) < Priority(email.kind) &&
            ResolvedSpans([email, gov, phone]) == [gov, phone]
  {
    var email, gov, phone := Span(Email, 0, 10, 95), Span(GovId, 1, 3, 95), Span(Phone, 5, 7, 95);
    var cs := [email, gov, phone];
    assert SortedBy(cs, SortKey);
    SortBySortedIsIdentity(cs, SortKey);
    GovEvictsEmailThenPhoneJoins(email, gov, phone);
  }

  /** The sweep of the example above, candidate by candidate. */
  lemma GovEvictsEmailThenPhoneJoins(email: Span, gov: Span, phone: Span)
    requires email == Span(Email, 0, 10, 95) && gov == Span(GovId, 1, 3, 95) && phone == Span(Phone, 5, 7, 95)
    ensures Resolve([email, gov, phone]) == [gov, phone]
  {
    ResolveSnoc([], email);
    AppendedWhenNothingOverlaps([], email);
    assert Resolve([email]) == [email] by {
      assert [] + [email] == [email];
    }
    ResolveSnoc([email], gov);
    StrongerEvictsSole(email, gov);
    assert Resolve([email, gov]) == [gov] by {
      assert [email] + [gov] == [email, gov];
    }
    ResolveSnoc([email, gov], phone);
    AppendedWhenNothingOverlaps([gov], phone);
    assert [email, gov] + [phone] == [email, gov, phone];
  }
}
