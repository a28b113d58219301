/**
 * `detect_spans` and `is_false_phone`: how the scrubber turns the matches of
 * its patterns into labelled candidate spans. The regular expressions
 * themselves are not modelled; each pattern's matches are an input.
 */
module Detector {
  import opened Spans
  import opened Strings
  import opened Sorting

  /** One match of a pattern: the half-open range `[start, end)` of the text it covers. */
  datatype Match = Match(start: nat, end: nat)

  /**
   * What `finditer` yields for one pattern over a text of length `n`:
   * non-empty matches inside the text, left to right, not overlapping.
   */
  predicate WellFormedMatches(ms: seq<Match>, n: nat)
  {
    (forall i :: 0 <= i < |ms| ==> ms[i].start < ms[i].end <= n) &&
    (forall i, j :: 0 <= i < j < |ms| ==> ms[i].end <= ms[j].start)
  }

  /** Every pattern's matches over a text of length `n` are well formed. */
  predicate WellFormedFinds(found: Label -> seq<Match>, n: nat)
  {
    forall l :: WellFormedMatches(found(l), n)
  }

  /** The words whose presence near a number marks it as not being a phone number. */
  const Blacklist: seq<string> := ["steps", "battery", "locker", "not a phone", "%"]

  /** How far the phone window reaches on either side of the match. */
  const Reach: nat := 25

  /** First offset of the phone window, `max(0, start - 25)`. */
  function WindowStart(start: nat): nat
  {
    Max(0, start - Reach)
  }

  /** Offset just past the phone window, `min(len(text), end + 25)`. */
  function WindowEnd(text: string, end: nat): nat
  {
    Min(|text|, end + Reach)
  }

  /** The lower-cased text spells `w` from offset `i`. */
  predicate WordAt(text: string, w: string, i: int)
  {
    OccursAt(w, LowerStr(text), i)
  }

  /** `any(bad in hay for bad in words)`. */
  function AnyOccurs(words: seq<string>, hay: string): (r: bool)
    ensures r <==> exists w :: w in words && Occurs(w, hay)
  {
    if words == [] then false
    else
      var r := Occurs(words[0], hay) || AnyOccurs(words[1..], hay);
      assert words[0] in words;
      assert forall w :: w in words[1..] ==> w in words;
      assert forall w :: w in words && w != words[0] ==> w in words[1..];
      r
  }

  /** A word found in the lower-cased slice `[lo, hi)` is found in the lower-cased text, inside those bounds. */
  lemma SliceWordInText(text: string, w: string, lo: nat, hi: nat, j: int)
    requires w != [] && OccursAt(w, LowerStr(Slice(text, lo, hi)), j)
    ensures lo <= lo + j && lo + j + |w| <= hi && WordAt(text, w, lo + j)
  {
    var sl := Slice(text, lo, hi);
    var win, low := LowerStr(sl), LowerStr(text);
    assert Min(lo, |text|) == lo;
    forall k | 0 <= k < |w| ensures low[lo + j + k] == w[k] {
      assert win[j + k] == w[k] by {
        assert win[j..j + |w|][k] == win[j + k];
      }
      assert sl[j + k] == text[lo + j + k];
    }
    SamePointwise(low[lo + j..lo + j + |w|], w);
  }

  /** A word found in the lower-cased text inside `[lo, hi)` is found in the lower-cased slice. */
  lemma TextWordInSlice(text: string, w: string, lo: nat, hi: nat, i: int)
    requires lo <= i && i + |w| <= hi && WordAt(text, w, i)
    ensures OccursAt(w, LowerStr(Slice(text, lo, hi)), i - lo)
  {
    var sl := Slice(text, lo, hi);
    var win, low := LowerStr(sl), LowerStr(text);
    var j := i - lo;
    assert |win| == Min(hi, |text|) - Min(lo, |text|);
    forall k | 0 <= k < |w| ensures win[j + k] == w[k] {
      assert low[i + k] == w[k] by {
        assert low[i..i + |w|][k] == low[i + k];
      }
      assert sl[j + k] == text[i + k];
    }
    SamePointwise(win[j..j + |w|], w);
  }

  /** Strings agreeing at every position are equal. */
  lemma SamePointwise(a: string, b: string)
    requires |a| == |b| && forall k :: 0 <= k < |a| ==> a[k] == b[k]
    ensures a == b
  {
  }

  /** An occurrence of a non-empty word in a lower-cased slice is an occurrence in the lower-cased text inside the slice's bounds. */
  lemma OccursInLoweredSlice(text: string, w: string, lo: nat, hi: nat)
    requires w != []
    ensures Occurs(w, LowerStr(Slice(text, lo, hi))) <==>
            exists i :: lo <= i && i + |w| <= hi && WordAt(text, w, i)
  {
    if j :| OccursAt(w, LowerStr(Slice(text, lo, hi)), j) {
      SliceWordInText(text, w, lo, hi, j);
    }
    if i :| lo <= i && i + |w| <= hi && WordAt(text, w, i) {
      TextWordInSlice(text, w, lo, hi, i);
    }
  }

  /** `is_false_phone`: the lower-cased window around the match contains a blacklisted word. */
  function IsFalsePhone(text: string, start: nat, end: nat): bool
  {
    AnyOccurs(Blacklist, LowerStr(Slice(text, WindowStart(start), WindowEnd(text, end))))
  }

  /**
   * A number is ruled out as a phone number exactly when some blacklisted
   * word appears, case-insensitively, in the text from 25 characters before
   * the match to 25 after it, the window clamped to the text.
   */
  lemma FalsePhoneWindow(text: string, start: nat, end: nat)
    ensures IsFalsePhone(text, start, end) <==>
            exists w, i :: w in Blacklist && WindowStart(start) <= i &&
                           i + |w| <= WindowEnd(text, end) && WordAt(text, w, i)
  {
    forall w | w in Blacklist {
      OccursInLoweredSlice(text, w, WindowStart(start), WindowEnd(text, end));
    }
  }

  /** The example of the test suite: "Steps" nineteen characters before "6234" rules it out as a phone number. */
  lemma StepsCountIsNotAPhone()
    ensures IsFalsePhone("Steps today 6234 (not a phone)", 12, 16)
  {
    var text := "Steps today 6234 (not a phone)";
    var low := LowerStr(text);
    assert low[0..5] == "steps" by {
      assert low[0] == 's';
    }
    assert WindowStart(12) == 0 && WindowEnd(text, 16) == 30;
    assert WordAt(text, "steps", 0);
    FalsePhoneWindow(text, 12, 16);
  }

  /** A word starting with a lower-case letter or "%" does not occur in a text without letters and "%". */
  lemma NoLetterNoWord(text: string, w: string, i: int)
    requires forall k :: 0 <= k < |text| ==> !('a' <= text[k] <= 'z') && !('A' <= text[k] <= 'Z') && text[k] != '%'
    requires w != [] && (('a' <= w[0] <= 'z') || w[0] == '%')
    ensures !WordAt(text, w, i)
  {
    if 0 <= i && i + |w| <= |text| {
      var low := LowerStr(text);
      assert low[i..i + |w|][0] == low[i] == text[i];
    }
  }

  /**
   * Every blacklisted word starts with a letter or is "%", so in a text with
   * neither (digits, spaces and punctuation only) no number is ruled out.
   */
  lemma NoLetterNoFalsePhone(text: string, start: nat, end: nat)
    requires forall k :: 0 <= k < |text| ==> !('a' <= text[k] <= 'z') && !('A' <= text[k] <= 'Z') && text[k] != '%'
    ensures !IsFalsePhone(text, start, end)
  {
    FalsePhoneWindow(text, start, end);
    forall w, i | w in Blacklist ensures !WordAt(text, w, i) {
      NoLetterNoWord(text, w, i);
    }
  }

  /** The span a matcher of label `l` reports for match `m`, with that matcher's confidence. */
  function SpanOf(l: Label, m: Match): Span
  {
    Span(l, m.start, m.end, Confidence(l))
  }

  /** One span per match, in match order: the URL pass and the three heuristic passes keep every match. */
  function Tagged(l: Label, ms: seq<Match>): (r: seq<Span>)
    ensures |r| == |ms|
    ensures forall i :: 0 <= i < |ms| ==> r[i] == SpanOf(l, ms[i])
    ensures forall s :: s in r ==> s.kind == l
  {
    seq(|ms|, i requires 0 <= i < |ms| => SpanOf(l, ms[i]))
  }

  /**
   * The two filters of the second pass: an e-mail address inside one of the
   * URL spans, and a phone number that `is_false_phone` rules out.
   */
  predicate Suppressed(text: string, urls: seq<Span>, l: Label, m: Match)
  {
    (l == Email && InsideAny(SpanOf(l, m), urls, Url)) ||
    (l == Phone && IsFalsePhone(text, m.start, m.end))
  }

  /** The spans the second pass emits for the matches `ms` of pattern `l`, in match order. */
  function Accepted(text: string, urls: seq<Span>, l: Label, ms: seq<Match>): (r: seq<Span>)
    ensures |r| <= |ms|
    ensures forall s :: s in r ==> s.kind == l
  {
    if ms == [] then []
    else
      var front, m := ms[..|ms| - 1], ms[|ms| - 1];
      Accepted(text, urls, l, front) + (if Suppressed(text, urls, l, m) then [] else [SpanOf(l, m)])
  }

  /** The second pass emits exactly the spans of the matches no filter suppresses. */
  lemma {:induction false} AcceptedMembers(text: string, urls: seq<Span>, l: Label, ms: seq<Match>, s: Span)
    ensures s in Accepted(text, urls, l, ms) <==>
            exists m :: m in ms && s == SpanOf(l, m) && !Suppressed(text, urls, l, m)
  {
    if ms != [] {
      var front, m := ms[..|ms| - 1], ms[|ms| - 1];
      SplitLast(ms);
      AcceptedMembers(text, urls, l, front, s);
    }
  }

  /** The patterns of the scrubber's registry, in declaration order. */
  const Registry: seq<Label> := [Email, Phone, Dob, ApptId, InsuranceId, GovId, Url]

  /** The second pass: every registry pattern except URL, in registry order. */
  function RegexPass(text: string, found: Label -> seq<Match>, urls: seq<Span>, labels: seq<Label>): (r: seq<Span>)
    ensures forall s :: s in r ==> s.kind != Url
  {
    if labels == [] then []
    else
      var front, l := labels[..|labels| - 1], labels[|labels| - 1];
      RegexPass(text, found, urls, front) + (if l == Url then [] else Accepted(text, urls, l, found(l)))
  }

  /** A span comes out of the second pass exactly when a pattern other than URL accepts it. */
  lemma {:induction false} RegexPassMembers(text: string, found: Label -> seq<Match>, urls: seq<Span>, labels: seq<Label>, s: Span)
    ensures s in RegexPass(text, found, urls, labels) <==>
            exists l :: l in labels && l != Url && s in Accepted(text, urls, l, found(l))
  {
    if labels != [] {
      var front, l := labels[..|labels| - 1], labels[|labels| - 1];
      SplitLast(labels);
      RegexPassMembers(text, found, urls, front, s);
    }
  }

  /** The URL spans of the first pass. */
  function UrlSpans(found: Label -> seq<Match>): seq<Span>
  {
    Tagged(Url, found(Url))
  }

  /** Everything `detect_spans` returns, in the order it appends it. */
  function Detected(text: string, found: Label -> seq<Match>): seq<Span>
  {
    var urls := UrlSpans(found);
    urls + RegexPass(text, found, urls, Registry)
      + Tagged(Name, found(Name)) + Tagged(Provider, found(Provider)) + Tagged(Address, found(Address))
  }

  /** Appends one span labelled `l` per match, in match order. */
  method AppendMatches(spans: seq<Span>, l: Label, ms: seq<Match>) returns (r: seq<Span>)
    ensures r == spans + Tagged(l, ms)
  {
    r := spans;
    for i := 0 to |ms|
      invariant r == spans + Tagged(l, ms[..i])
    {
      assert Tagged(l, ms[..i + 1]) == Tagged(l, ms[..i]) + [SpanOf(l, ms[i])];
      r := r + [SpanOf(l, ms[i])];
    }
    assert ms[..|ms|] == ms;
  }

  /** The second pass over one more pattern appends that pattern's accepted spans. */
  lemma RegexPassStep(text: string, found: Label -> seq<Match>, urls: seq<Span>, labels: seq<Label>, l: Label)
    ensures RegexPass(text, found, urls, labels + [l]) ==
            RegexPass(text, found, urls, labels) + (if l == Url then [] else Accepted(text, urls, l, found(l)))
  {
    assert (labels + [l])[..|labels|] == labels;
  }

  /** A suppressed match adds nothing to the second pass. */
  lemma AcceptedSkip(text: string, urls: seq<Span>, l: Label, ms: seq<Match>, m: Match)
    requires Suppressed(text, urls, l, m)
    ensures Accepted(text, urls, l, ms + [m]) == Accepted(text, urls, l, ms)
  {
    assert (ms + [m])[..|ms|] == ms;
    assert Accepted(text, urls, l, ms) + [] == Accepted(text, urls, l, ms);
  }

  /** A match no filter suppresses appends its span to the second pass. */
  lemma AcceptedKeep(text: string, urls: seq<Span>, l: Label, ms: seq<Match>, m: Match)
    requires !Suppressed(text, urls, l, m)
    ensures Accepted(text, urls, l, ms + [m]) == Accepted(text, urls, l, ms) + [SpanOf(l, m)]
  {
    assert (ms + [m])[..|ms|] == ms;
  }

  /**
   * The inner loop of the second pass for pattern `l`: each match is
   * dropped if a filter applies and appended otherwise. `spans` holds the
   * URL spans `urls` followed by spans `rest` of other labels only.
   */
  method FilterMatches(text: string, ghost urls: seq<Span>, ghost rest: seq<Span>, spans: seq<Span>, l: Label, ms: seq<Match>)
    returns (r: seq<Span>)
    requires spans == urls + rest
    requires forall x :: x in rest ==> x.kind != Url
    requires l != Url
    ensures r == urls + rest + Accepted(text, urls, l, ms)
  {
    r := spans;
    for i := 0 to |ms|
      invariant r == urls + rest + Accepted(text, urls, l, ms[..i])
    {
      var m := ms[i];
      ghost var done := Accepted(text, urls, l, ms[..i]);
      TakeSnoc(ms, i);
      if l == Email {
        assert InsideAny(SpanOf(l, m), r, Url) == InsideAny(SpanOf(l, m), urls, Url) by {
          ConcatAssoc(urls, rest, done);
          InsideAnyIgnoresOtherLabels(SpanOf(l, m), urls, rest + done, Url);
        }
        if InsideAny(SpanOf(l, m), r, Url) {
          AcceptedSkip(text, urls, l, ms[..i], m);
          continue;
        }
      }
      if l == Phone && IsFalsePhone(text, m.start, m.end) {
        AcceptedSkip(text, urls, l, ms[..i], m);
        continue;
      }
      AcceptedKeep(text, urls, l, ms[..i], m);
      ConcatAssoc(urls + rest, done, [SpanOf(l, m)]);
      r := r + [SpanOf(l, m)];
    }
    assert ms[..|ms|] == ms;
  }

  /**
   * The second pass: walks the registry `labels`, skips URL, and filters each
   * other pattern's matches onto the URL spans `urls`.
   */
  method SecondPass(text: string, found: Label -> seq<Match>, urls: seq<Span>, labels: seq<Label>)
    returns (spans: seq<Span>)
    ensures spans == urls + RegexPass(text, found, urls, labels)
  {
    spans := urls;
    for p := 0 to |labels|
      invariant spans == urls + RegexPass(text, found, urls, labels[..p])
    {
      var l := labels[p];
      ghost var before := RegexPass(text, found, urls, labels[..p]);
      TakeSnoc(labels, p);
      RegexPassStep(text, found, urls, labels[..p], l);
      if l == Url {
        continue;
      }
      spans := FilterMatches(text, urls, before, spans, l, found(l));
      ConcatAssoc(urls, before, Accepted(text, urls, l, found(l)));
    }
    assert labels[..|labels|] == labels;
  }

  /**
   * `detect_spans`: URLs first, then the other registry patterns with the
   * e-mail and phone filters, then names, providers and addresses.
   */
  method DetectSpans(text: string, found: Label -> seq<Match>) returns (spans: seq<Span>)
    ensures spans == Detected(text, found)
  {
    spans := AppendMatches([], Url, found(Url));
    assert spans == UrlSpans(found);
    spans := SecondPass(text, found, spans, Registry);
    spans := AppendMatches(spans, Name, found(Name));
    spans := AppendMatches(spans, Provider, found(Provider));
    spans := AppendMatches(spans, Address, found(Address));
  }

  /** A span is in a tagged pass exactly when it is the span of one of the matches. */
  lemma TaggedMembers(l: Label, ms: seq<Match>, s: Span)
    ensures s in Tagged(l, ms) <==> exists m :: m in ms && s == SpanOf(l, m)
  {
    var t := Tagged(l, ms);
    if s in t {
      var i :| 0 <= i < |t| && t[i] == s;
      assert ms[i] in ms;
    }
    if m :| m in ms && s == SpanOf(l, m) {
      var i :| 0 <= i < |ms| && ms[i] == m;
      assert t[i] == s;
    }
  }

  /**
   * What `detect_spans` emits: a span is in the output exactly when it is
   * the span of some match of its own label's pattern, carrying that
   * pattern's confidence, and neither the e-mail filter nor the phone filter
   * suppresses that match.
   */
  lemma DetectedMembers(text: string, found: Label -> seq<Match>, s: Span)
    ensures s in Detected(text, found) <==>
            exists m :: m in found(s.kind) && s == SpanOf(s.kind, m) && !Suppressed(text, UrlSpans(found), s.kind, m)
  {
    var urls := UrlSpans(found);
    var rp := RegexPass(text, found, urls, Registry);
    var nm, pv, ad := Tagged(Name, found(Name)), Tagged(Provider, found(Provider)), Tagged(Address, found(Address));
    assert s in Detected(text, found) <==> s in urls || s in rp || s in nm || s in pv || s in ad;
    TaggedMembers(Url, found(Url), s);
    TaggedMembers(Name, found(Name), s);
    TaggedMembers(Provider, found(Provider), s);
    TaggedMembers(Address, found(Address), s);
    RegistryPassMembers(text, found, urls, s);
    AcceptedMembers(text, urls, s.kind, found(s.kind), s);
  }

  /** A span comes out of the second pass over the registry exactly when its own pattern, not URL, accepts it. */
  lemma RegistryPassMembers(text: string, found: Label -> seq<Match>, urls: seq<Span>, s: Span)
    ensures s in RegexPass(text, found, urls, Registry) <==>
            s.kind in {Email, Phone, Dob, ApptId, InsuranceId, GovId} && s in Accepted(text, urls, s.kind, found(s.kind))
  {
    RegexPassMembers(text, found, urls, Registry, s);
    if s in RegexPass(text, found, urls, Registry) {
      var l :| l in Registry && l != Url && s in Accepted(text, urls, l, found(l));
      assert l == s.kind;
    }
    if s.kind in {Email, Phone, Dob, ApptId, InsuranceId, GovId} {
      assert s.kind in Registry;
    }
  }

  /** `detect_spans` never emits an e-mail address that lies inside one of the URLs it emits. */
  lemma NoEmailInsideUrl(text: string, found: Label -> seq<Match>, e: Span, u: Span)
    requires e in Detected(text, found) && e.kind == Email
    requires u in Detected(text, found) && u.kind == Url
    ensures !Contained(e, u)
  {
    var urls := UrlSpans(found);
    DetectedMembers(text, found, e);
    DetectedMembers(text, found, u);
    TaggedMembers(Url, found(Url), u);
    var i :| 0 <= i < |urls| && urls[i] == u;
  }

  /** `detect_spans` never emits a phone number that `is_false_phone` rules out. */
  lemma NoFalsePhone(text: string, found: Label -> seq<Match>, s: Span)
    requires s in Detected(text, found) && s.kind == Phone
    ensures !IsFalsePhone(text, s.start, s.end)
  {
    DetectedMembers(text, found, s);
  }

  /**
   * With well-formed matches every emitted span is non-empty, lies inside
   * the text and carries its pattern's confidence.
   */
  lemma DetectedWellFormed(text: string, found: Label -> seq<Match>)
    requires WellFormedFinds(found, |text|)
    ensures NonEmptyWithin(Detected(text, found), |text|)
    ensures forall s :: s in Detected(text, found) ==> s.confidence == Confidence(s.kind)
  {
    var d := Detected(text, found);
    forall s | s in d ensures s.start < s.end <= |text| && s.confidence == Confidence(s.kind) {
      DetectedMembers(text, found, s);
      var m :| m in found(s.kind) && s == SpanOf(s.kind, m) && !Suppressed(text, UrlSpans(found), s.kind, m);
      var k :| 0 <= k < |found(s.kind)| && found(s.kind)[k] == m;
      assert WellFormedMatches(found(s.kind), |text|);
    }
    forall i | 0 <= i < |d| ensures d[i].start < d[i].end <= |text| {
      assert d[i] in d;
    }
  }

  /** The pass in which `detect_spans` emits a label: URLs, the registry patterns in order, then the heuristics. */
  function Stage(l: Label): nat
  {
    match l
    case Url => 0
    case Email => 1
    case Phone => 2
    case Dob => 3
    case ApptId => 4
    case InsuranceId => 5
    case GovId => 6
    case Name => 7
    case Provider => 8
    case Address => 9
  }

  /** `x` is emitted in an earlier pass than `y`, or in the same pass and wholly to its left. */
  predicate EmittedBefore(x: Span, y: Span)
  {
    Stage(x.kind) < Stage(y.kind) || (x.kind == y.kind && x.end <= y.start)
  }

  /** Every span of `xs` is emitted before every later one. */
  predicate EmissionOrdered(xs: seq<Span>)
  {
    forall i, j :: 0 <= i < j < |xs| ==> EmittedBefore(xs[i], xs[j])
  }

  /** Two ordered runs, the second from later passes only, make an ordered run. */
  lemma EmissionOrderedConcat(a: seq<Span>, b: seq<Span>)
    requires EmissionOrdered(a) && EmissionOrdered(b)
    requires forall x, y :: x in a && y in b ==> Stage(x.kind) < Stage(y.kind)
    ensures EmissionOrdered(a + b)
  {
    var ab := a + b;
    forall i, j | 0 <= i < j < |ab| ensures EmittedBefore(ab[i], ab[j]) {
      if j < |a| {
        assert ab[i] == a[i] && ab[j] == a[j];
      } else if i >= |a| {
        assert ab[i] == b[i - |a|] && ab[j] == b[j - |a|];
      } else {
        assert ab[i] in a && ab[j] in b;
      }
    }
  }

  /** A tagged pass over well-formed matches is ordered. */
  lemma TaggedOrdered(l: Label, ms: seq<Match>, n: nat)
    requires WellFormedMatches(ms, n)
    ensures EmissionOrdered(Tagged(l, ms))
  {
  }

  /** The accepted spans of well-formed matches keep the matches' left-to-right order. */
  lemma {:induction false} AcceptedOrdered(text: string, urls: seq<Span>, l: Label, ms: seq<Match>, n: nat)
    requires WellFormedMatches(ms, n)
    ensures EmissionOrdered(Accepted(text, urls, l, ms))
  {
    if ms != [] {
      var front, m := ms[..|ms| - 1], ms[|ms| - 1];
      assert WellFormedMatches(front, n);
      AcceptedOrdered(text, urls, l, front, n);
      var a := Accepted(text, urls, l, front);
      var last := if Suppressed(text, urls, l, m) then [] else [SpanOf(l, m)];
      forall x, y | x in a && y in last ensures EmittedBefore(x, y) {
        AcceptedMembers(text, urls, l, front, x);
        var mx :| mx in front && x == SpanOf(l, mx) && !Suppressed(text, urls, l, mx);
        var k :| 0 <= k < |front| && front[k] == mx;
        assert ms[k] == mx;
      }
      var r := a + last;
      forall i, j | 0 <= i < j < |r| ensures EmittedBefore(r[i], r[j]) {
        if j < |a| {
          assert r[i] == a[i] && r[j] == a[j];
        } else {
          assert r[i] in a && r[j] in last;
        }
      }
    }
  }

  /** The `p`-th registry pattern, when it is not URL, belongs to stage `p`, which is at most 6. */
  lemma RegistryStage(p: nat)
    requires 1 <= p <= |Registry|
    ensures Registry[p - 1] != Url ==> Stage(Registry[p - 1]) == p <= 6
  {
  }

  /** The second pass over the first `p` registry patterns emits stages 1 to `p`, and at most 6, only. */
  lemma {:induction false} RegexPassStages(text: string, found: Label -> seq<Match>, urls: seq<Span>, p: nat)
    requires p <= |Registry|
    ensures forall s :: s in RegexPass(text, found, urls, Registry[..p]) ==> 1 <= Stage(s.kind) <= p && Stage(s.kind) <= 6
  {
    if p > 0 {
      var l := Registry[p - 1];
      TakeSnoc(Registry, p - 1);
      RegexPassStep(text, found, urls, Registry[..p - 1], l);
      RegexPassStages(text, found, urls, p - 1);
      RegistryStage(p);
    }
  }

  /** Along `labels`, the patterns other than URL belong to strictly later stages. */
  predicate StagesRise(labels: seq<Label>)
  {
    forall i, j :: 0 <= i < j < |labels| && labels[i] != Url && labels[j] != Url ==> Stage(labels[i]) < Stage(labels[j])
  }

  /** The registry lists its patterns in the order of their stages. */
  lemma RegistryStagesRise()
    ensures StagesRise(Registry)
  {
  }

  /** Dropping the last pattern keeps the stages rising. */
  lemma StagesRiseFront(labels: seq<Label>)
    requires StagesRise(labels) && labels != []
    ensures StagesRise(labels[..|labels| - 1])
  {
    var front := labels[..|labels| - 1];
    forall i, j | 0 <= i < j < |front| ensures front[i] == labels[i] && front[j] == labels[j] {
    }
  }

  /** Every span from the patterns before the last one belongs to an earlier stage than the last pattern. */
  lemma EarlierPatternsEarlierStages(text: string, found: Label -> seq<Match>, urls: seq<Span>, labels: seq<Label>)
    requires StagesRise(labels) && labels != [] && labels[|labels| - 1] != Url
    ensures forall x :: x in RegexPass(text, found, urls, labels[..|labels| - 1]) ==>
              Stage(x.kind) < Stage(labels[|labels| - 1])
  {
    var front := labels[..|labels| - 1];
    forall x | x in RegexPass(text, found, urls, front) ensures Stage(x.kind) < Stage(labels[|labels| - 1]) {
      RegexPassMembers(text, found, urls, front, x);
      var k :| k in front && k != Url && x in Accepted(text, urls, k, found(k));
      var i :| 0 <= i < |front| && front[i] == k;
      assert labels[i] == k;
    }
  }

  /** The second pass over patterns whose stages rise along `labels` is ordered. */
  lemma {:induction false} RegexPassOrdered(text: string, found: Label -> seq<Match>, urls: seq<Span>, labels: seq<Label>)
    requires StagesRise(labels) && WellFormedFinds(found, |text|)
    ensures EmissionOrdered(RegexPass(text, found, urls, labels))
  {
    if labels != [] {
      var front, l := labels[..|labels| - 1], labels[|labels| - 1];
      SplitLast(labels);
      RegexPassStep(text, found, urls, front, l);
      StagesRiseFront(labels);
      RegexPassOrdered(text, found, urls, front);
      if l != Url {
        var a, b := RegexPass(text, found, urls, front), Accepted(text, urls, l, found(l));
        AcceptedOrdered(text, urls, l, found(l), |text|);
        EarlierPatternsEarlierStages(text, found, urls, labels);
        EmissionOrderedConcat(a, b);
      }
    }
  }

  /**
   * `detect_spans` emits URLs first, then each registry pattern in registry
   * order, then names, providers and addresses; spans of one label come
   * left to right without overlapping.
   */
  lemma DetectedOrdered(text: string, found: Label -> seq<Match>)
    requires WellFormedFinds(found, |text|)
    ensures EmissionOrdered(Detected(text, found))
  {
    var urls := UrlSpans(found);
    var rp := RegexPass(text, found, urls, Registry);
    var nm, pv, ad := Tagged(Name, found(Name)), Tagged(Provider, found(Provider)), Tagged(Address, found(Address));
    TaggedOrdered(Url, found(Url), |text|);
    TaggedOrdered(Name, found(Name), |text|);
    TaggedOrdered(Provider, found(Provider), |text|);
    TaggedOrdered(Address, found(Address), |text|);
    RegistryStagesRise();
    RegexPassOrdered(text, found, urls, Registry);
    RegexPassStages(text, found, urls, |Registry|);
    assert Registry[..|Registry|] == Registry;
    EmissionOrderedConcat(urls, rp);
    assert forall x: Span :: x in urls + rp ==> Stage(x.kind) <= 6;
    EmissionOrderedConcat(urls + rp, nm);
    EmissionOrderedConcat(urls + rp + nm, pv);
    EmissionOrderedConcat(urls + rp + nm + pv, ad);
  }
}
