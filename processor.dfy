/**
 * `process_entry`: detects, resolves and redacts the spans of one entry's
 * text and reports them with the distinct label names found and the
 * scrubber's version tag.
 */
module Processor {
  import opened Wrappers
  import opened Strings
  import opened Sorting
  import opened Spans
  import opened Detector
  import opened Resolver
  import opened Redactor

  /** An input entry: its `entry_id` and `text` fields, either of which may be absent. */
  datatype Entry = Entry(entryId: Option<string>, text: Option<string>)

  /** A required field of the entry is missing (Python raises `KeyError`). */
  datatype ProcessError = MissingKey(key: string)

  /** The output record of `process_entry`. */
  datatype ScrubResult = ScrubResult(
    entryId: string,
    scrubbedText: string,
    detectedSpans: seq<Span>,
    typesFound: seq<string>,
    scrubberVersion: string)

  /** The version tag every result carries. */
  const Version: string := "v3"

  /** Every label, in ascending order of its name. */
  const NameOrder: seq<Label> := [Address, ApptId, Dob, Email, GovId, InsuranceId, Name, Phone, Provider, Url]

  /** Labels whose names rise step by step have names rising throughout. */
  lemma {:induction false} NamesRiseThroughout(ls: seq<Label>)
    requires forall k :: 0 <= k < |ls| - 1 ==> StrLess(LabelName(ls[k]), LabelName(ls[k + 1]))
    ensures forall i, j :: 0 <= i < j < |ls| ==> StrLess(LabelName(ls[i]), LabelName(ls[j]))
  {
    if |ls| > 1 {
      var front, last := ls[..|ls| - 1], ls[|ls| - 1];
      assert forall k :: 0 <= k < |front| ==> front[k] == ls[k];
      NamesRiseThroughout(front);
      forall i | 0 <= i < |ls| - 2 ensures StrLess(LabelName(ls[i]), LabelName(last)) {
        assert StrLess(LabelName(front[i]), LabelName(front[|ls| - 2]));
        StrLessTransitive(LabelName(ls[i]), LabelName(ls[|ls| - 2]), LabelName(last));
      }
      forall i, j | 0 <= i < j < |ls| ensures StrLess(LabelName(ls[i]), LabelName(ls[j])) {
        if j < |ls| - 1 {
          assert StrLess(LabelName(front[i]), LabelName(front[j]));
        }
      }
    }
  }

  /** The label names, taken in `NameOrder`, are in strictly ascending string order. */
  lemma NameOrderAscending()
    ensures forall i, j :: 0 <= i < j < |NameOrder| ==> StrLess(LabelName(NameOrder[i]), LabelName(NameOrder[j]))
  {
    assert StrLess("ADDRESS", "APPT_ID");
    assert StrLess("APPT_ID", "DOB");
    assert StrLess("DOB", "EMAIL");
    assert StrLess("EMAIL", "GOV_ID");
    assert StrLess("GOV_ID", "INSURANCE_ID");
    assert StrLess("INSURANCE_ID", "NAME");
    assert StrLess("NAME", "PHONE");
    assert StrLess("PHONE", "PROVIDER");
    assert StrLess("PROVIDER", "URL");
    NamesRiseThroughout(NameOrder);
  }

  /** Some span of `spans` carries label `l`. */
  predicate Present(spans: seq<Span>, l: Label)
  {
    exists s :: s in spans && s.kind == l
  }

  /** The names of the labels of `labels` that some span carries, in the order of `labels`. */
  function NamesPresent(labels: seq<Label>, spans: seq<Span>): seq<string>
  {
    if labels == [] then []
    else
      var front, l := labels[..|labels| - 1], labels[|labels| - 1];
      NamesPresent(front, spans) + (if Present(spans, l) then [LabelName(l)] else [])
  }

  /** A name is listed exactly when a label of `labels` with that name is present. */
  lemma {:induction false} NamesPresentMembers(labels: seq<Label>, spans: seq<Span>, n: string)
    ensures n in NamesPresent(labels, spans) <==> exists l :: l in labels && LabelName(l) == n && Present(spans, l)
  {
    if labels != [] {
      var front, l := labels[..|labels| - 1], labels[|labels| - 1];
      SplitLast(labels);
      NamesPresentMembers(front, spans, n);
    }
  }

  /** Taking names along a strictly ascending list of labels keeps them strictly ascending. */
  lemma {:induction false} NamesPresentAscending(labels: seq<Label>, spans: seq<Span>)
    requires forall i, j :: 0 <= i < j < |labels| ==> StrLess(LabelName(labels[i]), LabelName(labels[j]))
    ensures forall i, j :: 0 <= i < j < |NamesPresent(labels, spans)| ==>
              StrLess(NamesPresent(labels, spans)[i], NamesPresent(labels, spans)[j])
  {
    if labels != [] {
      var front, l := labels[..|labels| - 1], labels[|labels| - 1];
      NamesPresentAscending(front, spans);
      var a := NamesPresent(front, spans);
      var r := NamesPresent(labels, spans);
      forall x | x in a ensures StrLess(x, LabelName(l)) {
        NamesPresentMembers(front, spans, x);
        var k :| k in front && LabelName(k) == x && Present(spans, k);
        var i :| 0 <= i < |front| && front[i] == k;
        assert labels[i] == k;
      }
      forall i, j | 0 <= i < j < |r| ensures StrLess(r[i], r[j]) {
        if j < |a| {
          assert r[i] == a[i] && r[j] == a[j];
        } else {
          assert r[i] in a;
        }
      }
    }
  }

  /**
   * `types_found`, `sorted({s["type"] for s in spans})`: the label names the
   * spans carry, each once, in ascending string order.
   */
  function TypesFound(spans: seq<Span>): (r: seq<string>)
    ensures forall i, j :: 0 <= i < j < |r| ==> StrLess(r[i], r[j])
    ensures forall n :: n in r <==> exists s :: s in spans && LabelName(s.kind) == n
  {
    var r := NamesPresent(NameOrder, spans);
    NameOrderAscending();
    NamesPresentAscending(NameOrder, spans);
    forall n ensures n in r <==> exists s :: s in spans && LabelName(s.kind) == n {
      NamesPresentMembers(NameOrder, spans, n);
      if s :| s in spans && LabelName(s.kind) == n {
        assert s.kind in NameOrder;
      }
    }
    r
  }

  /** A strictly ascending list names nothing twice. */
  lemma TypesFoundDistinct(spans: seq<Span>)
    ensures forall i, j :: 0 <= i < j < |TypesFound(spans)| ==> TypesFound(spans)[i] != TypesFound(spans)[j]
  {
    var r := TypesFound(spans);
    forall i, j | 0 <= i < j < |r| ensures r[i] != r[j] {
      StrLessIrreflexive(r[i]);
    }
  }

  /**
   * `process_entry`: reads the text (a missing one fails first), detects the
   * candidates, resolves their overlaps, redacts the text with the
   * survivors and reports them with the entry's id, the label names found
   * and the version tag.
   */
  method ProcessEntry(entry: Entry, found: Label -> seq<Match>) returns (r: Result<ScrubResult, ProcessError>)
    ensures entry.text.None? ==> r == Failure(MissingKey("text"))
    ensures entry.text.Some? && entry.entryId.None? ==> r == Failure(MissingKey("entry_id"))
    ensures r.Success? <==> entry.text.Some? && entry.entryId.Some?
    ensures r.Success? ==>
              var text, out := entry.text.value, r.value;
              && out.entryId == entry.entryId.value
              && out.scrubberVersion == "v3"
              && out.detectedSpans == ResolvedSpans(Detected(text, found))
              && Disjoint(out.detectedSpans)
              && (forall i, j :: 0 <= i < j < |out.detectedSpans| ==> out.detectedSpans[i].start <= out.detectedSpans[j].start)
              && multiset(out.detectedSpans) <= multiset(Detected(text, found))
              && out.typesFound == TypesFound(out.detectedSpans)
              && out.scrubbedText == ApplyAll(text, SortBy(out.detectedSpans, DescStartKey))
              && (WellFormedFinds(found, |text|) ==> out.scrubbedText == Redacted(text, out.detectedSpans))
  {
    if entry.text.None? {
      return Failure(MissingKey("text"));
    }
    var text := entry.text.value;
    var candidates := DetectSpans(text, found);
    var spans := ResolveOverlaps(candidates);
    var scrubbed := ScrubText(text, spans);
    if entry.entryId.None? {
      return Failure(MissingKey("entry_id"));
    }
    if WellFormedFinds(found, |text|) {
      SurvivorsRedacted(text, found);
    }
    r := Success(ScrubResult(entry.entryId.value, scrubbed, spans, TypesFound(spans), Version));
  }

  /**
   * With well-formed matches the resolved spans are non-empty, in bounds,
   * non-overlapping and already in start order, so the scrubbed text is the
   * redaction of exactly those spans.
   */
  lemma SurvivorsRedacted(text: string, found: Label -> seq<Match>)
    requires WellFormedFinds(found, |text|)
    ensures var spans := ResolvedSpans(Detected(text, found));
            NonEmptyWithin(spans, |text|) && Disjoint(spans) &&
            SortBy(spans, StartKey) == spans &&
            ApplyAll(text, SortBy(spans, DescStartKey)) == Redacted(text, spans)
  {
    DetectedWellFormed(text, found);
    ResolvedRedacted(text, Detected(text, found));
  }

  /** For non-empty, in-bounds candidates, scrubbing with the resolved spans redacts them in place. */
  lemma ResolvedRedacted(text: string, candidates: seq<Span>)
    requires NonEmptyWithin(candidates, |text|)
    ensures var spans := ResolvedSpans(candidates);
            NonEmptyWithin(spans, |text|) && Disjoint(spans) &&
            SortBy(spans, StartKey) == spans &&
            ApplyAll(text, SortBy(spans, DescStartKey)) == Redacted(text, spans)
  {
    var spans := ResolvedSpans(candidates);
    ResolvedWithin(candidates, |text|);
    ResolvedSpansInvariant(candidates);
    assert SortedBy(spans, StartKey);
    SortBySortedIsIdentity(spans, StartKey);
    DescendingIsReversedAscending(spans, |text|);
    RightToLeftIsRedacted(text, spans);
  }

  /** Without matches the second pass emits nothing. */
  lemma {:induction false} NoMatchesNoPass(text: string, found: Label -> seq<Match>, urls: seq<Span>, labels: seq<Label>)
    requires forall l :: found(l) == []
    ensures RegexPass(text, found, urls, labels) == []
  {
    if labels != [] {
      NoMatchesNoPass(text, found, urls, labels[..|labels| - 1]);
    }
  }

  /** Without spans no label is present. */
  lemma {:induction false} NoSpansNoNames(labels: seq<Label>)
    ensures NamesPresent(labels, []) == []
  {
    if labels != [] {
      NoSpansNoNames(labels[..|labels| - 1]);
    }
  }

  /**
   * The false-phone example of the test suite, through the whole pipeline:
   * were the number in "Steps today 6234 (not a phone)" the only match of
   * any pattern, and a PHONE match, the phone filter would suppress it, so
   * nothing is detected and the text comes back unchanged.
   */
  lemma StepsCountKeptVerbatim(found: Label -> seq<Match>)
    requires found(Phone) == [Match(12, 16)]
    requires forall l :: l != Phone ==> found(l) == []
    ensures var text := "Steps today 6234 (not a phone)";
            Detected(text, found) == [] &&
            ResolvedSpans(Detected(text, found)) == [] &&
            ApplyAll(text, SortBy(ResolvedSpans(Detected(text, found)), DescStartKey)) == text
  {
    var text := "Steps today 6234 (not a phone)";
    var d := Detected(text, found);
    StepsCountIsNotAPhone();
    if d != [] {
      var s := d[0];
      DetectedMembers(text, found, s);
      assert false;
    }
    DisjointCandidatesAllKept([]);
  }

  /** With no matches at all the text comes back unchanged, with no spans and no types. */
  lemma NothingFoundNothingChanged(text: string, found: Label -> seq<Match>)
    requires forall l :: found(l) == []
    ensures Detected(text, found) == []
    ensures ResolvedSpans(Detected(text, found)) == []
    ensures TypesFound([]) == []
    ensures ApplyAll(text, SortBy([], DescStartKey)) == text
  {
    NoMatchesNoPass(text, found, UrlSpans(found), Registry);
    NoSpansNoNames(NameOrder);
    DisjointCandidatesAllKept([]);
  }
}
