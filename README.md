# PII scrubber: a verified model of the span pipeline

This project models the core of a PII scrubber for free-text health-diary
entries. For one entry the scrubber does four things:

- It detects candidate spans with a set of pattern matchers: URL, EMAIL,
  PHONE, DOB, APPT_ID, INSURANCE_ID and GOV_ID, plus the NAME, PROVIDER and
  ADDRESS heuristics.
- It resolves overlaps between the candidates with a fixed priority table and
  a single greedy sweep.
- It rewrites the text, replacing every surviving span with `[LABEL]`, from
  the rightmost span to the leftmost.
- It reports the surviving spans, the distinct label names found and the
  version tag `"v3"`.

The model is split into modules as follows.

- `Spans` (`spans.dfy`) holds the labels, the priority table, the
  confidences, `overlaps` and `inside_any`.
- `Detector` (`detector.dfy`) holds `is_false_phone` and `detect_spans`.
  - Each pattern's matches are an input, `found: Label -> seq<Match>`.
  - The code that labels the matches, filters them and concatenates the
    passes is modelled step by step.
  - The methods `AppendMatches`, `FilterMatches`, `SecondPass` and
    `DetectSpans` are proved equal to the function `Detected`.
- `Resolver` (`resolver.dfy`) holds `resolve_overlaps`.
  - `ResolveOverlaps` and `Arbitrate` are the imperative sweep. They keep the
    `keep` flag and the `break`, scan a snapshot of the survivor list, and
    call `list.remove`.
  - Both are proved equal to the functions `Step`, `Resolve` and
    `ResolvedSpans`.
- `Redactor` (`redactor.dfy`) holds `scrub_text`.
  - It uses Python's clamping slices and a stable sort by descending start.
  - The method's loop is proved against `ApplyAll`, which applies the
    replacements in order.
  - `ApplyAll` is in turn proved equal to `Redacted`, an independent
    left-to-right definition: the gaps are kept verbatim, with one tag per
    span.
- `Processor` (`processor.dfy`) holds `process_entry` and `types_found`.
- `Sorting` (`sorting.dfy`) holds Python's stable `sorted` on an integer key,
  with its stability proved.
- `Strings` (`strings.dfy`) holds slicing, ASCII `lower()`, `in` on strings
  and `<` on strings.
- `Wrappers` (`wrappers.dfy`) holds `Option` and `Result`.

The main results are these.

- The resolver always returns pairwise non-overlapping spans. They are
  ordered by start and drawn from the candidates.
- Inside the sweep, a candidate never overlaps more than one survivor. So
  the "evictions are not undone" quirk of the scan can never leave a trace.
  The quirk is reproduced in `Step` and exhibited on a state the sweep never
  reaches.
- The sweep is greedy, not maximal. A span that overlaps no final survivor
  can still be lost.
- Priority dominance holds in one direction only.
  - A candidate that covers a stronger non-empty candidate is never
    returned.
  - A weaker span inside a stronger one can survive, when a third span
    evicts the stronger one first.
- For well-formed matches, the scrubbed text equals the interleaving of the
  untouched gaps with the tags of the resolved spans.

Three facts about the sweep in `pii_scrubber/scrubber.py:165-181` are worth
stating on their own:

- The short-circuiting scan never leaves overlaps: the result is always
  disjoint (`Resolver.ResolvedSpansInvariant`).
- The sweep is not maximal (`Resolver.SweepIsNotMaximal`).
- A weaker span covering a stronger one never survives
  (`Resolver.DominatedCoverDropped`), but a weaker span inside a stronger one
  can (`Resolver.ContainedWeakerCanOutlive`).

## Model

| member | source | states |
|---|---|---|
| Spans.Priority | pii_scrubber/scrubber.py:66-77 | every label's priority lies between 30 and 100 |
| Spans.LabelTablesInjective | pii_scrubber/scrubber.py:66-77 | no two labels share a priority or a name |
| Spans.OverlapsIffSharedPosition | pii_scrubber/scrubber.py:87-88 | `overlaps` is symmetric, holds whenever two ranges share a position, and for non-empty ranges holds only then |
| Spans.EmptyRangeOverlaps | pii_scrubber/scrubber.py:87-88 | an empty range covers no position yet overlaps a range around it |
| Spans.InsideAny | pii_scrubber/scrubber.py:91-96 | true exactly when some span of the given label contains the span |
| Spans.InsideAnyIgnoresOtherLabels | pii_scrubber/scrubber.py:91-96 | spans of other labels appended to the list do not change the answer |
| Strings.Slice | pii_scrubber/scrubber.py:82 | Python slicing with clamped bounds: the length and the characters taken, and the plain slice when the bounds are in range |
| Strings.LowerStr | pii_scrubber/scrubber.py:82 | `lower()` keeps the length and lower-cases each ASCII letter |
| Strings.Occurs | pii_scrubber/scrubber.py:84 | `needle in hay` holds exactly when the needle occurs at some offset |
| Strings.StrLessTransitive | pii_scrubber/scrubber.py:205 | string `<` is transitive, so `sorted` on label names is well defined |
| Strings.StrLessIrreflexive | pii_scrubber/scrubber.py:205 | string `<` is irreflexive |
| Sorting.SortBy | pii_scrubber/scrubber.py:166 | `sorted` returns a permutation of its input, ordered by the key |
| Sorting.SortByStable | pii_scrubber/scrubber.py:186 | `sorted` is stable: spans with equal keys keep their input order |
| Sorting.StrictlySortedUnique | pii_scrubber/scrubber.py:186 | a permutation with strictly rising keys is unique, so the descending sort is fully determined |
| Detector.AnyOccurs | pii_scrubber/scrubber.py:84 | `any(bad in window ...)` holds exactly when some listed word occurs in the window |
| Detector.FalsePhoneWindow | pii_scrubber/scrubber.py:81-84 | `is_false_phone` holds exactly when a blacklisted word occurs case-insensitively within 25 characters either side of the match, the window clamped to the text |
| Detector.StepsCountIsNotAPhone | pii_scrubber/tests.py:16-19 | `is_false_phone` would rule out [12,16) of "Steps today 6234 (not a phone)" |
| Processor.StepsCountKeptVerbatim | pii_scrubber/tests.py:16-19 | were [12,16) of that text the only match of any pattern, and a PHONE match, nothing would be detected or resolved and the text would come back unchanged |
| Detector.NoLetterNoFalsePhone | pii_scrubber/scrubber.py:81-84 | a text with no letters and no `%` never rules a number out |
| Detector.Tagged | pii_scrubber/scrubber.py:104-110 | one span per match, in match order, with the pattern's label and confidence |
| Detector.Accepted | pii_scrubber/scrubber.py:117-135 | the second pass emits at most one span per match, all with the pattern's label |
| Detector.AcceptedMembers | pii_scrubber/scrubber.py:117-135 | a span is emitted for a pattern exactly when it is the span of a match that neither the e-mail filter nor the phone filter suppresses |
| Detector.RegexPass | pii_scrubber/scrubber.py:113-115 | the second pass never emits a URL span |
| Detector.RegexPassMembers | pii_scrubber/scrubber.py:113-135 | the second pass emits exactly what some pattern other than URL accepts |
| Detector.AppendMatches | pii_scrubber/scrubber.py:138-160 | the URL pass and each heuristic pass append one span per match to the list |
| Detector.FilterMatches | pii_scrubber/scrubber.py:117-135 | the loop over one pattern's matches, checking `inside_any` against all spans so far (URL spans followed by spans of other labels), appends exactly the accepted spans after them |
| Detector.SecondPass | pii_scrubber/scrubber.py:113-135 | the loop over the registry appends exactly the second pass's spans after the URL spans |
| Detector.DetectSpans | pii_scrubber/scrubber.py:100-162 | `detect_spans` returns the URL spans, the second pass, then the name, provider and address spans |
| Detector.TaggedMembers | pii_scrubber/scrubber.py:104-110 | a span is in a tagged pass exactly when it is the span of one of its matches |
| Detector.RegistryPassMembers | pii_scrubber/scrubber.py:113-135 | a span comes out of the second pass exactly when its own pattern, one of the six registry patterns other than URL, accepts it |
| Detector.DetectedMembers | pii_scrubber/scrubber.py:100-162 | a span is detected exactly when it is the span of a match of its own label's pattern that no filter suppresses |
| Detector.NoEmailInsideUrl | pii_scrubber/scrubber.py:124-125 | no detected e-mail span lies inside a detected URL span |
| Detector.NoFalsePhone | pii_scrubber/scrubber.py:127-128 | no detected phone span is one that `is_false_phone` rules out |
| Detector.DetectedWellFormed | pii_scrubber/scrubber.py:100-162 | with well-formed matches, every detected span is non-empty, inside the text and carries its pattern's confidence |
| Detector.DetectedOrdered | pii_scrubber/scrubber.py:100-162 | URL spans come first, then the registry patterns in order, then names, providers and addresses; one label's spans run left to right |
| Resolver.SortKeyIsLexicographic | pii_scrubber/scrubber.py:166 | the integer key orders by start, then by descending priority, and separates spans differing in start or label |
| Resolver.FirstBlocker | pii_scrubber/scrubber.py:171-175 | the scan stops at the first survivor that overlaps the candidate and is at least as strong |
| Resolver.SurvivorsMembers | pii_scrubber/scrubber.py:171-177 | the survivors kept are exactly those not overlapping the candidate |
| Resolver.RemoveFirst | pii_scrubber/scrubber.py:177 | `list.remove` drops the first element equal to the value and keeps the rest in order, so exactly one copy leaves the multiset |
| Resolver.Arbitrate | pii_scrubber/scrubber.py:170-179 | one candidate's scan, with `keep`, `break` and `remove` over a snapshot, produces the step function's result |
| Resolver.ResolveOverlaps | pii_scrubber/scrubber.py:165-181 | `resolve_overlaps` returns disjoint spans, ordered by start and drawn from its input |
| Resolver.ResolvedSpansInvariant | pii_scrubber/scrubber.py:165-181 | the resolved spans are disjoint, sorted by the key and by start, and a sub-multiset of the candidates |
| Resolver.ResolvedWithin | pii_scrubber/scrubber.py:165-181 | non-empty candidates inside the text give non-empty resolved spans inside the text |
| Resolver.ResolveInvariant | pii_scrubber/scrubber.py:169-179 | the sweep over sorted candidates keeps the survivors disjoint and sorted |
| Resolver.StepOutcome | pii_scrubber/scrubber.py:170-179 | a candidate is kept exactly when every survivor it overlaps is weaker, and then all of them are evicted; otherwise it is dropped and adds nothing |
| Resolver.StepDrawnFrom | pii_scrubber/scrubber.py:170-179 | a step adds nothing but the candidate |
| Resolver.AtMostOneOverlap | pii_scrubber/scrubber.py:169-179 | disjoint survivors that start no later than the candidate overlap it at most once |
| Resolver.SweepNeverStrandsEvictions | pii_scrubber/scrubber.py:169-179 | inside the sweep a dropped candidate leaves the survivors unchanged, and a kept one evicts at most one |
| Resolver.DroppedCandidateKeepsEvictions | pii_scrubber/scrubber.py:172-177 | on its own, a dropped candidate keeps the evictions it made before meeting its blocker |
| Resolver.ResolveOfDisjoint | pii_scrubber/scrubber.py:169-179 | the sweep returns disjoint candidates unchanged |
| Resolver.DisjointCandidatesAllKept | pii_scrubber/scrubber.py:165-181 | mutually non-overlapping candidates all come back in sort order; no candidates give no spans |
| Resolver.SweepIsNotMaximal | pii_scrubber/scrubber.py:165-181 | a candidate overlapping no final survivor can still be lost |
| Resolver.StrongerEvictsSole | pii_scrubber/scrubber.py:172-179 | a stronger candidate replaces the only survivor it overlaps |
| Resolver.StrongerSurvivorStays | pii_scrubber/scrubber.py:172-175 | a survivor at least as strong as the candidate is never evicted by it |
| Resolver.DominatedCoverDropped | pii_scrubber/scrubber.py:165-181 | a candidate covering a stronger non-empty candidate is never returned |
| Resolver.ContainedWeakerCanOutlive | pii_scrubber/scrubber.py:165-181 | a weaker span inside a stronger one can be returned after a third span evicts the stronger one |
| Redactor.ScrubText | pii_scrubber/scrubber.py:184-192 | replacing spans by descending start returns the text unchanged for no spans, and the gaps interleaved with one tag per span for non-empty, in-bounds, disjoint spans |
| Redactor.RightToLeftIsRedacted | pii_scrubber/scrubber.py:186-191 | applying left-to-right spans rightmost first yields the redacted text |
| Redactor.ApplyAllKeepsSuffix | pii_scrubber/scrubber.py:187-191 | replacements inside a prefix never touch the text after it |
| Redactor.DescendingIsReversedAscending | pii_scrubber/scrubber.py:186 | for disjoint non-empty spans, the descending sort is the ascending sort reversed, and the ascending sort lays them out left to right |
| Processor.TypesFound | pii_scrubber/scrubber.py:205 | `types_found` is strictly ascending and names exactly the labels of the spans |
| Processor.TypesFoundDistinct | pii_scrubber/scrubber.py:205 | `types_found` names no label twice |
| Processor.ProcessEntry | pii_scrubber/scrubber.py:195-207 | a missing `text` fails first, then a missing `entry_id`; on success the id is echoed, the version is "v3", the spans are the resolved detected spans, and the text is scrubbed with them |
| Processor.SurvivorsRedacted | pii_scrubber/scrubber.py:198-199 | with well-formed matches, the resolved spans are in bounds, disjoint and in order, and the scrubbed text is their redaction |
| Processor.ResolvedRedacted | pii_scrubber/scrubber.py:198-199 | for any non-empty, in-bounds candidates, the resolved spans are disjoint and already in start order, and scrubbing with them yields their redaction |
| Processor.NothingFoundNothingChanged | pii_scrubber/scrubber.py:195-207 | with no matches there are no spans and no types, and the text is unchanged |

## Left out

- `pii_scrubber/cli.py` is not part of this model: argument parsing, file reading and writing, and JSON encoding are I/O.
- The regular expressions themselves: a foreign regex engine. Each pattern's matches are an input. Ordering and bounds results assume `WellFormedFinds`: non-empty, in-bounds, left-to-right, non-overlapping matches, as `finditer` yields them.
- Unicode case mapping: `lower()` is modelled for ASCII letters only.
- Confidences are floats in the source. They are kept as fixed per-label tags in hundredths (95 for 0.95) and never computed with.
- Entries as JSON objects: `entry_id` and `text` are optional strings. Other JSON value types, and extra keys, are not modelled.
- Processor.ProcessEntry: a missing `entry_id` is reported as a failure after detection, resolution and redaction have run, as in the source. That work has no observable effect, so the model states only the failure.
- `pii_scrubber/tests.py` is an example driver, and every outcome it checks depends on the regular expressions. Only its false-phone text is stated: `is_false_phone` would rule out [12,16) of that text (Detector.StepsCountIsNotAPhone), and the whole pipeline would leave the text unchanged if that were a PHONE match (Processor.StepsCountKeptVerbatim). In the program itself the PHONE pattern needs at least six digits and does not match a four-digit number at all, so `is_false_phone` is never called on it there.
