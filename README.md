# TimeRange in Dafny

A model of `TimeRange`, a Ruby value type for an interval of instants whose
end is either included or excluded, and of the small algebra defined on it:
validation at construction, the normalised last instant `max`, `duration`,
equality that ignores how the end is written, containment
(`encapsulates?`, `encapsulated_by?`), overlap (`overlaps?`) and
intersection (`overlap_with`), plus the day span `dates` and the
`Range#to_time_range` adapter.

Instants are whole seconds (`int`), the granularity the one-second `max`
normalisation assumes. A range is the triple Ruby's `Range` stores,
`Span(begin, end, excludeEnd)`; `TimeRange` is the subset type of the spans
the constructor accepts, so every operation is stated only for ranges that
could exist. The inherited containment test `Range#cover?` is modelled as
`Covers(s, t)`, the set of instants a range stands for, and the operations are
proved against it: equality is "same instants", containment is "subset",
overlap is "some common instant", and `overlap_with` is the intersection.

Files:

- `time_range.dfy`: modules `Wrappers` (Option, Result) and `TimeRanges` (`lib/time_range.rb`).
- `range_ext.dfy`: module `RangeExt` (`lib/time_range/core_ext/range.rb`).
- `time_range_hash.dfy`: module `TimeRangeHash`, the hashing finding below.
- `time_range_examples.dfy`: module `TimeRangeExamples`, the fixtures of the
  test factory and the concrete cases of the test suite as lemmas.

## Model

| member | source | states |
|---|---|---|
| TimeRanges.New | lib/time_range.rb:11-23 | succeeds exactly when the range includes its own begin (end >= begin, or end - 1 >= begin when exclusive), then stores the three fields verbatim; otherwise fails with ArgumentError |
| TimeRanges.NewSucceedsIffNonEmpty | lib/time_range.rb:14-20 | construction succeeds iff the requested range would include at least one instant |
| TimeRanges.Max | lib/time_range.rb:52-56 | max is an included instant and no included instant is later: the highest instant of the range |
| TimeRanges.Duration | lib/time_range.rb:61-63 | duration is never negative, begin + duration == max, and an exclusive range's duration is end - begin - 1 |
| TimeRanges.Equal | lib/time_range.rb:30-40 | `==` / `eql?` holds iff begin and max agree, including the branch that falls back to Range's field-by-field comparison |
| TimeRanges.EqualIffSameInstants | lib/time_range.rb:25-38 | two ranges are equal iff they include exactly the same instants |
| TimeRanges.EqualIsEquivalence | lib/time_range.rb:30-40 | equality is reflexive, symmetric and transitive |
| TimeRanges.BeginsWithin | lib/time_range.rb:125-127 | holds iff the other range includes this range's begin |
| TimeRanges.EndsWithin | lib/time_range.rb:129-131 | holds iff the other range includes this range's max |
| TimeRanges.Encapsulates | lib/time_range.rb:83-87 | holds iff the other range begins and ends within this one |
| TimeRanges.EncapsulatesIffSubset | lib/time_range.rb:77-87 | a range encapsulates another iff every instant of the other is an instant of it |
| TimeRanges.EncapsulatedBy | lib/time_range.rb:94-98 | holds iff the other range's begin is no later and its max no earlier than this range's, that is iff every instant of this range is an instant of the other |
| TimeRanges.EncapsulatesIsPartialOrder | lib/time_range.rb:77-98 | encapsulation is reflexive and transitive, and mutual encapsulation is exactly equality |
| TimeRanges.Overlaps | lib/time_range.rb:69-75 | the three-way disjunction holds iff the later begin is no later than the earlier max |
| TimeRanges.OverlapsIffCommonInstant | lib/time_range.rb:65-75 | two ranges overlap iff some instant lies in both |
| TimeRanges.OverlapsSymmetric | lib/time_range.rb:72-74 | the asymmetric case split gives the same answer with the arguments swapped |
| TimeRanges.EncapsulatesImpliesOverlaps | lib/time_range.rb:69-87 | a range that encapsulates another overlaps it, in both argument orders |
| TimeRanges.OverlapWith | lib/time_range.rb:104-111 | returns nothing iff the ranges do not overlap; otherwise an inclusive range from the later begin to the earlier max, whose construction cannot fail, encapsulated by both arguments |
| TimeRanges.OverlapWithIsIntersection | lib/time_range.rb:100-111 | the result includes exactly the instants both ranges include; with no result, no instant is shared |
| TimeRanges.OverlapWithIsGreatest | lib/time_range.rb:104-111 | every range encapsulated by both arguments is encapsulated by their overlap |
| TimeRanges.OverlapWithCommutative | lib/time_range.rb:107-110 | overlap_with returns the identical value whichever range it is called on |
| TimeRanges.Dates | lib/time_range.rb:116-121 | the day span runs from the day of begin to the day of max, which is the day of end - 1 for an exclusive range |
| TimeRanges.DatesCoverEveryInstant | lib/time_range.rb:113-121 | for a day numbering that never goes back in time, the day of every included instant lies within the span |
| RangeExt.ToTimeRange | lib/time_range/core_ext/range.rb:11-13 | converting a plain range keeps its begin, end and exclude-end flag, and fails exactly when the constructor does |
| TimeRangeHash.InheritedHashSplitsEqualRanges | lib/time_range.rb:30-40 | for all ranges: every equal pair written differently differs in what the inherited hash reads, and agreeing inputs imply equality |
| TimeRangeHash.InheritedHashBreaksEql | lib/time_range.rb:30-40 | there exist ranges that are `eql?` but whose inherited hash inputs differ |
| TimeRangeHash.InheritedHashSplitExample | lib/time_range.rb:30-40 | `[t, t+60]` and `[t, t+61)` are equal yet differ in what the inherited hash reads |
| TimeRangeHash.HashInput | lib/time_range.rb:30-36 | a hash input of begin and the last included instant |
| TimeRangeHash.EqualIffSameHashInput | lib/time_range.rb:30-40 | ranges are equal iff their hash inputs agree |
| TimeRangeExamples.NewExamples | spec/time_range/time_range_spec.rb:16-34 | construction keeps begin and end, refuses a negative span, and an exclusive range needs one more second than an inclusive one |
| TimeRangeExamples.EqualExamples | spec/time_range/time_range_spec.rb:37-65 | `[t, t+60]` equals itself and `[t, t+61)`, and differs from `[t, t+61]` and `[t, t+60)` |
| TimeRangeExamples.MaxDurationExamples | spec/time_range/time_range_spec.rb:85-107 | max and duration are t+60 and 60 for `[t, t+60]`, t+59 and 59 for `[t, t+60)` |
| TimeRangeExamples.OverlapsFixtures | spec/time_range/time_range_spec.rb:110-129 | against an inclusive base, only the ranges strictly before and strictly after do not overlap; bordering ranges share one instant and overlap |
| TimeRangeExamples.OverlapsFixturesExclusive | spec/factories/time_range_factory.rb:18-48 | with exclusive ends the bordering ranges do not overlap the base either |
| TimeRangeExamples.EncapsulatesFixtures | spec/time_range/time_range_spec.rb:131-167 | the base encapsulates only the contained range and is encapsulated only by the containing one |
| TimeRangeExamples.OverlapWithFixtures | spec/time_range/time_range_spec.rb:169-235 | the begin and max of overlap_with for each factory position, and no result for the disjoint ones |
| TimeRangeExamples.DatesExamples | spec/time_range/time_range_spec.rb:237-255 | from local midnight of 2002-10-31 in any whole-hour zone from UTC-12 to UTC+14, the UTC day span runs from the day of begin to the day of end; a one-minute range spans one day and a million-second range 11 or 12 days later; in UTC exactly days 11991 to 12002, with every included instant between them |

## Left out

- Type checks: the TypeError raised by the constructor for non-Time endpoints and by `overlaps?`, `encapsulates?`, `encapsulated_by?` for a non-TimeRange argument cannot arise with Dafny's types; `==` returns false (it does not raise) for a value of another class, and that case is likewise not representable.
- Sub-second instants: Ruby Time differences are floats and `duration` is documented as a Float; instants here are whole seconds, so fractional times, and the mismatch between `cover?` and `max` they cause, are not modelled.
- TimeRanges.Dates: takes the instant-to-day conversion as a parameter (`dayOf`, day numbers rather than Date objects); the civil year/month/day conversion, which Ruby reads from each endpoint's Time in that Time's own zone, is not part of this model. The model converts begin and max with one and the same `dayOf`, so it assumes both ends are read in the same zone; when they are not (a range built from Times in different zones, or an `overlap_with` result taking its begin from one range and its max from the other), Ruby can return a span whose first day is after its last, and `DatesCoverEveryInstant` does not describe that case. The examples use the UTC day `UtcDay(t) = t / 86400`, which matches the test suite's times, converted to UTC; its start is local midnight, so `DatesExamples` takes the local zone's whole-hour offset as a parameter.
- Inherited Range behaviour that TimeRange does not override (iteration, `include?`, `min`, `to_s`) is not modelled; `cover?` appears only as the reference predicate `Covers`.
- Ruby's Range#hash itself is not part of this model; the finding below relies only on its documented inputs (begin, end, exclude_end).

## Findings

| source | as written | input that shows it | evidently intended | confidence | as-written member | corrected member |
|---|---|---|---|---|---|---|
| lib/time_range.rb:40 | `eql?` is aliased to the normalising `==`, but `hash` is not overridden, so the inherited Range#hash still digests begin, end and exclude_end | `TimeRange.new(t, t + 60)` and `TimeRange.new(t, t + 61, true)` are `eql?` but differ in end and exclude_end, so as Hash keys or under `uniq` they are treated as distinct | equal ranges hash alike: hash computed from begin and max | medium, not executed | TimeRangeHash.InheritedHashBreaksEql | TimeRangeHash.EqualIffSameHashInput |
