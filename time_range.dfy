/** Option and Result: the nil that overlap_with returns and the exceptions construction raises. */
module Wrappers {
  datatype Option<+T> = None | Some(value: T)

  datatype Result<+T, +E> = Ok(value: T) | Err(error: E)
}

/**
 A TimeRange is an interval of instants with an inclusive or exclusive end,
 plus the comparison and intersection operations defined on it.
 Instants are whole seconds.
 */
module TimeRanges {
  import opened Wrappers

  /** A point in time, in seconds. */
  type Instant = int

  /** The three fields a Ruby Range stores: begin, end, and whether end is excluded. */
  datatype Span = Span(begin: Instant, end: Instant, excludeEnd: bool)

  /**
   The containment test TimeRange inherits from Range (cover?): `t` lies between
   begin and end, end included unless excluded. This is the set of instants a
   range stands for, and the reference the operations below are proved against.
   */
  predicate Covers(s: Span, t: Instant) {
    s.begin <= t && (if s.excludeEnd then t < s.end else t <= s.end)
  }

  /** The span check of the constructor: an exclusive end must lie at least a second after begin. */
  predicate SpanIsValid(b: Instant, e: Instant, excludeEnd: bool) {
    if excludeEnd then e - 1 >= b else e >= b
  }

  /** The spans the constructor accepts; every TimeRange object is one of them. */
  type TimeRange = s: Span | SpanIsValid(s.begin, s.end, s.excludeEnd) witness Span(0, 0, false)

  /** The constructor's failure on an invalid span (Ruby's ArgumentError). */
  datatype Error = ArgumentError

  /** TimeRange.new(b, e, exclude_end): stores the fields verbatim, or fails when the span is empty. */
  function New(b: Instant, e: Instant, excludeEnd: bool := false): (r: Result<TimeRange, Error>)
    ensures r.Ok? <==> Covers(Span(b, e, excludeEnd), b)
    ensures r.Ok? ==> r.value == Span(b, e, excludeEnd)
    ensures r.Err? ==> r.error == ArgumentError
  {
    if SpanIsValid(b, e, excludeEnd) then Ok(Span(b, e, excludeEnd)) else Err(ArgumentError)
  }

  /** Construction succeeds exactly when the requested range would include some instant. */
  lemma NewSucceedsIffNonEmpty(b: Instant, e: Instant, excludeEnd: bool)
    ensures New(b, e, excludeEnd).Ok? <==> exists t :: Covers(Span(b, e, excludeEnd), t)
  {
  }

  /** The highest instant in the range: one second before an excluded end. */
  function Max(r: TimeRange): (m: Instant)
    ensures Covers(r, m)
    ensures forall t :: Covers(r, t) ==> t <= m
  {
    if r.excludeEnd then r.end - 1 else r.end
  }

  /** The seconds elapsed from the first to the last included instant. */
  function Duration(r: TimeRange): (d: nat)
    ensures r.begin + d == Max(r)
    ensures d == if r.excludeEnd then r.end - r.begin - 1 else r.end - r.begin
  {
    Max(r) - r.begin
  }

  /**
   `==` (and its alias `eql?`): begin and max when either end is excluded,
   otherwise the inherited field-by-field comparison of Range.
   */
  function Equal(a: TimeRange, b: TimeRange): (eq: bool)
    ensures eq <==> a.begin == b.begin && Max(a) == Max(b)
  {
    if a.excludeEnd || b.excludeEnd then
      a.begin == b.begin && Max(a) == Max(b)
    else
      a == b
  }

  /** Two ranges are equal exactly when they include the same instants. */
  lemma EqualIffSameInstants(a: TimeRange, b: TimeRange)
    ensures Equal(a, b) <==> forall t :: Covers(a, t) <==> Covers(b, t)
  {
    if forall t :: Covers(a, t) <==> Covers(b, t) {
      assert Covers(b, a.begin) && Covers(a, b.begin);
      assert Covers(b, Max(a)) && Covers(a, Max(b));
    }
  }

  /** Equality is an equivalence relation. */
  lemma EqualIsEquivalence(a: TimeRange, b: TimeRange, c: TimeRange)
    ensures Equal(a, a)
    ensures Equal(a, b) <==> Equal(b, a)
    ensures Equal(a, b) && Equal(b, c) ==> Equal(a, c)
  {
  }

  /** Whether `a` begins inside `b` (private begins_within?). */
  predicate BeginsWithin(a: TimeRange, b: TimeRange)
    ensures BeginsWithin(a, b) <==> Covers(b, a.begin)
  {
    a.begin >= b.begin && a.begin <= Max(b)
  }

  /** Whether the last instant of `a` lies inside `b` (private ends_within?). */
  predicate EndsWithin(a: TimeRange, b: TimeRange)
    ensures EndsWithin(a, b) <==> Covers(b, Max(a))
  {
    Max(a) <= Max(b) && Max(a) >= b.begin
  }

  /** Whether `a` contains `b`, including when they match exactly. */
  predicate Encapsulates(a: TimeRange, b: TimeRange)
    ensures Encapsulates(a, b) <==> BeginsWithin(b, a) && EndsWithin(b, a)
  {
    a.begin <= b.begin && Max(a) >= Max(b)
  }

  /** `a` contains `b` exactly when every instant of `b` is an instant of `a`. */
  lemma EncapsulatesIffSubset(a: TimeRange, b: TimeRange)
    ensures Encapsulates(a, b) <==> forall t :: Covers(b, t) ==> Covers(a, t)
  {
  }

  /** Whether `a` is contained in `b`: the converse of Encapsulates. */
  predicate EncapsulatedBy(a: TimeRange, b: TimeRange)
    ensures EncapsulatedBy(a, b) <==> b.begin <= a.begin && Max(a) <= Max(b)
    ensures EncapsulatedBy(a, b) <==> forall t :: Covers(a, t) ==> Covers(b, t)
  {
    Encapsulates(b, a)
  }

  /** Containment is reflexive and transitive, and mutual containment is equality. */
  lemma EncapsulatesIsPartialOrder(a: TimeRange, b: TimeRange, c: TimeRange)
    ensures Encapsulates(a, a)
    ensures Encapsulates(a, b) && Encapsulates(b, c) ==> Encapsulates(a, c)
    ensures Encapsulates(a, b) && Encapsulates(b, a) <==> Equal(a, b)
  {
  }

  /** The later of two instants (Array#max of a pair). */
  function MaxOf(x: Instant, y: Instant): (m: Instant)
    ensures x <= m && y <= m && (m == x || m == y)
  {
    if x >= y then x else y
  }

  /** The earlier of two instants (Array#min of a pair). */
  function MinOf(x: Instant, y: Instant): (m: Instant)
    ensures m <= x && m <= y && (m == x || m == y)
  {
    if x <= y then x else y
  }

  /**
   Whether the ranges share any instant: `a` begins inside `b`, ends inside
   `b`, or contains `b`.
   */
  predicate Overlaps(a: TimeRange, b: TimeRange)
    ensures Overlaps(a, b) <==> MaxOf(a.begin, b.begin) <= MinOf(Max(a), Max(b))
  {
    BeginsWithin(a, b) || EndsWithin(a, b) || Encapsulates(a, b)
  }

  /** Two ranges overlap exactly when some instant lies in both. */
  lemma OverlapsIffCommonInstant(a: TimeRange, b: TimeRange)
    ensures Overlaps(a, b) <==> exists t :: Covers(a, t) && Covers(b, t)
  {
  }

  /** The three-way case split of Overlaps does not depend on the order of its arguments. */
  lemma OverlapsSymmetric(a: TimeRange, b: TimeRange)
    ensures Overlaps(a, b) <==> Overlaps(b, a)
  {
  }

  /** A range that contains another overlaps it, in either order. */
  lemma EncapsulatesImpliesOverlaps(a: TimeRange, b: TimeRange)
    requires Encapsulates(a, b)
    ensures Overlaps(a, b) && Overlaps(b, a)
  {
  }

  /**
   overlap_with: nothing when the ranges do not overlap, otherwise the
   inclusive range from the later begin to the earlier max.
   */
  function OverlapWith(a: TimeRange, b: TimeRange): (r: Option<TimeRange>)
    ensures r.Some? <==> Overlaps(a, b)
    ensures r.Some? ==> && !r.value.excludeEnd
                        && r.value.begin == MaxOf(a.begin, b.begin)
                        && Max(r.value) == MinOf(Max(a), Max(b))
    ensures r.Some? ==> EncapsulatedBy(r.value, a) && EncapsulatedBy(r.value, b)
  {
    if Overlaps(a, b) then
      match New(MaxOf(a.begin, b.begin), MinOf(Max(a), Max(b)))
      case Ok(r) => Some(r)
      case Err(_) => assert false; None
    else
      None
  }

  /** The result of overlap_with includes exactly the instants both ranges include. */
  lemma OverlapWithIsIntersection(a: TimeRange, b: TimeRange, t: Instant)
    ensures OverlapWith(a, b).Some? ==> (Covers(OverlapWith(a, b).value, t) <==> Covers(a, t) && Covers(b, t))
    ensures OverlapWith(a, b).None? ==> !(Covers(a, t) && Covers(b, t))
  {
  }

  /** Every range contained in both `a` and `b` is contained in their overlap. */
  lemma OverlapWithIsGreatest(a: TimeRange, b: TimeRange, c: TimeRange)
    requires EncapsulatedBy(c, a) && EncapsulatedBy(c, b)
    ensures OverlapWith(a, b).Some? && EncapsulatedBy(c, OverlapWith(a, b).value)
  {
  }

  /** overlap_with gives the very same range whichever range it is called on. */
  lemma OverlapWithCommutative(a: TimeRange, b: TimeRange)
    ensures OverlapWith(a, b) == OverlapWith(b, a)
  {
  }

  /** The span of calendar days a range touches, as day numbers, both ends included. */
  datatype DateSpan = DateSpan(first: int, last: int)

  /** A day-numbering of instants that never goes back in time. */
  ghost predicate Monotone(dayOf: Instant -> int) {
    forall x, y :: x <= y ==> dayOf(x) <= dayOf(y)
  }

  /**
   dates: the day of begin to the day of max (not of the raw end), both read
   with the same day numbering `dayOf`.
   */
  function Dates(r: TimeRange, dayOf: Instant -> int): (d: DateSpan)
    ensures d.first == dayOf(r.begin)
    ensures r.excludeEnd ==> d.last == dayOf(r.end - 1)
    ensures !r.excludeEnd ==> d.last == dayOf(r.end)
  {
    DateSpan(dayOf(r.begin), dayOf(Max(r)))
  }

  /** For a monotone day-numbering, the day of every included instant lies within `dates`. */
  lemma DatesCoverEveryInstant(r: TimeRange, dayOf: Instant -> int, t: Instant)
    requires Monotone(dayOf)
    requires Covers(r, t)
    ensures Dates(r, dayOf).first <= dayOf(t) <= Dates(r, dayOf).last
  {
  }

  /** The number of seconds in a day. */
  const SecondsPerDay := 86400

  /** The UTC day number of an instant counted from the Unix epoch (flooring division). */
  function UtcDay(t: Instant): (d: int)
    ensures d * SecondsPerDay <= t < (d + 1) * SecondsPerDay
  {
    t / SecondsPerDay
  }

  /** UTC day numbers never go back in time. */
  lemma UtcDayMonotone()
    ensures Monotone(UtcDay)
  {
  }
}
