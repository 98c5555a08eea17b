/**
 The fixtures of the test suite's range factory and the concrete cases the
 test suite checks, stated as lemmas about the model.
 */
module TimeRangeExamples {
  import opened Wrappers
  import opened TimeRanges

  /** Where a test range lies relative to the base range [b, e]. */
  datatype Position =
    | Contained | Containing | Before | After
    | OverlappingStart | OverlappingEnd | BorderingStart | BorderingEnd

  /** The factory's base range. */
  function Base(b: Instant, e: Instant, x: bool): (r: TimeRange)
    requires e - b >= 21
  {
    Span(b, e, x)
  }

  /** The factory's test range at position `p`, with the same end kind as the base. */
  function Fixture(p: Position, b: Instant, e: Instant, x: bool): (r: TimeRange)
    requires e - b >= 21
  {
    match p
    case Contained => Span(b + 10, e - 10, x)
    case Containing => Span(b - 10, e + 10, x)
    case Before => Span(b - 60, b - 1, x)
    case After => Span(e + 1, e + 60, x)
    case OverlappingStart => Span(b - 20, e - 20, x)
    case OverlappingEnd => Span(b + 20, e + 20, x)
    case BorderingStart => Span(b - 60, b, x)
    case BorderingEnd => Span(e, e + 60, x)
  }

  /** With inclusive ends, only the ranges strictly before and strictly after miss the base. */
  lemma OverlapsFixtures(p: Position, b: Instant, e: Instant)
    requires e - b >= 21
    ensures Overlaps(Base(b, e, false), Fixture(p, b, e, false)) <==> !(p.Before? || p.After?)
  {
  }

  /**
   With exclusive ends the bordering ranges share no instant with the base
   either: [b - 60, b) stops a second before b, and [b, e) a second before e.
   */
  lemma OverlapsFixturesExclusive(p: Position, b: Instant, e: Instant)
    requires e - b >= 21
    ensures Overlaps(Base(b, e, true), Fixture(p, b, e, true))
        <==> !(p.Before? || p.After? || p.BorderingStart? || p.BorderingEnd?)
  {
  }

  /** The base contains only the contained range, and is contained only by the containing one. */
  lemma EncapsulatesFixtures(p: Position, b: Instant, e: Instant, x: bool)
    requires e - b >= 21
    ensures Encapsulates(Base(b, e, x), Fixture(p, b, e, x)) <==> p.Contained?
    ensures EncapsulatedBy(Base(b, e, x), Fixture(p, b, e, x)) <==> p.Containing?
  {
  }

  /** The bounds of overlap_with for each position the test suite tries. */
  lemma OverlapWithFixtures(p: Position, b: Instant, e: Instant)
    requires e - b >= 21
    ensures var base, test := Base(b, e, false), Fixture(p, b, e, false);
      var r := OverlapWith(base, test);
      && (p.Before? || p.After? ==> r.None?)
      && (p.OverlappingStart? || p.BorderingStart? ==>
            r.Some? && r.value.begin == base.begin && Max(r.value) == Max(test))
      && (p.OverlappingEnd? || p.BorderingEnd? ==>
            r.Some? && r.value.begin == test.begin && Max(r.value) == Max(base))
      && (p.Contained? ==> r.Some? && r.value.begin == test.begin && Max(r.value) == Max(test))
      && (p.Containing? ==> r.Some? && r.value.begin == base.begin && Max(r.value) == Max(base))
  {
  }

  /** Construction keeps its arguments, refuses a negative span, and needs a second more when exclusive. */
  lemma NewExamples(t: Instant)
    ensures New(t, t + 60) == Ok(Span(t, t + 60, false))
    ensures New(t, t - 10) == Err(ArgumentError)
    ensures New(t, t).Ok? && New(t, t, true).Err? && New(t, t + 1, true).Ok?
  {
  }

  /** `[t, t+60]` equals `[t, t+61)` but neither `[t, t+61]` nor `[t, t+60)`. */
  lemma EqualExamples(t: Instant)
    ensures Equal(Span(t, t + 60, false), Span(t, t + 60, false))
    ensures Equal(Span(t, t + 60, false), Span(t, t + 61, true))
    ensures !Equal(Span(t, t + 60, false), Span(t, t + 61, false))
    ensures !Equal(Span(t, t + 60, false), Span(t, t + 60, true))
  {
  }

  /** max and duration of a one-minute range with an included and an excluded end. */
  lemma MaxDurationExamples(t: Instant)
    ensures Max(Span(t, t + 60, false)) == t + 60 && Duration(Span(t, t + 60, false)) == 60
    ensures Max(Span(t, t + 60, true)) == t + 59 && Duration(Span(t, t + 60, true)) == 59
  {
  }

  /** 2002-10-31T00:00:00Z, in seconds since the Unix epoch. */
  const Oct31of2002 := 1036022400

  /**
   The test starts at local midnight of 2002-10-31 converted to UTC, which is
   `Oct31of2002 - 3600 * offsetHours` in a zone `offsetHours` ahead of UTC.
   From there a one-minute range stays on one day and a million-second range
   ends eleven or twelve days later; with the zone set to UTC the days are
   11991 and 12002, and every instant of the long range falls between them.
   */
  lemma DatesExamples(offsetHours: int)
    requires -12 <= offsetHours <= 14
    ensures var start := Oct31of2002 - 3600 * offsetHours;
      var d := Dates(Span(start, start + 60, false), UtcDay);
      d == DateSpan(UtcDay(start), UtcDay(start + 60)) && d.first == d.last
    ensures var start := Oct31of2002 - 3600 * offsetHours;
      var d := Dates(Span(start, start + 1000000, false), UtcDay);
      d == DateSpan(UtcDay(start), UtcDay(start + 1000000)) && 11 <= d.last - d.first <= 12
    ensures offsetHours == 0 ==>
      && Dates(Span(Oct31of2002, Oct31of2002 + 60, false), UtcDay) == DateSpan(11991, 11991)
      && Dates(Span(Oct31of2002, Oct31of2002 + 1000000, false), UtcDay) == DateSpan(11991, 12002)
    ensures forall t :: Covers(Span(Oct31of2002, Oct31of2002 + 1000000, false), t) ==> 11991 <= UtcDay(t) <= 12002
  {
    var r: TimeRange := Span(Oct31of2002, Oct31of2002 + 1000000, false);
    forall t | Covers(r, t) ensures 11991 <= UtcDay(t) <= 12002 {
      UtcDayMonotone();
      DatesCoverEveryInstant(r, UtcDay, t);
    }
  }
}
