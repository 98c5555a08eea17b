/** Range#to_time_range: the conversion of a plain Range of instants into a TimeRange. */
module RangeExt {
  import opened Wrappers
  import opened TimeRanges

  /** Passes the begin, end and exclude-end flag of `s` to the TimeRange constructor. */
  function ToTimeRange(s: Span): (r: Result<TimeRange, Error>)
    ensures r.Ok? <==> Covers(s, s.begin)
    ensures r.Ok? ==> r.value == s
  {
    New(s.begin, s.end, s.excludeEnd)
  }
}
