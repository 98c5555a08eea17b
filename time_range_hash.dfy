/**
 Hashing of TimeRange values. `eql?` is made an alias of `==`, but `hash` is
 left as the one inherited from Range, which digests all three raw fields.
 */
module TimeRangeHash {
  import opened TimeRanges

  /** What the inherited Range#hash is computed from: begin, end and the exclude-end flag. */
  function InheritedHashInput(r: TimeRange): (Instant, Instant, bool) {
    (r.begin, r.end, r.excludeEnd)
  }

  /**
   The inherited hash input separates every pair of equal ranges that are
   written differently, and never merges ranges that are not equal.
   */
  lemma InheritedHashSplitsEqualRanges(a: TimeRange, b: TimeRange)
    ensures Equal(a, b) && a != b ==> InheritedHashInput(a) != InheritedHashInput(b)
    ensures InheritedHashInput(a) == InheritedHashInput(b) ==> Equal(a, b)
  {
  }

  /** `[t, t+60]` and `[t, t+61)` are such a pair: `eql?`, yet written differently. */
  lemma InheritedHashSplitExample(t: Instant)
    ensures Equal(Span(t, t + 60, false), Span(t, t + 61, true))
    ensures InheritedHashInput(Span(t, t + 60, false)) != InheritedHashInput(Span(t, t + 61, true))
  {
  }

  /** Ruby's contract that `eql?` implies equal hashes fails for the inherited hash input. */
  lemma InheritedHashBreaksEql()
    ensures exists a: TimeRange, b: TimeRange :: Equal(a, b) && InheritedHashInput(a) != InheritedHashInput(b)
  {
    InheritedHashSplitExample(0);
    var a: TimeRange, b: TimeRange := Span(0, 60, false), Span(0, 61, true);
    assert Equal(a, b) && InheritedHashInput(a) != InheritedHashInput(b);
  }

  /** A hash input that depends only on what `==` compares: begin and max. */
  function HashInput(r: TimeRange): (k: (Instant, Instant))
    ensures k.0 == r.begin && Covers(r, k.1) && !Covers(r, k.1 + 1)
  {
    (r.begin, Max(r))
  }

  /** Ranges are equal exactly when their hash inputs agree, so equal ranges hash alike. */
  lemma EqualIffSameHashInput(a: TimeRange, b: TimeRange)
    ensures Equal(a, b) <==> HashInput(a) == HashInput(b)
  {
  }
}
