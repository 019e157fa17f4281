/** The intervals stored in the interval tree of the 3-D viewer, and the result records its searches
    report. Coordinates are exact reals; the payload `data` an interval carries is not modelled. */
module Intervals {
  import opened Common

  /** The errors the tree throws. */
  datatype TreeError = InvalidRange | DuplicateId | InvalidCenter | NotImplemented

  /** An interval: the range it was created from, its bounds and its id. */
  datatype Interval = Interval(range: (real, real), start: real, end: real, id: int)
  {
    /** Closed containment, the test point search applies. */
    predicate Contains(x: real) {
      start <= x <= end
    }

    /** Closed overlap with the query range `[s, e]`. */
    predicate Meets(s: real, e: real) {
      start <= e && s <= end
    }
  }

  /** What a search reports about one interval: its id and range, and the two overlap rates. */
  datatype IntervalResult = IntervalResult(id: int, range: (real, real), rate1: real, rate2: real)

  /** The interval constructor as written: both bounds are read from `range.0`, so the
      `start >= end` check rejects every range. */
  function NewIntervalAsWritten(range: (real, real), id: int): (r: Result<Interval, TreeError>)
    ensures r.Ok? ==> r.value.start < r.value.end
  {
    var start := range.0;
    var end := range.0;
    if start >= end then Err(InvalidRange) else Ok(Interval(range, start, end, id))
  }

  /** No range at all yields an interval through the constructor as written. */
  lemma NewIntervalAsWrittenAlwaysFails(range: (real, real), id: int)
    ensures NewIntervalAsWritten(range, id) == Err(InvalidRange)
    ensures range.0 < range.1 ==> NewInterval(range, id).Ok?
  {
  }

  /** The constructor with the end read from `range.1`: it succeeds exactly on non-empty ranges,
      and the interval it builds carries the given range and id. */
  function NewInterval(range: (real, real), id: int): (r: Result<Interval, TreeError>)
    ensures r.Ok? <==> range.0 < range.1
    ensures r.Err? ==> r.error == InvalidRange
    ensures r.Ok? ==> r.value.start == range.0 && r.value.end == range.1
    ensures r.Ok? ==> r.value.range == range && r.value.id == id
  {
    var start := range.0;
    var end := range.1;
    if start >= end then Err(InvalidRange) else Ok(Interval(range, start, end, id))
  }

  /** The record `result` builds: both rates are 0 without a query range; with one, `rate1` is the
      overlap's share of the query and `rate2` its share of the interval. */
  function ResultOf(itv: Interval, query: Option<(real, real)>): (r: IntervalResult)
    requires itv.start < itv.end
    requires query.Some? ==> query.value.0 < query.value.1
    ensures r.id == itv.id && r.range == itv.range
    ensures query.None? ==> r.rate1 == 0.0 && r.rate2 == 0.0
  {
    match query
    case None => IntervalResult(itv.id, itv.range, 0.0, 0.0)
    case Some((s, e)) =>
      var left := Max(itv.start, s);
      var right := Min(itv.end, e);
      var lap := right - left;
      IntervalResult(itv.id, itv.range, lap / (e - s), lap / (itv.end - itv.start))
  }

  /** For an interval that meets the query, both rates lie in [0, 1]; `rate1` is 1 exactly when the
      interval covers the query, and `rate2` is 1 exactly when the query covers the interval. */
  lemma RatesWithinUnit(itv: Interval, s: real, e: real)
    requires itv.start < itv.end && s < e
    requires itv.Meets(s, e)
    ensures var r := ResultOf(itv, Some((s, e)));
      0.0 <= r.rate1 <= 1.0 && 0.0 <= r.rate2 <= 1.0
      && (r.rate1 == 1.0 <==> itv.start <= s && e <= itv.end)
      && (r.rate2 == 1.0 <==> s <= itv.start && itv.end <= e)
  {
    var r := ResultOf(itv, Some((s, e)));
    var lap := Min(itv.end, e) - Max(itv.start, s);
    assert 0.0 <= lap <= e - s && lap <= itv.end - itv.start;
    RatioWithinUnit(lap, e - s);
    RatioWithinUnit(lap, itv.end - itv.start);
  }

  lemma RatioWithinUnit(a: real, b: real)
    requires 0.0 <= a <= b && 0.0 < b
    ensures 0.0 <= a / b <= 1.0
    ensures a / b == 1.0 <==> a == b
  {
    assert (a / b) * b == a;
  }
}
