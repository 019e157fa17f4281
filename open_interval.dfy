/** The half-open interval `[start, end)` both placers use. OpenInterval.ts is not part of this
    model; `GetOverlap` is given the contract the placers rely on: the half-open intersection,
    and `None` (the source's `null`) when it is empty. */
module OpenIntervals {
  import opened Common

  datatype OpenInterval = OpenInterval(start: real, end: real) {

    function Length(): real {
      end - start
    }

    predicate Contains(x: real) {
      start <= x < end
    }
  }

  function GetOverlap(a: OpenInterval, b: OpenInterval): (r: Option<OpenInterval>)
    ensures r.Some? ==> r.value.start < r.value.end
    ensures r.Some? ==> forall x :: r.value.Contains(x) <==> a.Contains(x) && b.Contains(x)
    ensures r.None? ==> forall x :: a.Contains(x) ==> !b.Contains(x)
  {
    var lo := Max(a.start, b.start);
    var hi := Min(a.end, b.end);
    if lo < hi then Some(OpenInterval(lo, hi)) else None
  }

  /** Two intervals share a point. */
  predicate Overlaps(a: OpenInterval, b: OpenInterval) {
    GetOverlap(a, b).Some?
  }

  /** An interval that ends where another starts does not overlap it. */
  lemma AbuttingDoesNotOverlap(a: OpenInterval, b: OpenInterval)
    requires a.end <= b.start
    ensures !Overlaps(a, b) && !Overlaps(b, a)
  {
  }
}
