/** AlignmentPlacer.ts: placing the loci of a secondary (query) genome above the primary (target)
    genome view for genome-alignment tracks. Records are merged by proximity in the query genome,
    merged loci are placed widest first on a one-dimensional canvas by an `IntervalPlacer` so that
    no two overlap, and a navigation context for the query genome is read off the placements.

    `ChromosomeInterval.mergeAdvanced` and `AlignmentRecord.computeNavContextCoordinates` are not
    part of this model: they are passed in as the functions `mergeAdvanced` and `contextSpans`. */
module AlignmentPlacer {
  import opened Common
  import opened OpenIntervals
  import opened Drawing
  import opened Sorting

  const MIN_DRAW_WIDTH: real := 5.0
  const MARGIN: real := 5.0
  const MERGE_PIXEL_DISTANCE: real := 200.0

  /** The extent of an `IntervalPlacer`: a pixel coordinate or one of JavaScript's infinities. */
  datatype Extent = NegInfinity | Finite(value: real) | PosInfinity

  /** `x < e` for an extent `e`. */
  predicate Below(x: real, e: Extent) {
    e.PosInfinity? || (e.Finite? && x < e.value)
  }

  /** `x > e` for an extent `e`. */
  predicate Above(x: real, e: Extent) {
    e.NegInfinity? || (e.Finite? && x > e.value)
  }

  /** Some interval of `placements` overlaps `x`. */
  predicate OverlapsAny(placements: seq<OpenInterval>, x: OpenInterval) {
    exists p | p in placements :: Overlaps(p, x)
  }

  lemma OverlapsAnyAppend(placements: seq<OpenInterval>, p: OpenInterval, x: OpenInterval)
    ensures OverlapsAny(placements + [p], x) <==> OverlapsAny(placements, x) || Overlaps(p, x)
  {
    if OverlapsAny(placements + [p], x) && !Overlaps(p, x) {
      var q :| q in placements + [p] && Overlaps(q, x);
      assert q in placements;
    }
    if OverlapsAny(placements, x) {
      var q :| q in placements && Overlaps(q, x);
      assert q in placements + [p];
    }
  }

  lemma OverlapsAnyPrefix(placements: seq<OpenInterval>, i: nat, x: OpenInterval)
    requires i <= |placements|
    ensures OverlapsAny(placements[..i], x) ==> OverlapsAny(placements, x)
    ensures i == |placements| ==> placements[..i] == placements
  {
    if OverlapsAny(placements[..i], x) {
      var p :| p in placements[..i] && Overlaps(p, x);
      assert p in placements;
    }
  }

  /** No two placements overlap. */
  ghost predicate PairwiseDisjoint(placements: seq<OpenInterval>) {
    forall i, j | 0 <= i < j < |placements| :: !Overlaps(placements[i], placements[j])
  }

  /** Every placement starts at or right of the left extent and ends at or left of the right one. */
  ghost predicate Covers(placements: seq<OpenInterval>, left: Extent, right: Extent) {
    && (placements != [] ==> left.Finite? && right.Finite?)
    && (forall p | p in placements :: left.Finite? && left.value <= p.start && right.Finite? && p.end <= right.value)
  }

  /** The state an `IntervalPlacer` keeps between calls. */
  ghost predicate PlacerInv(placements: seq<OpenInterval>, left: Extent, right: Extent, margin: real) {
    && margin >= 0.0
    && (placements == [] <==> left == PosInfinity && right == NegInfinity)
    && Covers(placements, left, right)
    && PairwiseDisjoint(placements)
  }

  /** Where `place` puts `preferred`: unchanged when it overlaps no earlier placement, otherwise
      moved, with its length, flush against the nearer extent (the right one on a tie). */
  function Resolve(placements: seq<OpenInterval>, left: Extent, right: Extent, preferred: OpenInterval)
    : (r: OpenInterval)
    requires Covers(placements, left, right)
    ensures r.Length() == preferred.Length()
    ensures r == preferred <==> !OverlapsAny(placements, preferred)
    ensures forall p | p in placements :: !Overlaps(p, r)
  {
    if OverlapsAny(placements, preferred) then
      var p :| p in placements && Overlaps(p, preferred);
      assert preferred.start < p.end && p.start < preferred.end;
      var center := 0.5 * (preferred.start + preferred.end);
      if Abs(center - left.value) < Abs(center - right.value) then
        OpenInterval(left.value - preferred.Length(), left.value)
      else
        OpenInterval(right.value, right.value + preferred.Length())
    else
      preferred
  }

  /** The left extent after placing `final`. */
  function ExtendLeft(left: Extent, margin: real, final: OpenInterval): (r: Extent)
    requires margin >= 0.0
    ensures !left.NegInfinity? ==> r.Finite? && r.value <= final.start
    ensures left.Finite? ==> r.value <= left.value
  {
    if Below(final.start, left) then Finite(final.start - margin) else left
  }

  /** The right extent after placing `final`. */
  function ExtendRight(right: Extent, margin: real, final: OpenInterval): (r: Extent)
    requires margin >= 0.0
    ensures !right.PosInfinity? ==> r.Finite? && r.value >= final.end
    ensures right.Finite? ==> r.value >= right.value
  {
    if Above(final.end, right) then Finite(final.end + margin) else right
  }

  /** One call of `place` keeps the placer's invariant: in particular, no two placements overlap. */
  lemma PlaceKeepsInvariant(placements: seq<OpenInterval>, left: Extent, right: Extent, margin: real,
                            preferred: OpenInterval)
    requires PlacerInv(placements, left, right, margin)
    ensures var final := Resolve(placements, left, right, preferred);
      PlacerInv(placements + [final], ExtendLeft(left, margin, final), ExtendRight(right, margin, final), margin)
  {
    var final := Resolve(placements, left, right, preferred);
    var ps := placements + [final];
    var l := ExtendLeft(left, margin, final);
    var r := ExtendRight(right, margin, final);
    forall p | p in ps
      ensures l.value <= p.start && p.end <= r.value
    {
      if p != final {
        assert p in placements;
      }
    }
    forall i, j | 0 <= i < j < |ps|
      ensures !Overlaps(ps[i], ps[j])
    {
      if j == |placements| {
        assert ps[i] in placements;
      } else {
        assert ps[i] == placements[i] && ps[j] == placements[j];
      }
    }
  }

  /** `placements.some(placement => placement.getOverlap(preferred) != null)`. */
  method SomeOverlaps(placements: seq<OpenInterval>, preferred: OpenInterval) returns (overlapping: bool)
    ensures overlapping <==> OverlapsAny(placements, preferred)
  {
    overlapping := false;
    var i := 0;
    while i < |placements| && !overlapping
      invariant 0 <= i <= |placements|
      invariant overlapping <==> OverlapsAny(placements[..i], preferred)
    {
      assert placements[..i + 1] == placements[..i] + [placements[i]];
      OverlapsAnyAppend(placements[..i], placements[i], preferred);
      overlapping := GetOverlap(placements[i], preferred) != None;
      i := i + 1;
    }
    OverlapsAnyPrefix(placements, i, preferred);
  }

  /** With margin 0, a proposal equally far from both extents of an earlier placement it collides
      with goes right, flush against that placement's end, and abuts it without overlapping. */
  lemma TieGoesRight()
    ensures var first := OpenInterval(0.0, 10.0);
      var left, right := ExtendLeft(PosInfinity, 0.0, first), ExtendRight(NegInfinity, 0.0, first);
      && Covers([first], left, right)
      && Resolve([first], left, right, first) == OpenInterval(10.0, 20.0)
      && !Overlaps(first, Resolve([first], left, right, first))
  {
    var first := OpenInterval(0.0, 10.0);
    var left, right := ExtendLeft(PosInfinity, 0.0, first), ExtendRight(NegInfinity, 0.0, first);
    assert Overlaps(first, first) by {
      assert GetOverlap(first, first) == Some(first);
    }
    assert OverlapsAny([first], first) by {
      assert first in [first];
    }
    AbuttingDoesNotOverlap(first, OpenInterval(10.0, 20.0));
  }

  /** `IntervalPlacer`: places intervals one by one so that none overlaps an earlier one. */
  class IntervalPlacer {
    var leftExtent: Extent
    var rightExtent: Extent
    const margin: real
    var placements: seq<OpenInterval>

    ghost predicate Valid()
      reads this
    {
      PlacerInv(placements, leftExtent, rightExtent, margin)
    }

    constructor (margin: real)
      requires margin >= 0.0
      ensures Valid()
      ensures leftExtent == PosInfinity && rightExtent == NegInfinity
      ensures this.margin == margin && placements == []
    {
      leftExtent := PosInfinity;
      rightExtent := NegInfinity;
      this.margin := margin;
      placements := [];
    }

    /** `place`: returns where `preferred` went and records it. */
    method Place(preferred: OpenInterval) returns (final: OpenInterval)
      requires Valid()
      modifies this
      ensures Valid()
      ensures final == Resolve(old(placements), old(leftExtent), old(rightExtent), preferred)
      ensures placements == old(placements) + [final]
      ensures leftExtent == ExtendLeft(old(leftExtent), margin, final)
      ensures rightExtent == ExtendRight(old(rightExtent), margin, final)
    {
      var overlapping := SomeOverlaps(placements, preferred);
      final := preferred;
      if overlapping {
        var center := 0.5 * (preferred.start + preferred.end);
        var isInsertLeft := Abs(center - leftExtent.value) < Abs(center - rightExtent.value);
        final := if isInsertLeft then
                   OpenInterval(leftExtent.value - preferred.Length(), leftExtent.value)
                 else
                   OpenInterval(rightExtent.value, rightExtent.value + preferred.Length());
      }
      PlaceKeepsInvariant(placements, leftExtent, rightExtent, margin, preferred);
      placements := placements + [final];
      if Below(final.start, leftExtent) {
        leftExtent := Finite(final.start - margin);
      }
      if Above(final.end, rightExtent) {
        rightExtent := Finite(final.end + margin);
      }
    }

    /** `retrievePlacements`: everything placed so far, in placing order, no two overlapping. */
    method RetrievePlacements() returns (r: seq<OpenInterval>)
      requires Valid()
      ensures r == placements
      ensures forall i, j | 0 <= i < j < |r| :: !Overlaps(r[i], r[j])
    {
      r := placements;
    }
  }

  /** A `ChromosomeInterval`: a chromosome name and a base range on it. */
  datatype Locus = Locus(chr: string, start: real, end: real) {
    function Length(): real {
      end - start
    }
  }

  /** The two loci of an `AlignmentRecord` the placer reads. */
  datatype AlignmentRecord = AlignmentRecord(targetLocus: Locus, queryLocus: Locus)

  /** A merged query locus and the records that make it up. */
  datatype Merge = Merge(locus: Locus, sources: seq<AlignmentRecord>)

  /** A `PlacedAlignment` after step 1, before its query span is set. */
  datatype TargetSegment = TargetSegment(record: AlignmentRecord, targetXSpan: OpenInterval)

  datatype PlacedAlignment = PlacedAlignment(record: AlignmentRecord, targetXSpan: OpenInterval, queryXSpan: OpenInterval)

  datatype PlacedMergedAlignment = PlacedMergedAlignment(queryLocus: Locus, queryXSpan: OpenInterval, segments: seq<PlacedAlignment>)

  /** Step 1 for one record: one target segment per context span of its target locus, in span order. */
  function SpanSegments(record: AlignmentRecord, spans: seq<OpenInterval>, draw: DrawModel): (r: seq<TargetSegment>)
    ensures |r| == |spans|
    ensures forall j | 0 <= j < |r| :: r[j].record == record && r[j].targetXSpan == draw.BaseSpanToXSpan(spans[j])
  {
    seq(|spans|, j requires 0 <= j < |spans| => TargetSegment(record, draw.BaseSpanToXSpan(spans[j])))
  }

  /** Step 1: the target segments of all records, record by record. */
  function TargetSegments(records: seq<AlignmentRecord>, contextSpans: AlignmentRecord -> seq<OpenInterval>,
                          draw: DrawModel): seq<TargetSegment>
  {
    if records == [] then []
    else
      var last := records[|records| - 1];
      TargetSegments(records[..|records| - 1], contextSpans, draw) + SpanSegments(last, contextSpans(last), draw)
  }

  /** Every target segment comes from one of the records and is the pixel span of one of its
      context spans. */
  lemma {:induction false} TargetSegmentsSound(records: seq<AlignmentRecord>,
                                               contextSpans: AlignmentRecord -> seq<OpenInterval>, draw: DrawModel)
    ensures forall t | t in TargetSegments(records, contextSpans, draw) ::
      t.record in records && exists span | span in contextSpans(t.record) :: t.targetXSpan == draw.BaseSpanToXSpan(span)
  {
    if records != [] {
      var init := records[..|records| - 1];
      var last := records[|records| - 1];
      TargetSegmentsSound(init, contextSpans, draw);
      forall t | t in TargetSegments(records, contextSpans, draw)
        ensures t.record in records
        ensures exists span | span in contextSpans(t.record) :: t.targetXSpan == draw.BaseSpanToXSpan(span)
      {
        if t in TargetSegments(init, contextSpans, draw) {
          assert t.record in init;
        } else {
          var segs := SpanSegments(last, contextSpans(last), draw);
          assert t in segs;
          var j :| 0 <= j < |segs| && segs[j] == t;
          assert contextSpans(last)[j] in contextSpans(last);
        }
      }
    }
  }

  /** The loop of step 1. */
  method PlaceTargetSegments(records: seq<AlignmentRecord>, contextSpans: AlignmentRecord -> seq<OpenInterval>,
                             draw: DrawModel) returns (segments: seq<TargetSegment>)
    ensures segments == TargetSegments(records, contextSpans, draw)
  {
    segments := [];
    var i := 0;
    while i < |records|
      invariant 0 <= i <= |records|
      invariant segments == TargetSegments(records[..i], contextSpans, draw)
    {
      var record := records[i];
      var spans := contextSpans(record);
      var j := 0;
      while j < |spans|
        invariant 0 <= j <= |spans|
        invariant segments == TargetSegments(records[..i], contextSpans, draw) + SpanSegments(record, spans[..j], draw)
      {
        assert SpanSegments(record, spans[..j + 1], draw)
            == SpanSegments(record, spans[..j], draw) + [TargetSegment(record, draw.BaseSpanToXSpan(spans[j]))];
        segments := segments + [TargetSegment(record, draw.BaseSpanToXSpan(spans[j]))];
        j := j + 1;
      }
      assert spans[..j] == spans;
      assert records[..i + 1][..i] == records[..i];
      i := i + 1;
    }
    assert records[..i] == records;
  }

  function TargetXSpans(segments: seq<TargetSegment>): (r: seq<OpenInterval>)
    ensures |r| == |segments| && forall i | 0 <= i < |r| :: r[i] == segments[i].targetXSpan
  {
    seq(|segments|, i requires 0 <= i < |segments| => segments[i].targetXSpan)
  }

  /** A span's length times its midpoint. */
  function Moment(s: OpenInterval): real {
    0.5 * s.Length() * (s.start + s.end)
  }

  /** `_.sumBy(intervals, i => 0.5 * i.getLength() * (i.start + i.end))`. */
  function WeightedSum(spans: seq<OpenInterval>): real {
    if spans == [] then 0.0 else Moment(spans[0]) + WeightedSum(spans[1..])
  }

  /** `_.sumBy(intervals, i => i.getLength())`. */
  function TotalLength(spans: seq<OpenInterval>): real {
    if spans == [] then 0.0 else spans[0].Length() + TotalLength(spans[1..])
  }

  /** `computeCentroid`: the length-weighted mean of the midpoints. */
  function ComputeCentroid(spans: seq<OpenInterval>): real
    requires TotalLength(spans) != 0.0
  {
    WeightedSum(spans) / TotalLength(spans)
  }

  /** Every span is non-empty and lies in `[lo, hi]`. */
  predicate Within(spans: seq<OpenInterval>, lo: real, hi: real) {
    forall i | 0 <= i < |spans| :: lo <= spans[i].start < spans[i].end <= hi
  }

  /** `m` lies between `lo * l` and `hi * l`. */
  ghost predicate Bounded(lo: real, hi: real, l: real, m: real) {
    lo * l <= m <= hi * l
  }

  lemma ScaleMonotone(a: real, x: real, y: real)
    requires a >= 0.0 && x <= y
    ensures a * x <= a * y
  {
    assert a * y - a * x == a * (y - x);
  }

  lemma MomentBounds(s: OpenInterval, lo: real, hi: real)
    requires lo <= s.start < s.end <= hi
    ensures Bounded(lo, hi, s.Length(), Moment(s))
  {
    var mid := 0.5 * (s.start + s.end);
    assert Moment(s) == s.Length() * mid;
    ScaleMonotone(s.Length(), lo, mid);
    ScaleMonotone(s.Length(), mid, hi);
  }

  lemma SumBounds(lo: real, hi: real, l: real, m: real, t: real, w: real)
    requires Bounded(lo, hi, l, m) && Bounded(lo, hi, t, w)
    ensures Bounded(lo, hi, l + t, m + w)
  {
    assert lo * (l + t) == lo * l + lo * t;
    assert hi * (l + t) == hi * l + hi * t;
  }

  lemma {:induction false} WeightedSumBounds(spans: seq<OpenInterval>, lo: real, hi: real)
    requires Within(spans, lo, hi)
    ensures TotalLength(spans) >= 0.0
    ensures Bounded(lo, hi, TotalLength(spans), WeightedSum(spans))
  {
    if spans != [] {
      WeightedSumBounds(spans[1..], lo, hi);
      MomentBounds(spans[0], lo, hi);
      SumBounds(lo, hi, spans[0].Length(), Moment(spans[0]), TotalLength(spans[1..]), WeightedSum(spans[1..]));
    }
  }

  lemma DivideBounds(lo: real, hi: real, t: real, w: real)
    requires t > 0.0 && Bounded(lo, hi, t, w)
    ensures lo <= w / t <= hi
  {
    var c := w / t;
    assert c * t == w;
    if c < lo {
      ScaleMonotone(t, c, lo);
    }
    if c > hi {
      ScaleMonotone(t, hi, c);
    }
  }

  /** The centroid of non-empty spans lies within their hull. */
  lemma CentroidWithinHull(spans: seq<OpenInterval>, lo: real, hi: real)
    requires spans != [] && Within(spans, lo, hi)
    ensures TotalLength(spans) > 0.0
    ensures lo <= ComputeCentroid(spans) <= hi
  {
    WeightedSumBounds(spans[1..], lo, hi);
    WeightedSumBounds(spans, lo, hi);
    DivideBounds(lo, hi, TotalLength(spans), WeightedSum(spans));
  }

  /** Step 2: the preferred span of a merged query locus `drawWidth` pixels wide centred on
      `drawCenter`, pushed to `MARGIN` when it would start left of the view window, or to end
      `MARGIN` short of the window's end when it would end right of it. */
  function PreferredSpan(drawCenter: real, drawWidth: real, viewWindow: OpenInterval): (r: OpenInterval)
    ensures r.Length() == drawWidth
    ensures drawCenter - 0.5 * drawWidth < viewWindow.start ==> r.start == MARGIN
    ensures drawCenter - 0.5 * drawWidth >= viewWindow.start && drawCenter + 0.5 * drawWidth > viewWindow.end
            ==> r.end == viewWindow.end - MARGIN
    ensures drawCenter - 0.5 * drawWidth >= viewWindow.start && drawCenter + 0.5 * drawWidth <= viewWindow.end
            ==> r.start + r.end == 2.0 * drawCenter && viewWindow.start <= r.start && r.end <= viewWindow.end
  {
    var halfDrawWidth := 0.5 * drawWidth;
    var preferredStart := drawCenter - halfDrawWidth;
    var preferredEnd := drawCenter + halfDrawWidth;
    if preferredStart < viewWindow.start then
      OpenInterval(MARGIN, drawWidth + MARGIN)
    else if preferredEnd > viewWindow.end then
      OpenInterval(viewWindow.end - MARGIN - drawWidth, viewWindow.end - MARGIN)
    else
      OpenInterval(preferredStart, preferredEnd)
  }

  /** Step 3 for one record: its query locus drawn at its offset from the merged locus' start,
      measured from where the merged locus was placed. */
  function QuerySpan(locus: Locus, mergeLocus: Locus, queryStart: real, draw: DrawModel): OpenInterval {
    var segmentStart := queryStart + draw.BasesToXWidth(locus.start - mergeLocus.start);
    OpenInterval(segmentStart, segmentStart + draw.BasesToXWidth(locus.Length()))
  }

  /** A record whose query locus lies inside the merged locus is drawn inside the merged span,
      and records keep their query-genome order on screen. */
  lemma QuerySpanWithinMerged(a: Locus, b: Locus, mergeLocus: Locus, queryStart: real, draw: DrawModel)
    requires draw.Valid()
    requires mergeLocus.start <= a.start && a.end <= mergeLocus.end
    ensures queryStart <= QuerySpan(a, mergeLocus, queryStart, draw).start
    ensures QuerySpan(a, mergeLocus, queryStart, draw).end <= queryStart + draw.BasesToXWidth(mergeLocus.Length())
    ensures a.start <= b.start ==>
      QuerySpan(a, mergeLocus, queryStart, draw).start <= QuerySpan(b, mergeLocus, queryStart, draw).start
  {
    var offset := a.start - mergeLocus.start;
    WidthMonotone(draw, 0.0, offset);
    WidthAdditive(draw, offset, a.Length());
    WidthMonotone(draw, offset + a.Length(), mergeLocus.Length());
    if a.start <= b.start {
      WidthMonotone(draw, offset, b.start - mergeLocus.start);
    }
  }

  /** Step 3: the target segments with their query spans set. */
  function QuerySegments(segments: seq<TargetSegment>, mergeLocus: Locus, queryStart: real, draw: DrawModel)
    : (r: seq<PlacedAlignment>)
    ensures |r| == |segments|
  {
    seq(|segments|, i requires 0 <= i < |segments| =>
      PlacedAlignment(segments[i].record, segments[i].targetXSpan,
                      QuerySpan(segments[i].record.queryLocus, mergeLocus, queryStart, draw)))
  }

  /** The loop of step 3. */
  method PlaceQuerySegments(segments: seq<TargetSegment>, mergeLocus: Locus, queryStart: real, draw: DrawModel)
    returns (placed: seq<PlacedAlignment>)
    ensures placed == QuerySegments(segments, mergeLocus, queryStart, draw)
  {
    placed := [];
    for i := 0 to |segments|
      invariant placed == QuerySegments(segments[..i], mergeLocus, queryStart, draw)
    {
      var segment := segments[i];
      var segmentLocus := segment.record.queryLocus;
      var segmentWidth := draw.BasesToXWidth(segmentLocus.Length());
      var segmentOffset := draw.BasesToXWidth(segmentLocus.start - mergeLocus.start);
      var segmentStart := queryStart + segmentOffset;
      placed := placed + [PlacedAlignment(segment.record, segment.targetXSpan,
                                          OpenInterval(segmentStart, segmentStart + segmentWidth))];
    }
    assert segments[..|segments|] == segments;
  }

  /** A merge is drawn when its query locus is at least `MIN_DRAW_WIDTH` pixels wide. */
  predicate Wide(draw: DrawModel, m: Merge) {
    draw.BasesToXWidth(m.locus.Length()) >= MIN_DRAW_WIDTH
  }

  /** The merges that are drawn, in order. */
  function WideMerges(merges: seq<Merge>, draw: DrawModel): seq<Merge> {
    if merges == [] then []
    else
      var last := merges[|merges| - 1];
      WideMerges(merges[..|merges| - 1], draw) + (if Wide(draw, last) then [last] else [])
  }

  /** The merges drawn are exactly the wide ones. */
  lemma {:induction false} WideMergesMembers(merges: seq<Merge>, draw: DrawModel)
    ensures forall m | m in WideMerges(merges, draw) :: m in merges && Wide(draw, m)
    ensures forall m | m in merges && Wide(draw, m) :: m in WideMerges(merges, draw)
  {
    if merges != [] {
      var init := merges[..|merges| - 1];
      WideMergesMembers(init, draw);
      assert merges == init + [merges[|merges| - 1]];
    }
  }

  /** One more merge: it is drawn after the others when it is wide, or left out. */
  lemma WideMergesStep(merges: seq<Merge>, k: nat, draw: DrawModel)
    requires k < |merges|
    ensures WideMerges(merges[..k + 1], draw)
         == WideMerges(merges[..k], draw) + if Wide(draw, merges[k]) then [merges[k]] else []
  {
    assert merges[..k + 1][..k] == merges[..k];
  }

  /** The stable sort key that puts longer merged loci first. */
  function NegLength(m: Merge): real {
    -m.locus.Length()
  }

  lemma {:induction false} WideMergesKeepOrder(merges: seq<Merge>, draw: DrawModel)
    requires SortedBy(merges, NegLength)
    ensures SortedBy(WideMerges(merges, draw), NegLength)
  {
    if merges != [] {
      var init := merges[..|merges| - 1];
      var last := merges[|merges| - 1];
      assert SortedBy(init, NegLength) by {
        forall i, j | 0 <= i < j < |init| ensures NegLength(init[i]) <= NegLength(init[j]) {
          assert init[i] == merges[i] && init[j] == merges[j];
        }
      }
      WideMergesKeepOrder(init, draw);
      WideMergesMembers(init, draw);
      var w := WideMerges(init, draw);
      forall m | m in w ensures NegLength(m) <= NegLength(last) {
        var i :| 0 <= i < |init| && init[i] == m;
        assert merges[i] == m;
      }
    }
  }

  /** How far apart, in bases, records may lie in the query genome and still be merged:
      `MERGE_PIXEL_DISTANCE` pixels' worth. */
  function MergeDistance(draw: DrawModel): real
    requires draw.Valid()
  {
    MERGE_PIXEL_DISTANCE * draw.XWidthToBases(1.0)
  }

  /** The merges in placing order: longest query locus first, ties in merge order, narrow ones dropped. */
  function PlacingOrder(records: seq<AlignmentRecord>, draw: DrawModel,
                        mergeAdvanced: (seq<AlignmentRecord>, real) -> seq<Merge>): seq<Merge>
    requires draw.Valid()
  {
    WideMerges(SortBy(mergeAdvanced(records, MergeDistance(draw)), NegLength), draw)
  }

  /** The centroid of a merge's target segments is defined (its denominator is not zero). */
  predicate HasCentroid(m: Merge, contextSpans: AlignmentRecord -> seq<OpenInterval>, draw: DrawModel) {
    TotalLength(TargetXSpans(TargetSegments(m.sources, contextSpans, draw))) != 0.0
  }

  /** Where step 2 would like the merged query locus to go. */
  function Preferred(m: Merge, contextSpans: AlignmentRecord -> seq<OpenInterval>, draw: DrawModel,
                     viewWindow: OpenInterval): OpenInterval
    requires HasCentroid(m, contextSpans, draw)
  {
    PreferredSpan(ComputeCentroid(TargetXSpans(TargetSegments(m.sources, contextSpans, draw))),
                  draw.BasesToXWidth(m.locus.Length()), viewWindow)
  }

  function QueryXSpans(placements: seq<PlacedMergedAlignment>): (r: seq<OpenInterval>)
    ensures |r| == |placements| && forall i | 0 <= i < |r| :: r[i] == placements[i].queryXSpan
  {
    seq(|placements|, i requires 0 <= i < |placements| => placements[i].queryXSpan)
  }

  /** The left extent of an `IntervalPlacer` with margin `MARGIN` after it has placed `spans` in order. */
  function LeftOf(spans: seq<OpenInterval>): Extent {
    if spans == [] then PosInfinity
    else ExtendLeft(LeftOf(spans[..|spans| - 1]), MARGIN, spans[|spans| - 1])
  }

  /** The right extent of an `IntervalPlacer` with margin `MARGIN` after it has placed `spans` in order. */
  function RightOf(spans: seq<OpenInterval>): Extent {
    if spans == [] then NegInfinity
    else ExtendRight(RightOf(spans[..|spans| - 1]), MARGIN, spans[|spans| - 1])
  }

  /** The i-th placement is the i-th merge in placing order, placed as step 2 and step 3 say: at its
      preferred span when that is free, otherwise flush against the nearer extent of the earlier
      placements (the right one on a tie). */
  ghost predicate PlacedAsMerge(p: PlacedMergedAlignment, m: Merge, earlier: seq<PlacedMergedAlignment>,
                                contextSpans: AlignmentRecord -> seq<OpenInterval>, draw: DrawModel,
                                viewWindow: OpenInterval)
    requires HasCentroid(m, contextSpans, draw)
  {
    && p.queryLocus == m.locus
    && p.queryXSpan.Length() == draw.BasesToXWidth(m.locus.Length())
    && (p.queryXSpan == Preferred(m, contextSpans, draw, viewWindow)
        <==> !OverlapsAny(QueryXSpans(earlier), Preferred(m, contextSpans, draw, viewWindow)))
    && Covers(QueryXSpans(earlier), LeftOf(QueryXSpans(earlier)), RightOf(QueryXSpans(earlier)))
    && p.queryXSpan == Resolve(QueryXSpans(earlier), LeftOf(QueryXSpans(earlier)), RightOf(QueryXSpans(earlier)),
                               Preferred(m, contextSpans, draw, viewWindow))
    && p.segments == QuerySegments(TargetSegments(m.sources, contextSpans, draw), m.locus, p.queryXSpan.start, draw)
  }

  /** Steps 1 to 3 for one merge wide enough to draw. */
  method PlaceMerge(placer: IntervalPlacer, merge: Merge, draw: DrawModel, viewWindow: OpenInterval,
                    contextSpans: AlignmentRecord -> seq<OpenInterval>, ghost earlier: seq<PlacedMergedAlignment>)
    returns (placement: PlacedMergedAlignment)
    requires placer.Valid() && placer.placements == QueryXSpans(earlier) && placer.margin == MARGIN
    requires placer.leftExtent == LeftOf(placer.placements) && placer.rightExtent == RightOf(placer.placements)
    requires HasCentroid(merge, contextSpans, draw)
    modifies placer
    ensures placer.Valid()
    ensures placer.placements == QueryXSpans(earlier + [placement])
    ensures placer.leftExtent == LeftOf(placer.placements) && placer.rightExtent == RightOf(placer.placements)
    ensures PlacedAsMerge(placement, merge, earlier, contextSpans, draw, viewWindow)
  {
    var mergeLocus := merge.locus;
    var drawWidth := draw.BasesToXWidth(mergeLocus.Length());
    var targets := PlaceTargetSegments(merge.sources, contextSpans, draw);
    var drawCenter := ComputeCentroid(TargetXSpans(targets));
    var preferred := PreferredSpan(drawCenter, drawWidth, viewWindow);
    var queryXSpan := placer.Place(preferred);
    var segments := PlaceQuerySegments(targets, mergeLocus, queryXSpan.start, draw);
    placement := PlacedMergedAlignment(mergeLocus, queryXSpan, segments);
    assert QueryXSpans(earlier + [placement]) == QueryXSpans(earlier) + [queryXSpan];
    assert (QueryXSpans(earlier) + [queryXSpan])[..|earlier|] == QueryXSpans(earlier);
  }

  /** Each placement is the merge at the same position of `order`, placed as steps 2 and 3 say
      given the placements before it. */
  ghost predicate PlacedInOrder(placements: seq<PlacedMergedAlignment>, order: seq<Merge>,
                                contextSpans: AlignmentRecord -> seq<OpenInterval>, draw: DrawModel,
                                viewWindow: OpenInterval)
  {
    && |placements| == |order|
    && forall i | 0 <= i < |placements| ::
         HasCentroid(order[i], contextSpans, draw)
         && PlacedAsMerge(placements[i], order[i], placements[..i], contextSpans, draw, viewWindow)
  }

  /** Placing one more merge after the others extends the placing order by it. */
  lemma PlacedInOrderAppend(placements: seq<PlacedMergedAlignment>, order: seq<Merge>,
                            p: PlacedMergedAlignment, m: Merge,
                            contextSpans: AlignmentRecord -> seq<OpenInterval>, draw: DrawModel,
                            viewWindow: OpenInterval)
    requires PlacedInOrder(placements, order, contextSpans, draw, viewWindow)
    requires HasCentroid(m, contextSpans, draw)
    requires PlacedAsMerge(p, m, placements, contextSpans, draw, viewWindow)
    ensures PlacedInOrder(placements + [p], order + [m], contextSpans, draw, viewWindow)
  {
    var longer := placements + [p];
    assert forall i | 0 <= i < |placements| :: longer[..i] == placements[..i];
    assert longer[..|placements|] == placements;
  }

  /** The loop of `mergeAndPlaceAlignments` over the sorted merges. */
  method PlaceMerges(sorted: seq<Merge>, draw: DrawModel, viewWindow: OpenInterval,
                     contextSpans: AlignmentRecord -> seq<OpenInterval>)
    returns (placements: seq<PlacedMergedAlignment>)
    requires forall m | m in sorted && Wide(draw, m) :: HasCentroid(m, contextSpans, draw)
    ensures PlacedInOrder(placements, WideMerges(sorted, draw), contextSpans, draw, viewWindow)
    ensures forall i, j | 0 <= i < j < |placements| ::
      !Overlaps(placements[i].queryXSpan, placements[j].queryXSpan)
  {
    var placer := new IntervalPlacer(MARGIN);
    placements := [];
    for k := 0 to |sorted|
      invariant placer.Valid() && placer.margin == MARGIN
      invariant placer.placements == QueryXSpans(placements)
      invariant placer.leftExtent == LeftOf(placer.placements) && placer.rightExtent == RightOf(placer.placements)
      invariant PlacedInOrder(placements, WideMerges(sorted[..k], draw), contextSpans, draw, viewWindow)
    {
      var merge := sorted[k];
      WideMergesStep(sorted, k, draw);
      var drawWidth := draw.BasesToXWidth(merge.locus.Length());
      if drawWidth < MIN_DRAW_WIDTH {
        continue;
      }
      var placement := PlaceMerge(placer, merge, draw, viewWindow, contextSpans, placements);
      PlacedInOrderAppend(placements, WideMerges(sorted[..k], draw), placement, merge, contextSpans, draw, viewWindow);
      placements := placements + [placement];
    }
    assert sorted[..|sorted|] == sorted;
    PlacementsSeparated(placements, placer.placements);
  }

  /** `mergeAndPlaceAlignments`: one placement per merged query locus at least `MIN_DRAW_WIDTH`
      pixels wide, longest first; each query span is exactly as wide as its locus, sits where
      step 2 prefers unless that overlaps an earlier placement, and no two query spans overlap. */
  method MergeAndPlaceAlignments(records: seq<AlignmentRecord>, draw: DrawModel, viewWindow: OpenInterval,
                                 mergeAdvanced: (seq<AlignmentRecord>, real) -> seq<Merge>,
                                 contextSpans: AlignmentRecord -> seq<OpenInterval>)
    returns (placements: seq<PlacedMergedAlignment>)
    requires draw.Valid()
    requires forall m | m in mergeAdvanced(records, MergeDistance(draw)) && Wide(draw, m) ::
      HasCentroid(m, contextSpans, draw)
    ensures records == [] ==> placements == []
    ensures records != [] ==>
      PlacedInOrder(placements, PlacingOrder(records, draw, mergeAdvanced), contextSpans, draw, viewWindow)
    ensures forall p | p in placements :: p.queryXSpan.Length() >= MIN_DRAW_WIDTH
    ensures forall i, j | 0 <= i < j < |placements| ::
      && !Overlaps(placements[i].queryXSpan, placements[j].queryXSpan)
      && placements[i].queryLocus.Length() >= placements[j].queryLocus.Length()
  {
    if records == [] {
      return [];
    }
    var mergeDistance := MergeDistance(draw);
    var merges := mergeAdvanced(records, mergeDistance);
    var sorted := SortBy(merges, NegLength);
    assert forall m | m in sorted :: m in merges by {
      forall m | m in sorted ensures m in merges {
        assert m in multiset(sorted);
      }
    }
    placements := PlaceMerges(sorted, draw, viewWindow, contextSpans);
    var order := WideMerges(sorted, draw);
    assert order == PlacingOrder(records, draw, mergeAdvanced);
    WideMergesMembers(sorted, draw);
    WideMergesKeepOrder(sorted, draw);
    PlacedWideInOrder(placements, order, contextSpans, draw, viewWindow);
  }

  /** Placements of wide merges are at least `MIN_DRAW_WIDTH` pixels wide, and placements of merges
      sorted longest first are sorted longest first. */
  lemma PlacedWideInOrder(placements: seq<PlacedMergedAlignment>, order: seq<Merge>,
                          contextSpans: AlignmentRecord -> seq<OpenInterval>, draw: DrawModel,
                          viewWindow: OpenInterval)
    requires PlacedInOrder(placements, order, contextSpans, draw, viewWindow)
    requires forall m | m in order :: Wide(draw, m)
    requires SortedBy(order, NegLength)
    ensures forall p | p in placements :: p.queryXSpan.Length() >= MIN_DRAW_WIDTH
    ensures forall i, j | 0 <= i < j < |placements| ::
      placements[i].queryLocus.Length() >= placements[j].queryLocus.Length()
  {
    forall p | p in placements ensures p.queryXSpan.Length() >= MIN_DRAW_WIDTH {
      var i :| 0 <= i < |placements| && placements[i] == p;
      assert order[i] in order;
    }
    forall i, j | 0 <= i < j < |placements|
      ensures placements[i].queryLocus.Length() >= placements[j].queryLocus.Length()
    {
      assert NegLength(order[i]) <= NegLength(order[j]);
    }
  }

  lemma PlacementsSeparated(placements: seq<PlacedMergedAlignment>, spans: seq<OpenInterval>)
    requires spans == QueryXSpans(placements) && PairwiseDisjoint(spans)
    ensures forall i, j | 0 <= i < j < |placements| :: !Overlaps(placements[i].queryXSpan, placements[j].queryXSpan)
  {
    forall i, j | 0 <= i < j < |placements|
      ensures !Overlaps(placements[i].queryXSpan, placements[j].queryXSpan)
    {
      assert spans[i] == placements[i].queryXSpan && spans[j] == placements[j].queryXSpan;
    }
  }

  /** A feature of the query genome's navigation context: a gap of some bases, or a placed locus. */
  datatype NavFeature = Gap(length: int) | LocusFeature(locus: Locus)

  /** `Math.ceil`. */
  function Ceil(x: real): int {
    -((-x).Floor)
  }

  /** The ceiling is the least integer at or above `x`. */
  lemma CeilBounds(x: real)
    ensures x <= Ceil(x) as real < x + 1.0
  {
  }

  /** The sort key of `makeQueryGenomeNavContext`: the start of the query span. */
  function StartKey(p: PlacedMergedAlignment): real {
    p.queryXSpan.start
  }

  /** The navigation features for alignments already sorted by start, the previous one ending
      at pixel `x`: a gap before each alignment that starts right of `x`, the alignment's locus,
      and after the last one a gap up to `visWidth` when there is room. */
  function NavFeatures(sorted: seq<PlacedMergedAlignment>, x: real, visWidth: real, basesPerPixel: real)
    : seq<NavFeature>
  {
    if sorted == [] then
      FinalGap(x, visWidth, basesPerPixel)
    else
      LeadIn(sorted[0], x, basesPerPixel) + NavFeatures(sorted[1..], sorted[0].queryXSpan.end, visWidth, basesPerPixel)
  }

  /** The gap after the last alignment, up to `visWidth`, when there is room. */
  function FinalGap(x: real, visWidth: real, basesPerPixel: real): seq<NavFeature> {
    var finalGapXWidth := visWidth - x;
    if finalGapXWidth > 0.0 then [Gap(Ceil(basesPerPixel * finalGapXWidth))] else []
  }

  /** The features one alignment contributes: the gap before it, when it starts right of `x`,
      then its locus. */
  function LeadIn(placed: PlacedMergedAlignment, x: real, basesPerPixel: real): seq<NavFeature> {
    var basesFromPrevFeature := basesPerPixel * (placed.queryXSpan.start - x);
    (if basesFromPrevFeature > 0.0 then [Gap(Ceil(basesFromPrevFeature))] else [])
      + [LocusFeature(placed.queryLocus)]
  }

  /** One alignment contributes its own locus last, preceded at most by one gap of at least one base. */
  lemma LeadInShape(placed: PlacedMergedAlignment, x: real, basesPerPixel: real)
    ensures var lead := LeadIn(placed, x, basesPerPixel);
      && 1 <= |lead| <= 2
      && lead[|lead| - 1] == LocusFeature(placed.queryLocus)
      && (|lead| == 2 ==> lead[0].Gap? && lead[0].length >= 1)
      && Loci(lead) == [placed.queryLocus]
      && WellSpaced(lead)
  {
    var lead := LeadIn(placed, x, basesPerPixel);
    var basesFromPrevFeature := basesPerPixel * (placed.queryXSpan.start - x);
    var gap := if basesFromPrevFeature > 0.0 then [Gap(Ceil(basesFromPrevFeature))] else [];
    assert lead == gap + [LocusFeature(placed.queryLocus)];
    LociConcat(gap, [LocusFeature(placed.queryLocus)]);
    assert Loci([LocusFeature(placed.queryLocus)]) == [placed.queryLocus];
    if gap != [] {
      assert Loci(gap) == [] + Loci([]);
      CeilBounds(basesFromPrevFeature);
    }
  }

  /** The loci among navigation features, in order. */
  function Loci(features: seq<NavFeature>): seq<Locus> {
    if features == [] then []
    else (if features[0].LocusFeature? then [features[0].locus] else []) + Loci(features[1..])
  }

  function QueryLoci(placements: seq<PlacedMergedAlignment>): (r: seq<Locus>)
    ensures |r| == |placements| && forall i | 0 <= i < |r| :: r[i] == placements[i].queryLocus
  {
    seq(|placements|, i requires 0 <= i < |placements| => placements[i].queryLocus)
  }

  lemma {:induction false} LociConcat(a: seq<NavFeature>, b: seq<NavFeature>)
    ensures Loci(a + b) == Loci(a) + Loci(b)
  {
    if a == [] {
      assert a + b == b;
    } else {
      assert (a + b)[0] == a[0];
      assert (a + b)[1..] == a[1..] + b;
      LociConcat(a[1..], b);
    }
  }

  /** The context lists every placed locus exactly once, in the given order, and nothing else. */
  lemma {:induction false} NavFeaturesListLoci(sorted: seq<PlacedMergedAlignment>, x: real, visWidth: real,
                                               basesPerPixel: real)
    ensures Loci(NavFeatures(sorted, x, visWidth, basesPerPixel)) == QueryLoci(sorted)
  {
    if sorted != [] {
      var placed := sorted[0];
      var rest := NavFeatures(sorted[1..], placed.queryXSpan.end, visWidth, basesPerPixel);
      LeadInShape(placed, x, basesPerPixel);
      LociConcat(LeadIn(placed, x, basesPerPixel), rest);
      NavFeaturesListLoci(sorted[1..], placed.queryXSpan.end, visWidth, basesPerPixel);
      assert QueryLoci(sorted) == [placed.queryLocus] + QueryLoci(sorted[1..]);
    }
  }

  /** Every gap is at least one base long and no two gaps are adjacent. */
  predicate WellSpaced(features: seq<NavFeature>) {
    && (forall i | 0 <= i < |features| && features[i].Gap? :: features[i].length >= 1)
    && (forall i | 0 <= i < |features| - 1 :: !(features[i].Gap? && features[i + 1].Gap?))
  }

  lemma WellSpacedConcat(head: seq<NavFeature>, rest: seq<NavFeature>)
    requires WellSpaced(head) && WellSpaced(rest)
    requires head != [] && head[|head| - 1].LocusFeature?
    ensures WellSpaced(head + rest)
  {
    var features := head + rest;
    forall i | 0 <= i < |features| - 1 ensures !(features[i].Gap? && features[i + 1].Gap?) {
      if i + 1 == |head| {
        assert features[i] == head[|head| - 1];
      }
    }
  }

  /** With a positive scale every gap is at least one base long, and no two gaps are adjacent. */
  lemma {:induction false} NavFeaturesGaps(sorted: seq<PlacedMergedAlignment>, x: real, visWidth: real,
                                           basesPerPixel: real)
    requires basesPerPixel > 0.0
    ensures WellSpaced(NavFeatures(sorted, x, visWidth, basesPerPixel))
  {
    var features := NavFeatures(sorted, x, visWidth, basesPerPixel);
    if sorted == [] {
      if visWidth - x > 0.0 {
        var bases := basesPerPixel * (visWidth - x);
        assert bases > 0.0;
        assert features == FinalGap(x, visWidth, basesPerPixel) == [Gap(Ceil(bases))];
        CeilBounds(bases);
      }
    } else {
      var placed := sorted[0];
      LeadInShape(placed, x, basesPerPixel);
      NavFeaturesGaps(sorted[1..], placed.queryXSpan.end, visWidth, basesPerPixel);
      WellSpacedConcat(LeadIn(placed, x, basesPerPixel),
                       NavFeatures(sorted[1..], placed.queryXSpan.end, visWidth, basesPerPixel));
    }
  }

  /** One turn of the loop of `makeQueryGenomeNavContext`. */
  method PushLeadIn(features: seq<NavFeature>, placedAlignment: PlacedMergedAlignment, x: real, basesPerPixel: real)
    returns (r: seq<NavFeature>)
    ensures r == features + LeadIn(placedAlignment, x, basesPerPixel)
  {
    r := features;
    var basesFromPrevFeature := basesPerPixel * (placedAlignment.queryXSpan.start - x);
    if basesFromPrevFeature > 0.0 {
      r := r + [Gap(Ceil(basesFromPrevFeature))];
    }
    r := r + [LocusFeature(placedAlignment.queryLocus)];
  }

  lemma NavFeaturesStep(sorted: seq<PlacedMergedAlignment>, i: nat, x: real, visWidth: real, basesPerPixel: real)
    requires i < |sorted|
    ensures NavFeatures(sorted[i..], x, visWidth, basesPerPixel)
         == LeadIn(sorted[i], x, basesPerPixel)
            + NavFeatures(sorted[i + 1..], sorted[i].queryXSpan.end, visWidth, basesPerPixel)
  {
    assert sorted[i..][0] == sorted[i];
    assert sorted[i..][1..] == sorted[i + 1..];
  }

  /** The step after the loop of `makeQueryGenomeNavContext`. */
  method PushFinalGap(features: seq<NavFeature>, x: real, visWidth: real, basesPerPixel: real)
    returns (r: seq<NavFeature>)
    ensures r == features + FinalGap(x, visWidth, basesPerPixel)
  {
    r := features;
    var finalGapXWidth := visWidth - x;
    if finalGapXWidth > 0.0 {
      r := r + [Gap(Ceil(basesPerPixel * (visWidth - x)))];
    }
  }

  /** The loop of `makeQueryGenomeNavContext` and the final gap after it, over the sorted alignments. */
  method NavContextOf(sortedAlignments: seq<PlacedMergedAlignment>, visWidth: real, basesPerPixel: real)
    returns (features: seq<NavFeature>)
    ensures features == NavFeatures(sortedAlignments, 0.0, visWidth, basesPerPixel)
  {
    features := [];
    var x := 0.0;
    for i := 0 to |sortedAlignments|
      invariant features + NavFeatures(sortedAlignments[i..], x, visWidth, basesPerPixel)
             == NavFeatures(sortedAlignments, 0.0, visWidth, basesPerPixel)
    {
      var placedAlignment := sortedAlignments[i];
      NavFeaturesStep(sortedAlignments, i, x, visWidth, basesPerPixel);
      features := PushLeadIn(features, placedAlignment, x, basesPerPixel);
      x := placedAlignment.queryXSpan.end;
    }
    assert sortedAlignments[|sortedAlignments|..] == [];
    features := PushFinalGap(features, x, visWidth, basesPerPixel);
  }

  /** `makeQueryGenomeNavContext`: the features of the query genome's navigation context. */
  method MakeQueryGenomeNavContext(placedAlignments: seq<PlacedMergedAlignment>, visWidth: real,
                                   basesPerPixel: real)
    returns (features: seq<NavFeature>)
    ensures features == NavFeatures(SortBy(placedAlignments, StartKey), 0.0, visWidth, basesPerPixel)
    ensures Loci(features) == QueryLoci(SortBy(placedAlignments, StartKey))
    ensures SortedBy(SortBy(placedAlignments, StartKey), StartKey)
    ensures basesPerPixel > 0.0 ==> forall f | f in features && f.Gap? :: f.length >= 1
  {
    var sortedAlignments := SortBy(placedAlignments, StartKey);
    features := NavContextOf(sortedAlignments, visWidth, basesPerPixel);
    NavFeaturesListLoci(sortedAlignments, 0.0, visWidth, basesPerPixel);
    if basesPerPixel > 0.0 {
      NavFeaturesGaps(sortedAlignments, 0.0, visWidth, basesPerPixel);
    }
  }
}
