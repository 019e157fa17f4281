/** FeaturePlacer.ts: where features, and the segments (exons, UTRs) of one feature, go in the
    navigation context and on screen. Both operations are a flat-map followed by a filter over a
    fresh result list, so they are modelled as recursive functions.

    The collaborators are parameters: `coords` stands for `Feature.computeNavContextCoordinates`
    against the view's navigation context, `genomeStartAt` for
    `NavigationContext.convertBaseToFeatureCoordinate(..).getGenomeCoordinates().start`, and the
    drawing model is the linear map of module Drawing. */
module FeaturePlacer {
  import opened Common
  import opened OpenIntervals
  import opened Drawing

  /** `PlacedFeature`: the feature, its unclamped context location and its on-screen span. */
  datatype PlacedFeature<F> = PlacedFeature(feature: F, contextLocation: OpenInterval, xLocation: OpenInterval)

  /** The pixel span of a context location, clamped into `[0, width - 1]`. */
  function ClampedX(draw: DrawModel, width: real, location: OpenInterval): OpenInterval {
    OpenInterval(Max(0.0, draw.BaseToX(location.start)), Min(draw.BaseToX(location.end), width - 1.0))
  }

  /** A context location survives clamping with a non-empty pixel span. */
  predicate Drawable(draw: DrawModel, width: real, location: OpenInterval) {
    ClampedX(draw, width, location).start < ClampedX(draw, width, location).end
  }

  /** The placements of one feature, one per drawable context location, in location order. */
  function PlaceLocations<F(==)>(feature: F, locations: seq<OpenInterval>, draw: DrawModel, width: real)
    : (r: seq<PlacedFeature<F>>)
    ensures forall p | p in r ::
      && p.feature == feature
      && p.contextLocation in locations
      && Drawable(draw, width, p.contextLocation)
      && p.xLocation == ClampedX(draw, width, p.contextLocation)
    ensures forall loc | loc in locations && Drawable(draw, width, loc) ::
      PlacedFeature(feature, loc, ClampedX(draw, width, loc)) in r
  {
    if locations == [] then []
    else
      var location := locations[0];
      var x := ClampedX(draw, width, location);
      (if x.start < x.end then [PlacedFeature(feature, location, x)] else [])
        + PlaceLocations(feature, locations[1..], draw, width)
  }

  /** `placeFeatures`: every placement lies within `[0, width - 1]` pixels, refers to one of the
      input features and one of its context locations, and is that location clamped; every
      drawable location of every feature is placed. */
  function PlaceFeatures<F(==)>(features: seq<F>, coords: F -> seq<OpenInterval>, draw: DrawModel, width: real)
    : (r: seq<PlacedFeature<F>>)
    ensures features == [] ==> r == []
    ensures forall p | p in r :: 0.0 <= p.xLocation.start < p.xLocation.end <= width - 1.0
    ensures forall p | p in r ::
      && p.feature in features
      && p.contextLocation in coords(p.feature)
      && p.xLocation == ClampedX(draw, width, p.contextLocation)
    ensures forall f, loc | f in features && loc in coords(f) && Drawable(draw, width, loc) ::
      PlacedFeature(f, loc, ClampedX(draw, width, loc)) in r
  {
    if features == [] then []
    else
      PlaceLocations(features[0], coords(features[0]), draw, width)
        + PlaceFeatures(features[1..], coords, draw, width)
  }

  /** Output order follows input feature order. */
  lemma {:induction false} PlaceFeaturesConcat<F>(
    a: seq<F>, b: seq<F>, coords: F -> seq<OpenInterval>, draw: DrawModel, width: real)
    ensures PlaceFeatures(a + b, coords, draw, width)
         == PlaceFeatures(a, coords, draw, width) + PlaceFeatures(b, coords, draw, width)
  {
    if a == [] {
      assert a + b == b;
    } else {
      assert (a + b)[0] == a[0];
      assert (a + b)[1..] == a[1..] + b;
      PlaceFeaturesConcat(a[1..], b, coords, draw, width);
    }
  }

  /** Within one feature, output order follows the order of its context locations. */
  lemma {:induction false} PlaceLocationsConcat<F>(
    feature: F, a: seq<OpenInterval>, b: seq<OpenInterval>, draw: DrawModel, width: real)
    ensures PlaceLocations(feature, a + b, draw, width)
         == PlaceLocations(feature, a, draw, width) + PlaceLocations(feature, b, draw, width)
  {
    if a == [] {
      assert a + b == b;
    } else {
      assert (a + b)[0] == a[0];
      assert (a + b)[1..] == a[1..] + b;
      PlaceLocationsConcat(feature, a[1..], b, draw, width);
    }
  }

  /** What the segment placer reads from a `FeatureInterval`: the genomic start of the segment,
      its length, and its start relative to its feature. */
  datatype FeatureSegment = FeatureSegment(genomeStart: real, length: real, relativeStart: real)

  /** `PlacedSegment`: the segment, its context location and its offset within the feature. */
  datatype PlacedSegment = PlacedSegment(segment: FeatureSegment, contextLocation: OpenInterval, offsetRelativeToFeature: real)

  /** Where a segment would lie in the navigation context before it is cut to its parent:
      it starts as far from the parent's context start as the segment's genomic start is from
      the genomic start of that base, and keeps the segment's length. */
  function ShiftedSegment(segment: FeatureSegment, parentGenomeStart: real, parent: OpenInterval)
    : (r: OpenInterval)
    ensures r.start - parent.start == segment.genomeStart - parentGenomeStart
    ensures r.Length() == segment.length
  {
    var contextStart := parent.start + (segment.genomeStart - parentGenomeStart);
    OpenInterval(contextStart, contextStart + segment.length)
  }

  function PlaceSegmentsAt(segments: seq<FeatureSegment>, parentGenomeStart: real, parent: OpenInterval)
    : (r: seq<PlacedSegment>)
    ensures forall p | p in r ::
      && p.segment in segments
      && parent.start <= p.contextLocation.start < p.contextLocation.end <= parent.end
      && p.offsetRelativeToFeature == p.segment.relativeStart + Max(0.0, p.segment.genomeStart - parentGenomeStart)
      && p.offsetRelativeToFeature >= p.segment.relativeStart
      && (forall x :: p.contextLocation.Contains(x) <==>
            ShiftedSegment(p.segment, parentGenomeStart, parent).Contains(x) && parent.Contains(x))
    ensures forall s | s in segments && Overlaps(ShiftedSegment(s, parentGenomeStart, parent), parent) ::
      exists p | p in r :: p.segment == s
  {
    if segments == [] then []
    else
      var segment := segments[0];
      var distFromParentLocation := segment.genomeStart - parentGenomeStart;
      var overlap := GetOverlap(ShiftedSegment(segment, parentGenomeStart, parent), parent);
      var rest := PlaceSegmentsAt(segments[1..], parentGenomeStart, parent);
      if overlap.Some? then
        var placed := PlacedSegment(segment, overlap.value,
                                    segment.relativeStart + Max(0.0, distFromParentLocation));
        assert parent.start <= overlap.value.start && overlap.value.end <= parent.end by {
          assert overlap.value.Contains(overlap.value.start);
          var m := (overlap.value.start + overlap.value.end) / 2.0;
          assert overlap.value.Contains(m);
        }
        [placed] + rest
      else
        rest
  }

  /** `placeFeatureSegments`: every returned context location lies inside the parent's, is the
      part of the shifted segment the parent covers, and has as offset the segment's relative
      start plus how far past the parent's genomic start the segment begins (never less than the
      relative start); a segment is dropped exactly when its shifted interval misses the parent. */
  function PlaceFeatureSegments(segments: seq<FeatureSegment>, genomeStartAt: real -> real,
                                contextLocationOfFeature: OpenInterval)
    : (r: seq<PlacedSegment>)
    ensures forall p | p in r ::
      && p.segment in segments
      && contextLocationOfFeature.start <= p.contextLocation.start
      && p.contextLocation.start < p.contextLocation.end
      && p.contextLocation.end <= contextLocationOfFeature.end
      && p.offsetRelativeToFeature
         == p.segment.relativeStart + Max(0.0, p.segment.genomeStart - genomeStartAt(contextLocationOfFeature.start))
      && p.offsetRelativeToFeature >= p.segment.relativeStart
      && Overlaps(ShiftedSegment(p.segment, genomeStartAt(contextLocationOfFeature.start), contextLocationOfFeature),
                  contextLocationOfFeature)
      && (forall x :: p.contextLocation.Contains(x) <==>
            && ShiftedSegment(p.segment, genomeStartAt(contextLocationOfFeature.start), contextLocationOfFeature).Contains(x)
            && contextLocationOfFeature.Contains(x))
    ensures forall s | s in segments ::
      Overlaps(ShiftedSegment(s, genomeStartAt(contextLocationOfFeature.start), contextLocationOfFeature),
               contextLocationOfFeature)
      ==> exists p | p in r :: p.segment == s
  {
    var parentGenomeStart := genomeStartAt(contextLocationOfFeature.start);
    var r := PlaceSegmentsAt(segments, parentGenomeStart, contextLocationOfFeature);
    assert forall p | p in r ::
      Overlaps(ShiftedSegment(p.segment, parentGenomeStart, contextLocationOfFeature), contextLocationOfFeature) by {
      forall p | p in r
        ensures Overlaps(ShiftedSegment(p.segment, parentGenomeStart, contextLocationOfFeature), contextLocationOfFeature)
      {
        var shifted := ShiftedSegment(p.segment, parentGenomeStart, contextLocationOfFeature);
        assert p.contextLocation.Contains(p.contextLocation.start);
        if GetOverlap(shifted, contextLocationOfFeature).None? {
          assert false;
        }
      }
    }
    r
  }
}
