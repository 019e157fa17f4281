# Placement, interval search and the entity registry of a genome browser

This project models, in Dafny, four parts of a web genome browser and its 3-D viewer.

- **Feature placement** (`FeaturePlacer.ts`). It works out where annotation features, and the
  segments of one feature, go in the navigation context and on screen.
- **Alignment placement** (`AlignmentPlacer.ts`). For genome-alignment tracks, it does three things:
  - merges alignment records that lie close together in the secondary (query) genome;
  - places the merged query loci widest first on a one-dimensional canvas, where an
    `IntervalPlacer` keeps any two placements from overlapping;
  - reads a navigation context for the query genome off the placements.
- **The centred interval tree** of the 3-D viewer (`IntervalTree.ts`). It has three parts:
  - a hash from id to interval;
  - a sorted list of all endpoints;
  - a tree of nodes, each holding the intervals that straddle its centre, sorted by start and by end.

  A point search follows the single root-to-leaf path of the point. A range search combines a point
  probe with a scan of the endpoints inside the range.
- **The entity/component/system registry** of the 3-D viewer (`ECS.ts`, `Entity.ts`, `System.ts`).
  - Entities carry named components.
  - Systems hold the entities their `test` accepts, and entities hold their systems back.
  - The registry keeps the entity list, the system list and a queue of entities whose system
    membership must be recomputed.

How each part is modelled:

- The two placers are pure computations. Their loops are methods, each proved equal to a recursive
  specification function, and the placement properties are lemmas about those functions.
- `IntervalPlacer`, the interval tree and the three registry classes update their fields in place.
  They are Dafny classes with `modifies` frames.
- The interval tree's linked nodes are kept in an arena: a sequence of nodes whose children are
  indices into it. The tree's invariant is that every registered interval is filed at the node its
  route from the root ends at.

Collaborators outside the modelled files enter as parameters or as contracts:

| collaborator | how it is modelled |
|---|---|
| `LinearDrawingModel` | a linear map with positive scale (`Drawing`) |
| `OpenInterval.getOverlap` | the half-open intersection (`OpenIntervals`) |
| `Array.prototype.sort` | a stable insertion sort (`Sorting`) |
| `sortedlist`'s ordered insertion | a stable insertion sort (`Sorting`) |
| `ChromosomeInterval.mergeAdvanced` | a function parameter |
| `computeNavContextCoordinates` | a function parameter |
| `NavigationContext.convertBaseToFeatureCoordinate` | a function parameter |

Coordinates are exact reals.

Module layout:

| file | module | models |
|---|---|---|
| `common.dfy` | `Common` | null results, thrown errors, `Math.max`/`min`/`abs` |
| `open_interval.dfy` | `OpenIntervals` | half-open intervals and their overlap |
| `sorting.dfy` | `Sorting` | stable sort and sorted insertion |
| `drawing.dfy` | `Drawing` | the linear base-to-pixel map |
| `feature_placer.dfy` | `FeaturePlacer` | `FeaturePlacer.ts` |
| `alignment_placer.dfy` | `AlignmentPlacer` | `AlignmentPlacer.ts` |
| `interval.dfy` | `Intervals` | `Interval` and `result()` |
| `interval_nodes.dfy` | `IntervalNodes` | `insert` and `pointSearch` over the node arena |
| `interval_search.dfy` | `IntervalSearch` | the endpoint list and `rangeSearch` |
| `object_keys.dfy` | `ObjectKeys` | `Object.keys` over integer ids |
| `interval_tree.dfy` | `IntervalTrees` | the `IntervalTree` class |
| `lists.dfy` | `Lists` | `indexOf` and `splice` |
| `registry.dfy` | `Registry` | `Entity`, `System` and `ECS` |

## Model

Source paths are abbreviated as follows:

- `FP` = `frontend/src/model/FeaturePlacer.ts`
- `AP` = `frontend/src/model/AlignmentPlacer.ts`
- `IT` = `frontend/src/viz3D/models/IntervalTree.ts`
- `ECS` = `frontend/src/viz3D/models/ECS.ts`
- `EN` = `frontend/src/viz3D/models/Entity.ts`
- `SY` = `frontend/src/viz3D/models/System.ts`

The table itself spells every path out in full.

| member | source | states |
|---|---|---|
| OpenIntervals.GetOverlap | frontend/src/model/FeaturePlacer.ts:95 | The overlap is the half-open intersection of the two intervals and is non-empty; it is absent exactly when no point lies in both. |
| OpenIntervals.AbuttingDoesNotOverlap | frontend/src/model/AlignmentPlacer.ts:148-150 | An interval placed flush against another's end does not overlap it, in either order. |
| Sorting.SortBy | frontend/src/model/AlignmentPlacer.ts:54 | The sort result is ordered by the key and is a permutation of the input. |
| Sorting.InsertSorted | frontend/src/viz3D/models/IntervalTree.ts:73-76 | Inserting into a sorted list keeps it sorted and adds exactly one copy of the element. |
| Drawing.BaseToXMonotoneLinear | frontend/src/model/AlignmentPlacer.ts:74 | `baseToX` keeps order, and the pixel distance between two bases is the drawn width of their base distance. |
| Drawing.WidthMonotone | frontend/src/model/AlignmentPlacer.ts:96-97 | Drawn widths keep the order of base widths. |
| Drawing.WidthAdditive | frontend/src/model/AlignmentPlacer.ts:96-99 | The drawn width of two adjacent stretches is the sum of their drawn widths. |
| FeaturePlacer.PlaceLocations | frontend/src/model/FeaturePlacer.ts:49-58 | One feature's placements are exactly its drawable context locations, each with its clamped pixel span. |
| FeaturePlacer.ClampedX | frontend/src/model/FeaturePlacer.ts:50-51 | Definition: the `baseToX` span of a context location clamped to `[0, width - 1]`. `FeaturePlacer.PlaceLocations` and `FeaturePlacer.PlaceFeatures` state that every placement carries this span and lies within the view. |
| FeaturePlacer.PlaceFeatures | frontend/src/model/FeaturePlacer.ts:43-63 | Every placement lies within `[0, width - 1]` pixels and belongs to an input feature and one of its context locations, clamped. Every drawable location of every feature is placed. |
| FeaturePlacer.PlaceFeaturesConcat | frontend/src/model/FeaturePlacer.ts:48-60 | Placements come out in input feature order: placing `a + b` is placing `a`, then `b`. |
| FeaturePlacer.PlaceLocationsConcat | frontend/src/model/FeaturePlacer.ts:49-59 | Within one feature, placements follow the order of its context locations. |
| FeaturePlacer.ShiftedSegment | frontend/src/model/FeaturePlacer.ts:91-94 | A segment's unclipped context location is offset from the parent's start by its genomic offset and keeps the segment's length. |
| FeaturePlacer.PlaceSegmentsAt | frontend/src/model/FeaturePlacer.ts:88-103 | Each placed segment lies inside the parent's context location and is the part of the shifted segment the parent covers. Its `offsetRelativeToFeature` is its relative start plus however far its genomic start lies past the parent's. Every segment whose shifted location meets the parent is placed. |
| FeaturePlacer.PlaceFeatureSegments | frontend/src/model/FeaturePlacer.ts:76-105 | A segment is placed exactly when its shifted location overlaps the feature's context location. It is then placed inside that location, as the part of the shifted segment the location covers, with `offsetRelativeToFeature` equal to its relative start plus however far its genomic start lies past the feature's. |
| AlignmentPlacer.OverlapsAnyAppend | frontend/src/model/AlignmentPlacer.ts:145 | `some` over a longer list holds exactly when it held before or the new element overlaps. |
| AlignmentPlacer.SomeOverlaps | frontend/src/model/AlignmentPlacer.ts:145 | The `some` scan answers whether any earlier placement overlaps the preferred span. |
| AlignmentPlacer.Resolve | frontend/src/model/AlignmentPlacer.ts:144-151 | The final span keeps the preferred length. It equals the preferred span exactly when that overlaps nothing, and it never overlaps an earlier placement. |
| AlignmentPlacer.TieGoesRight | frontend/src/model/AlignmentPlacer.ts:146-150 | With margin 0 and one placement `[0, 10)`, a colliding `[0, 10)` is equally far from both extents and goes to the right, to `[10, 20)`, which does not overlap. |
| AlignmentPlacer.ExtendLeft | frontend/src/model/AlignmentPlacer.ts:154-156 | The left extent only moves left, and ends up at or left of the new placement's start. |
| AlignmentPlacer.ExtendRight | frontend/src/model/AlignmentPlacer.ts:157-159 | The right extent only moves right, and ends up at or right of the new placement's end. |
| AlignmentPlacer.LeftOf | frontend/src/model/AlignmentPlacer.ts:154-156 | Definition: the placer's left extent after a sequence of placements, each pushing it to its left end minus `MARGIN`. `AlignmentPlacer.PlaceMerge` and `AlignmentPlacer.PlaceMerges` state that the placer's extent equals it after every placement. |
| AlignmentPlacer.RightOf | frontend/src/model/AlignmentPlacer.ts:157-159 | Definition: the placer's right extent after a sequence of placements, each pushing it to its right end plus `MARGIN`. Stated by the same members as `AlignmentPlacer.LeftOf`. |
| AlignmentPlacer.PlaceKeepsInvariant | frontend/src/model/AlignmentPlacer.ts:143-162 | One `place` keeps the placer's invariant: the extents cover all placements and no two placements overlap. |
| AlignmentPlacer.IntervalPlacer.constructor | frontend/src/model/AlignmentPlacer.ts:136-141 | A new placer has infinite extents (left `+Infinity`, right `-Infinity`), the given margin, no placements, and its invariant. |
| AlignmentPlacer.IntervalPlacer.Place | frontend/src/model/AlignmentPlacer.ts:143-162 | `place` returns the resolved span, appends it and widens the extents by the margin, keeping the invariant. |
| AlignmentPlacer.IntervalPlacer.RetrievePlacements | frontend/src/model/AlignmentPlacer.ts:164-166 | The placements, in placing order, pairwise non-overlapping. |
| AlignmentPlacer.SpanSegments | frontend/src/model/AlignmentPlacer.ts:71-77 | One target segment per context span of a record, in span order, each the span's pixel span. |
| AlignmentPlacer.TargetSegmentsSound | frontend/src/model/AlignmentPlacer.ts:68-78 | Every target segment comes from a record of the merge and is the pixel span of one of its context spans. |
| AlignmentPlacer.PlaceTargetSegments | frontend/src/model/AlignmentPlacer.ts:68-78 | The nested loop of step 1 builds exactly the target segments, record by record. |
| AlignmentPlacer.TargetSegments | frontend/src/model/AlignmentPlacer.ts:68-78 | Definition: each record's context spans become target segments, records in order. `AlignmentPlacer.TargetSegmentsSound` and `AlignmentPlacer.PlaceTargetSegments` state what they hold. |
| AlignmentPlacer.CentroidWithinHull | frontend/src/model/AlignmentPlacer.ts:169-173 | The length-weighted centroid of non-empty spans is defined and lies within their hull. |
| AlignmentPlacer.ComputeCentroid | frontend/src/model/AlignmentPlacer.ts:169-173 | Definition: the length-weighted mean of the spans' midpoints. `AlignmentPlacer.CentroidWithinHull` states that it lies within the spans' hull. |
| AlignmentPlacer.PreferredSpan | frontend/src/model/AlignmentPlacer.ts:82-90 | The preferred span is as wide as the locus. Off the left of the view window it starts at `MARGIN`; off the right it ends `MARGIN` before the window's end; otherwise it is centred on the centroid inside the window. |
| AlignmentPlacer.QuerySpanWithinMerged | frontend/src/model/AlignmentPlacer.ts:94-100 | A record's query span lies within its merged locus's placed span, and records keep their query-genome order. |
| AlignmentPlacer.PlaceQuerySegments | frontend/src/model/AlignmentPlacer.ts:94-100 | The step 3 loop gives each segment the query span of its record, offset from the merge's placed start. |
| AlignmentPlacer.QuerySpan | frontend/src/model/AlignmentPlacer.ts:94-100 | Definition: a segment's query-side pixel span, offset from the merge's query start by the drawn width of the bases before it. `AlignmentPlacer.QuerySpanWithinMerged` states that it lies within the merge's query span. |
| AlignmentPlacer.QuerySegments | frontend/src/model/AlignmentPlacer.ts:94-100 | One query segment per target segment, in order. `AlignmentPlacer.PlaceQuerySegments` states their spans. |
| AlignmentPlacer.WideMergesMembers | frontend/src/model/AlignmentPlacer.ts:61-65 | The merges drawn are exactly the input merges whose drawn width is at least `MIN_DRAW_WIDTH`. |
| AlignmentPlacer.WideMergesStep | frontend/src/model/AlignmentPlacer.ts:58-65 | One more merge is drawn after the others if it is wide, and skipped otherwise. |
| AlignmentPlacer.WideMergesKeepOrder | frontend/src/model/AlignmentPlacer.ts:54-65 | Skipping narrow merges keeps the longest-first order. |
| AlignmentPlacer.WideMerges | frontend/src/model/AlignmentPlacer.ts:61-65 | Definition: the merges whose drawn width reaches the minimum, in order. `AlignmentPlacer.WideMergesMembers`, `AlignmentPlacer.WideMergesStep` and `AlignmentPlacer.WideMergesKeepOrder` state which merges it keeps and that it keeps their order. |
| AlignmentPlacer.PlacingOrder | frontend/src/model/AlignmentPlacer.ts:54-65 | Definition: the merges sorted longest query locus first, ties kept in merge order, with the narrow ones dropped; the order in which they are placed. `AlignmentPlacer.PlacedWideInOrder` and `AlignmentPlacer.PlaceMerges` state that placements follow it. |
| AlignmentPlacer.PlaceMerge | frontend/src/model/AlignmentPlacer.ts:59-102 | Steps 1 to 3 for one merge. The placement is as wide as the merge's locus. It is the preferred span when that overlaps no earlier placement. Otherwise it is the span `place` resolves, flush against the nearer extent of the earlier placements, built with margin `MARGIN`, the right one on a tie. Its segments are placed from its start. The placer's extents stay those its placements give. |
| AlignmentPlacer.PlacedAsMerge | frontend/src/model/AlignmentPlacer.ts:59-102 | Definition of one placed merge: its target and query spans, its segments, and its query span resolved against the earlier placements and the placer's extents. `AlignmentPlacer.PlaceMerge` and `AlignmentPlacer.PlaceMerges` state that every placement satisfies it. |
| AlignmentPlacer.PlacedInOrderAppend | frontend/src/model/AlignmentPlacer.ts:58-103 | Placing one more merge extends the placing order by that merge. |
| AlignmentPlacer.PlaceMerges | frontend/src/model/AlignmentPlacer.ts:56-103 | The loop places exactly the wide merges, in order. Each is at its preferred span or flush against the nearer extent of the earlier placements, as steps 2 and 3 say. No two query spans overlap. |
| AlignmentPlacer.MergeAndPlaceAlignments | frontend/src/model/AlignmentPlacer.ts:36-106 | No records give no placements. Otherwise there is one placement per wide merged locus, longest first, each at least `MIN_DRAW_WIDTH` wide. Each is at its preferred span or flush against the nearer extent of the earlier placements, as steps 2 and 3 say. No two query spans overlap. |
| AlignmentPlacer.PlacedWideInOrder | frontend/src/model/AlignmentPlacer.ts:54-65 | Placements of wide merges sorted longest first are at least `MIN_DRAW_WIDTH` wide and sorted longest first. |
| AlignmentPlacer.PlacementsSeparated | frontend/src/model/AlignmentPlacer.ts:91 | Query spans taken from a disjoint placer list are pairwise disjoint. |
| AlignmentPlacer.CeilBounds | frontend/src/model/AlignmentPlacer.ts:117 | `Math.ceil` gives the least integer at or above its argument. |
| AlignmentPlacer.LeadInShape | frontend/src/model/AlignmentPlacer.ts:115-120 | An alignment contributes its locus last, preceded by at most one gap of at least one base. |
| AlignmentPlacer.LociConcat | frontend/src/model/AlignmentPlacer.ts:114-121 | The loci of concatenated feature lists are the concatenated loci. |
| AlignmentPlacer.NavFeaturesListLoci | frontend/src/model/AlignmentPlacer.ts:108-127 | The context lists every placed locus exactly once, in sorted order, and no other locus. |
| AlignmentPlacer.NavFeatures | frontend/src/model/AlignmentPlacer.ts:108-127 | Definition: the navigation features, a lead-in gap and locus per placement, then the final gap. `AlignmentPlacer.NavFeaturesListLoci`, `AlignmentPlacer.NavFeaturesGaps` and `AlignmentPlacer.NavContextOf` state what they hold and that the loop builds them. |
| AlignmentPlacer.WellSpacedConcat | frontend/src/model/AlignmentPlacer.ts:114-125 | A well-spaced list ending in a locus, followed by a well-spaced list, is well spaced. |
| AlignmentPlacer.NavFeaturesGaps | frontend/src/model/AlignmentPlacer.ts:115-125 | With a positive scale, every gap is at least one base long and no two gaps are adjacent. |
| AlignmentPlacer.PushLeadIn | frontend/src/model/AlignmentPlacer.ts:115-120 | One loop turn appends the gap, when positive, and then the locus. |
| AlignmentPlacer.LeadIn | frontend/src/model/AlignmentPlacer.ts:115-120 | Definition: the gap before a placement's locus, present only when the placement starts right of the previous one and sized as bases per pixel times the pixel distance, rounded up; then the locus. `AlignmentPlacer.LeadInShape` states its shape. |
| AlignmentPlacer.NavFeaturesStep | frontend/src/model/AlignmentPlacer.ts:114-121 | The features from position `i` are the lead-in of alignment `i`, then the features from `i + 1` with `x` at its end. |
| AlignmentPlacer.PushFinalGap | frontend/src/model/AlignmentPlacer.ts:122-125 | A final gap is appended exactly when there is room before `visWidth`. |
| AlignmentPlacer.FinalGap | frontend/src/model/AlignmentPlacer.ts:122-125 | Definition: the gap from the last locus to the view's end, rounded up to whole bases, present only when there is room. `AlignmentPlacer.PushFinalGap` states that the loop appends it. |
| AlignmentPlacer.NavContextOf | frontend/src/model/AlignmentPlacer.ts:112-125 | The loop and the final gap build exactly the specified feature list. |
| AlignmentPlacer.MakeQueryGenomeNavContext | frontend/src/model/AlignmentPlacer.ts:108-127 | The features are built over the placements sorted by query start. They list every placed locus once, in that order. With a positive scale, every gap is at least one base. |
| Intervals.NewIntervalAsWritten | frontend/src/viz3D/models/IntervalTree.ts:17-28 | The constructor as written: an interval it builds would be non-empty. |
| Intervals.NewIntervalAsWrittenAlwaysFails | frontend/src/viz3D/models/IntervalTree.ts:18-27 | The constructor as written throws on every range, including the non-empty ranges the corrected one accepts. |
| Intervals.NewInterval | frontend/src/viz3D/models/IntervalTree.ts:17-28 | The constructor succeeds exactly on increasing ranges, carries the range, bounds and id, and otherwise throws the range error. |
| Intervals.ResultOf | frontend/src/viz3D/models/IntervalTree.ts:30-45 | `result` carries the interval's id and range; without a query both rates are 0. |
| Intervals.RatesWithinUnit | frontend/src/viz3D/models/IntervalTree.ts:37-43 | For a meeting query, both rates lie in `[0, 1]`. `rate1` is 1 exactly when the interval covers the query; `rate2` is 1 exactly when the query covers the interval. |
| Intervals.RatioWithinUnit | frontend/src/viz3D/models/IntervalTree.ts:41-42 | An overlap length over a larger positive length is in `[0, 1]`, and is 1 only when they are equal. |
| IntervalNodes.Descend | frontend/src/viz3D/models/IntervalTree.ts:145-161 | The routing of `insert` from a node ends at that node or a later one in the arena. |
| IntervalNodes.DescendStable | frontend/src/viz3D/models/IntervalTree.ts:145-161 | A route that ends at a straddled node is unchanged when the tree grows. |
| IntervalNodes.Grow | frontend/src/viz3D/models/IntervalTree.ts:147-149 | A missing child becomes a fresh empty node centred on the interval's midpoint; nothing else changes. |
| IntervalNodes.Store | frontend/src/viz3D/models/IntervalTree.ts:73-76 | `node.insert` adds the interval to both sorted lists of one node; every other node is unchanged. |
| IntervalNodes.InsertAt | frontend/src/viz3D/models/IntervalTree.ts:145-161 | `insert` keeps the tree well formed, only extends nodes and creates at most one node. |
| IntervalNodes.FiledViaChild | frontend/src/viz3D/models/IntervalTree.ts:150 | Filing via a child whose route ends at the same node files from the parent. |
| IntervalNodes.InsertAtFiles | frontend/src/viz3D/models/IntervalTree.ts:145-161 | The inserted interval is filed at the end of its route, a node whose centre it straddles; every other node keeps what it held. |
| IntervalNodes.GrownFiles | frontend/src/viz3D/models/IntervalTree.ts:146-158 | The same filing property when the route needs a missing child. |
| IntervalNodes.ChildFiles | frontend/src/viz3D/models/IntervalTree.ts:146-158 | The same filing property when the route goes on to an existing child. |
| IntervalNodes.InsertAtGrown | frontend/src/viz3D/models/IntervalTree.ts:147-150 | Routing to a missing child grows it and goes on from there. |
| IntervalNodes.InsertAtChild | frontend/src/viz3D/models/IntervalTree.ts:153-157 | Routing to an existing child goes on from it. |
| IntervalNodes.StoreFiles | frontend/src/viz3D/models/IntervalTree.ts:160 | Storing at a straddled node files the interval there. |
| IntervalNodes.EmptyPlaced | frontend/src/viz3D/models/IntervalTree.ts:101 | A lone empty root satisfies the tree invariant. |
| IntervalNodes.InsertKeepsPlaced | frontend/src/viz3D/models/IntervalTree.ts:116-121 | Inserting under a fresh id keeps the tree invariant: every registered interval is filed at the end of its route, and only there. |
| IntervalNodes.InsertKeepsAllFiled | frontend/src/viz3D/models/IntervalTree.ts:119-121 | After an insertion every registered interval, old or new, is at the end of its route. |
| IntervalNodes.InsertKeepsOnlyFiled | frontend/src/viz3D/models/IntervalTree.ts:119-121 | After an insertion the nodes hold only registered intervals, each at the end of its route. |
| IntervalNodes.StartsUpTo | frontend/src/viz3D/models/IntervalTree.ts:167-171 | The `every` scan over `starts` reports only intervals starting at or before the point, and on a sorted list all of them. |
| IntervalNodes.EndsDownTo | frontend/src/viz3D/models/IntervalTree.ts:175-179 | The scan from the largest end reports only intervals ending at or after the point, and on a sorted list all of them. |
| IntervalNodes.EndsUpFromAsWritten | frontend/src/viz3D/models/IntervalTree.ts:175-179 | The ascending scan as written is sound, but reports nothing when the smallest end is before the point. |
| IntervalNodes.PlacedStraddled | frontend/src/viz3D/models/IntervalTree.ts:145-161 | Under the invariant, every interval a node holds straddles that node's centre. |
| IntervalNodes.PointSearchSound | frontend/src/viz3D/models/IntervalTree.ts:163-185 | Point search reports only registered intervals that contain the point. |
| IntervalNodes.PointSearchAsWrittenSound | frontend/src/viz3D/models/IntervalTree.ts:163-185 | Point search as written also reports only registered intervals that contain the point. |
| IntervalNodes.PointSearchReaches | frontend/src/viz3D/models/IntervalTree.ts:163-185 | An interval filed at the end of its route and containing the point is reported: the point's path follows the interval's route. |
| IntervalNodes.PointSearchExact | frontend/src/viz3D/models/IntervalTree.ts:163-185 | Point search from the root reports exactly the registered intervals containing the point. |
| IntervalNodes.PointSearchAsWrittenMisses | frontend/src/viz3D/models/IntervalTree.ts:175-179 | A two-interval tree built by `insert` where the search as written misses an interval containing the point, and the corrected one finds it. |
| IntervalNodes.PointSearch | frontend/src/viz3D/models/IntervalTree.ts:163-185 | Definition of the corrected point search, with the descending end scan. `IntervalNodes.PointSearchSound`, `IntervalNodes.PointSearchReaches` and `IntervalNodes.PointSearchExact` state that it reports exactly the filed intervals containing the point. |
| IntervalNodes.PointSearchAsWritten | frontend/src/viz3D/models/IntervalTree.ts:163-185 | Definition of the point search as written, with the ascending end scan. `IntervalNodes.PointSearchAsWrittenSound` and `IntervalNodes.PointSearchAsWrittenMisses` state that it reports only containing intervals but can miss some. |
| IntervalSearch.AddEndpoints | frontend/src/viz3D/models/IntervalTree.ts:117-118 | The two endpoint insertions keep the list sorted and add exactly the start and end entries. |
| IntervalSearch.AddEndpointsKeepsMatch | frontend/src/viz3D/models/IntervalTree.ts:116-119 | Registering an interval with its endpoints keeps the endpoint list exactly the registered endpoints. |
| IntervalSearch.AddKeepsRegistered | frontend/src/viz3D/models/IntervalTree.ts:117-119 | After adding, every listed endpoint is an endpoint of a registered interval. |
| IntervalSearch.AddKeepsListed | frontend/src/viz3D/models/IntervalTree.ts:117-119 | After adding, both endpoints of every registered interval are listed. |
| IntervalSearch.BSearch | frontend/src/viz3D/models/IntervalTree.ts:199 | `bSearch` returns the last position with a value at most the key, or -1 when all are larger. |
| IntervalSearch.Trunc | frontend/src/viz3D/models/IntervalTree.ts:194 | Truncation toward zero. |
| IntervalSearch.ToInt32 | frontend/src/viz3D/models/IntervalTree.ts:194 | `ToInt32` lands in the signed 32-bit range and agrees with truncation modulo 2^32. |
| IntervalSearch.ProbeAsWritten | frontend/src/viz3D/models/IntervalTree.ts:194 | The probe as written is the floor of a quarter of the 32-bit sum. |
| IntervalSearch.Probe | frontend/src/viz3D/models/IntervalTree.ts:194 | The midpoint probe lies strictly inside every non-empty range. |
| IntervalSearch.RangeIdsExact | frontend/src/viz3D/models/IntervalTree.ts:187-222 | With the midpoint probe, the ids collected are exactly the registered intervals meeting `[s, e]`. |
| IntervalSearch.RangeIdsSound | frontend/src/viz3D/models/IntervalTree.ts:191-215 | Every collected id belongs to an interval meeting the range. |
| IntervalSearch.RangeIdsComplete | frontend/src/viz3D/models/IntervalTree.ts:191-215 | Every interval meeting the range is collected, by an endpoint inside the range or by wrapping the probe. |
| IntervalSearch.RangeIds | frontend/src/viz3D/models/IntervalTree.ts:187-222 | Definition: the ids a range search collects. They are none when the binary search for the range's end returns a negative index. Otherwise they are the ids the point search reports at the probe plus those of the endpoints inside the range. `IntervalSearch.RangeIdsExact`, `IntervalSearch.RangeIdsSound` and `IntervalSearch.RangeIdsComplete` state that they are exactly the intervals meeting the range. |
| IntervalSearch.RangeSearch | frontend/src/viz3D/models/IntervalTree.ts:187-222 | With the midpoint probe and the descending point scan: an empty or reversed range throws. Otherwise the `result(s, e)` record of every registered interval meeting the range is reported once each, in ascending id order, and no other. |
| IntervalSearch.CollectIds | frontend/src/viz3D/models/IntervalTree.ts:191-215 | With the midpoint probe and the descending point scan, the ids gathered in `resultHash` are exactly the specified ones, in ascending order. |
| IntervalSearch.MarkIntervals | frontend/src/viz3D/models/IntervalTree.ts:195-197 | Marking the probe's results adds exactly their ids. |
| IntervalSearch.MarkEndpoints | frontend/src/viz3D/models/IntervalTree.ts:212-215 | Marking the endpoint slice adds exactly its ids. |
| IntervalSearch.LowerIndex | frontend/src/viz3D/models/IntervalTree.ts:199-203 | The search for `s` and the walk left end before every value at or above `s`. |
| IntervalSearch.UpperIndex | frontend/src/viz3D/models/IntervalTree.ts:205-210 | The walk right ends at the first value above `e`, or at the length. |
| IntervalSearch.ResultsFor | frontend/src/viz3D/models/IntervalTree.ts:217-220 | One `result(s, e)` record per key, in key order. |
| IntervalSearch.WindowIsRange | frontend/src/viz3D/models/IntervalTree.ts:199-212 | The positions strictly between the two indices are exactly those with a value in `[s, e]`. |
| IntervalSearch.RangeSearchAsWrittenMisses | frontend/src/viz3D/models/IntervalTree.ts:194 | A one-interval tree built by `add` where the quarter probe collects nothing although the interval covers the range, and the midpoint probe collects it. |
| ObjectKeys.InsertKey | frontend/src/viz3D/models/IntervalTree.ts:196 | Setting a key in `resultHash` keeps the keys ascending and adds the key if it was missing. |
| IntervalTrees.FirstFree | frontend/src/viz3D/models/IntervalTree.ts:109-114 | The chosen id is the first unregistered id at or above the counter. |
| IntervalTrees.NextFree | frontend/src/viz3D/models/IntervalTree.ts:110-112 | The auto-increment loop stops at that first free id. |
| IntervalTrees.Reported | frontend/src/viz3D/models/IntervalTree.ts:167-183 | One `result()` record per reported interval, in order. |
| IntervalTrees.IntervalTree.Init | frontend/src/viz3D/models/IntervalTree.ts:86-102 | A new tree is empty, with a root of the given centre, and satisfies the invariant. |
| IntervalTrees.IntervalTree.Create | frontend/src/viz3D/models/IntervalTree.ts:97-101 | The constructor throws exactly on centre 0; otherwise it gives an empty valid tree. |
| IntervalTrees.IntervalTree.Add | frontend/src/viz3D/models/IntervalTree.ts:104-122 | See below. |
| IntervalTrees.IntervalTree.SearchPoint | frontend/src/viz3D/models/IntervalTree.ts:130-131 | With the descending scan of `ends`, a point search reports exactly the registered intervals containing the point. |
| IntervalTrees.IntervalTree.Search | frontend/src/viz3D/models/IntervalTree.ts:124-138 | One argument gives a point search. Two arguments give a range search, which throws unless the range is increasing. Otherwise it reports exactly the intervals meeting the range, with their rates. Both searches use the corrected point scan, and the range search the midpoint probe. |
| IntervalTrees.IntervalTree.Remove | frontend/src/viz3D/models/IntervalTree.ts:140-142 | `remove` always throws "not implemented". |
| Lists.IndexOf | frontend/src/viz3D/models/System.ts:25 | `indexOf` returns the first position of the element, or -1 exactly when it is absent. |
| Lists.IndexOfAt | frontend/src/viz3D/models/System.ts:25 | The first position is the one holding `x` with no earlier copy. |
| Lists.RemoveAt | frontend/src/viz3D/models/ECS.ts:36 | `splice(i, 1)` drops position `i` and keeps the rest in order. |
| Lists.RemoveAtCount | frontend/src/viz3D/models/ECS.ts:36 | `splice(i, 1)` removes one copy of that element from the contents. |
| Lists.RemoveFirst | frontend/src/viz3D/models/Entity.ts:50-56 | A guarded splice changes nothing for an absent element and shortens the list by one otherwise. |
| Lists.RemoveFirstCount | frontend/src/viz3D/models/Entity.ts:50-56 | A guarded splice removes exactly one copy of a present element. |
| Lists.AppendCount | frontend/src/viz3D/models/Entity.ts:46-48 | Appending an absent element gives it exactly one copy. |
| Lists.RemoveOnlyCount | frontend/src/viz3D/models/Entity.ts:50-56 | Removing an element's only copy leaves none. |
| Lists.RemoveFirstAt | frontend/src/viz3D/models/System.ts:24-32 | Removing the first copy of an element found at `i` drops position `i`. |
| Lists.Odds | frontend/src/viz3D/models/Entity.ts:93-97 | The odd positions of a list: half of it, rounded down. |
| Lists.OddsAt | frontend/src/viz3D/models/Entity.ts:93-97 | Element `k` of the odd positions is element `2k + 1` of the list. |
| Lists.Copies | frontend/src/viz3D/models/ECS.ts:64-67 | `n` copies of an element. |
| Lists.CountIn | frontend/src/viz3D/models/ECS.ts:64-67 | The count of an element in a prefix is at most the prefix length. |
| Lists.CountInAll | frontend/src/viz3D/models/ECS.ts:64-67 | Counting a prefix agrees with its multiset. |
| Registry.ApplyFields | frontend/src/viz3D/models/Entity.ts:77-81 | Copying entries adds or overwrites exactly the listed keys, each with its last entry's value; every other key keeps its value. |
| Registry.Apply | frontend/src/viz3D/models/Entity.ts:77-81 | Definition: the entries copied onto the stored fields in order, later keys overwriting. `Registry.ApplyFields`, `Registry.ApplyKeys` and `Registry.ApplyLast` state its keys and values. |
| Registry.ListedSplit | frontend/src/viz3D/models/Entity.ts:77-81 | A key is listed exactly when it is listed before the last entry or by the last entry. |
| Registry.ApplyKeys | frontend/src/viz3D/models/Entity.ts:77-81 | The keys written are exactly the listed ones; unlisted keys keep their values. |
| Registry.ApplyLast | frontend/src/viz3D/models/Entity.ts:77-81 | Each key ends with the value of its last entry. |
| Registry.BeforeEmptyKey | frontend/src/viz3D/models/Entity.ts:79 | The copy loop reaches the entries before the first empty key, and stops at it. |
| Registry.CopyFieldsAsWritten | frontend/src/viz3D/models/Entity.ts:77-81 | The loop as written copies only the entries before the first empty key. |
| Registry.CopyFields | frontend/src/viz3D/models/Entity.ts:77-81 | The loop over every entry copies all of them. |
| Registry.EmptyKeyStopsCopy | frontend/src/viz3D/models/Entity.ts:79 | A data object whose first key is empty: the loop as written copies nothing, while the corrected loop writes the later field. |
| Registry.AcceptedCount | frontend/src/viz3D/models/ECS.ts:64-67 | The entities `addSystem` enrols are exactly the accepted ones, each as often as it is listed. |
| Registry.AcceptedStep | frontend/src/viz3D/models/ECS.ts:64-67 | One more entity is enrolled after the others if accepted, and skipped otherwise. |
| Registry.EnrolledAll | frontend/src/viz3D/models/ECS.ts:64-67 | After the loop, each accepted entity has gained one link per listing. |
| Registry.EntersStep | frontend/src/viz3D/models/ECS.ts:64-67 | The `enter` calls for the accepted entities among the first `i + 1` are those for the first `i`, plus one for entity `i` exactly when it is accepted. |
| Registry.EntersAppend | frontend/src/viz3D/models/ECS.ts:64-67 | The `enter` calls for a list with one more entity end with that entity's `enter`. |
| Registry.FindId | frontend/src/viz3D/models/ECS.ts:42 | `findIndex` by id returns the first entity with the id, or -1 exactly when none has it. |
| Registry.Entity.constructor | frontend/src/viz3D/models/Entity.ts:17-31 | A new entity has its id and components, no systems, is clean and belongs to no registry. |
| Registry.Entity.AddToECS | frontend/src/viz3D/models/Entity.ts:33-36 | The entity records the registry and becomes dirty. It is queued there unless it was dirty already. |
| Registry.Entity.SetSystemsDirty | frontend/src/viz3D/models/Entity.ts:38-44 | An entity in a registry that is not yet dirty becomes dirty and is queued once; otherwise nothing is queued. |
| Registry.Entity.AddSystem | frontend/src/viz3D/models/Entity.ts:46-48 | The system is appended; nothing else changes. |
| Registry.Entity.RemoveSystem | frontend/src/viz3D/models/Entity.ts:50-56 | The first copy of the system goes, if there is one. |
| Registry.Entity.AddComponent | frontend/src/viz3D/models/Entity.ts:58-61 | The data, or empty data, is stored under the name and the entity is marked dirty. |
| Registry.Entity.GetComponent | frontend/src/viz3D/models/Entity.ts:63-65 | The stored data under the name, absent exactly when nothing is stored. |
| Registry.Entity.HasComponent | frontend/src/viz3D/models/Entity.ts:67-69 | Holds exactly when `getComponent` finds data. |
| Registry.Entity.UpdateComponent | frontend/src/viz3D/models/Entity.ts:71-83 | See below. |
| Registry.Entity.DisposeAsWritten | frontend/src/viz3D/models/Entity.ts:93-97 | `dispose` as written unlinks only the systems at even positions, and each of those runs `exit` for the entity once. The entity keeps the odd ones; they keep it and run no hook. |
| Registry.Entity.WalkStep | frontend/src/viz3D/models/Entity.ts:94-96 | One round of that walk removes the `2i`-th original system on both sides, and that system runs `exit`. |
| Registry.Entity.WalkAll | frontend/src/viz3D/models/Entity.ts:94-96 | The walk stops after `(n + 1) / 2` rounds for `n` systems, with the state and hook logs those rounds give. |
| Registry.Entity.Dispose | frontend/src/viz3D/models/Entity.ts:93-97 | Walking a copy of the list, the entity leaves every system, and each system drops it and runs `exit` for it once. |
| Registry.Entity.LeaveAt | frontend/src/viz3D/models/Entity.ts:94-96 | One round of the corrected walk: the entity leaves the next system of the copy, which drops it and runs `exit`; every other system of the copy is untouched. |
| Registry.ListedEverywhere | frontend/src/viz3D/models/Entity.ts:93-97 | A back-linked entity appears in each of its systems' entity lists. |
| Registry.WalkedDone | frontend/src/viz3D/models/Entity.ts:93-97 | After the walk, even-position systems have dropped the entity and odd ones are untouched. |
| Registry.ExitedDone | frontend/src/viz3D/models/Entity.ts:93-97 | When the walk ends, the systems at even positions have run `exit` once more and the others hold their old logs. |
| Registry.WalkedStart | frontend/src/viz3D/models/Entity.ts:93-97 | Before the walk no list has changed. |
| Registry.WalkedNext | frontend/src/viz3D/models/Entity.ts:94-96 | One round changes only the list at position `2i`. |
| Registry.SurvivorsStep | frontend/src/viz3D/models/Entity.ts:94-96 | Position `i` holds the `2i`-th original system, and removing it leaves the survivors of one more round. |
| Registry.SurvivorsDone | frontend/src/viz3D/models/Entity.ts:93-97 | When the walk ends, the remaining systems are those at odd positions. |
| Registry.System.constructor | frontend/src/viz3D/models/System.ts:46-48 | The base system holds nothing and its `test` accepts no entity. |
| Registry.System.WithTest | frontend/src/viz3D/models/System.ts:46-48 | A subclass system with its own `test`, holding nothing. |
| Registry.System.Test | frontend/src/viz3D/models/System.ts:46-48 | Definition: the system's acceptance test applied to the entity's id and components. The base class answers false, and the system `Registry.System.constructor` builds does too; a subclass's test is given to `Registry.System.WithTest`. `Registry.Reconcile` states that membership after reconciliation equals it, and `Registry.ECS.EnrolAll` that enrolment follows it. |
| Registry.System.AddToECS | frontend/src/viz3D/models/System.ts:13-16 | The registry is recorded, then `init` runs. |
| Registry.System.AddEntity | frontend/src/viz3D/models/System.ts:18-22 | Both sides gain the link, then `enter` runs. |
| Registry.System.RemoveEntity | frontend/src/viz3D/models/System.ts:24-32 | An unlisted entity changes nothing. A listed one loses the link on both sides, then `exit` runs. |
| Registry.System.AddEntityAsWritten | frontend/src/viz3D/models/System.ts:5-22 | As written, no constructor sets `entities`. The entity records the system, then `push` throws, so the link is one-sided and the system's side is unchanged. |
| Registry.System.RemoveEntityAsWritten | frontend/src/viz3D/models/System.ts:24-25 | As written, `indexOf` on the unset list throws before either side changes. |
| Registry.System.UpdateAll | frontend/src/viz3D/models/System.ts:34-38 | `preUpdate`, `update` with the entities and elapsed time, then `postUpdate`. |
| Registry.System.Dispose | frontend/src/viz3D/models/System.ts:56 | The `dispose` hook runs. |
| Registry.Reconcile | frontend/src/viz3D/models/ECS.ts:87-94 | A paired entity ends up linked to the system, once on both sides, exactly when the system accepts it. The system runs `enter` when a newly accepted entity joins, `exit` when a rejected one leaves, and no hook otherwise. |
| Registry.ReconcileLog | frontend/src/viz3D/models/ECS.ts:87-94 | Definition: the hooks one reconciliation runs, `enter` for an unlinked entity now accepted and `exit` for a linked entity now rejected. `Registry.Reconcile` states that the system's log gains exactly these. |
| Registry.ECS.Init | frontend/src/viz3D/models/ECS.ts:15-17 | The constructor as written starts with no systems, whatever it is given. |
| Registry.ECS.WithSystems | frontend/src/viz3D/models/ECS.ts:15-17 | The corrected constructor adds the given systems in order, and each joins the registry. |
| Registry.ECS.GetEntityById | frontend/src/viz3D/models/ECS.ts:19-21 | The first entity with the id, absent exactly when none has it. |
| Registry.ECS.AddEntity | frontend/src/viz3D/models/ECS.ts:23-26 | The entity is appended and joins the registry, which queues it unless it was dirty. |
| Registry.ECS.RemoveEntityIfDirty | frontend/src/viz3D/models/ECS.ts:54-60 | The first queued copy of the entity leaves the queue. |
| Registry.ECS.RemoveEntity | frontend/src/viz3D/models/ECS.ts:28-39 | An unlisted entity gives null and changes nothing. A listed one is disposed as written: the systems at even positions of its list drop it, and it keeps those at odd positions, which keep it. Only the even-position systems run `exit`. It then leaves the queue and the list and is returned. Its dirty flag, components and registry are kept. |
| Registry.ECS.RemoveListed | frontend/src/viz3D/models/ECS.ts:33-36 | The entity at the index is disposed as written: even-position systems drop it and run `exit`, and it keeps the odd ones. It then leaves the queue and the list. Its dirty flag, components and registry are kept. |
| Registry.ECS.RemoveEntityById | frontend/src/viz3D/models/ECS.ts:41-52 | Null exactly when no entity has the id. Otherwise the first such entity is removed as in `removeEntity`, with `exit` run by the even-position systems, and returned. Other listed entities keep their systems, and every listed entity keeps its dirty flag, components and registry. |
| Registry.ECS.AddSystem | frontend/src/viz3D/models/ECS.ts:62-69 | The system is appended and enrols every accepted entity in list order, one link per listing; then it joins the registry. Its hook log gains one `enter` per accepted listing, in list order, then `init`. |
| Registry.ECS.EnrolAll | frontend/src/viz3D/models/ECS.ts:64-67 | The loop adds exactly the accepted entities, in order, one link per listing, and the system runs `enter` for each, in that order. |
| Registry.ECS.EnrolRound | frontend/src/viz3D/models/ECS.ts:64-67 | One round of the loop takes both the enrolment and the `enter` log one entity further. |
| Registry.ECS.EnrolAt | frontend/src/viz3D/models/ECS.ts:65-66 | One round takes the enrolment one entity further, with one `enter` exactly when the system accepts that entity. |
| Registry.ECS.RemoveSystem | frontend/src/viz3D/models/ECS.ts:75-82 | A listed system loses its first place and is disposed; an unlisted one changes nothing. |
| Registry.ECS.ReconcileEntity | frontend/src/viz3D/models/ECS.ts:86-95 | After the inner loop, the entity is in exactly the systems that accept it, links stay two-sided, and other entities keep their places. |
| Registry.ECS.ReconcileRound | frontend/src/viz3D/models/ECS.ts:87-94 | One round reconciles the entity with the next system and keeps every other link, and every other entity's place in the systems. |
| Registry.ECS.CleanAt | frontend/src/viz3D/models/ECS.ts:85-97 | One round cleans one more queued entity and keeps all pairings. The systems' counts of other entities are kept, and so are the entity's links to systems outside the registry. |
| Registry.ECS.CleanRound | frontend/src/viz3D/models/ECS.ts:85-97 | One round keeps, across the whole queue, the systems' counts of entities outside the queue and every queued entity's links to systems outside the registry. |
| Registry.ECS.CleanQueue | frontend/src/viz3D/models/ECS.ts:85-98 | After all rounds every queued entity is clean and in exactly the systems that accept it, with two-sided links. Systems hold every entity outside the queue as often as before, and queued entities keep their links to systems outside the registry. |
| Registry.ECS.CleanDirtyEntities | frontend/src/viz3D/models/ECS.ts:84-99 | Every queued entity ends clean and in exactly the systems that accept it, and links stay two-sided. Systems hold every unqueued entity as often as before. Queued entities keep their components, their registry and their links to systems outside the registry. The queue is emptied. |

`IntervalTrees.IntervalTree.Add` states this:

- A registered id throws the duplicate error and changes nothing.
- Without an id, the first free id at or above the counter is taken.
- A non-increasing range then throws.
- Otherwise the interval is registered, its endpoints are listed, it is inserted from the root and
  the counter moves one past.
- The interval is built by the corrected constructor, which reads the end from `range[1]`.

`Registry.Entity.UpdateComponent` states this:

- Without stored data, it adds the component from the entries.
- With stored data and no data object, it throws.
- Otherwise the copy loop as written runs: the entries before the first empty key are copied into
  the stored data, other fields are kept and the entity is not marked dirty.

## Left out

- `ECS.update` reads a clock (`performance.now()`), so it is not modelled.
- `ECS.nextID` draws a random uuid, so it is not modelled.
- `ECS.getSystem` compares constructor identity, which has no counterpart among values here, so it
  is not modelled.
- The `updateCounter` and `lastUpdate` fields go with `ECS.update` and are not modelled.
- `Entity.updateComponents` loops `for..in` over the array of keys, so it passes the index strings
  `"0"`, `"1"`, … as component names. Converting numbers to decimal strings and looking up the data
  object by index are not modelled, so the method is not modelled.
- Component resolution in the `Entity` constructor is not modelled: `getDefaults`, `Object.assign`
  of `defaults` and the `constructor.name` keys. The model's constructor takes the resolved map.
- The `transform` field of `Entity` is not used by the modelled operations and is not modelled.
- The `name` field of `System` is not used by the modelled operations and is not modelled.
- Component data values are arbitrary JavaScript values in the source; they are modelled as
  integers.
- Entity ids (`number | string`) are modelled as integers.
- Stored component data objects are shared references in the source, and `updateComponent` mutates
  them in place. The model stores values, so aliasing between holders is not captured.
- `System.entities` has no initialiser in the source, and no subclass sets it, so `addEntity` and
  `removeEntity` throw on every system (see Findings). Apart from
  `Registry.System.AddEntityAsWritten` and `Registry.System.RemoveEntityAsWritten`, the model starts
  every system with an empty list.
- The hooks a system subclass overrides are recorded in a ghost log of calls, not run:
  - `init`, `enter`, `exit`;
  - `preUpdate`, `update`, `postUpdate`;
  - `dispose`.
- `Registry.System.constructor`: `test` is a fixed function of the entity's id and components.
  Subclass state is not modelled.
- `Registry.Reconcile`: states the two lists by their counts (multisets), not by the positions the
  append and splice give.
- `Registry.ECS.ReconcileEntity`: states membership and counts, not list order.
- `Registry.ECS.ReconcileEntity`, `Registry.ECS.CleanAt`, `Registry.ECS.CleanRound`,
  `Registry.ECS.CleanQueue`, `Registry.ECS.CleanDirtyEntities` and `Registry.ECS.WithSystems` do not
  state the hook log they build. Each `Registry.Reconcile` and `Registry.ECS.AddSystem` call they
  make states its own `enter`/`exit`/`init` entries, but the concatenation across systems, which
  may repeat, is not stated.
- `Registry.ECS.CleanDirtyEntities`: requires every queued entity to be paired with every system:
  each side lists the other equally often, at most once. With unpaired links the source's one-sided
  `indexOf` test can add a second copy, and that case is not modelled.
- `Registry.Entity.Dispose`: requires the entity's systems to be distinct and each to list the
  entity back, as `addEntity` builds them.
- `Registry.Entity.DisposeAsWritten`: carries the same precondition as `Registry.Entity.Dispose`.
- `Registry.ECS.RemoveEntity`: requires that same precondition for a listed entity.
- `Registry.ECS.RemoveEntityById`: requires that same precondition for the entity found.
- `Registry.ECS.RemoveListed` is the common tail of `removeEntity` and `removeEntityById`. It is
  modelled once.
- The loops of `addSystem`, `cleanDirtyEntities`, `makeQueryGenomeNavContext` and `dispose` are
  written as helper methods, one per loop or loop round (`EnrolAll`/`EnrolRound`/`EnrolAt`,
  `CleanQueue`/`CleanRound`/`CleanAt`/`ReconcileRound`, `NavContextOf`, `WalkAll`/`WalkStep`,
  `LeaveAt`). Each is proved against the same
  specification as the loop.
- The registry's removal operations use `dispose` as written, and `updateComponent` uses the copy
  loop as written, so that they state what the source does. The corrected `dispose` and copy loop
  are proved beside them (see Findings).
- `AlignmentPlacer.MergeAndPlaceAlignments`: requires every wide merge to have target spans of
  non-zero total length. The source divides by zero there and places the merge at NaN.
- `AlignmentPlacer.IntervalPlacer.constructor`: requires a non-negative margin. The source passes
  `MARGIN` (5).
- `AlignmentPlacer.MakeQueryGenomeNavContext`: returns the feature list. The `NavigationContext`
  built from it is not modelled.
- `AlignmentPlacer.MakeQueryGenomeNavContext`: states the gap lengths only for a positive scale.
- `ChromosomeInterval.mergeAdvanced` and `computeNavContextCoordinates` are not part of this model.
  They are passed in as functions.
- `LinearDrawingModel` is not part of this model. It is taken to be a linear map with a positive
  scale.
- `OpenInterval.getOverlap` is not part of this model. It is given the half-open intersection as its
  contract.
- Floating-point rounding and NaN are not modelled; coordinates are exact reals.
- `Interval`'s `data` payload is not modelled.
- The `typeof … != 'number'` checks of the tree are not modelled, because the model's coordinates
  are always numbers.
- The interval tree's ids are modelled as optional integers. A fractional or non-integer id is not
  modelled.
- `IntervalTrees.IntervalTree.SearchPoint`: states which intervals are reported, not their order or
  multiplicity.
- The linked `IntervalNode` objects are kept in an arena of nodes indexed by position.
- `sortedlist`'s `bSearch` is modelled by the result the tree relies on: the last position at or
  below the key.
- `sortedlist`'s placement of equal keys is modelled as "before the first element that is not
  smaller".
- `Object.keys` on `resultHash` is modelled as the ascending list of integer ids. JavaScript lists
  only the array-index keys, 0 to 2^32 − 2, in ascending order. Negative ids, and ids of 2^32 − 1 or
  more, follow them in insertion order.
- `IntervalSearch.RangeSearch`: reports in ascending id order, which differs from the source's order
  when an id is negative or at least 2^32 − 1.
- `IntervalSearch.RangeSearch`: uses the midpoint probe and the descending scan of `ends`, not the
  quarter probe and the ascending scan as written (see Findings).
- `IntervalSearch.CollectIds`: uses the midpoint probe and the descending scan of `ends` (see Findings).
- `IntervalTrees.IntervalTree.Add`: builds the interval with the corrected constructor. As written,
  every add that reaches the constructor throws (see Findings).
- `IntervalTrees.IntervalTree.SearchPoint`: uses the descending scan of `ends`. As written, the scan
  can miss intervals (see Findings).
- `IntervalTrees.IntervalTree.Search`: uses the descending scan and the midpoint probe (see Findings).
- `FeaturePlacer.PlaceFeatures`: states membership in both directions, and order through the concat
  lemmas. It does not state multiplicity.

## Findings

| source | as written | input that shows it | evidently intended | confidence | as-written member | corrected member |
|---|---|---|---|---|---|---|
| frontend/src/viz3D/models/IntervalTree.ts:19 | `end` is read from `range[0]`, so `start >= end` always throws | any range, e.g. `[1, 2]` | `end = range[1]` | not executed | Intervals.NewIntervalAsWritten, Intervals.NewIntervalAsWrittenAlwaysFails | Intervals.NewInterval, IntervalTrees.IntervalTree.Add |
| frontend/src/viz3D/models/IntervalTree.ts:175-179 | `every` scans `ends` in ascending order and stops at the first interval ending before the point | root centred at 10 holding `[5, 12]` and `[8, 20]`, point 15: nothing is reported | scan from the largest end down | not executed | IntervalNodes.PointSearchAsWritten, IntervalNodes.PointSearchAsWrittenMisses | IntervalNodes.PointSearch, IntervalNodes.PointSearchExact, IntervalTrees.IntervalTree.SearchPoint, IntervalTrees.IntervalTree.Search, IntervalSearch.RangeSearch |
| frontend/src/viz3D/models/IntervalTree.ts:194 | the probe is `(start + end) >> 2`, a quarter of the sum | root centred at 100 holding `[90, 110]`, range `(100, 104)`: probe 51, nothing is reported | the midpoint `(start + end) / 2` | not executed | IntervalSearch.ProbeAsWritten, IntervalSearch.RangeSearchAsWrittenMisses | IntervalSearch.Probe, IntervalSearch.RangeIdsExact, IntervalSearch.CollectIds, IntervalSearch.RangeSearch, IntervalTrees.IntervalTree.Search |
| frontend/src/viz3D/models/ECS.ts:15-17 | the constructor walks `this.systems`, still empty, instead of its argument | `new ECS([s])` has no systems | add each given system | not executed | Registry.ECS.Init | Registry.ECS.WithSystems |
| frontend/src/viz3D/models/Entity.ts:93-97 | `dispose` iterates `systems` while `removeEntity` splices it, skipping every second system | an entity in systems `[A, B]` stays linked to `B` | iterate a copy | not executed | Registry.Entity.DisposeAsWritten, Registry.ECS.RemoveEntity, Registry.ECS.RemoveEntityById | Registry.Entity.Dispose |
| frontend/src/viz3D/models/Entity.ts:79 | the loop condition is the key itself, so an empty key ends the copy | data `{"": 1, b: 2}`: `b` is not copied | `i < keys.length` | not executed | Registry.CopyFieldsAsWritten, Registry.EmptyKeyStopsCopy, Registry.Entity.UpdateComponent | Registry.CopyFields, Registry.ApplyFields |
| frontend/src/viz3D/models/System.ts:5 | `entities` is declared, but neither the base constructor nor any subclass sets it, so `push` and `indexOf` read an undefined list | any system `s` and entity `e`: `s.addEntity(e)` throws after `e` has recorded `s` | initialise `entities` to `[]` | not executed | Registry.System.AddEntityAsWritten, Registry.System.RemoveEntityAsWritten | Registry.System.constructor, Registry.System.AddEntity |
