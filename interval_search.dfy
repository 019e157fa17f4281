/** The endpoint list of the interval tree and `rangeSearch`, which answers a range query with a
    point probe for the intervals wrapping the whole range plus a scan of the endpoints that fall
    inside it. */
module IntervalSearch {
  import opened Common
  import opened Sorting
  import opened ObjectKeys
  import opened Intervals
  import opened IntervalNodes

  /** An entry `[value, id]` of the tree's sorted endpoint list. */
  datatype Endpoint = Endpoint(value: real, id: int)

  function ValueOf(p: Endpoint): real { p.value }

  /** The endpoint list is sorted by value and holds the start and the end of every registered
      interval and nothing else. */
  ghost predicate PointsMatch(points: seq<Endpoint>, hash: map<int, Interval>) {
    SortedBy(points, ValueOf) && PointsRegistered(points, hash) && EndpointsListed(points, hash)
  }

  /** Every entry is the start or the end of the interval registered under its id. */
  ghost predicate PointsRegistered(points: seq<Endpoint>, hash: map<int, Interval>) {
    forall j | 0 <= j < |points| ::
      points[j].id in hash && (points[j].value == hash[points[j].id].start || points[j].value == hash[points[j].id].end)
  }

  /** Both endpoints of every registered interval are listed. */
  ghost predicate EndpointsListed(points: seq<Endpoint>, hash: map<int, Interval>) {
    forall id | id in hash :: Endpoint(hash[id].start, id) in points && Endpoint(hash[id].end, id) in points
  }

  /** The two `pointTree.insert` calls of `add`: the start, then the end, each at its sorted place. */
  function AddEndpoints(points: seq<Endpoint>, itv: Interval): (r: seq<Endpoint>)
    requires SortedBy(points, ValueOf)
    ensures SortedBy(r, ValueOf)
    ensures multiset(r) == multiset(points) + multiset{Endpoint(itv.start, itv.id), Endpoint(itv.end, itv.id)}
  {
    var withStart := InsertSorted(Endpoint(itv.start, itv.id), points, ValueOf);
    InsertSorted(Endpoint(itv.end, itv.id), withStart, ValueOf)
  }

  /** Registering an interval under a fresh id together with its endpoints keeps the list in step
      with the hash. */
  lemma AddEndpointsKeepsMatch(points: seq<Endpoint>, hash: map<int, Interval>, itv: Interval)
    requires PointsMatch(points, hash) && itv.id !in hash
    ensures PointsMatch(AddEndpoints(points, itv), hash[itv.id := itv])
  {
    var r := AddEndpoints(points, itv);
    AddKeepsRegistered(points, hash, itv, r);
    AddKeepsListed(points, hash, itv, r);
  }

  lemma AddKeepsRegistered(points: seq<Endpoint>, hash: map<int, Interval>, itv: Interval, r: seq<Endpoint>)
    requires PointsRegistered(points, hash) && itv.id !in hash
    requires multiset(r) == multiset(points) + multiset{Endpoint(itv.start, itv.id), Endpoint(itv.end, itv.id)}
    ensures PointsRegistered(r, hash[itv.id := itv])
  {
    var h := hash[itv.id := itv];
    forall j | 0 <= j < |r|
      ensures r[j].id in h && (r[j].value == h[r[j].id].start || r[j].value == h[r[j].id].end)
    {
      var p := r[j];
      assert p in multiset(r);
      if p in multiset(points) {
        var i :| 0 <= i < |points| && points[i] == p;
        assert p.id in hash && p.id != itv.id;
      }
    }
  }

  lemma AddKeepsListed(points: seq<Endpoint>, hash: map<int, Interval>, itv: Interval, r: seq<Endpoint>)
    requires EndpointsListed(points, hash) && itv.id !in hash
    requires multiset(r) == multiset(points) + multiset{Endpoint(itv.start, itv.id), Endpoint(itv.end, itv.id)}
    ensures EndpointsListed(r, hash[itv.id := itv])
  {
    var h := hash[itv.id := itv];
    forall id | id in h
      ensures Endpoint(h[id].start, id) in r && Endpoint(h[id].end, id) in r
    {
      if id != itv.id {
        assert Endpoint(h[id].start, id) in multiset(points);
        assert Endpoint(h[id].end, id) in multiset(points);
      }
      assert Endpoint(h[id].start, id) in multiset(r);
      assert Endpoint(h[id].end, id) in multiset(r);
    }
  }

  /** `bSearch` of the sorted list, as the tree uses it: the last position whose value is at most
      `key`, or -1 when every value is larger. */
  function BSearch(points: seq<Endpoint>, key: real): (r: int)
    ensures -1 <= r < |points|
    ensures r >= 0 ==> points[r].value <= key
    ensures forall j | r < j < |points| :: points[j].value > key
  {
    if points == [] then -1
    else if points[|points| - 1].value <= key then |points| - 1
    else BSearch(points[..|points| - 1], key)
  }

  /** Truncation toward zero, as JavaScript's integer conversions apply it. */
  function Trunc(x: real): (r: int)
    ensures x >= 0.0 ==> r as real <= x < r as real + 1.0
    ensures x < 0.0 ==> r as real - 1.0 < x <= r as real
  {
    if x >= 0.0 then x.Floor else -((-x).Floor)
  }

  /** JavaScript's `ToInt32`: truncate, then wrap into the signed 32-bit range. */
  function ToInt32(x: real): (r: int)
    ensures -0x8000_0000 <= r < 0x8000_0000
    ensures (r - Trunc(x)) % 0x1_0000_0000 == 0
  {
    var m := Trunc(x) % 0x1_0000_0000;
    if m >= 0x8000_0000 then m - 0x1_0000_0000 else m
  }

  /** The probe as written, `(start + end) >> 2`: the 32-bit sum shifted right by two, which is
      its floor division by 4 — a quarter of the sum, not its half. */
  function ProbeAsWritten(s: real, e: real): (r: int)
    ensures 4 * r <= ToInt32(s + e) < 4 * r + 4
  {
    ToInt32(s + e) / 4
  }

  /** The midpoint probe: strictly inside every non-empty query range. */
  function Probe(s: real, e: real): (r: real)
    ensures s < e ==> s < r < e
  {
    (s + e) / 2.0
  }

  /** The ids `rangeSearch` collects with the given probe: those of the intervals point search
      reports at the probe, and those of the endpoints within `[s, e]`; nothing at all when the
      search for `e` in the endpoint list returns a negative index. */
  ghost function RangeIds(nodes: seq<Node>, points: seq<Endpoint>, s: real, e: real, probe: real): set<int>
    requires Linked(nodes) && |nodes| > 0
  {
    if BSearch(points, e) < 0 then {} else WrapIds(nodes, probe) + EndpointIds(points, s, e)
  }

  /** The ids of the intervals point search reports at the probe. */
  ghost function WrapIds(nodes: seq<Node>, probe: real): set<int>
    requires Linked(nodes) && |nodes| > 0
  {
    set x | x in PointSearch(nodes, 0, probe) :: x.id
  }

  /** The ids of the endpoints whose value lies in `[s, e]`. */
  ghost function EndpointIds(points: seq<Endpoint>, s: real, e: real): set<int> {
    set j | 0 <= j < |points| && s <= points[j].value <= e :: points[j].id
  }

  /** The ids of the registered intervals that meet the closed range `[s, e]`. */
  ghost function Overlapping(hash: map<int, Interval>, s: real, e: real): set<int> {
    set id | id in hash && hash[id].Meets(s, e)
  }

  /** With the midpoint probe, range search collects exactly the intervals meeting the range:
      one meeting it either has an endpoint inside it or wraps it and so contains the probe. */
  lemma RangeIdsExact(nodes: seq<Node>, hash: map<int, Interval>, points: seq<Endpoint>, s: real, e: real)
    requires Placed(nodes, hash) && PointsMatch(points, hash) && s < e
    ensures RangeIds(nodes, points, s, e, Probe(s, e)) == Overlapping(hash, s, e)
  {
    PointSearchExact(nodes, hash, Probe(s, e));
    RangeIdsSound(nodes, hash, points, s, e);
    RangeIdsComplete(nodes, hash, points, s, e);
  }

  lemma RangeIdsSound(nodes: seq<Node>, hash: map<int, Interval>, points: seq<Endpoint>, s: real, e: real)
    requires Placed(nodes, hash) && PointsMatch(points, hash) && s < e
    requires forall x :: x in PointSearch(nodes, 0, Probe(s, e)) <==> x.id in hash && hash[x.id] == x && x.Contains(Probe(s, e))
    ensures RangeIds(nodes, points, s, e, Probe(s, e)) <= Overlapping(hash, s, e)
  {
  }

  lemma RangeIdsComplete(nodes: seq<Node>, hash: map<int, Interval>, points: seq<Endpoint>, s: real, e: real)
    requires Placed(nodes, hash) && PointsMatch(points, hash) && s < e
    requires forall x :: x in PointSearch(nodes, 0, Probe(s, e)) <==> x.id in hash && hash[x.id] == x && x.Contains(Probe(s, e))
    ensures Overlapping(hash, s, e) <= RangeIds(nodes, points, s, e, Probe(s, e))
  {
    var ids := RangeIds(nodes, points, s, e, Probe(s, e));
    forall id | id in Overlapping(hash, s, e) ensures id in ids {
      var itv := hash[id];
      var i :| 0 <= i < |points| && points[i] == Endpoint(itv.start, id);
      assert BSearch(points, e) >= 0;
      if s <= itv.start {
        assert points[i].id == id;
      } else if itv.end <= e {
        var k :| 0 <= k < |points| && points[k] == Endpoint(itv.end, id);
        assert points[k].id == id;
      } else {
        assert itv in PointSearch(nodes, 0, Probe(s, e));
      }
    }
  }

  /** `rangeSearch`: fails on an empty or reversed range; otherwise reports, in ascending id
      order and once each, the `result(s, e)` record of every registered interval that meets the
      closed range `[s, e]`, and of no other. */
  method RangeSearch(nodes: seq<Node>, hash: map<int, Interval>, points: seq<Endpoint>, s: real, e: real)
    returns (r: Result<seq<IntervalResult>, TreeError>)
    requires Placed(nodes, hash) && PointsMatch(points, hash)
    ensures r.Ok? <==> e - s > 0.0
    ensures r.Err? ==> r.error == InvalidRange
    ensures r.Ok? ==> forall j | 0 <= j < |r.value| ::
      r.value[j].id in hash && r.value[j] == ResultOf(hash[r.value[j].id], Some((s, e)))
    ensures r.Ok? ==> forall i, j | 0 <= i < j < |r.value| :: r.value[i].id < r.value[j].id
    ensures r.Ok? ==> forall id :: id in Overlapping(hash, s, e) <==> exists j | 0 <= j < |r.value| :: r.value[j].id == id
  {
    if e - s <= 0.0 {
      return Err(InvalidRange);
    }
    var found := CollectIds(nodes, points, s, e);
    RangeIdsExact(nodes, hash, points, s, e);
    forall m | 0 <= m < |found|
      ensures found[m] in hash && hash[found[m]].id == found[m] && hash[found[m]].start < hash[found[m]].end
    {
      assert found[m] in found;
    }
    var results := ResultsFor(hash, found, s, e);
    assert forall j | 0 <= j < |results| :: results[j].id == found[j];
    forall id | id in Overlapping(hash, s, e)
      ensures exists j | 0 <= j < |results| :: results[j].id == id
    {
      var j :| 0 <= j < |found| && found[j] == id;
      assert results[j].id == id;
    }
    return Ok(results);
  }

  /** The ids `rangeSearch` gathers in `resultHash` before reporting: those of the point probe at
      the midpoint, then those of the endpoint slice the two walks bracket. They are the ids the
      specification `RangeIds` names, in ascending order. */
  method CollectIds(nodes: seq<Node>, points: seq<Endpoint>, s: real, e: real) returns (found: seq<int>)
    requires Linked(nodes) && |nodes| > 0 && SortedBy(points, ValueOf) && s < e
    ensures Increasing(found)
    ensures forall y :: y in found <==> y in RangeIds(nodes, points, s, e, Probe(s, e))
  {
    var wraps := PointSearch(nodes, 0, Probe(s, e));
    found := MarkIntervals([], wraps);
    var idx1 := LowerIndex(points, s);
    var idx2 := BSearch(points, e);
    if idx2 < 0 {
      return [];
    }
    idx2 := UpperIndex(points, e, idx2);
    WindowIsRange(points, s, e, idx1, idx2);
    found := MarkEndpoints(found, points, idx1, idx2);
  }

  /** The `forEach` setting the ids of the wrapping intervals in `resultHash`. */
  method MarkIntervals(found: seq<int>, wraps: seq<Interval>) returns (r: seq<int>)
    requires Increasing(found)
    ensures Increasing(r)
    ensures forall y :: y in r <==> y in found || y in (set x | x in wraps :: x.id)
  {
    r := found;
    for j := 0 to |wraps|
      invariant Increasing(r)
      invariant forall y :: y in r <==> y in found || y in (set x | x in wraps[..j] :: x.id)
    {
      assert wraps[..j + 1] == wraps[..j] + [wraps[j]];
      r := InsertKey(wraps[j].id, r);
    }
    assert wraps[..|wraps|] == wraps;
  }

  /** The `forEach` over the slice `points[lo + 1 .. hi]` setting the ids of its endpoints in
      `resultHash`. */
  method MarkEndpoints(found: seq<int>, points: seq<Endpoint>, lo: int, hi: int) returns (r: seq<int>)
    requires Increasing(found) && -1 <= lo < hi <= |points|
    ensures Increasing(r)
    ensures forall y :: y in r <==> y in found || y in (set j | lo < j < hi :: points[j].id)
  {
    r := found;
    for j := lo + 1 to hi
      invariant Increasing(r)
      invariant forall y :: y in r <==> y in found || y in (set k | lo < k < j :: points[k].id)
    {
      r := InsertKey(points[j].id, r);
    }
  }

  /** The search for `s`, then the walk left over the entries equal to `s`: the result is the last
      position before every value at or above `s`. */
  method LowerIndex(points: seq<Endpoint>, s: real) returns (idx1: int)
    requires SortedBy(points, ValueOf)
    ensures -1 <= idx1 <= BSearch(points, s)
    ensures idx1 >= 0 ==> points[idx1].value < s
    ensures forall j | idx1 < j < |points| :: points[j].value >= s
  {
    idx1 := BSearch(points, s);
    while idx1 >= 0 && points[idx1].value == s
      invariant -1 <= idx1 <= BSearch(points, s)
      invariant idx1 >= 0 ==> points[idx1].value <= s
      invariant forall j | idx1 < j < |points| :: points[j].value >= s
      decreases idx1
    {
      idx1 := idx1 - 1;
    }
  }

  /** The walk right from the search result for `e` over the entries at most `e`: the result is
      the first position holding a value above `e`, or the length. */
  method UpperIndex(points: seq<Endpoint>, e: real, from: int) returns (idx2: int)
    requires SortedBy(points, ValueOf) && from == BSearch(points, e) && from >= 0
    ensures from <= idx2 <= |points|
    ensures forall j | 0 <= j < idx2 :: points[j].value <= e
    ensures idx2 < |points| ==> points[idx2].value > e
  {
    idx2 := from;
    while idx2 <= |points| - 1 && points[idx2].value <= e
      invariant from <= idx2 <= |points|
      invariant forall j | 0 <= j < idx2 :: points[j].value <= e
      decreases |points| - idx2
    {
      idx2 := idx2 + 1;
    }
  }

  /** The `forEach` over the keys pushing `result(s, e)` of each interval. */
  method ResultsFor(hash: map<int, Interval>, keys: seq<int>, s: real, e: real) returns (results: seq<IntervalResult>)
    requires s < e
    requires forall m | 0 <= m < |keys| :: keys[m] in hash && hash[keys[m]].start < hash[keys[m]].end
    ensures |results| == |keys|
    ensures forall m | 0 <= m < |keys| :: results[m] == ResultOf(hash[keys[m]], Some((s, e)))
    ensures forall m | 0 <= m < |keys| :: results[m].id == hash[keys[m]].id
  {
    results := [];
    for k := 0 to |keys|
      invariant |results| == k
      invariant forall m | 0 <= m < k :: results[m] == ResultOf(hash[keys[m]], Some((s, e)))
    {
      results := results + [ResultOf(hash[keys[k]], Some((s, e)))];
    }
  }

  /** After the two walks the positions strictly between the indices are exactly those whose
      value lies in `[s, e]`. */
  lemma WindowIsRange(points: seq<Endpoint>, s: real, e: real, lo: int, hi: int)
    requires SortedBy(points, ValueOf)
    requires -1 <= lo < |points| && 0 <= hi <= |points| && lo < hi
    requires lo >= 0 ==> points[lo].value < s
    requires forall j | lo < j < |points| :: points[j].value >= s
    requires forall j | 0 <= j < hi :: points[j].value <= e
    requires hi < |points| ==> points[hi].value > e
    ensures (set j | lo < j < hi :: points[j].id) == EndpointIds(points, s, e)
  {
    assert forall j | 0 <= j < |points| && s <= points[j].value <= e :: lo < j < hi;
  }

  /** The quarter probe loses intervals: a tree centred at 100 holding [90, 110] (id 0), queried
      with the range (100, 104). No endpoint lies in the range and the probe lands at 51, left of
      the interval, so nothing is collected although the interval covers the whole range; the
      midpoint probe, 102, collects it. */
  lemma RangeSearchAsWrittenMisses()
    ensures var itv := Interval((90.0, 110.0), 90.0, 110.0, 0);
      var nodes := [Node(100.0, [itv], [itv], None, None)];
      var points := [Endpoint(90.0, 0), Endpoint(110.0, 0)];
      nodes == InsertAt([EmptyNode(100.0)], 0, itv) && points == AddEndpoints([], itv)
      && Placed(nodes, map[0 := itv]) && PointsMatch(points, map[0 := itv])
      && ProbeAsWritten(100.0, 104.0) == 51
      && RangeIds(nodes, points, 100.0, 104.0, 51.0) == {}
      && RangeIds(nodes, points, 100.0, 104.0, Probe(100.0, 104.0)) == {0}
      && Overlapping(map[0 := itv], 100.0, 104.0) == {0}
  {
    var itv := Interval((90.0, 110.0), 90.0, 110.0, 0);
    var nodes := [Node(100.0, [itv], [itv], None, None)];
    var points := [Endpoint(90.0, 0), Endpoint(110.0, 0)];
    WrapTreeBuilt(itv);
    WrapEndpointsBuilt(itv);
    assert Trunc(204.0) == 204;
    WrapProbes(itv, nodes, points);
    assert map[0 := itv][0].Meets(100.0, 104.0);
  }

  lemma WrapProbes(itv: Interval, nodes: seq<Node>, points: seq<Endpoint>)
    requires itv == Interval((90.0, 110.0), 90.0, 110.0, 0)
    requires nodes == [Node(100.0, [itv], [itv], None, None)]
    requires points == [Endpoint(90.0, 0), Endpoint(110.0, 0)]
    ensures Linked(nodes)
    ensures RangeIds(nodes, points, 100.0, 104.0, 51.0) == {}
    ensures RangeIds(nodes, points, 100.0, 104.0, 102.0) == {0}
  {
    assert BSearch(points, 104.0) == 0;
    assert PointSearch(nodes, 0, 51.0) == [];
    assert PointSearch(nodes, 0, 102.0) == [itv] by {
      assert EndsDownTo([itv][..0], 102.0) == [];
    }
    assert WrapIds(nodes, 102.0) == {0};
    assert EndpointIds(points, 100.0, 104.0) == {};
  }

  lemma WrapTreeBuilt(itv: Interval)
    requires itv == Interval((90.0, 110.0), 90.0, 110.0, 0)
    ensures InsertAt([EmptyNode(100.0)], 0, itv) == [Node(100.0, [itv], [itv], None, None)]
    ensures Placed([Node(100.0, [itv], [itv], None, None)], map[0 := itv])
  {
    var root := EmptyNode(100.0);
    EmptyPlaced(100.0);
    InsertKeepsPlaced([root], map[], itv);
    assert InsertAt([root], 0, itv) == Store([root], 0, itv);
    assert InsertSorted(itv, [], StartOf) == [itv];
    assert InsertSorted(itv, [], EndOf) == [itv];
    assert map[][0 := itv] == map[0 := itv];
  }

  lemma WrapEndpointsBuilt(itv: Interval)
    requires itv == Interval((90.0, 110.0), 90.0, 110.0, 0)
    ensures AddEndpoints([], itv) == [Endpoint(90.0, 0), Endpoint(110.0, 0)]
    ensures PointsMatch([Endpoint(90.0, 0), Endpoint(110.0, 0)], map[0 := itv])
  {
    assert InsertSorted(Endpoint(90.0, 0), [], ValueOf) == [Endpoint(90.0, 0)];
    assert InsertSorted(Endpoint(110.0, 0), [], ValueOf) == [Endpoint(110.0, 0)];
    AddEndpointsKeepsMatch([], map[], itv);
    assert map[][0 := itv] == map[0 := itv];
  }
}
