/** The centred interval tree of the 3-D viewer: an id-to-interval hash, a sorted list of all
    endpoints and the arena of nodes, updated in place by `add`. */
module IntervalTrees {
  import opened Common
  import opened Sorting
  import opened Intervals
  import opened IntervalNodes
  import opened IntervalSearch

  /** The id the auto-increment loop of `add` settles on: the first id at or above `from` that is
      not registered. */
  function FirstFree(keys: set<int>, from: int): (r: int)
    ensures from <= r && r !in keys
    ensures forall k | from <= k < r :: k in keys
    decreases |AtOrAbove(keys, from)|
  {
    if from in keys then
      AtOrAboveShrinks(keys, from);
      FirstFree(keys, from + 1)
    else from
  }

  /** The registered ids the auto-increment loop may still pass over. */
  ghost function AtOrAbove(keys: set<int>, from: int): set<int> {
    set k | k in keys && k >= from
  }

  lemma AtOrAboveShrinks(keys: set<int>, from: int)
    requires from in keys
    ensures |AtOrAbove(keys, from + 1)| < |AtOrAbove(keys, from)|
  {
    assert AtOrAbove(keys, from) == AtOrAbove(keys, from + 1) + {from};
  }

  /** The auto-increment loop of `add`: step up from the counter past every registered id. */
  method NextFree(hash: map<int, Interval>, from: int) returns (next: int)
    ensures next == FirstFree(hash.Keys, from)
  {
    next := from;
    while next in hash
      invariant FirstFree(hash.Keys, next) == FirstFree(hash.Keys, from)
      decreases |AtOrAbove(hash.Keys, next)|
    {
      AtOrAboveShrinks(hash.Keys, next);
      next := next + 1;
    }
  }

  /** The `result()` records point search pushes, one per reported interval. */
  function Reported(items: seq<Interval>): (r: seq<IntervalResult>)
    requires forall j | 0 <= j < |items| :: items[j].start < items[j].end
    ensures |r| == |items|
    ensures forall j | 0 <= j < |items| :: r[j] == ResultOf(items[j], None)
  {
    if items == [] then [] else [ResultOf(items[0], None)] + Reported(items[1..])
  }

  class IntervalTree {
    var hash: map<int, Interval>
    var points: seq<Endpoint>
    var nodes: seq<Node>
    var autoIncrement: int

    /** The nodes file every registered interval where its route ends, and the endpoint list
        holds exactly the registered endpoints, sorted. */
    ghost predicate Valid()
      reads this`hash, this`points, this`nodes
    {
      Placed(nodes, hash) && PointsMatch(points, hash)
    }

    constructor Init(center: real)
      ensures Valid()
      ensures hash == map[] && points == [] && nodes == [EmptyNode(center)] && autoIncrement == 0
    {
      hash := map[];
      points := [];
      nodes := [EmptyNode(center)];
      autoIncrement := 0;
      EmptyPlaced(center);
    }

    /** The tree constructor: a centre of 0 is refused; any other centre gives an empty tree
        whose root has that centre. */
    static method Create(center: real) returns (r: Result<IntervalTree, TreeError>)
      ensures r.Err? <==> center == 0.0
      ensures r.Err? ==> r.error == InvalidCenter
      ensures r.Ok? ==> fresh(r.value) && r.value.Valid()
      ensures r.Ok? ==> r.value.hash == map[] && r.value.points == [] && r.value.autoIncrement == 0
      ensures r.Ok? ==> r.value.nodes == [EmptyNode(center)]
    {
      if center == 0.0 {
        return Err(InvalidCenter);
      }
      var t := new IntervalTree.Init(center);
      return Ok(t);
    }

    /** `add`: a registered id is refused with nothing changed. Without an id the first free id
        at or above the counter is taken, and the counter moves there. A range that is not
        increasing is refused after that; otherwise the interval is registered under the id, its
        endpoints are listed, it is filed in the nodes and the counter moves one past. */
    method Add(range: (real, real), id: Option<int>) returns (outcome: Outcome<TreeError>)
      requires Valid()
      modifies this
      ensures Valid()
      ensures id.Some? && id.value in old(hash) ==>
        outcome == Fail(DuplicateId) && hash == old(hash) && points == old(points)
        && nodes == old(nodes) && autoIncrement == old(autoIncrement)
      ensures !(id.Some? && id.value in old(hash)) ==>
        var chosen := if id.Some? then id.value else FirstFree(old(hash).Keys, old(autoIncrement));
        var counter := if id.Some? then old(autoIncrement) else chosen;
        chosen !in old(hash) &&
        if range.0 < range.1 then
          var itv := Interval(range, range.0, range.1, chosen);
          outcome == Pass && hash == old(hash)[chosen := itv] && points == AddEndpoints(old(points), itv)
          && nodes == InsertAt(old(nodes), 0, itv) && autoIncrement == counter + 1
        else
          outcome == Fail(InvalidRange) && hash == old(hash) && points == old(points)
          && nodes == old(nodes) && autoIncrement == counter
    {
      if id.Some? && id.value in hash {
        return Fail(DuplicateId);
      }
      var chosen: int;
      if id.None? {
        var next := NextFree(hash, autoIncrement);
        autoIncrement := next;
        chosen := next;
      } else {
        chosen := id.value;
      }
      var made := NewInterval(range, chosen);
      if made.Err? {
        return Fail(made.error);
      }
      var itv := made.value;
      AddEndpointsKeepsMatch(points, hash, itv);
      InsertKeepsPlaced(nodes, hash, itv);
      points := AddEndpoints(points, itv);
      hash := hash[chosen := itv];
      autoIncrement := autoIncrement + 1;
      nodes := InsertAt(nodes, 0, itv);
      return Pass;
    }

    /** `search` with one argument: the `result()` record of every registered interval that
        contains the point, and of no other. */
    method SearchPoint(idx: real) returns (r: seq<IntervalResult>)
      requires Valid()
      ensures forall j | 0 <= j < |r| ::
        r[j].id in hash && hash[r[j].id].Contains(idx) && r[j] == ResultOf(hash[r[j].id], None)
      ensures forall id | id in hash && hash[id].Contains(idx) :: exists j | 0 <= j < |r| :: r[j].id == id
    {
      PointSearchExact(nodes, hash, idx);
      var found := PointSearch(nodes, 0, idx);
      r := Reported(found);
      assert forall j | 0 <= j < |r| :: r[j].id == found[j].id;
      forall id | id in hash && hash[id].Contains(idx)
        ensures exists j | 0 <= j < |r| :: r[j].id == id
      {
        var j :| 0 <= j < |found| && found[j] == hash[id];
        assert r[j].id == id;
      }
    }

    /** `search`: a point query without a second argument, a range query with one. */
    method Search(val1: real, val2: Option<real>) returns (r: Result<seq<IntervalResult>, TreeError>)
      requires Valid()
      ensures val2.None? ==> r.Ok? && forall j | 0 <= j < |r.value| ::
        r.value[j].id in hash && hash[r.value[j].id].Contains(val1)
      ensures val2.None? ==> forall id | id in hash && hash[id].Contains(val1) ::
        exists j | 0 <= j < |r.value| :: r.value[j].id == id
      ensures val2.Some? ==> (r.Ok? <==> val1 < val2.value)
      ensures val2.Some? && r.Ok? ==> forall id ::
        id in Overlapping(hash, val1, val2.value) <==> exists j | 0 <= j < |r.value| :: r.value[j].id == id
      ensures val2.Some? && r.Ok? ==> forall j | 0 <= j < |r.value| ::
        r.value[j].id in hash && r.value[j] == ResultOf(hash[r.value[j].id], Some((val1, val2.value)))
    {
      if val2.None? {
        var found := SearchPoint(val1);
        return Ok(found);
      }
      r := RangeSearch(nodes, hash, points, val1, val2.value);
    }

    /** `remove` is not implemented: it always fails and changes nothing. */
    method Remove(id: int) returns (outcome: Outcome<TreeError>)
      ensures outcome == Fail(NotImplemented)
    {
      return Fail(NotImplemented);
    }
  }
}
