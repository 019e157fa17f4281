/** The nodes of the centred interval tree and the two operations that walk them: `insert`, which
    files an interval at the first node whose centre it straddles (creating children on the way),
    and `pointSearch`, which follows the single root-to-leaf path of a query point.

    The linked `IntervalNode` objects are kept in an arena: a sequence of nodes whose children are
    indices into the same sequence, the root at index 0 and every child after its parent. */
module IntervalNodes {
  import opened Common
  import opened Sorting
  import opened Intervals

  /** A node: its centre, the intervals filed here sorted by start and by end, and its children. */
  datatype Node = Node(center: real, starts: seq<Interval>, ends: seq<Interval>, left: Option<nat>, right: Option<nat>)

  function StartOf(itv: Interval): real { itv.start }

  function EndOf(itv: Interval): real { itv.end }

  /** A fresh node, as the node constructor builds it: both lists empty, no children. */
  function EmptyNode(center: real): Node {
    Node(center, [], [], None, None)
  }

  /** The interval neither ends before the centre nor starts after it, so it is filed here. */
  predicate Straddles(center: real, itv: Interval) {
    !(itv.end < center) && !(center < itv.start)
  }

  /** Child indices point forward into the arena. */
  ghost predicate Linked(nodes: seq<Node>) {
    forall i | 0 <= i < |nodes| ::
      (nodes[i].left.Some? ==> i < nodes[i].left.value < |nodes|) &&
      (nodes[i].right.Some? ==> i < nodes[i].right.value < |nodes|)
  }

  /** Both lists of a node are sorted and hold the same intervals. */
  ghost predicate ListsSorted(n: Node) {
    SortedBy(n.starts, StartOf) && SortedBy(n.ends, EndOf) && multiset(n.starts) == multiset(n.ends)
  }

  ghost predicate WellFormed(nodes: seq<Node>) {
    |nodes| > 0 && Linked(nodes) && forall i | 0 <= i < |nodes| :: ListsSorted(nodes[i])
  }

  /** The node an interval is routed to from node `i`: left while it ends before the centre,
      right while it starts after it, stopping where it straddles the centre or the child it
      needs is missing. */
  ghost function Descend(nodes: seq<Node>, i: nat, itv: Interval): (k: nat)
    requires Linked(nodes) && i < |nodes|
    ensures i <= k < |nodes|
    decreases |nodes| - i
  {
    var n := nodes[i];
    if itv.end < n.center then
      if n.left.Some? then Descend(nodes, n.left.value, itv) else i
    else if n.center < itv.start then
      if n.right.Some? then Descend(nodes, n.right.value, itv) else i
    else i
  }

  /** `after` keeps every node of `before` with its centre and every child it already had. */
  ghost predicate Extends(before: seq<Node>, after: seq<Node>) {
    |before| <= |after| &&
    forall j | 0 <= j < |before| ::
      after[j].center == before[j].center &&
      (before[j].left.Some? ==> after[j].left == before[j].left) &&
      (before[j].right.Some? ==> after[j].right == before[j].right)
  }

  /** An interval whose route ends at a node it straddles keeps that route when the arena grows. */
  lemma {:induction false} DescendStable(before: seq<Node>, after: seq<Node>, i: nat, itv: Interval)
    requires Linked(before) && Linked(after) && Extends(before, after) && i < |before|
    requires Straddles(before[Descend(before, i, itv)].center, itv)
    ensures Descend(after, i, itv) == Descend(before, i, itv)
    decreases |before| - i
  {
    var n := before[i];
    if itv.end < n.center {
      if n.left.Some? {
        DescendStable(before, after, n.left.value, itv);
      }
    } else if n.center < itv.start {
      if n.right.Some? {
        DescendStable(before, after, n.right.value, itv);
      }
    }
  }

  /** The intervals node `j` holds before an insertion (none for a node the insertion creates). */
  ghost function HeldBefore(nodes: seq<Node>, j: nat): multiset<Interval> {
    if j < |nodes| then multiset(nodes[j].starts) else multiset{}
  }

  lemma ExtendsTransitive(a: seq<Node>, b: seq<Node>, c: seq<Node>)
    requires Extends(a, b) && Extends(b, c)
    ensures Extends(a, c)
  {
  }

  /** Attaches a fresh node centred on `mid` as the missing left (or right) child of node `i`. */
  function Grow(nodes: seq<Node>, i: nat, toLeft: bool, mid: real): (grown: seq<Node>)
    requires WellFormed(nodes) && i < |nodes|
    requires toLeft ==> nodes[i].left.None?
    requires !toLeft ==> nodes[i].right.None?
    ensures WellFormed(grown) && Extends(nodes, grown) && |grown| == |nodes| + 1
    ensures grown[|nodes|] == EmptyNode(mid)
    ensures toLeft ==> grown[i].left == Some(|nodes|)
    ensures !toLeft ==> grown[i].right == Some(|nodes|)
    ensures forall j | 0 <= j < |nodes| && j != i :: grown[j] == nodes[j]
    ensures forall j | 0 <= j < |grown| :: HeldBefore(grown, j) == HeldBefore(nodes, j)
  {
    var n := nodes[i];
    var linked := if toLeft then n.(left := Some(|nodes|)) else n.(right := Some(|nodes|));
    nodes[i := linked] + [EmptyNode(mid)]
  }

  /** Adds the interval to both sorted lists of node `i`. */
  function Store(nodes: seq<Node>, i: nat, itv: Interval): (r: seq<Node>)
    requires WellFormed(nodes) && i < |nodes|
    ensures WellFormed(r) && Extends(nodes, r) && |r| == |nodes|
    ensures forall j | 0 <= j < |nodes| && j != i :: r[j] == nodes[j]
    ensures r[i].center == nodes[i].center && r[i].left == nodes[i].left && r[i].right == nodes[i].right
    ensures multiset(r[i].starts) == multiset(nodes[i].starts) + multiset{itv}
  {
    var n := nodes[i];
    nodes[i := n.(starts := InsertSorted(itv, n.starts, StartOf), ends := InsertSorted(itv, n.ends, EndOf))]
  }

  /** `insert`: route the interval from node `i`, creating a child centred on the interval's
      midpoint when the one it needs is missing, and add it to both sorted lists of the node it
      straddles. Existing nodes keep their centres and children; nodes before `i` are untouched. */
  function InsertAt(nodes: seq<Node>, i: nat, itv: Interval): (r: seq<Node>)
    requires WellFormed(nodes) && i < |nodes| && itv.start < itv.end
    ensures WellFormed(r) && Extends(nodes, r)
    ensures |r| == |nodes| || |r| == |nodes| + 1
    ensures Straddles(nodes[i].center, itv) ==> |r| == |nodes|
    ensures forall j | 0 <= j < i :: r[j] == nodes[j]
    decreases |nodes| - i, if Straddles(nodes[i].center, itv) then 0 else 1
  {
    var n := nodes[i];
    var mid := (itv.start + itv.end) / 2.0;
    if itv.end < n.center then
      if n.left.None? then
        var grown := Grow(nodes, i, true, mid);
        var r := InsertAt(grown, |nodes|, itv);
        ExtendsTransitive(nodes, grown, r);
        r
      else
        InsertAt(nodes, n.left.value, itv)
    else if n.center < itv.start then
      if n.right.None? then
        var grown := Grow(nodes, i, false, mid);
        var r := InsertAt(grown, |nodes|, itv);
        ExtendsTransitive(nodes, grown, r);
        r
      else
        InsertAt(nodes, n.right.value, itv)
    else
      Store(nodes, i, itv)
  }

  /** `r` holds what `before` held, plus `itv` at the node its route from `i` ends at, which it
      straddles. */
  ghost predicate Filed(before: seq<Node>, r: seq<Node>, i: nat, itv: Interval)
    requires Linked(r) && i < |r|
  {
    var k := Descend(r, i, itv);
    Straddles(r[k].center, itv) &&
    forall j | 0 <= j < |r| ::
      multiset(r[j].starts) == HeldBefore(before, j) + (if j == k then multiset{itv} else multiset{})
  }

  lemma FiledViaChild(nodes: seq<Node>, from: seq<Node>, r: seq<Node>, i: nat, child: nat, itv: Interval)
    requires Linked(r) && i < child < |r|
    requires Descend(r, i, itv) == Descend(r, child, itv)
    requires Filed(from, r, child, itv)
    requires forall j | 0 <= j < |r| :: HeldBefore(from, j) == HeldBefore(nodes, j)
    ensures Filed(nodes, r, i, itv)
  {
  }

  /** A non-empty interval inserted from node `i` is filed at the node its route now ends at,
      which it straddles; that node gains exactly this interval and every other node keeps the
      intervals it had. */
  lemma {:induction false} InsertAtFiles(nodes: seq<Node>, i: nat, itv: Interval)
    requires WellFormed(nodes) && i < |nodes| && itv.start < itv.end
    ensures Filed(nodes, InsertAt(nodes, i, itv), i, itv)
    decreases |nodes| - i, if Straddles(nodes[i].center, itv) then 0 else 1, 1
  {
    var n := nodes[i];
    if Straddles(n.center, itv) {
      StoreFiles(nodes, i, itv);
    } else {
      var toLeft := itv.end < n.center;
      if (if toLeft then n.left else n.right).None? {
        GrownFiles(nodes, i, toLeft, itv);
      } else {
        ChildFiles(nodes, i, toLeft, itv);
      }
    }
  }

  /** The case of `InsertAtFiles` where the route needs a child that is missing. */
  lemma {:induction false} GrownFiles(nodes: seq<Node>, i: nat, toLeft: bool, itv: Interval)
    requires WellFormed(nodes) && i < |nodes| && itv.start < itv.end
    requires toLeft <==> itv.end < nodes[i].center
    requires !toLeft ==> nodes[i].center < itv.start
    requires toLeft ==> nodes[i].left.None?
    requires !toLeft ==> nodes[i].right.None?
    ensures Filed(nodes, InsertAt(nodes, i, itv), i, itv)
    decreases |nodes| - i, 1, 0
  {
    var from := Grow(nodes, i, toLeft, (itv.start + itv.end) / 2.0);
    InsertAtGrown(nodes, i, toLeft, itv);
    InsertAtFiles(from, |nodes|, itv);
    var r := InsertAt(nodes, i, itv);
    assert r[i] == from[i];
    FiledViaChild(nodes, from, r, i, |nodes|, itv);
  }

  /** The case of `InsertAtFiles` where the route goes on to an existing child. */
  lemma {:induction false} ChildFiles(nodes: seq<Node>, i: nat, toLeft: bool, itv: Interval)
    requires WellFormed(nodes) && i < |nodes| && itv.start < itv.end
    requires toLeft <==> itv.end < nodes[i].center
    requires !toLeft ==> nodes[i].center < itv.start
    requires toLeft ==> nodes[i].left.Some?
    requires !toLeft ==> nodes[i].right.Some?
    ensures Filed(nodes, InsertAt(nodes, i, itv), i, itv)
    decreases |nodes| - i, 1, 0
  {
    var next := if toLeft then nodes[i].left.value else nodes[i].right.value;
    InsertAtChild(nodes, i, toLeft, itv);
    InsertAtFiles(nodes, next, itv);
    FiledViaChild(nodes, nodes, InsertAt(nodes, i, itv), i, next, itv);
  }

  /** Routing to a missing child grows it and carries on from there. */
  lemma InsertAtGrown(nodes: seq<Node>, i: nat, toLeft: bool, itv: Interval)
    requires WellFormed(nodes) && i < |nodes| && itv.start < itv.end
    requires toLeft <==> itv.end < nodes[i].center
    requires !toLeft ==> nodes[i].center < itv.start
    requires toLeft ==> nodes[i].left.None?
    requires !toLeft ==> nodes[i].right.None?
    ensures InsertAt(nodes, i, itv) == InsertAt(Grow(nodes, i, toLeft, (itv.start + itv.end) / 2.0), |nodes|, itv)
  {
  }

  /** Routing to an existing child carries on from it. */
  lemma InsertAtChild(nodes: seq<Node>, i: nat, toLeft: bool, itv: Interval)
    requires WellFormed(nodes) && i < |nodes| && itv.start < itv.end
    requires toLeft <==> itv.end < nodes[i].center
    requires !toLeft ==> nodes[i].center < itv.start
    requires toLeft ==> nodes[i].left.Some?
    requires !toLeft ==> nodes[i].right.Some?
    ensures InsertAt(nodes, i, itv) == InsertAt(nodes, if toLeft then nodes[i].left.value else nodes[i].right.value, itv)
  {
  }

  lemma StoreFiles(nodes: seq<Node>, i: nat, itv: Interval)
    requires WellFormed(nodes) && i < |nodes| && Straddles(nodes[i].center, itv)
    ensures Filed(nodes, Store(nodes, i, itv), i, itv)
  {
    var r := Store(nodes, i, itv);
    assert Descend(r, i, itv) == i;
  }

  /** Every registered interval is non-empty and registered under its own id. */
  ghost predicate HashValid(hash: map<int, Interval>) {
    forall id | id in hash :: hash[id].id == id && hash[id].start < hash[id].end
  }

  /** Every registered interval is filed at the node its route from the root ends at, a node
      whose centre it straddles. */
  ghost predicate AllFiled(nodes: seq<Node>, hash: map<int, Interval>)
    requires Linked(nodes) && |nodes| > 0
  {
    forall id | id in hash ::
      Straddles(nodes[Descend(nodes, 0, hash[id])].center, hash[id]) &&
      hash[id] in nodes[Descend(nodes, 0, hash[id])].starts
  }

  /** The nodes hold nothing but registered intervals, each at the end of its route. */
  ghost predicate OnlyFiled(nodes: seq<Node>, hash: map<int, Interval>)
    requires Linked(nodes) && |nodes| > 0
  {
    forall k, itv | 0 <= k < |nodes| && itv in nodes[k].starts ::
      itv.id in hash && hash[itv.id] == itv && Descend(nodes, 0, itv) == k
  }

  /** The filing invariant of a tree against its id-to-interval hash. */
  ghost predicate Placed(nodes: seq<Node>, hash: map<int, Interval>) {
    WellFormed(nodes) && HashValid(hash) && AllFiled(nodes, hash) && OnlyFiled(nodes, hash)
  }

  /** A tree with a lone empty root satisfies the invariant with an empty hash. */
  lemma EmptyPlaced(center: real)
    ensures Placed([EmptyNode(center)], map[])
  {
  }

  /** Inserting a non-empty interval under a fresh id from the root keeps the invariant. */
  lemma InsertKeepsPlaced(nodes: seq<Node>, hash: map<int, Interval>, itv: Interval)
    requires Placed(nodes, hash) && itv.id !in hash && itv.start < itv.end
    ensures Placed(InsertAt(nodes, 0, itv), hash[itv.id := itv])
  {
    var r := InsertAt(nodes, 0, itv);
    InsertAtFiles(nodes, 0, itv);
    forall id | id in hash
      ensures Descend(r, 0, hash[id]) == Descend(nodes, 0, hash[id])
    {
      DescendStable(nodes, r, 0, hash[id]);
    }
    InsertKeepsAllFiled(nodes, hash, itv, r);
    InsertKeepsOnlyFiled(nodes, hash, itv, r);
  }

  lemma InsertKeepsAllFiled(nodes: seq<Node>, hash: map<int, Interval>, itv: Interval, r: seq<Node>)
    requires Placed(nodes, hash) && itv.id !in hash && itv.start < itv.end
    requires WellFormed(r) && Extends(nodes, r) && Filed(nodes, r, 0, itv)
    requires forall id | id in hash :: Descend(r, 0, hash[id]) == Descend(nodes, 0, hash[id])
    ensures AllFiled(r, hash[itv.id := itv])
  {
    var h := hash[itv.id := itv];
    forall id | id in h
      ensures Straddles(r[Descend(r, 0, h[id])].center, h[id]) && h[id] in r[Descend(r, 0, h[id])].starts
    {
      if id != itv.id {
        var j := Descend(nodes, 0, hash[id]);
        assert hash[id] in multiset(nodes[j].starts);
        assert hash[id] in multiset(r[j].starts);
      } else {
        assert itv in multiset(r[Descend(r, 0, itv)].starts);
      }
    }
  }

  lemma InsertKeepsOnlyFiled(nodes: seq<Node>, hash: map<int, Interval>, itv: Interval, r: seq<Node>)
    requires Linked(nodes) && |nodes| > 0 && OnlyFiled(nodes, hash) && itv.id !in hash
    requires Linked(r) && |nodes| <= |r| && Filed(nodes, r, 0, itv)
    requires forall id | id in hash :: Descend(r, 0, hash[id]) == Descend(nodes, 0, hash[id])
    ensures OnlyFiled(r, hash[itv.id := itv])
  {
    var h := hash[itv.id := itv];
    forall j, x | 0 <= j < |r| && x in r[j].starts
      ensures x.id in h && h[x.id] == x && Descend(r, 0, x) == j
    {
      assert x in multiset(r[j].starts);
      if x in HeldBefore(nodes, j) {
        assert x in nodes[j].starts;
        assert x.id in hash && hash[x.id] == x && Descend(nodes, 0, x) == j;
        assert x.id != itv.id;
      } else {
        assert x == itv && j == Descend(r, 0, itv);
      }
    }
  }

  /** The `every` scan over `starts`: the leading intervals that start at or before `idx`. On a
      sorted list that is every interval starting at or before `idx`. */
  function StartsUpTo(starts: seq<Interval>, idx: real): (r: seq<Interval>)
    ensures forall x | x in r :: x in starts && x.start <= idx
    ensures SortedBy(starts, StartOf) ==> forall x | x in starts && x.start <= idx :: x in r
  {
    if starts == [] || !(starts[0].start <= idx) then []
    else [starts[0]] + StartsUpTo(starts[1..], idx)
  }

  /** The scan over `ends` taken from the largest end down: the trailing intervals that end at or
      after `idx`. On a sorted list that is every interval ending at or after `idx`. */
  function EndsDownTo(ends: seq<Interval>, idx: real): (r: seq<Interval>)
    ensures forall x | x in r :: x in ends && x.end >= idx
    ensures SortedBy(ends, EndOf) ==> forall x | x in ends && x.end >= idx :: x in r
  {
    if ends == [] || !(ends[|ends| - 1].end >= idx) then []
    else [ends[|ends| - 1]] + EndsDownTo(ends[..|ends| - 1], idx)
  }

  /** The `every` scan over `ends` as written, from the smallest end up: it stops at the first
      interval ending before `idx`, so a node whose smallest end is before `idx` reports nothing. */
  function EndsUpFromAsWritten(ends: seq<Interval>, idx: real): (r: seq<Interval>)
    ensures forall x | x in r :: x in ends && x.end >= idx
    ensures ends != [] && ends[0].end < idx ==> r == []
  {
    if ends == [] || !(ends[0].end >= idx) then []
    else [ends[0]] + EndsUpFromAsWritten(ends[1..], idx)
  }

  /** `pointSearch` with the right-hand scan taken from the largest end: below the centre report
      the intervals starting at or before `idx` and go left, above it report those ending at or
      after `idx` and go right, at the centre report the whole node. */
  function PointSearch(nodes: seq<Node>, i: nat, idx: real): seq<Interval>
    requires Linked(nodes) && i < |nodes|
    decreases |nodes| - i
  {
    var n := nodes[i];
    if idx < n.center then
      StartsUpTo(n.starts, idx) + (if n.left.Some? then PointSearch(nodes, n.left.value, idx) else [])
    else if idx > n.center then
      EndsDownTo(n.ends, idx) + (if n.right.Some? then PointSearch(nodes, n.right.value, idx) else [])
    else
      n.starts
  }

  /** `pointSearch` as written, with the ascending scan of `ends`. */
  function PointSearchAsWritten(nodes: seq<Node>, i: nat, idx: real): seq<Interval>
    requires Linked(nodes) && i < |nodes|
    decreases |nodes| - i
  {
    var n := nodes[i];
    if idx < n.center then
      StartsUpTo(n.starts, idx) + (if n.left.Some? then PointSearchAsWritten(nodes, n.left.value, idx) else [])
    else if idx > n.center then
      EndsUpFromAsWritten(n.ends, idx) + (if n.right.Some? then PointSearchAsWritten(nodes, n.right.value, idx) else [])
    else
      n.starts
  }

  /** Every interval a node holds straddles that node's centre and is the one registered under
      its id. */
  ghost predicate Straddled(nodes: seq<Node>, hash: map<int, Interval>) {
    forall k, itv | 0 <= k < |nodes| && itv in nodes[k].starts ::
      Straddles(nodes[k].center, itv) && itv.id in hash && hash[itv.id] == itv
  }

  lemma PlacedStraddled(nodes: seq<Node>, hash: map<int, Interval>)
    requires Placed(nodes, hash)
    ensures Straddled(nodes, hash)
  {
    forall k, itv | 0 <= k < |nodes| && itv in nodes[k].starts
      ensures Straddles(nodes[k].center, itv)
    {
      assert hash[itv.id] == itv;
    }
  }

  /** Point search reports only registered intervals that contain the point. */
  lemma {:induction false} PointSearchSound(nodes: seq<Node>, hash: map<int, Interval>, i: nat, idx: real)
    requires WellFormed(nodes) && Straddled(nodes, hash) && i < |nodes|
    ensures forall x | x in PointSearch(nodes, i, idx) :: x.Contains(idx) && x.id in hash && hash[x.id] == x
    decreases |nodes| - i
  {
    var n := nodes[i];
    assert ListsSorted(n);
    if idx < n.center && n.left.Some? {
      PointSearchSound(nodes, hash, n.left.value, idx);
    } else if idx > n.center {
      forall x | x in n.ends ensures x in n.starts {
        assert x in multiset(n.ends);
      }
      if n.right.Some? {
        PointSearchSound(nodes, hash, n.right.value, idx);
      }
    }
  }

  /** The scan as written is sound as well. */
  lemma {:induction false} PointSearchAsWrittenSound(nodes: seq<Node>, hash: map<int, Interval>, i: nat, idx: real)
    requires WellFormed(nodes) && Straddled(nodes, hash) && i < |nodes|
    ensures forall x | x in PointSearchAsWritten(nodes, i, idx) :: x.Contains(idx) && x.id in hash && hash[x.id] == x
    decreases |nodes| - i
  {
    var n := nodes[i];
    assert ListsSorted(n);
    if idx < n.center && n.left.Some? {
      PointSearchAsWrittenSound(nodes, hash, n.left.value, idx);
    } else if idx > n.center {
      forall x | x in n.ends ensures x in n.starts {
        assert x in multiset(n.ends);
      }
      if n.right.Some? {
        PointSearchAsWrittenSound(nodes, hash, n.right.value, idx);
      }
    }
  }

  /** An interval containing the point and filed at the end of its route from node `i` is
      reported by the search from `i`: the point's path follows the interval's route. */
  lemma {:induction false} PointSearchReaches(nodes: seq<Node>, i: nat, itv: Interval, idx: real)
    requires WellFormed(nodes) && i < |nodes|
    requires Straddles(nodes[Descend(nodes, i, itv)].center, itv)
    requires itv in nodes[Descend(nodes, i, itv)].starts
    requires itv.Contains(idx)
    ensures itv in PointSearch(nodes, i, idx)
    decreases |nodes| - i
  {
    var n := nodes[i];
    assert ListsSorted(n);
    if Descend(nodes, i, itv) != i {
      if itv.end < n.center {
        PointSearchReaches(nodes, n.left.value, itv, idx);
      } else {
        PointSearchReaches(nodes, n.right.value, itv, idx);
      }
    } else if idx > n.center {
      assert itv in multiset(n.ends);
    }
  }

  /** On a tree satisfying the invariant, point search from the root reports exactly the
      registered intervals that contain the point. */
  lemma PointSearchExact(nodes: seq<Node>, hash: map<int, Interval>, idx: real)
    requires Placed(nodes, hash)
    ensures forall x :: x in PointSearch(nodes, 0, idx) <==> x.id in hash && hash[x.id] == x && x.Contains(idx)
  {
    PlacedStraddled(nodes, hash);
    PointSearchSound(nodes, hash, 0, idx);
    forall id | id in hash && hash[id].Contains(idx)
      ensures hash[id] in PointSearch(nodes, 0, idx)
    {
      PointSearchReaches(nodes, 0, hash[id], idx);
    }
  }

  /** The ascending scan loses intervals: a root centred at 10 holding [5, 12] (id 0) and [8, 20]
      (id 1), both added through `insert`, queried at 15. The scan stops at [5, 12], whose end is
      below 15, so [8, 20] is never reported; the scan from the largest end reports it. */
  lemma PointSearchAsWrittenMisses()
    ensures var a := Interval((5.0, 12.0), 5.0, 12.0, 0);
      var b := Interval((8.0, 20.0), 8.0, 20.0, 1);
      var nodes := InsertAt(InsertAt([EmptyNode(10.0)], 0, a), 0, b);
      Placed(nodes, map[0 := a, 1 := b]) && b.Contains(15.0)
      && PointSearchAsWritten(nodes, 0, 15.0) == []
      && PointSearch(nodes, 0, 15.0) == [b]
  {
    var a := Interval((5.0, 12.0), 5.0, 12.0, 0);
    var b := Interval((8.0, 20.0), 8.0, 20.0, 1);
    var root := EmptyNode(10.0);
    EmptyPlaced(10.0);
    InsertKeepsPlaced([root], map[], a);
    var one := InsertAt([root], 0, a);
    assert one == Store([root], 0, a);
    assert InsertSorted(a, [], StartOf) == [a];
    assert InsertSorted(a, [], EndOf) == [a];
    assert one == [Node(10.0, [a], [a], None, None)];
    InsertKeepsPlaced(one, map[0 := a], b);
    var two := InsertAt(one, 0, b);
    assert two == Store(one, 0, b);
    assert InsertSorted(b, [a], StartOf) == [a, b] by {
      assert InsertSorted(b, [], StartOf) == [b];
    }
    assert InsertSorted(b, [a], EndOf) == [a, b] by {
      assert InsertSorted(b, [], EndOf) == [b];
    }
    assert two == [Node(10.0, [a, b], [a, b], None, None)];
    assert map[0 := a][1 := b] == map[0 := a, 1 := b];
    assert EndsDownTo([a, b], 15.0) == [b] by {
      assert [a, b][..1] == [a];
      assert EndsDownTo([a], 15.0) == [];
    }
  }
}
