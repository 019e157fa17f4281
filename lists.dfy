/** The array operations the registry uses: `indexOf`, `splice(i, 1)` and the helpers that describe
    what repeated appends and a skipping walk leave behind. */
module Lists {

  /** `indexOf`: the first position holding `x`, or -1 when there is none. */
  function IndexOf<T(==)>(s: seq<T>, x: T): (r: int)
    ensures -1 <= r < |s|
    ensures r == -1 <==> x !in s
    ensures r >= 0 ==> s[r] == x && x !in s[..r]
  {
    if s == [] then -1
    else if s[0] == x then 0
    else
      var k := IndexOf(s[1..], x);
      if k == -1 then -1
      else
        assert s[..k + 1] == [s[0]] + s[1..][..k];
        k + 1
  }

  /** The position of `x` is the one index holding `x` with no earlier copy. */
  lemma IndexOfAt<T>(s: seq<T>, i: nat, x: T)
    requires i < |s| && s[i] == x && x !in s[..i]
    ensures IndexOf(s, x) == i
  {
  }

  /** `splice(i, 1)`: the element at `i` is dropped and the others keep their order. */
  function RemoveAt<T>(s: seq<T>, i: nat): (r: seq<T>)
    requires i < |s|
    ensures |r| == |s| - 1
    ensures forall k | 0 <= k < i :: r[k] == s[k]
    ensures forall k | i <= k < |r| :: r[k] == s[k + 1]
  {
    s[..i] + s[i + 1..]
  }

  /** `splice(i, 1)` takes one copy of the element at `i` out of the list's contents. */
  lemma RemoveAtCount<T>(s: seq<T>, i: nat)
    requires i < |s|
    ensures multiset(RemoveAt(s, i)) == multiset(s) - multiset{s[i]}
  {
    assert s == s[..i] + [s[i]] + s[i + 1..];
  }

  /** `indexOf` followed by a guarded `splice`: the first copy of `x` goes, if there is one. */
  function RemoveFirst<T(==)>(s: seq<T>, x: T): (r: seq<T>)
    ensures x !in s ==> r == s
    ensures x in s ==> |r| == |s| - 1
  {
    var i := IndexOf(s, x);
    if i == -1 then s else RemoveAt(s, i)
  }

  /** Removing the first copy of `x` takes one copy of `x` out of the list's contents. */
  lemma RemoveFirstCount<T>(s: seq<T>, x: T)
    ensures multiset(RemoveFirst(s, x)) == if x in s then multiset(s) - multiset{x} else multiset(s)
  {
    if x in s {
      RemoveAtCount(s, IndexOf(s, x));
    }
  }

  /** Appending a missing element gives it exactly one copy. */
  lemma AppendCount<T>(s: seq<T>, x: T)
    requires x !in s
    ensures multiset(s + [x]) == multiset(s)[x := 1]
  {
    assert multiset(s + [x]) == multiset(s) + multiset{x};
  }

  /** Removing the only copy of `x` leaves none. */
  lemma RemoveOnlyCount<T>(s: seq<T>, x: T)
    requires multiset(s)[x] == 1
    ensures multiset(RemoveFirst(s, x)) == multiset(s)[x := 0]
  {
    RemoveFirstCount(s, x);
  }

  /** Removing the first copy of `x` from a list that has `x` at `i` and nowhere before. */
  lemma RemoveFirstAt<T>(s: seq<T>, i: nat, x: T)
    requires i < |s| && s[i] == x && x !in s[..i]
    ensures RemoveFirst(s, x) == s[..i] + s[i + 1..]
  {
    IndexOfAt(s, i, x);
  }

  /** The elements at odd positions, in order. */
  function Odds<T>(s: seq<T>): (r: seq<T>)
    ensures |s| == 2 * |r| || |s| == 2 * |r| + 1
  {
    if |s| < 2 then [] else [s[1]] + Odds(s[2..])
  }

  lemma {:induction false} OddsAt<T>(s: seq<T>, k: nat)
    requires 2 * k + 1 < |s|
    ensures Odds(s)[k] == s[2 * k + 1]
  {
    if k > 0 {
      OddsAt(s[2..], k - 1);
    }
  }

  /** `n` copies of `x`. */
  function Copies<T>(x: T, n: nat): (r: seq<T>)
    ensures |r| == n
    ensures forall k | 0 <= k < n :: r[k] == x
  {
    if n == 0 then [] else Copies(x, n - 1) + [x]
  }

  /** No element occurs twice. */
  ghost predicate Distinct<T>(s: seq<T>) {
    forall i, j | 0 <= i < j < |s| :: s[i] != s[j]
  }

  /** How often `x` occurs among the first `i` elements of `s`. */
  function CountIn<T(==)>(s: seq<T>, x: T, i: nat): (r: nat)
    requires i <= |s|
    ensures r <= i
  {
    if i == 0 then 0 else CountIn(s, x, i - 1) + if s[i - 1] == x then 1 else 0
  }

  /** Counting the whole sequence agrees with its multiset. */
  lemma {:induction false} CountInAll<T>(s: seq<T>, x: T, i: nat)
    requires i <= |s|
    ensures CountIn(s, x, i) == multiset(s[..i])[x]
  {
    if i > 0 {
      CountInAll(s, x, i - 1);
      assert s[..i] == s[..i - 1] + [s[i - 1]];
    }
  }
}
