/** The keys of a JavaScript object used as a set of integer ids: `Object.keys` lists integer keys
    in ascending order, and setting a key that is already there changes nothing. The object is
    modelled by that ascending list. */
module ObjectKeys {

  ghost predicate Increasing(keys: seq<int>) {
    forall i, j | 0 <= i < j < |keys| :: keys[i] < keys[j]
  }

  /** Sets the key `x`: the list stays ascending and gains `x` if it was missing. */
  function InsertKey(x: int, keys: seq<int>): (r: seq<int>)
    requires Increasing(keys)
    ensures Increasing(r)
    ensures forall y :: y in r <==> y in keys || y == x
  {
    if keys == [] || x < keys[0] then [x] + keys
    else if x == keys[0] then keys
    else
      var rest := InsertKey(x, keys[1..]);
      assert forall y | y in keys[1..] :: keys[0] < y;
      [keys[0]] + rest
  }
}
