/** The search that both record indexes use. */
module Search {
  import opened Types

  predicate Ascending(keys: seq<u64>) {
    forall i, j :: 0 <= i < j < |keys| ==> keys[i] <= keys[j]
  }

  // Where a cursor search stops: the first key at or above v, or the end.
  function FirstAtLeast(keys: seq<u64>, v: u64): (p: nat)
    ensures p <= |keys|
    ensures forall i :: 0 <= i < p ==> keys[i] < v
    ensures p < |keys| ==> keys[p] >= v
  {
    if keys == [] || keys[0] >= v then 0
    else
      var p := FirstAtLeast(keys[1..], v);
      assert forall i :: 1 <= i < p + 1 ==> keys[i] == keys[1..][i - 1];
      p + 1
  }

  lemma FirstIsFirst(keys: seq<u64>, v: u64, p: nat)
    requires p <= |keys|
    requires forall i :: 0 <= i < p ==> keys[i] < v
    requires p < |keys| ==> keys[p] >= v
    ensures p == FirstAtLeast(keys, v)
  {
    var q := FirstAtLeast(keys, v);
    if p < q {
      assert false;
    }
  }

  /** On ascending keys the stop is the one split point between smaller and larger. */
  lemma SplitPoint(keys: seq<u64>, v: u64, p: nat)
    requires Ascending(keys) && p <= |keys|
    ensures p == FirstAtLeast(keys, v) <==>
            (forall i :: 0 <= i < p ==> keys[i] < v) && (forall i :: p <= i < |keys| ==> v <= keys[i])
  {
    var q := FirstAtLeast(keys, v);
    if p < q {
      assert keys[p] < v;
    }
  }
}
