/**
 * The priority-queue pop of Greedy and A*. The source keeps its open list
 * as a binary heap; which of several entries with equal keys comes out
 * first depends on the heap's layout and is not specified, so the model
 * pops some entry whose key no other entry undercuts.
 */
module Frontier {

  /** Index of an entry with minimal key (the first one, for definiteness). */
  function MinimalIndex<T>(entries: seq<T>, key: T -> int): (k: nat)
    requires entries != []
    ensures k < |entries|
    ensures forall j :: 0 <= j < |entries| ==> key(entries[k]) <= key(entries[j])
  {
    if |entries| == 1 then 0
    else
      var k := MinimalIndex(entries[1..], key);
      if key(entries[0]) <= key(entries[1..][k]) then 0 else k + 1
  }

  /**
   * Remove and return an entry whose key is at most every other entry's key;
   * the remaining entries are the others, each as often as before.
   */
  method PopMinimal<T(==)>(entries: seq<T>, key: T -> int) returns (x: T, rest: seq<T>)
    requires entries != []
    ensures x in entries
    ensures forall y :: y in entries ==> key(x) <= key(y)
    ensures multiset(rest) + multiset{x} == multiset(entries)
    ensures |rest| == |entries| - 1
    ensures forall y :: y in rest ==> y in entries
    ensures forall y :: y in entries && y != x ==> y in rest
  {
    ghost var first := MinimalIndex(entries, key);
    var k :| 0 <= k < |entries| && forall j :: 0 <= j < |entries| ==> key(entries[k]) <= key(entries[j]);
    x := entries[k];
    rest := entries[..k] + entries[k + 1..];
    assert entries == entries[..k] + [x] + entries[k + 1..];
    forall y
      ensures y in rest ==> y in entries
      ensures y in entries && y != x ==> y in rest
    {
      assert y in rest <==> y in multiset(rest);
      assert y in entries <==> y in multiset(entries);
    }
  }
}
