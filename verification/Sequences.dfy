// Sequences without repetition, and the removal that fills the gap with the last element.
module Sequences {
  lemma Regroup<T>(a: seq<T>, b: seq<T>, c: seq<T>)
    ensures a + b + c == a + (b + c)
  {
  }

  ghost predicate NoDup<T>(s: seq<T>) {
    forall i, j :: 0 <= i < j < |s| ==> s[i] != s[j]
  }

  // The element at position k is overwritten by the last one, which is dropped.
  function SwapRemoved<T>(cs: seq<T>, k: nat): (r: seq<T>)
    requires k < |cs|
    ensures |r| == |cs| - 1
  {
    cs[k := cs[|cs| - 1]][..|cs| - 1]
  }

  lemma SwapRemovedHas<T>(cs: seq<T>, k: nat)
    requires NoDup(cs) && k < |cs|
    ensures NoDup(SwapRemoved(cs, k))
    ensures forall c :: c in SwapRemoved(cs, k) <==> c in cs && c != cs[k]
  {
    var r, last := SwapRemoved(cs, k), |cs| - 1;
    assert forall j :: 0 <= j < last ==> r[j] == if j == k then cs[last] else cs[j];
    forall c | c in cs && c != cs[k] ensures c in r {
      var j :| 0 <= j < |cs| && cs[j] == c;
      assert r[if j == last then k else j] == c;
    }
  }
}
