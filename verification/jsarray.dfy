/** JavaScript array primitives as the editors use them: `splice` with its
    index normalisation, `filter`, and the adjacent swap that a
    remove-then-insert pair of splices amounts to. */
module JsArray {

  /** How `Array.prototype.splice` reads its start argument: a negative
      start counts back from the end (and stops at 0), a start past the end
      is clamped to the length. */
  function SpliceStart(start: int, len: nat): (k: nat)
    ensures k <= len
    ensures 0 <= start <= len ==> k == start
    ensures start < 0 && len + start >= 0 ==> k == len + start
    ensures len + start < 0 ==> k == 0
    ensures start > len ==> k == len
  {
    if start < 0 then (if len + start < 0 then 0 else len + start)
    else if start > len then len
    else start
  }

  /** `a.splice(start, 1)`: the array left after removing the element at the
      normalised start, if there is one there. */
  function SpliceRemoveOne<T>(s: seq<T>, start: int): (r: seq<T>)
    ensures var k := SpliceStart(start, |s|);
            && (k == |s| ==> r == s)
            && (k < |s| ==>
                  && |r| == |s| - 1
                  && (forall i :: 0 <= i < k ==> r[i] == s[i])
                  && (forall i :: k <= i < |r| ==> r[i] == s[i + 1]))
  {
    var k := SpliceStart(start, |s|);
    if k < |s| then s[..k] + s[k + 1..] else s
  }

  /** `a.splice(start, 0, x)`: `x` inserted at the normalised start. */
  function SpliceInsert<T>(s: seq<T>, start: int, x: T): (r: seq<T>)
    ensures var k := SpliceStart(start, |s|);
            && |r| == |s| + 1
            && r[k] == x
            && (forall i :: 0 <= i < k ==> r[i] == s[i])
            && (forall i :: k < i < |r| ==> r[i] == s[i - 1])
    ensures multiset(r) == multiset(s) + multiset{x}
  {
    var k := SpliceStart(start, |s|);
    assert s == s[..k] + s[k..];
    s[..k] + [x] + s[k..]
  }

  /** The element removed by `SpliceRemoveOne` goes back in the multiset. */
  lemma SpliceRemoveOneMultiset<T>(s: seq<T>, start: int)
    requires SpliceStart(start, |s|) < |s|
    ensures multiset(SpliceRemoveOne(s, start)) + multiset{s[SpliceStart(start, |s|)]} == multiset(s)
  {
    var k := SpliceStart(start, |s|);
    assert s == s[..k] + [s[k]] + s[k + 1..];
  }

  /** Positions `i` and `j` exchange their elements. */
  function Swap<T>(s: seq<T>, i: nat, j: nat): (r: seq<T>)
    requires i < |s| && j < |s|
  {
    s[i := s[j]][j := s[i]]
  }

  /** Swapping back undoes a swap. */
  lemma SwapTwice<T>(s: seq<T>, i: nat, j: nat)
    requires i < |s| && j < |s|
    ensures Swap(Swap(s, i, j), j, i) == s
  {
    var w := Swap(Swap(s, i, j), j, i);
    assert forall k :: 0 <= k < |s| ==> w[k] == s[k];
  }

  /** Removing the element at `i` and inserting it again at a neighbouring
      position `j` exchanges the two and leaves every other position alone. */
  lemma RemoveInsertNeighbourIsSwap<T>(s: seq<T>, i: nat, j: nat)
    requires i < |s| && j < |s|
    requires j == i + 1 || j + 1 == i
    ensures SpliceInsert(SpliceRemoveOne(s, i), j, s[i]) == Swap(s, i, j)
    ensures multiset(Swap(s, i, j)) == multiset(s)
  {
    var removed := SpliceRemoveOne(s, i);
    var r := SpliceInsert(removed, j, s[i]);
    var w := Swap(s, i, j);
    assert |r| == |w|;
    forall p | 0 <= p < |r|
      ensures r[p] == w[p]
    {
      if p == j {
      } else if p < j {
        assert r[p] == removed[p];
      } else {
        assert r[p] == removed[p - 1];
      }
    }
    SpliceRemoveOneMultiset(s, i);
  }

  /** `a` can be obtained from `b` by deleting elements: the order of what
      is kept is the order it had. */
  predicate IsSubsequence<T(==)>(a: seq<T>, b: seq<T>)
    decreases |b|
  {
    if |a| == 0 then true
    else if |b| == 0 then false
    else (a[0] == b[0] && IsSubsequence(a[1..], b[1..])) || IsSubsequence(a, b[1..])
  }

  /** `a.filter(keep)`. */
  function Filter<T(==,!new)>(s: seq<T>, keep: T -> bool): (r: seq<T>)
    ensures forall x :: x in r <==> x in s && keep(x)
    ensures forall x :: multiset(r)[x] == if keep(x) then multiset(s)[x] else 0
    ensures IsSubsequence(r, s)
  {
    if |s| == 0 then []
    else
      var rest := Filter(s[1..], keep);
      assert s == [s[0]] + s[1..];
      if keep(s[0]) then
        assert ([s[0]] + rest)[1..] == rest;
        [s[0]] + rest
      else
        rest
  }

  /** Filters whose predicates agree on every element give the same list. */
  lemma {:induction false} FilterCongruent<T(!new)>(s: seq<T>, keep1: T -> bool, keep2: T -> bool)
    requires forall k :: 0 <= k < |s| ==> keep1(s[k]) == keep2(s[k])
    ensures Filter(s, keep1) == Filter(s, keep2)
  {
    if |s| > 0 {
      FilterCongruent(s[1..], keep1, keep2);
    }
  }

  /** A filter that keeps every element is the identity. */
  lemma {:induction false} FilterKeepAll<T(!new)>(s: seq<T>, keep: T -> bool)
    requires forall k :: 0 <= k < |s| ==> keep(s[k])
    ensures Filter(s, keep) == s
  {
    if |s| > 0 {
      FilterKeepAll(s[1..], keep);
      assert [s[0]] + s[1..] == s;
    }
  }
}
