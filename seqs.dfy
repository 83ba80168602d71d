/** Order-preserving selection, reversal and counting over sequences. */
module Seqs {

  /** The elements of `s` that satisfy `p`, in their original order
      (the list a loop builds when it appends every element that passes a test). */
  function Filter<T>(s: seq<T>, p: T -> bool): (r: seq<T>)
    ensures |r| <= |s|
  {
    if s == [] then []
    else
      var kept := Filter(s[..|s| - 1], p);
      assert s == s[..|s| - 1] + [s[|s| - 1]];
      if p(s[|s| - 1]) then kept + [s[|s| - 1]] else kept
  }

  /** The positions of `s` whose element satisfies `p`. */
  function IndicesWhere<T>(s: seq<T>, p: T -> bool): set<nat>
  {
    set i: nat | i < |s| && p(s[i])
  }

  /** How many elements of `s` satisfy `p`. */
  function CountWhere<T>(s: seq<T>, p: T -> bool): nat
  {
    |IndicesWhere(s, p)|
  }

  /** `s` read back to front. */
  function Reversed<T>(s: seq<T>): (r: seq<T>)
    ensures |r| == |s|
    ensures forall k :: 0 <= k < |s| ==> r[k] == s[|s| - 1 - k]
  {
    if s == [] then [] else [s[|s| - 1]] + Reversed(s[..|s| - 1])
  }

  /** Reversal keeps the same elements. */
  lemma ReversedMembers<T>(s: seq<T>)
    ensures forall x :: x in Reversed(s) <==> x in s
  {
  }

  /** Reading strictly increasing positions back to front gives strictly
      decreasing ones. */
  lemma ReversedDecreasing(up: seq<nat>)
    requires forall k, l :: 0 <= k < l < |up| ==> up[k] < up[l]
    ensures forall j, l :: 0 <= j < l < |up| ==> Reversed(up)[j] > Reversed(up)[l]
  {
  }

  /** Selecting from a concatenation selects from each part, keeping the parts in order. */
  lemma {:induction false} FilterConcat<T>(a: seq<T>, b: seq<T>, p: T -> bool)
    ensures Filter(a + b, p) == Filter(a, p) + Filter(b, p)
  {
    if b == [] {
      assert a + b == a;
    } else {
      var n := |b| - 1;
      assert (a + b)[..|a + b| - 1] == a + b[..n];
      assert (a + b)[|a + b| - 1] == b[n];
      FilterConcat(a, b[..n], p);
    }
  }

  /** An element is selected exactly when it occurs in `s` and passes the test. */
  lemma {:induction false} FilterMembers<T>(s: seq<T>, p: T -> bool)
    ensures forall x :: x in Filter(s, p) <==> x in s && p(x)
  {
    if s != [] {
      var n := |s| - 1;
      FilterMembers(s[..n], p);
      assert s == s[..n] + [s[n]];
    }
  }

  /** The selection has exactly one element per position that passes the test. */
  lemma {:induction false} FilterLength<T>(s: seq<T>, p: T -> bool)
    ensures |Filter(s, p)| == CountWhere(s, p)
  {
    if s == [] {
      assert IndicesWhere(s, p) == {};
    } else {
      var n := |s| - 1;
      FilterLength(s[..n], p);
      var before := IndicesWhere(s[..n], p);
      var extra: set<nat> := if p(s[n]) then {n} else {};
      assert IndicesWhere(s, p) == before + extra by {
        forall i: nat | i < n ensures s[..n][i] == s[i] { }
      }
      assert before * extra == {};
    }
  }

  /** The selection is the subsequence of `s` at the strictly increasing positions
      `idx`, which are exactly the positions whose element passes the test. */
  lemma {:induction false} FilterIndices<T>(s: seq<T>, p: T -> bool) returns (idx: seq<nat>)
    ensures |idx| == |Filter(s, p)|
    ensures forall k :: 0 <= k < |idx| ==> idx[k] < |s| && Filter(s, p)[k] == s[idx[k]]
    ensures forall k, l :: 0 <= k < l < |idx| ==> idx[k] < idx[l]
    ensures forall i: nat :: i in idx <==> i < |s| && p(s[i])
  {
    if s == [] {
      idx := [];
    } else {
      var n := |s| - 1;
      var front := s[..n];
      var prev := FilterIndices(front, p);
      var kept := Filter(front, p);
      assert Filter(s, p) == if p(s[n]) then kept + [s[n]] else kept;
      assert forall i :: 0 <= i < n ==> front[i] == s[i];
      if p(s[n]) {
        idx := prev + [n];
      } else {
        idx := prev;
      }
    }
  }
}
