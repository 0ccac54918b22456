/** Order-preserving filtering of sequences, the shape of `iter().filter(..).collect()`. */
module Seqs {

  /** The elements of `s` satisfying `p`, in their original order. */
  function Filter<T>(s: seq<T>, p: T -> bool): (r: seq<T>)
    ensures |r| <= |s|
    ensures forall k :: 0 <= k < |r| ==> p(r[k])
    decreases |s|
  {
    if s == [] then []
    else if p(s[0]) then [s[0]] + Filter(s[1..], p)
    else Filter(s[1..], p)
  }

  ghost predicate StrictlyIncreasing(idx: seq<nat>) {
    forall a, b :: 0 <= a < b < |idx| ==> idx[a] < idx[b]
  }

  /** Every position moved one place to the right. */
  function Shift(idx: seq<nat>): (r: seq<nat>)
    ensures |r| == |idx|
    ensures forall k :: 0 <= k < |r| ==> r[k] == idx[k] + 1
  {
    seq(|idx|, k requires 0 <= k < |idx| => idx[k] + 1)
  }

  /** The positions kept in the tail of `s`, shifted, are positions of `s` itself. */
  lemma ShiftKept<T>(s: seq<T>, p: T -> bool, tail: seq<nat>)
    requires s != []
    requires StrictlyIncreasing(tail)
    requires forall k :: 0 <= k < |tail| ==> tail[k] < |s| - 1 && p(s[1..][tail[k]])
    ensures StrictlyIncreasing(Shift(tail))
    ensures forall k :: 0 <= k < |tail| ==> 1 <= Shift(tail)[k] < |s| && p(s[Shift(tail)[k]])
  {
    var rest := Shift(tail);
    forall k | 0 <= k < |tail|
      ensures 1 <= rest[k] < |s| && p(s[rest[k]])
    {
      assert s[rest[k]] == s[1..][tail[k]];
    }
  }

  /** Putting position 0 in front of positions that are all at least 1 keeps them increasing. */
  lemma ConsZero(idx: seq<nat>)
    requires StrictlyIncreasing(idx)
    requires forall k :: 0 <= k < |idx| ==> 1 <= idx[k]
    ensures StrictlyIncreasing([0] + idx)
  {
    var r := [0] + idx;
    forall a, b | 0 <= a < b < |r|
      ensures r[a] < r[b]
    {
      assert r[b] == idx[b - 1];
      if a > 0 {
        assert r[a] == idx[a - 1];
      }
    }
  }

  /** The positions of `s` whose element satisfies `p`, in increasing order. */
  function KeptIndices<T>(s: seq<T>, p: T -> bool): (idx: seq<nat>)
    ensures StrictlyIncreasing(idx)
    ensures forall k :: 0 <= k < |idx| ==> idx[k] < |s| && p(s[idx[k]])
    decreases |s|
  {
    if s == [] then []
    else
      var tail := KeptIndices(s[1..], p);
      ShiftKept(s, p, tail);
      if p(s[0]) then
        ConsZero(Shift(tail));
        [0] + Shift(tail)
      else Shift(tail)
  }

  /** A position kept in the tail of `s` is kept, one further right, in `s`. */
  lemma ShiftMember(idx: seq<nat>, x: nat)
    requires x in idx
    ensures x + 1 in Shift(idx)
  {
    var k :| 0 <= k < |idx| && idx[k] == x;
    assert Shift(idx)[k] == x + 1;
  }

  /** No position satisfying `p` is missed by `KeptIndices`. */
  lemma {:induction false} KeptIndicesComplete<T>(s: seq<T>, p: T -> bool, i: nat)
    requires i < |s| && p(s[i])
    ensures i in KeptIndices(s, p)
    decreases |s|
  {
    if i > 0 {
      assert s[1..][i - 1] == s[i];
      KeptIndicesComplete(s[1..], p, i - 1);
      ShiftMember(KeptIndices(s[1..], p), i - 1);
    }
  }

  /** `r` is made of the elements of `s` at the increasing positions `idx`. */
  ghost predicate IsSelection<T>(r: seq<T>, s: seq<T>, idx: seq<nat>) {
    && StrictlyIncreasing(idx)
    && |idx| == |r|
    && forall k :: 0 <= k < |idx| ==> idx[k] < |s| && r[k] == s[idx[k]]
  }

  /** `Filter` picks exactly the elements at `KeptIndices`, one for one and in order:
      the result is the subsequence of `s` made of the elements satisfying `p`. */
  lemma {:induction false} FilterSelectsKept<T>(s: seq<T>, p: T -> bool)
    ensures |Filter(s, p)| == |KeptIndices(s, p)|
    ensures forall k :: 0 <= k < |Filter(s, p)| ==> Filter(s, p)[k] == s[KeptIndices(s, p)[k]]
    decreases |s|
  {
    if s != [] {
      FilterSelectsKept(s[1..], p);
      var tail := KeptIndices(s[1..], p);
      var rest := Shift(tail);
      var ft := Filter(s[1..], p);
      assert forall k :: 0 <= k < |ft| ==> ft[k] == s[rest[k]];
    }
  }

  /** `Filter` on a sequence, its first element aside. */
  lemma FilterCons<T>(x: T, s: seq<T>, p: T -> bool)
    ensures Filter([x] + s, p) == (if p(x) then [x] else []) + Filter(s, p)
  {
    assert ([x] + s)[1..] == s;
  }

  /** `Filter` on a three-element sequence, element by element. */
  lemma FilterThree<T>(a: T, b: T, c: T, p: T -> bool)
    ensures Filter([a, b, c], p)
         == (if p(a) then [a] else []) + (if p(b) then [b] else []) + (if p(c) then [c] else [])
  {
    FilterCons(c, [], p);
    assert [c] + [] == [c];
    FilterCons(b, [c], p);
    assert [b] + [c] == [b, c];
    FilterCons(a, [b, c], p);
    assert [a] + [b, c] == [a, b, c];
  }

  /** A filter whose predicate holds for every element keeps the whole sequence. */
  lemma {:induction false} FilterAll<T>(s: seq<T>, p: T -> bool)
    requires forall k :: 0 <= k < |s| ==> p(s[k])
    ensures Filter(s, p) == s
    decreases |s|
  {
    if s != [] {
      FilterAll(s[1..], p);
    }
  }

  /** Filtering by a weaker predicate first and a stronger one afterwards is the same as
      filtering by the stronger one alone. */
  lemma {:induction false} FilterRefine<T>(s: seq<T>, p: T -> bool, q: T -> bool)
    requires forall x :: q(x) ==> p(x)
    ensures Filter(Filter(s, p), q) == Filter(s, q)
    decreases |s|
  {
    if s != [] {
      FilterRefine(s[1..], p, q);
    }
  }

  /** Filters by predicates that agree on every value give the same result. */
  lemma {:induction false} FilterCongruent<T>(s: seq<T>, p: T -> bool, q: T -> bool)
    requires forall x :: p(x) == q(x)
    ensures Filter(s, p) == Filter(s, q)
    decreases |s|
  {
    if s != [] {
      FilterCongruent(s[1..], p, q);
    }
  }

  /** The whole characterisation: the result of `Filter` is the subsequence of `s` at the
      positions `KeptIndices`, which are exactly the positions whose element satisfies `p`. */
  lemma FilterExact<T>(s: seq<T>, p: T -> bool)
    ensures IsSelection(Filter(s, p), s, KeptIndices(s, p))
    ensures forall i :: 0 <= i < |s| ==> (i in KeptIndices(s, p) <==> p(s[i]))
  {
    var idx := KeptIndices(s, p);
    FilterSelectsKept(s, p);
    forall i | 0 <= i < |s| && p(s[i])
      ensures i in idx
    {
      KeptIndicesComplete(s, p, i);
    }
  }
}
