/**
  Sequence operations that the recommender uses the way Python uses list
  comprehensions and slices: an order-preserving filter, Python's `s[lo:hi]`
  with its bound normalisation, and the subsequence relation that says
  "same elements, same relative order".
*/
module Seqs {

  /** `[x for x in s if p(x)]`. */
  function Filter<T(==,!new)>(s: seq<T>, p: T -> bool): (r: seq<T>)
    ensures |r| <= |s|
    ensures forall i :: 0 <= i < |r| ==> p(r[i])
    ensures forall x :: x in r <==> x in s && p(x)
  {
    if s == [] then []
    else
      assert s == [s[0]] + s[1..];
      (if p(s[0]) then [s[0]] else []) + Filter(s[1..], p)
  }

  /** `r` can be obtained from `s` by deleting elements, keeping the order of the rest. */
  predicate IsSubsequence<T(==,!new)>(r: seq<T>, s: seq<T>)
    decreases |s|
  {
    if r == [] then true
    else if s == [] then false
    else if r[0] == s[0] then IsSubsequence(r[1..], s[1..])
    else IsSubsequence(r, s[1..])
  }

  lemma {:induction false} FilterIsSubsequence<T(!new)>(s: seq<T>, p: T -> bool)
    ensures IsSubsequence(Filter(s, p), s)
  {
    if s != [] {
      FilterIsSubsequence(s[1..], p);
      var r := Filter(s, p);
      if p(s[0]) {
        assert r[0] == s[0] && r[1..] == Filter(s[1..], p);
      } else {
        assert r == Filter(s[1..], p);
        assert r != [] ==> r[0] != s[0];
      }
    }
  }

  lemma {:induction false} FilterAppend<T(!new)>(a: seq<T>, b: seq<T>, p: T -> bool)
    ensures Filter(a + b, p) == Filter(a, p) + Filter(b, p)
  {
    if a == [] {
      assert a + b == b;
    } else {
      assert (a + b)[1..] == a[1..] + b;
      FilterAppend(a[1..], b, p);
    }
  }

  /** The filter keeps every occurrence of a kept element and none of a dropped one. */
  lemma {:induction false} FilterCount<T(!new)>(s: seq<T>, p: T -> bool, x: T)
    ensures multiset(Filter(s, p))[x] == if p(x) then multiset(s)[x] else 0
  {
    if s != [] {
      FilterCount(s[1..], p, x);
      assert s == [s[0]] + s[1..];
    }
  }

  /** A filter whose predicate holds everywhere keeps the whole sequence. */
  lemma {:induction false} FilterKeepsAll<T(!new)>(s: seq<T>, p: T -> bool)
    requires forall x :: x in s ==> p(x)
    ensures Filter(s, p) == s
  {
    if s != [] {
      assert forall x :: x in s[1..] ==> x in s;
      FilterKeepsAll(s[1..], p);
    }
  }

  lemma SplitAt<T>(s: seq<T>, m: nat)
    requires m < |s|
    ensures s == s[..m] + [s[m]] + s[m + 1..]
  {
  }

  /**
    When the predicate fails at position `m` and holds on every element before
    and after it, the filter removes exactly that element.
  */
  lemma FilterDropsOne<T(!new)>(s: seq<T>, p: T -> bool, m: nat)
    requires m < |s| && !p(s[m])
    requires forall x :: x in s[..m] ==> p(x)
    requires forall x :: x in s[m + 1..] ==> p(x)
    ensures Filter(s, p) == s[..m] + s[m + 1..]
  {
    var front, back := s[..m], s[m + 1..];
    SplitAt(s, m);
    FilterAppend(front + [s[m]], back, p);
    FilterAppend(front, [s[m]], p);
    FilterKeepsAll(front, p);
    FilterKeepsAll(back, p);
    assert Filter([s[m]], p) == [];
    calc {
      Filter(s, p);
      Filter(front + [s[m]], p) + Filter(back, p);
      Filter(front, p) + Filter([s[m]], p) + Filter(back, p);
      front + [] + back;
      { assert front + [] == front; }
      front + back;
    }
  }

  /**
    The head of a non-empty filter is the first element of `s` that
    satisfies the predicate; `i` is its position in `s`.
  */
  lemma {:induction false} FilterHead<T(!new)>(s: seq<T>, p: T -> bool) returns (i: nat)
    requires Filter(s, p) != []
    ensures i < |s| && s[i] == Filter(s, p)[0] && p(s[i])
    ensures forall j :: 0 <= j < i ==> !p(s[j])
  {
    if p(s[0]) {
      i := 0;
    } else {
      var k := FilterHead(s[1..], p);
      i := k + 1;
      forall j | 0 <= j < i ensures !p(s[j]) {
        if j > 0 { assert s[j] == s[1..][j - 1]; }
      }
    }
  }

  /** Python's normalisation of one slice bound for a sequence of length `n`. */
  function SliceBound(b: int, n: nat): (r: nat)
    ensures r <= n
    ensures 0 <= b <= n ==> r == b
    ensures -(n as int) <= b < 0 ==> r as int == b + n as int
  {
    if b < 0 then (if b + n < 0 then 0 else b + n)
    else if b > n then n
    else b
  }

  /** Python's `s[lo:hi]` (step 1): bounds are normalised, an empty range gives `[]`. */
  function Slice<T>(s: seq<T>, lo: int, hi: int): (r: seq<T>)
    ensures |r| <= |s|
    ensures forall i :: 0 <= i < |r| ==> SliceBound(lo, |s|) + i < |s| && r[i] == s[SliceBound(lo, |s|) + i]
    ensures 0 <= lo <= hi ==> |r| == (if hi <= |s| then hi else |s|) - (if lo <= |s| then lo else |s|)
  {
    var l, h := SliceBound(lo, |s|), SliceBound(hi, |s|);
    if l < h then s[l..h] else []
  }
}
