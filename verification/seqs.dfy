/** Generic sequence operations shared by the roster, the condition lists and the
    turn order: `Array.prototype.filter` and pairwise properties of a list. */
module Seqs {

  /** The elements of `s` that satisfy `p`, in their original order. */
  function Filter<T(!new)>(s: seq<T>, p: T -> bool): (r: seq<T>)
    ensures |r| <= |s|
    ensures forall x :: x in r <==> x in s && p(x)
  {
    if s == [] then []
    else
      assert s == [s[0]] + s[1..];
      (if p(s[0]) then [s[0]] else []) + Filter(s[1..], p)
  }

  /** `rel` holds of every pair of elements taken in list order. */
  ghost predicate Pairwise<T>(s: seq<T>, rel: (T, T) -> bool)
  {
    forall i, j :: 0 <= i < j < |s| ==> rel(s[i], s[j])
  }

  predicate Distinct<T(==)>(a: T, b: T)
  {
    a != b
  }

  /** No value occurs twice in `s`. */
  ghost predicate NoDuplicates<T>(s: seq<T>)
  {
    Pairwise(s, Distinct)
  }

  /** One step of the filter: the head is kept or dropped, then the rest is filtered. */
  lemma FilterCons<T(!new)>(x: T, s: seq<T>, p: T -> bool)
    ensures Filter([x] + s, p) == (if p(x) then [x] else []) + Filter(s, p)
  {
    assert ([x] + s)[1..] == s;
  }

  /** A head that satisfies the predicate is the first element kept. */
  lemma FilterHead<T(!new)>(s: seq<T>, p: T -> bool)
    requires s != [] && p(s[0])
    ensures Filter(s, p) != [] && Filter(s, p)[0] == s[0]
  {
  }

  /** Filtering distributes over concatenation, so it keeps the relative order of what it keeps. */
  lemma {:induction false} FilterConcat<T(!new)>(a: seq<T>, b: seq<T>, p: T -> bool)
    ensures Filter(a + b, p) == Filter(a, p) + Filter(b, p)
  {
    if a == [] {
      assert a + b == b;
    } else {
      assert (a + b)[0] == a[0];
      assert (a + b)[1..] == a[1..] + b;
      FilterConcat(a[1..], b, p);
    }
  }

  /** A filter that rejects nothing returns its input unchanged. */
  lemma {:induction false} FilterKeepsAll<T(!new)>(s: seq<T>, p: T -> bool)
    requires forall x :: x in s ==> p(x)
    ensures Filter(s, p) == s
  {
    if s != [] {
      assert s[0] in s;
      assert forall x :: x in s[1..] ==> x in s;
      FilterKeepsAll(s[1..], p);
      assert s == [s[0]] + s[1..];
    }
  }

  /** Filtering twice by the same predicate is the same as filtering once. */
  lemma {:induction false} FilterIdempotent<T(!new)>(s: seq<T>, p: T -> bool)
    ensures Filter(Filter(s, p), p) == Filter(s, p)
  {
    FilterKeepsAll(Filter(s, p), p);
  }

  /** The tail of a pairwise list is pairwise, and its head is related to every later element. */
  lemma PairwiseTail<T>(s: seq<T>, rel: (T, T) -> bool)
    requires s != [] && Pairwise(s, rel)
    ensures Pairwise(s[1..], rel)
    ensures forall y :: y in s[1..] ==> rel(s[0], y)
  {
    var tail := s[1..];
    forall i, j | 0 <= i < j < |tail| ensures rel(tail[i], tail[j]) {
      assert tail[i] == s[i + 1] && tail[j] == s[j + 1];
    }
    forall y | y in tail ensures rel(s[0], y) {
      var k :| 0 <= k < |tail| && tail[k] == y;
      assert s[k + 1] == y;
    }
  }

  /** A head related to every element of a pairwise tail gives a pairwise list. */
  lemma PairwiseCons<T>(x: T, t: seq<T>, rel: (T, T) -> bool)
    requires Pairwise(t, rel)
    requires forall y :: y in t ==> rel(x, y)
    ensures Pairwise([x] + t, rel)
  {
    var r := [x] + t;
    forall i, j | 0 <= i < j < |r| ensures rel(r[i], r[j]) {
      assert r[j] == t[j - 1];
      if i > 0 {
        assert r[i] == t[i - 1];
      }
    }
  }

  /** Filtering keeps every pairwise property of the list (it only drops elements). */
  lemma {:induction false} FilterPairwise<T(!new)>(s: seq<T>, p: T -> bool, rel: (T, T) -> bool)
    requires Pairwise(s, rel)
    ensures Pairwise(Filter(s, p), rel)
  {
    if s != [] {
      var tail := s[1..];
      PairwiseTail(s, rel);
      FilterPairwise(tail, p, rel);
      assert s == [s[0]] + tail;
      FilterCons(s[0], tail, p);
      if p(s[0]) {
        PairwiseCons(s[0], Filter(tail, p), rel);
      }
    }
  }

  /** The first element that a filter keeps is the first element of `s` satisfying `p`. */
  lemma {:induction false} FilterFirst<T(!new)>(s: seq<T>, p: T -> bool) returns (i: nat)
    requires Filter(s, p) != []
    ensures i < |s| && s[i] == Filter(s, p)[0] && p(s[i])
    ensures forall j :: 0 <= j < i ==> !p(s[j])
  {
    if p(s[0]) {
      i := 0;
    } else {
      assert Filter(s, p) == Filter(s[1..], p);
      var k := FilterFirst(s[1..], p);
      i := k + 1;
      forall j | 0 <= j < i ensures !p(s[j]) {
        if j > 0 {
          assert s[j] == s[1..][j - 1];
        }
      }
    }
  }
}
