/** List comprehensions with a condition (`[x for x in s if p(x)]`) and order facts about them. */
module Seqs {

  function Min(a: int, b: int): (r: int)
    ensures r <= a && r <= b && (r == a || r == b)
  {
    if a <= b then a else b
  }

  /** `[x for x in s if p(x)]`: the elements of `s` that satisfy `p`, each as often as in `s`. */
  function Filter<T(!new)>(s: seq<T>, p: T -> bool): (r: seq<T>)
    ensures |r| <= |s|
    ensures forall k :: 0 <= k < |r| ==> p(r[k])
    ensures forall x :: multiset(r)[x] == if p(x) then multiset(s)[x] else 0
  {
    if |s| == 0 then []
    else
      assert s == [s[0]] + s[1..];
      (if p(s[0]) then [s[0]] else []) + Filter(s[1..], p)
  }

  /** An element of `s` that satisfies `p` is kept; a kept element comes from `s`. */
  lemma FilterMembers<T(!new)>(s: seq<T>, p: T -> bool, x: T)
    ensures x in Filter(s, p) <==> x in s && p(x)
  {
    assert x in Filter(s, p) <==> multiset(Filter(s, p))[x] > 0;
    assert x in s <==> multiset(s)[x] > 0;
  }

  /** A filter is empty exactly when no element satisfies the condition. */
  lemma FilterEmpty<T(!new)>(s: seq<T>, p: T -> bool)
    ensures |Filter(s, p)| == 0 <==> forall k :: 0 <= k < |s| ==> !p(s[k])
  {
    if |Filter(s, p)| == 0 {
      forall k | 0 <= k < |s| ensures !p(s[k]) {
        FilterMembers(s, p, s[k]);
      }
    } else {
      var x := Filter(s, p)[0];
      FilterMembers(s, p, x);
    }
  }

  /** Every earlier element stands in `before` to every later one. */
  ghost predicate Pairwise<T>(s: seq<T>, before: (T, T) -> bool) {
    forall i, j :: 0 <= i < j < |s| ==> before(s[i], s[j])
  }

  /**
    The positions `i <= j < |s|` whose element satisfies `p`, in increasing order: the
    positions a comprehension with a condition takes its elements from.
   */
  function KeptFrom<T>(s: seq<T>, p: T -> bool, i: nat): (r: seq<nat>)
    requires i <= |s|
    ensures forall k :: 0 <= k < |r| ==> i <= r[k] < |s| && p(s[r[k]])
    ensures forall a, b :: 0 <= a < b < |r| ==> r[a] < r[b]
    ensures forall j :: i <= j < |s| && p(s[j]) ==> j in r
    decreases |s| - i
  {
    if i == |s| then []
    else (if p(s[i]) then [i] else []) + KeptFrom(s, p, i + 1)
  }

  function Kept<T>(s: seq<T>, p: T -> bool): (r: seq<nat>)
    ensures forall k :: 0 <= k < |r| ==> r[k] < |s| && p(s[r[k]])
    ensures forall a, b :: 0 <= a < b < |r| ==> r[a] < r[b]
    ensures forall j :: 0 <= j < |s| && p(s[j]) ==> j in r
  {
    KeptFrom(s, p, 0)
  }

  /** The `k`-th element a filter keeps is the element at the `k`-th kept position. */
  lemma {:induction false} FilterFromIndices<T(!new)>(s: seq<T>, p: T -> bool, i: nat)
    requires i <= |s|
    ensures |Filter(s[i..], p)| == |KeptFrom(s, p, i)|
    ensures forall k :: 0 <= k < |KeptFrom(s, p, i)| ==> Filter(s[i..], p)[k] == s[KeptFrom(s, p, i)[k]]
    decreases |s| - i
  {
    if i < |s| {
      FilterFromIndices(s, p, i + 1);
      FilterStep(s, p, i);
      if p(s[i]) {
        IndicesCons(s, Filter(s[i + 1..], p), i, KeptFrom(s, p, i + 1));
      }
    }
  }

  /** Putting the element at `i` in front of the kept elements, and `i` in front of their positions, keeps them matched. */
  lemma IndicesCons<T>(s: seq<T>, rest: seq<T>, i: nat, ks: seq<nat>)
    requires i < |s|
    requires |rest| == |ks| && forall k :: 0 <= k < |ks| ==> ks[k] < |s| && rest[k] == s[ks[k]]
    ensures forall k :: 0 <= k < |ks| + 1 ==> ([s[i]] + rest)[k] == s[([i] + ks)[k]]
  {
  }

  lemma FilterStep<T(!new)>(s: seq<T>, p: T -> bool, i: nat)
    requires i < |s|
    ensures Filter(s[i..], p) == (if p(s[i]) then [s[i]] else []) + Filter(s[i + 1..], p)
  {
    assert s[i..][0] == s[i];
    assert s[i..][1..] == s[i + 1..];
  }

  /** A filter is the sequence of the elements at the kept positions. */
  lemma FilterIndices<T(!new)>(s: seq<T>, p: T -> bool)
    ensures |Filter(s, p)| == |Kept(s, p)|
    ensures forall k :: 0 <= k < |Kept(s, p)| ==> Filter(s, p)[k] == s[Kept(s, p)[k]]
  {
    FilterFromIndices(s, p, 0);
    assert s[0..] == s;
  }

  /** Filtering keeps the relative order of the elements it keeps. */
  lemma {:induction false} FilterPairwise<T(!new)>(s: seq<T>, p: T -> bool, before: (T, T) -> bool)
    requires Pairwise(s, before)
    ensures Pairwise(Filter(s, p), before)
  {
    var r := Filter(s, p);
    var ks := Kept(s, p);
    FilterIndices(s, p);
    forall a, b | 0 <= a < b < |r| ensures before(r[a], r[b]) {
      assert r[a] == s[ks[a]] && r[b] == s[ks[b]] && ks[a] < ks[b];
    }
  }

  /** `[f(x, n) for n, x in enumerate(s, start=1)]`: each element together with its position counted from 1. */
  function Numbered<T, U>(s: seq<T>, f: (T, nat) -> U): (r: seq<U>)
    ensures |r| == |s|
    ensures forall i :: 0 <= i < |s| ==> r[i] == f(s[i], i + 1)
  {
    seq(|s|, i requires 0 <= i < |s| => f(s[i], i + 1))
  }

  /** The number of elements that satisfy `p`. */
  function Count<T>(s: seq<T>, p: T -> bool): nat {
    if |s| == 0 then 0 else (if p(s[0]) then 1 else 0) + Count(s[1..], p)
  }

  lemma CountCons<T>(x: T, s: seq<T>, p: T -> bool)
    ensures Count([x] + s, p) == (if p(x) then 1 else 0) + Count(s, p)
  {
    assert ([x] + s)[1..] == s;
  }

  /** A filter keeps exactly as many elements as satisfy its condition. */
  lemma {:induction false} FilterLength<T(!new)>(s: seq<T>, p: T -> bool)
    ensures |Filter(s, p)| == Count(s, p)
  {
    if |s| > 0 {
      FilterLength(s[1..], p);
    }
  }

  lemma {:induction false} CountFilter<T(!new)>(s: seq<T>, p: T -> bool, q: T -> bool, pq: T -> bool)
    requires forall x :: pq(x) == (p(x) && q(x))
    ensures Count(Filter(s, p), q) == Count(s, pq)
  {
    if |s| > 0 {
      CountFilter(s[1..], p, q, pq);
      var rest := Filter(s[1..], p);
      assert Filter(s, p) == (if p(s[0]) then [s[0]] else []) + rest;
      if p(s[0]) {
        CountCons(s[0], rest, q);
      } else {
        assert [] + rest == rest;
      }
    }
  }

  /** Filtering twice keeps the elements that satisfy both conditions. */
  lemma FilterFilterLength<T(!new)>(s: seq<T>, p: T -> bool, q: T -> bool, pq: T -> bool)
    requires forall x :: pq(x) == (p(x) && q(x))
    ensures |Filter(Filter(s, p), q)| == Count(s, pq)
  {
    FilterLength(Filter(s, p), q);
    CountFilter(s, p, q, pq);
  }

  /** No more elements satisfy `p` than there are elements. */
  lemma {:induction false} CountAtMostLength<T>(s: seq<T>, p: T -> bool)
    ensures Count(s, p) <= |s|
  {
    if |s| > 0 {
      CountAtMostLength(s[1..], p);
    }
  }

  /** A weaker condition counts at least as many elements. */
  lemma {:induction false} CountMonotone<T>(s: seq<T>, p: T -> bool, q: T -> bool)
    requires forall x :: p(x) ==> q(x)
    ensures Count(s, p) <= Count(s, q)
  {
    if |s| > 0 {
      CountMonotone(s[1..], p, q);
    }
  }
}
