/**
  Python's `sorted(s, key=key, reverse=True)`: a stable sort into non-increasing key order.
  `Counter.most_common(n)` is documented as `sorted(..., reverse=True)[:n]`, so it uses the same sort.
 */
module Sorting {
  import opened Seqs

  ghost predicate SortedDesc<T>(s: seq<T>, key: T -> real) {
    forall i, j :: 0 <= i < j < |s| ==> key(s[i]) >= key(s[j])
  }

  /** Elements with equal keys stand in `before` order. */
  ghost predicate StableBy<T>(s: seq<T>, key: T -> real, before: (T, T) -> bool) {
    forall i, j :: 0 <= i < j < |s| && key(s[i]) == key(s[j]) ==> before(s[i], s[j])
  }

  /** Inserts `x` behind every element whose key is at least `key(x)`. */
  function InsertDesc<T>(t: seq<T>, x: T, key: T -> real): (r: seq<T>)
    ensures multiset(r) == multiset(t) + multiset{x}
  {
    if |t| == 0 then [x]
    else if key(t[0]) < key(x) then [x] + t
    else
      assert t == [t[0]] + t[1..];
      [t[0]] + InsertDesc(t[1..], x, key)
  }

  lemma {:induction false} InsertDescSorted<T>(t: seq<T>, x: T, key: T -> real)
    requires SortedDesc(t, key)
    ensures SortedDesc(InsertDesc(t, x, key), key)
  {
    if |t| > 0 && key(t[0]) >= key(x) {
      var rest := InsertDesc(t[1..], x, key);
      InsertDescSorted(t[1..], x, key);
      var r := [t[0]] + rest;
      forall j | 0 < j < |r| ensures key(r[0]) >= key(r[j]) {
        assert r[j] in multiset(rest);
        if r[j] != x {
          assert r[j] in multiset(t[1..]);
          var k :| 0 <= k < |t[1..]| && t[1..][k] == r[j];
          assert t[k + 1] == r[j];
        }
      }
    }
  }

  /** The stable sort, as an insertion sort that takes the input from left to right. */
  function SortDesc<T>(s: seq<T>, key: T -> real): (r: seq<T>)
    ensures multiset(r) == multiset(s)
    ensures SortedDesc(r, key)
  {
    if |s| == 0 then []
    else
      assert s == s[..|s| - 1] + [s[|s| - 1]];
      var t := SortDesc(s[..|s| - 1], key);
      InsertDescSorted(t, s[|s| - 1], key);
      InsertDesc(t, s[|s| - 1], key)
  }

  lemma {:induction false} InsertDescStable<T>(t: seq<T>, x: T, key: T -> real, before: (T, T) -> bool)
    requires SortedDesc(t, key) && StableBy(t, key, before)
    requires forall y :: y in t ==> before(y, x)
    ensures StableBy(InsertDesc(t, x, key), key, before)
  {
    if |t| > 0 && key(t[0]) >= key(x) {
      InsertDescStable(t[1..], x, key, before);
      var rest := InsertDesc(t[1..], x, key);
      var r := [t[0]] + rest;
      forall j | 0 < j < |r| && key(r[0]) == key(r[j]) ensures before(r[0], r[j]) {
        assert r[j] in multiset(rest);
        if r[j] != x {
          assert r[j] in multiset(t[1..]);
          var k :| 0 <= k < |t[1..]| && t[1..][k] == r[j];
          assert t[k + 1] == r[j];
        }
      }
    }
  }

  /** If the input is in `before` order, equal-key elements of the output keep that order. */
  lemma {:induction false} SortDescStable<T>(s: seq<T>, key: T -> real, before: (T, T) -> bool)
    requires Pairwise(s, before)
    ensures StableBy(SortDesc(s, key), key, before)
  {
    if |s| > 0 {
      var init := s[..|s| - 1];
      var x := s[|s| - 1];
      SortDescStable(init, key, before);
      var t := SortDesc(init, key);
      forall y | y in t ensures before(y, x) {
        assert y in multiset(init);
        var k :| 0 <= k < |init| && init[k] == y;
      }
      InsertDescStable(t, x, key, before);
    }
  }

  /** The first `m` elements of a non-increasing list dominate every element left behind. */
  lemma PrefixDominates<T>(r: seq<T>, key: T -> real, m: nat)
    requires SortedDesc(r, key) && m <= |r|
    ensures forall x, i :: x in multiset(r) - multiset(r[..m]) && 0 <= i < m ==> key(x) <= key(r[i])
  {
    assert r == r[..m] + r[m..];
    forall x, i | x in multiset(r) - multiset(r[..m]) && 0 <= i < m ensures key(x) <= key(r[i]) {
      assert x in multiset(r[m..]);
      var k :| 0 <= k < |r[m..]| && r[m..][k] == x;
      assert r[m + k] == x;
    }
  }

  /**
    In a stable order, an element left behind that ties one of the first `m` stands in
    `before` to it: the tie is broken by the input order.
   */
  lemma PrefixStable<T>(r: seq<T>, key: T -> real, before: (T, T) -> bool, m: nat)
    requires StableBy(r, key, before) && m <= |r|
    ensures forall x, i :: x in multiset(r) - multiset(r[..m]) && 0 <= i < m && key(x) == key(r[i]) ==> before(r[i], x)
  {
    assert r == r[..m] + r[m..];
    forall x, i | x in multiset(r) - multiset(r[..m]) && 0 <= i < m && key(x) == key(r[i]) ensures before(r[i], x) {
      assert x in multiset(r[m..]);
      var k :| 0 <= k < |r[m..]| && r[m..][k] == x;
      assert r[m + k] == x;
    }
  }

  /** Sum of the keys. */
  function SumKeys<T>(s: seq<T>, key: T -> real): real {
    if |s| == 0 then 0.0 else key(s[0]) + SumKeys(s[1..], key)
  }

  lemma {:induction false} InsertDescSum<T>(t: seq<T>, x: T, key: T -> real)
    ensures SumKeys(InsertDesc(t, x, key), key) == SumKeys(t, key) + key(x)
  {
    if |t| > 0 && key(t[0]) >= key(x) {
      InsertDescSum(t[1..], x, key);
      assert ([t[0]] + InsertDesc(t[1..], x, key))[1..] == InsertDesc(t[1..], x, key);
    } else if |t| > 0 {
      assert ([x] + t)[1..] == t;
    }
  }

  lemma {:induction false} SumKeysSnoc<T>(s: seq<T>, x: T, key: T -> real)
    ensures SumKeys(s + [x], key) == SumKeys(s, key) + key(x)
  {
    if |s| > 0 {
      assert (s + [x])[1..] == s[1..] + [x];
      SumKeysSnoc(s[1..], x, key);
    }
  }

  lemma SumKeysLast<T>(s: seq<T>, key: T -> real)
    requires |s| > 0
    ensures SumKeys(s, key) == SumKeys(s[..|s| - 1], key) + key(s[|s| - 1])
  {
    assert s == s[..|s| - 1] + [s[|s| - 1]];
    SumKeysSnoc(s[..|s| - 1], s[|s| - 1], key);
  }

  /** Sorting does not change the total of the keys. */
  lemma {:induction false} SortDescSum<T>(s: seq<T>, key: T -> real)
    ensures SumKeys(SortDesc(s, key), key) == SumKeys(s, key)
  {
    if |s| > 0 {
      var init := s[..|s| - 1];
      var x := s[|s| - 1];
      SumKeysLast(s, key);
      var t := SortDesc(init, key);
      assert SortDesc(s, key) == InsertDesc(t, x, key);
      SortDescSum(init, key);
      InsertDescSum(t, x, key);
    }
  }

  /** With non-negative keys, a prefix sums to at most the whole. */
  lemma {:induction false} SumKeysPrefix<T>(s: seq<T>, key: T -> real, m: nat)
    requires m <= |s|
    requires forall k :: 0 <= k < |s| ==> key(s[k]) >= 0.0
    ensures SumKeys(s[..m], key) <= SumKeys(s, key)
  {
    if m > 0 {
      assert s[..m][1..] == s[1..][..m - 1];
      SumKeysPrefix(s[1..], key, m - 1);
    } else {
      SumKeysNonNegative(s, key);
    }
  }

  lemma {:induction false} SumKeysNonNegative<T>(s: seq<T>, key: T -> real)
    requires forall k :: 0 <= k < |s| ==> key(s[k]) >= 0.0
    ensures SumKeys(s, key) >= 0.0
  {
    if |s| > 0 {
      SumKeysNonNegative(s[1..], key);
    }
  }
}
