/**
  The cause histogram of the over-budget summary: `Counter(e.name or "unknown" for e in over)`
  and its `most_common(5)`. A `Counter` remembers keys in first-occurrence order, and
  `most_common(n)` is `sorted(items, key=count, reverse=True)[:n]`, so ties keep that order.
 */
module Causes {
  import opened Wrappers
  import opened Seqs
  import opened Sorting
  import opened Models

  /** One histogram entry; `firstSeen` is the index of the cause's first event. */
  datatype CauseCount = CauseCount(cause: string, count: nat, firstSeen: nat)

  /** `e.name or "unknown"` */
  function CauseOf(e: Event): string {
    if e.name == "" then "unknown" else e.name
  }

  /** How many events have cause `c`, counted from the back. */
  function CountCause(s: seq<Event>, c: string): nat {
    if |s| == 0 then 0 else CountCause(s[..|s| - 1], c) + (if CauseOf(s[|s| - 1]) == c then 1 else 0)
  }

  lemma {:induction false} CountCauseZero(s: seq<Event>, c: string)
    requires CountCause(s, c) == 0
    ensures forall j :: 0 <= j < |s| ==> CauseOf(s[j]) != c
  {
    if |s| > 0 {
      CountCauseZero(s[..|s| - 1], c);
      assert forall j :: 0 <= j < |s| - 1 ==> s[j] == s[..|s| - 1][j];
    }
  }

  function CountKey(c: CauseCount): real {
    c.count as real
  }

  function FirstSeenBefore(a: CauseCount, b: CauseCount): bool {
    a.firstSeen < b.firstSeen
  }

  /** The position of the entry for cause `c`, if there is one. */
  function IndexOfCause(t: seq<CauseCount>, c: string): (r: Option<nat>)
    ensures r.Some? ==> r.value < |t| && t[r.value].cause == c
    ensures r.None? ==> forall k :: 0 <= k < |t| ==> t[k].cause != c
  {
    if |t| == 0 then None
    else if t[0].cause == c then Some(0)
    else match IndexOfCause(t[1..], c)
      case Some(k) => Some(k + 1)
      case None => None
  }

  /** `counter[c] += 1` for the event at index `idx`. */
  function Bump(t: seq<CauseCount>, c: string, idx: nat): seq<CauseCount> {
    match IndexOfCause(t, c)
    case Some(k) => t[k := CauseCount(c, t[k].count + 1, t[k].firstSeen)]
    case None => t + [CauseCount(c, 1, idx)]
  }

  /** The `Counter` built by reading the events from left to right. */
  function Tally(s: seq<Event>): seq<CauseCount> {
    if |s| == 0 then [] else Bump(Tally(s[..|s| - 1]), CauseOf(s[|s| - 1]), |s| - 1)
  }

  ghost predicate DistinctCauses(t: seq<CauseCount>) {
    forall i, j :: 0 <= i < j < |t| ==> t[i].cause != t[j].cause
  }

  ghost predicate CountsMatch(t: seq<CauseCount>, s: seq<Event>) {
    forall k :: 0 <= k < |t| ==> t[k].count == CountCause(s, t[k].cause) >= 1
  }

  ghost predicate NoneMissing(t: seq<CauseCount>, s: seq<Event>) {
    forall c :: (forall k :: 0 <= k < |t| ==> t[k].cause != c) ==> CountCause(s, c) == 0
  }

  ghost predicate FirstSeenRight(t: seq<CauseCount>, s: seq<Event>) {
    forall k :: 0 <= k < |t| ==>
      && t[k].firstSeen < |s| && CauseOf(s[t[k].firstSeen]) == t[k].cause
      && forall j :: 0 <= j < t[k].firstSeen ==> CauseOf(s[j]) != t[k].cause
  }

  ghost predicate FirstSeenIncreasing(t: seq<CauseCount>) {
    forall i, j :: 0 <= i < j < |t| ==> t[i].firstSeen < t[j].firstSeen
  }

  /**
    `t` is the histogram of `s`: one entry per cause, with the right count and first
    index, in first-occurrence order, and no cause of `s` missing.
   */
  ghost predicate HistogramOf(t: seq<CauseCount>, s: seq<Event>) {
    DistinctCauses(t) && CountsMatch(t, s) && NoneMissing(t, s) && FirstSeenRight(t, s) && FirstSeenIncreasing(t)
  }

  lemma {:induction false} SumKeysUpdate(t: seq<CauseCount>, k: nat, x: CauseCount)
    requires k < |t| && x.count == t[k].count + 1
    ensures SumKeys(t[k := x], CountKey) == SumKeys(t, CountKey) + 1.0
  {
    if k > 0 {
      assert t[k := x][1..] == t[1..][k - 1 := x];
      SumKeysUpdate(t[1..], k - 1, x);
    } else {
      assert t[k := x][1..] == t[1..];
    }
  }

  /** One more event extends every count by its own cause. */
  lemma CountCauseSnoc(s: seq<Event>, x: Event, d: string)
    ensures CountCause(s + [x], d) == CountCause(s, d) + (if CauseOf(x) == d then 1 else 0)
  {
    assert (s + [x])[..|s + [x]| - 1] == s;
  }

  /** Counting an event whose cause already has an entry. */
  lemma BumpFound(t: seq<CauseCount>, s: seq<Event>, x: Event, k: nat)
    requires HistogramOf(t, s)
    requires k < |t| && t[k].cause == CauseOf(x)
    ensures HistogramOf(t[k := CauseCount(CauseOf(x), t[k].count + 1, t[k].firstSeen)], s + [x])
  {
    var t' := t[k := CauseCount(CauseOf(x), t[k].count + 1, t[k].firstSeen)];
    assert forall j :: 0 <= j < |t| ==> t'[j].cause == t[j].cause && t'[j].firstSeen == t[j].firstSeen;
    BumpFoundCounts(t, s, x, k);
    BumpFoundFirstSeen(t, s, x, k);
  }

  lemma BumpFoundCounts(t: seq<CauseCount>, s: seq<Event>, x: Event, k: nat)
    requires DistinctCauses(t) && CountsMatch(t, s) && NoneMissing(t, s)
    requires k < |t| && t[k].cause == CauseOf(x)
    ensures CountsMatch(t[k := CauseCount(CauseOf(x), t[k].count + 1, t[k].firstSeen)], s + [x])
    ensures NoneMissing(t[k := CauseCount(CauseOf(x), t[k].count + 1, t[k].firstSeen)], s + [x])
  {
    var s' := s + [x];
    var c := CauseOf(x);
    var t' := t[k := CauseCount(c, t[k].count + 1, t[k].firstSeen)];
    forall d ensures CountCause(s', d) == CountCause(s, d) + (if c == d then 1 else 0) {
      CountCauseSnoc(s, x, d);
    }
    forall j | 0 <= j < |t'| ensures t'[j].count == CountCause(s', t'[j].cause) >= 1 {
      if j != k {
        assert t'[j] == t[j];
      } else {
        assert t'[j].cause == c && t[k].count == CountCause(s, c);
        assert CountCause(s', c) == CountCause(s, c) + 1;
      }
    }
    forall d | forall j :: 0 <= j < |t'| ==> t'[j].cause != d
      ensures CountCause(s', d) == 0
    {
      assert forall j :: 0 <= j < |t| ==> t[j].cause == t'[j].cause;
    }
  }

  lemma BumpFoundFirstSeen(t: seq<CauseCount>, s: seq<Event>, x: Event, k: nat)
    requires FirstSeenRight(t, s)
    requires k < |t| && t[k].cause == CauseOf(x)
    ensures FirstSeenRight(t[k := CauseCount(CauseOf(x), t[k].count + 1, t[k].firstSeen)], s + [x])
  {
    var s' := s + [x];
    var t' := t[k := CauseCount(CauseOf(x), t[k].count + 1, t[k].firstSeen)];
    assert forall j :: 0 <= j < |t| ==> t'[j].cause == t[j].cause && t'[j].firstSeen == t[j].firstSeen;
    assert forall j :: 0 <= j < |s| ==> s'[j] == s[j];
  }

  /** Counting an event whose cause is new. */
  lemma BumpNew(t: seq<CauseCount>, s: seq<Event>, x: Event)
    requires HistogramOf(t, s)
    requires forall k :: 0 <= k < |t| ==> t[k].cause != CauseOf(x)
    ensures HistogramOf(t + [CauseCount(CauseOf(x), 1, |s|)], s + [x])
  {
    var s' := s + [x];
    var c := CauseOf(x);
    var t' := t + [CauseCount(c, 1, |s|)];
    forall d ensures CountCause(s', d) == CountCause(s, d) + (if c == d then 1 else 0) {
      CountCauseSnoc(s, x, d);
    }
    CountCauseZero(s, c);
    assert forall j :: 0 <= j < |t| ==> t'[j] == t[j];
    assert CountsMatch(t', s');
    assert NoneMissing(t', s') by {
      forall d | forall k :: 0 <= k < |t'| ==> t'[k].cause != d
        ensures CountCause(s', d) == 0
      {
        assert t'[|t|].cause != d;
        assert forall k :: 0 <= k < |t| ==> t[k].cause != d;
      }
    }
    BumpNewFirstSeen(t, s, x);
  }

  lemma BumpNewFirstSeen(t: seq<CauseCount>, s: seq<Event>, x: Event)
    requires FirstSeenRight(t, s) && FirstSeenIncreasing(t)
    requires CountCause(s, CauseOf(x)) == 0
    ensures FirstSeenRight(t + [CauseCount(CauseOf(x), 1, |s|)], s + [x])
    ensures FirstSeenIncreasing(t + [CauseCount(CauseOf(x), 1, |s|)])
  {
    var s' := s + [x];
    var c := CauseOf(x);
    var t' := t + [CauseCount(c, 1, |s|)];
    CountCauseZero(s, c);
    forall k | 0 <= k < |t'|
      ensures t'[k].firstSeen < |s'| && CauseOf(s'[t'[k].firstSeen]) == t'[k].cause
      ensures forall j :: 0 <= j < t'[k].firstSeen ==> CauseOf(s'[j]) != t'[k].cause
    {
      if k < |t| {
        assert t'[k] == t[k];
        assert forall j :: 0 <= j <= t[k].firstSeen ==> s'[j] == s[j];
      } else {
        assert t'[k] == CauseCount(c, 1, |s|);
        assert forall j :: 0 <= j < |s| ==> s'[j] == s[j];
      }
    }
    forall i, j | 0 <= i < j < |t'| ensures t'[i].firstSeen < t'[j].firstSeen {
      assert t'[i] == t[i];
      if j < |t| {
        assert t'[j] == t[j];
      }
    }
  }

  /** Counting one more event keeps the histogram right and adds one to its total. */
  lemma BumpHistogram(t: seq<CauseCount>, s: seq<Event>, x: Event)
    requires HistogramOf(t, s)
    ensures HistogramOf(Bump(t, CauseOf(x), |s|), s + [x])
    ensures SumKeys(Bump(t, CauseOf(x), |s|), CountKey) == SumKeys(t, CountKey) + 1.0
  {
    var c := CauseOf(x);
    match IndexOfCause(t, c)
    case Some(k) =>
      assert Bump(t, c, |s|) == t[k := CauseCount(c, t[k].count + 1, t[k].firstSeen)];
      BumpFound(t, s, x, k);
      SumKeysUpdate(t, k, CauseCount(c, t[k].count + 1, t[k].firstSeen));
    case None =>
      assert Bump(t, c, |s|) == t + [CauseCount(c, 1, |s|)];
      BumpNew(t, s, x);
      SumKeysSnoc(t, CauseCount(c, 1, |s|), CountKey);
  }

  /** `Tally` builds the histogram, and its counts add up to the number of events. */
  lemma {:induction false} TallyHistogram(s: seq<Event>)
    ensures HistogramOf(Tally(s), s)
    ensures SumKeys(Tally(s), CountKey) == |s| as real
  {
    if |s| > 0 {
      var init := s[..|s| - 1];
      TallyHistogram(init);
      BumpHistogram(Tally(init), init, s[|s| - 1]);
      assert init + [s[|s| - 1]] == s;
    }
  }

  /** `Counter(...).most_common(5)`: the five largest counts, ties in first-occurrence order. */
  function TopCauses(over: seq<Event>): (r: seq<CauseCount>)
    ensures |r| <= 5
  {
    var sorted := SortDesc(Tally(over), CountKey);
    sorted[..Min(5, |sorted|)]
  }

  lemma TallyInOrder(s: seq<Event>)
    ensures Pairwise(Tally(s), FirstSeenBefore)
  {
    TallyHistogram(s);
  }

  /** The sorted histogram keeps every fact of the histogram and adds the order. */
  lemma SortedTally(over: seq<Event>)
    ensures DistinctCauses(SortDesc(Tally(over), CountKey))
    ensures CountsMatch(SortDesc(Tally(over), CountKey), over)
    ensures NoneMissing(SortDesc(Tally(over), CountKey), over)
    ensures FirstSeenRight(SortDesc(Tally(over), CountKey), over)
    ensures StableBy(SortDesc(Tally(over), CountKey), CountKey, FirstSeenBefore)
  {
    var t := Tally(over);
    var sorted := SortDesc(t, CountKey);
    TallyHistogram(over);
    TallyInOrder(over);
    SortDescStable(t, CountKey, FirstSeenBefore);
    forall k | 0 <= k < |sorted| ensures sorted[k] in t {
      assert sorted[k] in multiset(sorted);
    }
    forall m | 0 <= m < |t| ensures t[m] in sorted {
      assert t[m] in multiset(t);
    }
    assert DistinctCauses(sorted);
    assert CountsMatch(sorted, over);
    assert FirstSeenRight(sorted, over);
    forall d | forall k :: 0 <= k < |sorted| ==> sorted[k].cause != d
      ensures CountCause(over, d) == 0
    {
      assert forall m :: 0 <= m < |t| ==> t[m].cause != d;
    }
  }

  /**
    Every listed cause carries its true count and first index; the causes are distinct,
    the counts do not increase, and equal counts stand in first-occurrence order.
   */
  lemma TopCausesEntries(over: seq<Event>)
    ensures DistinctCauses(TopCauses(over))
    ensures CountsMatch(TopCauses(over), over)
    ensures FirstSeenRight(TopCauses(over), over)
    ensures forall i, j :: 0 <= i < j < |TopCauses(over)| ==>
      && TopCauses(over)[i].count >= TopCauses(over)[j].count
      && (TopCauses(over)[i].count == TopCauses(over)[j].count ==>
            TopCauses(over)[i].firstSeen < TopCauses(over)[j].firstSeen)
  {
    var sorted := SortDesc(Tally(over), CountKey);
    var r := TopCauses(over);
    SortedTally(over);
    assert forall k :: 0 <= k < |r| ==> r[k] == sorted[k];
  }

  /** The completeness argument on any prefix `r` of a sorted histogram. */
  lemma PrefixComplete(sorted: seq<CauseCount>, over: seq<Event>, r: seq<CauseCount>, d: string)
    requires CountsMatch(sorted, over) && NoneMissing(sorted, over) && FirstSeenRight(sorted, over)
    requires SortedDesc(sorted, CountKey) && StableBy(sorted, CountKey, FirstSeenBefore)
    requires |r| <= |sorted| && forall k :: 0 <= k < |r| ==> r[k] == sorted[k]
    requires forall k :: 0 <= k < |r| ==> r[k].cause != d
    ensures forall k :: 0 <= k < |r| ==> CountCause(over, d) <= r[k].count
    ensures forall k :: 0 <= k < |r| && CountCause(over, d) == r[k].count ==>
      forall j :: 0 <= j < |over| && j <= r[k].firstSeen ==> CauseOf(over[j]) != d
    ensures |r| < |sorted| || CountCause(over, d) == 0
  {
    if CountCause(over, d) > 0 {
      assert !(forall k :: 0 <= k < |sorted| ==> sorted[k].cause != d);
      var p :| 0 <= p < |sorted| && sorted[p].cause == d;
      assert CountKey(sorted[p]) == CountCause(over, d) as real;
      assert p >= |r|;
      forall k | 0 <= k < |r| ensures CountCause(over, d) <= r[k].count {
        assert r[k] == sorted[k];
      }
      forall k | 0 <= k < |r| && CountCause(over, d) == r[k].count
        ensures forall j :: 0 <= j < |over| && j <= r[k].firstSeen ==> CauseOf(over[j]) != d
      {
        assert r[k] == sorted[k];
        assert FirstSeenBefore(sorted[k], sorted[p]);
      }
    }
  }

  /**
    No unlisted cause beats a listed one; one that ties a listed cause first appears
    after it; and when fewer than five causes are listed, every cause is listed.
   */
  lemma TopCausesComplete(over: seq<Event>, d: string)
    requires forall k :: 0 <= k < |TopCauses(over)| ==> TopCauses(over)[k].cause != d
    ensures forall k :: 0 <= k < |TopCauses(over)| ==> CountCause(over, d) <= TopCauses(over)[k].count
    ensures forall k :: 0 <= k < |TopCauses(over)| && CountCause(over, d) == TopCauses(over)[k].count ==>
      forall j :: 0 <= j < |over| && j <= TopCauses(over)[k].firstSeen ==> CauseOf(over[j]) != d
    ensures |TopCauses(over)| < 5 ==> CountCause(over, d) == 0
  {
    var sorted := SortDesc(Tally(over), CountKey);
    var r := TopCauses(over);
    SortedTally(over);
    assert forall k :: 0 <= k < |r| ==> r[k] == sorted[k];
    PrefixComplete(sorted, over, r, d);
  }

  /** The listed counts add up to at most the number of events. */
  lemma TopCausesTotal(over: seq<Event>)
    ensures SumKeys(TopCauses(over), CountKey) <= |over| as real
  {
    var t := Tally(over);
    var sorted := SortDesc(t, CountKey);
    TallyHistogram(over);
    SortDescSum(t, CountKey);
    SumKeysPrefix(sorted, CountKey, Min(5, |sorted|));
  }

  /** A non-empty list of events has at least one cause to report. */
  lemma TopCausesNonEmpty(over: seq<Event>)
    requires |over| > 0
    ensures |TopCauses(over)| >= 1
  {
    var t := Tally(over);
    assert |t| > 0;
    assert |SortDesc(t, CountKey)| == |t| by {
      assert |multiset(SortDesc(t, CountKey))| == |multiset(t)|;
    }
  }
}
