/**
  `analyze_gc_log`: parse every line, pick the timed pause events, rank the ten longest,
  count those over the pause budget, and run the default rules in order.
 */
module Analyzer {
  import opened Wrappers
  import opened Seqs
  import opened Sorting
  import opened Models
  import opened Parser
  import opened Rules

  /** A pause line whose duration was found. */
  predicate IsTimedPause(e: Event) {
    e.kind == Pause && e.durationMs.Some?
  }

  function IsTimedPauseOver(budget: real): Event -> bool {
    e => IsTimedPause(e) && DurationOrZero(e) > budget
  }

  /** The order in which the events were read. */
  function EarlierLine(a: Event, b: Event): bool {
    a.lineNo < b.lineNo
  }

  /** `sorted(pauses, key=duration, reverse=True)[:10]` */
  function WorstPauses(pauses: seq<Event>): (r: seq<Event>)
    ensures |r| == Min(10, |pauses|)
    ensures multiset(r) <= multiset(pauses)
    ensures forall i, j :: 0 <= i < j < |r| ==> DurationOrZero(r[i]) >= DurationOrZero(r[j])
  {
    var sorted := SortDesc(pauses, DurationOrZero);
    var m := Min(10, |sorted|);
    assert |sorted| == |pauses| by {
      assert |multiset(sorted)| == |multiset(pauses)|;
    }
    assert sorted == sorted[..m] + sorted[m..];
    sorted[..m]
  }

  /** No pause left out of the ranking lasts longer than one ranked. */
  lemma WorstPausesDominate(pauses: seq<Event>, x: Event)
    requires x in multiset(pauses) - multiset(WorstPauses(pauses))
    ensures forall i :: 0 <= i < |WorstPauses(pauses)| ==> DurationOrZero(x) <= DurationOrZero(WorstPauses(pauses)[i])
  {
    var sorted := SortDesc(pauses, DurationOrZero);
    PrefixDominates(sorted, DurationOrZero, Min(10, |sorted|));
  }

  /**
    The sort is stable: equally long pauses keep the order of their lines, among the
    ranked ones and across the cut, where a left-out pause tying a ranked one is on a
    later line.
   */
  lemma WorstPausesStable(pauses: seq<Event>)
    requires Pairwise(pauses, EarlierLine)
    ensures forall i, j ::
      0 <= i < j < |WorstPauses(pauses)| && DurationOrZero(WorstPauses(pauses)[i]) == DurationOrZero(WorstPauses(pauses)[j])
      ==> WorstPauses(pauses)[i].lineNo < WorstPauses(pauses)[j].lineNo
    ensures forall x, i ::
      x in multiset(pauses) - multiset(WorstPauses(pauses)) && 0 <= i < |WorstPauses(pauses)|
      && DurationOrZero(x) == DurationOrZero(WorstPauses(pauses)[i])
      ==> WorstPauses(pauses)[i].lineNo < x.lineNo
  {
    var sorted := SortDesc(pauses, DurationOrZero);
    var worst := WorstPauses(pauses);
    SortDescStable(pauses, DurationOrZero, EarlierLine);
    assert forall k :: 0 <= k < |worst| ==> worst[k] == sorted[k];
    assert worst == sorted[..|worst|];
    PrefixStable(sorted, DurationOrZero, EarlierLine, |worst|);
  }

  predicate IsFinding<T>(o: Option<T>) {
    o.Some?
  }

  /** The indices of the outcomes that are findings, in increasing order. */
  function Fired<T>(outs: seq<Option<T>>): (r: seq<nat>)
    ensures forall k :: 0 <= k < |r| ==> r[k] < |outs| && outs[r[k]].Some?
    ensures forall a, b :: 0 <= a < b < |r| ==> r[a] < r[b]
    ensures forall i :: 0 <= i < |outs| && outs[i].Some? ==> i in r
  {
    Kept(outs, IsFinding)
  }

  /**
    `for rule in rules: if f is not None: findings.append(f)`: the findings among the
    outcomes, in outcome order.
   */
  function Present<T>(outs: seq<Option<T>>): (r: seq<T>)
    ensures |r| == |Fired(outs)|
    ensures forall k :: 0 <= k < |r| ==> outs[Fired(outs)[k]] == Some(r[k])
  {
    var src := Fired(outs);
    seq(|src|, k requires 0 <= k < |src| => outs[src[k]].value)
  }

  /** Every outcome that is a finding is kept. */
  lemma PresentComplete<T>(outs: seq<Option<T>>, i: nat)
    requires i < |outs| && outs[i].Some?
    ensures outs[i].value in Present(outs)
  {
    var src := Fired(outs);
    var k :| 0 <= k < |src| && src[k] == i;
    assert Present(outs)[k] == outs[i].value;
  }

  /** Increasing indices below `|outs|` are at most `|outs|` many. */
  lemma FiredBound<T>(outs: seq<Option<T>>)
    ensures |Fired(outs)| <= |outs|
  {
    var src := Fired(outs);
    IncreasingBound(src, |outs|);
  }

  lemma {:induction false} IncreasingBound(s: seq<nat>, n: nat)
    requires forall k :: 0 <= k < |s| ==> s[k] < n
    requires forall a, b :: 0 <= a < b < |s| ==> s[a] < s[b]
    ensures |s| <= n
  {
    if |s| > 0 {
      IncreasingBound(s[..|s| - 1], s[|s| - 1]);
    }
  }

  /** The outcome of every rule, in the order given. */
  function Outcomes(rules: seq<Rule>, events: seq<Event>, ctx: RuleContext): (r: seq<Option<Finding>>)
    ensures |r| == |rules|
    ensures forall i :: 0 <= i < |r| ==> r[i] == Evaluate(rules[i], events, ctx)
  {
    seq(|rules|, i requires 0 <= i < |rules| => Evaluate(rules[i], events, ctx))
  }

  /**
    The analysis of the parsed events: the counts, the ten longest timed pauses, and the
    findings of the default rules, one per firing rule.
   */
  function AnalyzeEvents(events: seq<Event>, maxPauseMs: real): (r: Report)
    ensures r.maxPauseMs == maxPauseMs
    ensures r.totalPauseEvents == Count(events, IsTimedPause)
    ensures r.overBudgetPauseEvents == Count(events, IsTimedPauseOver(maxPauseMs)) <= r.totalPauseEvents
    ensures |r.worstPauses| == Min(10, r.totalPauseEvents)
    ensures forall k :: 0 <= k < |r.worstPauses| ==> IsTimedPause(r.worstPauses[k]) && r.worstPauses[k] in events
    ensures forall i, j :: 0 <= i < j < |r.worstPauses| ==>
      DurationOrZero(r.worstPauses[i]) >= DurationOrZero(r.worstPauses[j])
    ensures r.findings == Present(Outcomes(DefaultRules, events, RuleContext(maxPauseMs)))
    ensures |r.findings| <= |DefaultRules|
  {
    var pauses := Filter(events, IsTimedPause);
    var over := Filter(pauses, ExceedsBudget(maxPauseMs));
    var ctx := RuleContext(maxPauseMs);
    var worst := WorstPauses(pauses);
    var findings := Present(Outcomes(DefaultRules, events, ctx));
    AnalyzeCounts(events, maxPauseMs);
    AnalyzeWorstMembers(events, worst);
    FiredBound(Outcomes(DefaultRules, events, ctx));
    Report(maxPauseMs, |pauses|, |over|, worst, findings)
  }

  /**
    `analyze_gc_log(lines, max_pause_ms=maxPauseMs)`: every reported pause is the event
    parsed from its own input line, and there are no more pause events than lines.
   */
  function Analyze(lines: seq<string>, maxPauseMs: real): (r: Report)
    ensures r.maxPauseMs == maxPauseMs
    ensures r.overBudgetPauseEvents <= r.totalPauseEvents <= |lines|
    ensures forall k :: 0 <= k < |r.worstPauses| ==>
      1 <= r.worstPauses[k].lineNo <= |lines| && r.worstPauses[k] == ParseLines(lines)[r.worstPauses[k].lineNo - 1]
  {
    var events := ParseLines(lines);
    var r := AnalyzeEvents(events, maxPauseMs);
    CountAtMostLength(events, IsTimedPause);
    NumberedMembers(events, r.worstPauses);
    r
  }

  /** In events numbered from 1, an event's number is its position plus one. */
  lemma NumberedMembers(events: seq<Event>, worst: seq<Event>)
    requires forall i :: 0 <= i < |events| ==> events[i].lineNo == i + 1
    requires forall k :: 0 <= k < |worst| ==> worst[k] in events
    ensures forall k :: 0 <= k < |worst| ==> 1 <= worst[k].lineNo <= |events| && worst[k] == events[worst[k].lineNo - 1]
  {
    forall k | 0 <= k < |worst| ensures 1 <= worst[k].lineNo <= |events| && worst[k] == events[worst[k].lineNo - 1] {
      NumberedMember(events, worst[k]);
    }
  }

  lemma NumberedMember(events: seq<Event>, w: Event)
    requires forall i :: 0 <= i < |events| ==> events[i].lineNo == i + 1
    requires w in events
    ensures 1 <= w.lineNo <= |events| && events[w.lineNo - 1] == w
  {
    var i :| 0 <= i < |events| && events[i] == w;
  }

  lemma AnalyzeCounts(events: seq<Event>, budget: real)
    ensures |Filter(events, IsTimedPause)| == Count(events, IsTimedPause)
    ensures |Filter(Filter(events, IsTimedPause), ExceedsBudget(budget))| == Count(events, IsTimedPauseOver(budget))
    ensures Count(events, IsTimedPauseOver(budget)) <= Count(events, IsTimedPause)
  {
    FilterLength(events, IsTimedPause);
    FilterFilterLength(events, IsTimedPause, ExceedsBudget(budget), IsTimedPauseOver(budget));
    CountMonotone(events, IsTimedPauseOver(budget), IsTimedPause);
  }

  lemma AnalyzeWorstMembers(events: seq<Event>, worst: seq<Event>)
    requires multiset(worst) <= multiset(Filter(events, IsTimedPause))
    ensures forall k :: 0 <= k < |worst| ==> IsTimedPause(worst[k]) && worst[k] in events
  {
    forall k | 0 <= k < |worst| ensures IsTimedPause(worst[k]) && worst[k] in events {
      assert worst[k] in multiset(worst);
      FilterMembers(events, IsTimedPause, worst[k]);
    }
  }

  lemma OutcomeFindings(events: seq<Event>, ctx: RuleContext, findings: seq<Finding>)
    requires findings == Present(Outcomes(DefaultRules, events, ctx))
    ensures |findings| <= 5
    ensures forall a, b :: 0 <= a < b < |findings| ==> findings[a].ruleId != findings[b].ruleId
    ensures forall rule :: Evaluate(rule, events, ctx).Some? ==> Evaluate(rule, events, ctx).value in findings
    ensures forall k :: 0 <= k < |findings| ==> exists rule :: Evaluate(rule, events, ctx) == Some(findings[k])
    ensures forall a, b :: 0 <= a < b < |findings| ==> IdRank(findings[a].ruleId) < IdRank(findings[b].ruleId)
  {
    var outs := Outcomes(DefaultRules, events, ctx);
    var src := Fired(outs);
    FiredBound(outs);
    DefaultRulesDistinct();
    forall k | 0 <= k < |findings| ensures IdRank(findings[k].ruleId) == src[k] {
      assert findings[k].ruleId == RuleId(DefaultRules[src[k]]);
    }
    forall a, b | 0 <= a < b < |findings| ensures findings[a].ruleId != findings[b].ruleId {
      assert IdRank(findings[a].ruleId) == src[a] < src[b] == IdRank(findings[b].ruleId);
    }
    forall rule | Evaluate(rule, events, ctx).Some? ensures Evaluate(rule, events, ctx).value in findings {
      var i := RulePosition(rule);
      assert outs[i] == Evaluate(rule, events, ctx);
      PresentComplete(outs, i);
    }
    forall k | 0 <= k < |findings| ensures exists rule :: Evaluate(rule, events, ctx) == Some(findings[k]) {
      assert Evaluate(DefaultRules[src[k]], events, ctx) == Some(findings[k]);
    }
  }

  /**
    The report holds one finding per firing default rule and nothing else: at most five
    findings, no identifier twice, each one what its rule returns, listed in the order of
    `DefaultRules`.
   */
  lemma AnalyzeFindings(events: seq<Event>, maxPauseMs: real)
    ensures var findings := AnalyzeEvents(events, maxPauseMs).findings;
      var ctx := RuleContext(maxPauseMs);
      && |findings| <= 5
      && (forall a, b :: 0 <= a < b < |findings| ==> findings[a].ruleId != findings[b].ruleId)
      && (forall rule :: Evaluate(rule, events, ctx).Some? ==> Evaluate(rule, events, ctx).value in findings)
      && (forall k :: 0 <= k < |findings| ==> exists rule :: Evaluate(rule, events, ctx) == Some(findings[k]))
      && (forall a, b :: 0 <= a < b < |findings| ==> IdRank(findings[a].ruleId) < IdRank(findings[b].ruleId))
  {
    OutcomeFindings(events, RuleContext(maxPauseMs), AnalyzeEvents(events, maxPauseMs).findings);
  }

  /**
    Left-out pauses are no longer than any of the worst ten, and ties keep line order,
    also between a ranked pause and a left-out one.
   */
  lemma AnalyzeWorstRanking(events: seq<Event>, maxPauseMs: real)
    requires forall i :: 0 <= i < |events| ==> events[i].lineNo == i + 1
    ensures var pauses := Filter(events, IsTimedPause);
      var worst := AnalyzeEvents(events, maxPauseMs).worstPauses;
      && (forall x, i :: x in multiset(pauses) - multiset(worst) && 0 <= i < |worst| ==>
            DurationOrZero(x) <= DurationOrZero(worst[i]))
      && (forall i, j :: 0 <= i < j < |worst| && DurationOrZero(worst[i]) == DurationOrZero(worst[j]) ==>
            worst[i].lineNo < worst[j].lineNo)
      && (forall x, i :: x in multiset(pauses) - multiset(worst) && 0 <= i < |worst| && DurationOrZero(x) == DurationOrZero(worst[i])
            ==> worst[i].lineNo < x.lineNo)
  {
    var pauses := Filter(events, IsTimedPause);
    forall x | x in multiset(pauses) - multiset(WorstPauses(pauses))
      ensures forall i :: 0 <= i < |WorstPauses(pauses)| ==> DurationOrZero(x) <= DurationOrZero(WorstPauses(pauses)[i])
    {
      WorstPausesDominate(pauses, x);
    }
    assert Pairwise(events, EarlierLine);
    FilterPairwise(events, IsTimedPause, EarlierLine);
    WorstPausesStable(pauses);
  }
}
