/**
  The diagnosis rules. Each rule looks at every parsed event of a log and either stays
  silent or reports one finding: an identifier, a title, a severity, up to ten evidence
  lines and a few counts. `DefaultRules` fixes the order in which the analyser runs them.
 */
module Rules {
  import opened Wrappers
  import opened Chars
  import opened Strings
  import opened Seqs
  import opened Durations
  import opened Models
  import opened Causes

  /** `_contains_any`: some needle occurs in `s`, both sides lowered. */
  predicate ContainsAny(s: string, needles: seq<string>) {
    exists k :: 0 <= k < |needles| && Contains(Lower(s), Lower(needles[k]))
  }

  /** The match is case-insensitive: lowering the line first changes nothing. */
  lemma ContainsAnyIgnoresCase(s: string, needles: seq<string>)
    ensures ContainsAny(Lower(s), needles) == ContainsAny(s, needles)
  {
    assert Lower(Lower(s)) == Lower(s);
  }

  datatype RuleContext = RuleContext(maxPauseMs: real)

  // ---------------------------------------------------------------------------
  // Evidence lines
  // ---------------------------------------------------------------------------

  /** `f"L{e.line_no}: {e.raw}"` */
  function EvidenceLine(e: Event): string {
    "L" + NatToString(e.lineNo) + ": " + e.raw
  }

  /** Reads an evidence line back into its line number and raw text. */
  function ParseEvidenceLine(s: string): (r: Option<(nat, string)>)
    ensures r.Some? ==> |s| >= 1 && s[0] == 'L'
  {
    if |s| < 1 || s[0] != 'L' then None
    else
      var n := DigitRun(s, 1);
      if n == 0 || (n > 1 && s[1] == '0') || 1 + n + 2 > |s| || s[1 + n..1 + n + 2] != ": " then None
      else
        var digits := s[1..1 + n];
        assert AllDigits(digits) by {
          forall k | 0 <= k < |digits| ensures IsDigit(digits[k]) {
            assert digits[k] == s[1 + k];
          }
        }
        Some((DigitsValue(digits), s[1 + n + 2..]))
  }

  /** An evidence line names its event unambiguously: line number and raw text come back. */
  lemma EvidenceLineRoundTrip(e: Event)
    ensures ParseEvidenceLine(EvidenceLine(e)) == Some((e.lineNo, e.raw))
  {
    var d := NatToString(e.lineNo);
    var s := EvidenceLine(e);
    assert s[1..1 + |d|] == d;
    assert s[1 + |d|] == ':';
    DigitRunIs(s, 1, 1 + |d|);
    assert s[1 + |d|..1 + |d| + 2] == ": ";
    assert s[1 + |d| + 2..] == e.raw;
    NatToStringRoundTrip(e.lineNo);
  }

  /** Conversely, a string that reads as an evidence line is exactly the evidence line of what it reads as. */
  lemma EvidenceLineExact(s: string)
    ensures ParseEvidenceLine(s).Some? ==>
      s == "L" + NatToString(ParseEvidenceLine(s).value.0) + ": " + ParseEvidenceLine(s).value.1
  {
    if ParseEvidenceLine(s).Some? {
      var n := DigitRun(s, 1);
      var digits := s[1..1 + n];
      assert digits[0] == s[1];
      CanonicalNumeral(digits);
      assert s == [s[0]] + digits + s[1 + n..1 + n + 2] + s[1 + n + 2..];
    }
  }

  /** `[f"L{e.line_no}: {e.raw}" for e in matches[:10]]` */
  function Evidence(matches: seq<Event>): (r: seq<string>)
    ensures |r| == Min(10, |matches|)
    ensures forall i :: 0 <= i < |r| ==> ParseEvidenceLine(r[i]) == Some((matches[i].lineNo, matches[i].raw))
  {
    var r := seq(Min(10, |matches|), i requires 0 <= i < Min(10, |matches|) => EvidenceLine(matches[i]));
    assert forall i :: 0 <= i < |r| ==> r[i] == EvidenceLine(matches[i]);
    forall i | 0 <= i < |r| ensures ParseEvidenceLine(r[i]) == Some((matches[i].lineNo, matches[i].raw)) {
      EvidenceLineRoundTrip(matches[i]);
    }
    r
  }

  // ---------------------------------------------------------------------------
  // Event conditions
  // ---------------------------------------------------------------------------

  predicate IsHumongous(e: Event) {
    ContainsAny(e.raw, ["humongous", "g1 humongous allocation"])
  }

  /** "humongous" sits inside "g1 humongous allocation". */
  lemma LongNeedleHasShort(line: string)
    requires Contains(line, "g1 humongous allocation")
    ensures Contains(line, "humongous")
  {
    var long := "g1 humongous allocation";
    assert long[3..3 + 9] == "humongous";
    assert OccursAt(long, "humongous", 3);
    ContainsTransitive(line, long, "humongous");
  }

  /** Both needles of `IsHumongous` match as one: the line contains the lowered needle. */
  lemma HumongousNeedles(e: Event)
    ensures IsHumongous(e) <==> Contains(Lower(e.raw), "humongous") || Contains(Lower(e.raw), "g1 humongous allocation")
  {
    var needles := ["humongous", "g1 humongous allocation"];
    LowerUnchanged(needles[0]);
    LowerUnchanged(needles[1]);
  }

  /** The second humongous needle contains the first, so it never widens the match. */
  lemma HumongousIsOneNeedle(e: Event)
    ensures IsHumongous(e) <==> Contains(Lower(e.raw), "humongous")
  {
    HumongousNeedles(e);
    if Contains(Lower(e.raw), "g1 humongous allocation") {
      LongNeedleHasShort(Lower(e.raw));
    }
  }

  predicate IsToSpaceExhausted(e: Event) {
    ContainsAny(e.raw, ["to-space exhausted", "evacuation failure"])
  }

  predicate IsConcurrentModeFailure(e: Event) {
    ContainsAny(e.raw, ["concurrent mode failure"])
  }

  /** The pause name or the raw line mentions "pause remark", in any case. */
  predicate IsRemark(e: Event) {
    Contains(Lower(e.name), "pause remark") || Contains(Lower(e.raw), "pause remark")
  }

  /** `max(ctx.max_pause_ms, 200.0)` */
  function RemarkThreshold(ctx: RuleContext): (r: real)
    ensures r >= ctx.maxPauseMs && r >= 200.0 && (r == ctx.maxPauseMs || r == 200.0)
  {
    if 200.0 > ctx.maxPauseMs then 200.0 else ctx.maxPauseMs
  }

  function AtLeast(threshold: real): Event -> bool {
    e => DurationOrZero(e) >= threshold
  }

  function IsLongRemark(threshold: real): Event -> bool {
    e => IsRemark(e) && DurationOrZero(e) >= threshold
  }

  /** A timed line that mentions "pause" anywhere, in any case. */
  predicate IsBudgetPause(e: Event) {
    e.durationMs.Some? && Contains(Lower(e.raw), "pause")
  }

  /** `(e.duration_ms or 0) > max_pause_ms` */
  function ExceedsBudget(budget: real): Event -> bool {
    e => DurationOrZero(e) > budget
  }

  function IsOverBudgetPause(budget: real): Event -> bool {
    e => IsBudgetPause(e) && DurationOrZero(e) > budget
  }

  // ---------------------------------------------------------------------------
  // The five rules
  // ---------------------------------------------------------------------------

  const HumongousId: string := "g1.humongous"
  const HumongousTitle: string := "Humongous 할당/영역 증가 패턴"
  const ToSpaceExhaustedId: string := "g1.to_space_exhausted"
  const ToSpaceExhaustedTitle: string := "To-space exhausted / Evacuation Failure 패턴"
  const ConcurrentModeFailureId: string := "g1.concurrent_mode_failure"
  const ConcurrentModeFailureTitle: string := "Concurrent Mode Failure 패턴"
  const LongRemarkId: string := "g1.long_remark"
  const LongRemarkTitle: string := "Remark 단계 과다(긴 Pause Remark)"
  const OverBudgetId: string := "g1.over_budget_summary"
  const OverBudgetTitle: string := "Pause 목표치 초과 요약"

  /** `WARN` below `warnBelow` items, `CRITICAL` from there on. */
  function SeverityFor(n: nat, warnBelow: nat): (r: Severity)
    ensures r == Warn <==> n < warnBelow
    ensures r != Info
  {
    if n < warnBelow then Warn else Critical
  }

  /**
    The shape shared by the humongous, to-space and concurrent-mode rules: collect the
    matching events; no match, no finding; otherwise report how many matched.
   */
  function PatternFinding(id: string, title: string, events: seq<Event>, p: Event -> bool, warnBelow: nat): (r: Option<Finding>)
    ensures r.None? <==> forall i :: 0 <= i < |events| ==> !p(events[i])
    ensures r.Some? ==> && r.value.ruleId == id && r.value.title == title
                        && r.value.severity == SeverityFor(Count(events, p), warnBelow)
                        && r.value.metrics == map["matches" := Number(Count(events, p))]
                        && r.value.evidence == Evidence(Filter(events, p))
  {
    var matches := Filter(events, p);
    FilterLength(events, p);
    FilterEmpty(events, p);
    if |matches| == 0 then None
    else Some(Finding(id, title, SeverityFor(|matches|, warnBelow), Evidence(matches), map["matches" := Number(|matches|)]))
  }

  /** `HumongousRule.evaluate`: warn below five matches, critical from five. */
  function HumongousRule(events: seq<Event>, ctx: RuleContext): (r: Option<Finding>)
    ensures r.None? <==> forall i :: 0 <= i < |events| ==> !IsHumongous(events[i])
    ensures r.Some? ==> && r.value.ruleId == "g1.humongous"
                        && r.value.title == HumongousTitle
                        && (r.value.severity == Warn <==> Count(events, IsHumongous) < 5)
                        && r.value.severity != Info
                        && r.value.metrics == map["matches" := Number(Count(events, IsHumongous))]
                        && r.value.evidence == Evidence(Filter(events, IsHumongous))
  {
    PatternFinding(HumongousId, HumongousTitle, events, IsHumongous, 5)
  }

  /** `ToSpaceExhaustedRule.evaluate`: any match is critical. */
  function ToSpaceExhaustedRule(events: seq<Event>, ctx: RuleContext): (r: Option<Finding>)
    ensures r.None? <==> forall i :: 0 <= i < |events| ==> !IsToSpaceExhausted(events[i])
    ensures r.Some? ==> && r.value.ruleId == "g1.to_space_exhausted"
                        && r.value.title == ToSpaceExhaustedTitle
                        && r.value.severity == Critical
                        && r.value.metrics == map["matches" := Number(Count(events, IsToSpaceExhausted))]
                        && r.value.evidence == Evidence(Filter(events, IsToSpaceExhausted))
  {
    PatternFinding(ToSpaceExhaustedId, ToSpaceExhaustedTitle, events, IsToSpaceExhausted, 0)
  }

  /** `ConcurrentModeFailureRule.evaluate`: any match is critical. */
  function ConcurrentModeFailureRule(events: seq<Event>, ctx: RuleContext): (r: Option<Finding>)
    ensures r.None? <==> forall i :: 0 <= i < |events| ==> !IsConcurrentModeFailure(events[i])
    ensures r.Some? ==> && r.value.ruleId == "g1.concurrent_mode_failure"
                        && r.value.title == ConcurrentModeFailureTitle
                        && r.value.severity == Critical
                        && r.value.metrics == map["matches" := Number(Count(events, IsConcurrentModeFailure))]
                        && r.value.evidence == Evidence(Filter(events, IsConcurrentModeFailure))
  {
    PatternFinding(ConcurrentModeFailureId, ConcurrentModeFailureTitle, events, IsConcurrentModeFailure, 0)
  }

  /**
    `LongRemarkRule.evaluate`: among the remark events, those lasting at least the
    threshold; warn below three such events, critical from three.
   */
  function LongRemarkRule(events: seq<Event>, ctx: RuleContext): (r: Option<Finding>)
    ensures r.None? <==> forall i :: 0 <= i < |events| ==> !IsLongRemark(RemarkThreshold(ctx))(events[i])
    ensures r.Some? ==>
      var threshold := RemarkThreshold(ctx);
      var long := Count(events, IsLongRemark(threshold));
      && r.value.ruleId == "g1.long_remark"
      && r.value.title == LongRemarkTitle
      && (r.value.severity == Warn <==> long < 3)
      && r.value.severity != Info
      && r.value.metrics == map["remark_events" := Number(Count(events, IsRemark)),
                                "long_remarks" := Number(long),
                                "threshold_ms" := Millis(threshold)]
      && 1 <= long <= Count(events, IsRemark)
      && r.value.evidence == Evidence(Filter(Filter(events, IsRemark), AtLeast(threshold)))
  {
    var remarks := Filter(events, IsRemark);
    var threshold := RemarkThreshold(ctx);
    var long := Filter(remarks, AtLeast(threshold));
    FilterLength(events, IsRemark);
    FilterFilterLength(events, IsRemark, AtLeast(threshold), IsLongRemark(threshold));
    FilterEmpty(events, IsLongRemark(threshold));
    FilterLength(events, IsLongRemark(threshold));
    assert |long| <= |remarks|;
    if |remarks| == 0 then None
    else if |long| == 0 then None
    else
      Some(Finding(LongRemarkId, LongRemarkTitle, SeverityFor(|long|, 3), Evidence(long),
        map["remark_events" := Number(|remarks|),
            "long_remarks" := Number(|long|),
            "threshold_ms" := Millis(threshold)]))
  }

  /** `f"{name}: {cnt}회"` */
  function CauseLine(c: CauseCount): string {
    c.cause + ": " + NatToString(c.count) + "회"
  }

  /** `[f"{name}: {cnt}회" for name, cnt in top]` */
  function CauseLines(top: seq<CauseCount>): (r: seq<string>)
    ensures |r| == |top|
    ensures forall i :: 0 <= i < |r| ==> r[i] == CauseLine(top[i])
  {
    seq(|top|, i requires 0 <= i < |top| => CauseLine(top[i]))
  }

  /** Filtering in two steps, as the rule does, keeps exactly the over-budget pause lines. */
  lemma OverBudgetCounts(events: seq<Event>, budget: real)
    ensures |Filter(events, IsBudgetPause)| == Count(events, IsBudgetPause)
    ensures |Filter(Filter(events, IsBudgetPause), ExceedsBudget(budget))| == Count(events, IsOverBudgetPause(budget))
    ensures Count(events, IsOverBudgetPause(budget)) == 0 <==>
      forall i :: 0 <= i < |events| ==> !IsOverBudgetPause(budget)(events[i])
    ensures Count(events, IsOverBudgetPause(budget)) <= Count(events, IsBudgetPause)
  {
    FilterLength(events, IsBudgetPause);
    FilterFilterLength(events, IsBudgetPause, ExceedsBudget(budget), IsOverBudgetPause(budget));
    FilterEmpty(events, IsOverBudgetPause(budget));
    FilterLength(events, IsOverBudgetPause(budget));
    CountMonotone(events, IsOverBudgetPause(budget), IsBudgetPause);
  }

  /**
    `OverBudgetPauseSummaryRule.evaluate`: among the timed lines that mention "pause",
    those over the budget; the evidence is their cause histogram, at most five lines;
    warn below five such events, critical from five.
   */
  function OverBudgetSummaryRule(events: seq<Event>, ctx: RuleContext): (r: Option<Finding>)
    ensures r.None? <==> forall i :: 0 <= i < |events| ==> !IsOverBudgetPause(ctx.maxPauseMs)(events[i])
    ensures r.Some? ==>
      var over := Filter(Filter(events, IsBudgetPause), ExceedsBudget(ctx.maxPauseMs));
      && r.value.ruleId == "g1.over_budget_summary"
      && r.value.title == OverBudgetTitle
      && (r.value.severity == Warn <==> |over| < 5)
      && r.value.severity != Info
      && 1 <= |over| == Count(events, IsOverBudgetPause(ctx.maxPauseMs)) <= Count(events, IsBudgetPause)
      && r.value.metrics == map["pause_events" := Number(Count(events, IsBudgetPause)),
                                "over_budget" := Number(|over|)]
      && 1 <= |r.value.evidence| <= 5
      && r.value.evidence == CauseLines(TopCauses(over))
  {
    var pauses := Filter(events, IsBudgetPause);
    var over := Filter(pauses, ExceedsBudget(ctx.maxPauseMs));
    OverBudgetCounts(events, ctx.maxPauseMs);
    if |pauses| == 0 then None
    else if |over| == 0 then None
    else
      TopCausesNonEmpty(over);
      Some(Finding(OverBudgetId, OverBudgetTitle, SeverityFor(|over|, 5), CauseLines(TopCauses(over)),
        map["pause_events" := Number(|pauses|), "over_budget" := Number(|over|)]))
  }

  // ---------------------------------------------------------------------------
  // The rule set
  // ---------------------------------------------------------------------------

  datatype Rule = OverBudgetPauseSummary | ToSpaceExhausted | ConcurrentModeFailure | Humongous | LongRemark

  function RuleId(rule: Rule): string {
    match rule
    case OverBudgetPauseSummary => OverBudgetId
    case ToSpaceExhausted => ToSpaceExhaustedId
    case ConcurrentModeFailure => ConcurrentModeFailureId
    case Humongous => HumongousId
    case LongRemark => LongRemarkId
  }

  /** `rule.evaluate(events, ctx)`; a finding always carries the identifier of its rule. */
  function Evaluate(rule: Rule, events: seq<Event>, ctx: RuleContext): (r: Option<Finding>)
    ensures r.Some? ==> r.value.ruleId == RuleId(rule)
  {
    match rule
    case OverBudgetPauseSummary => OverBudgetSummaryRule(events, ctx)
    case ToSpaceExhausted => ToSpaceExhaustedRule(events, ctx)
    case ConcurrentModeFailure => ConcurrentModeFailureRule(events, ctx)
    case Humongous => HumongousRule(events, ctx)
    case LongRemark => LongRemarkRule(events, ctx)
  }

  /** `DEFAULT_RULES` */
  const DefaultRules: seq<Rule> := [OverBudgetPauseSummary, ToSpaceExhausted, ConcurrentModeFailure, Humongous, LongRemark]

  /** Where a rule stands in `DefaultRules`. */
  function RulePosition(rule: Rule): (r: nat)
    ensures r < |DefaultRules| && DefaultRules[r] == rule
  {
    match rule
    case OverBudgetPauseSummary => 0
    case ToSpaceExhausted => 1
    case ConcurrentModeFailure => 2
    case Humongous => 3
    case LongRemark => 4
  }

  /** `DefaultRules` lists each of the five rules once, and no two share an identifier. */
  /** Where the rule with identifier `id` stands in `DefaultRules`; `|DefaultRules|` for any other string. */
  function IdRank(id: string): (r: nat)
    ensures r <= |DefaultRules|
    ensures r < |DefaultRules| ==> RuleId(DefaultRules[r]) == id
    ensures forall rule :: RuleId(rule) == id ==> r == RulePosition(rule)
  {
    if id == OverBudgetId then 0
    else if id == ToSpaceExhaustedId then 1
    else if id == ConcurrentModeFailureId then 2
    else if id == HumongousId then 3
    else if id == LongRemarkId then 4
    else |DefaultRules|
  }

  lemma DefaultRulesDistinct()
    ensures |DefaultRules| == 5
    ensures forall i :: 0 <= i < |DefaultRules| ==> RulePosition(DefaultRules[i]) == i
    ensures forall i, j :: 0 <= i < j < |DefaultRules| ==> RuleId(DefaultRules[i]) != RuleId(DefaultRules[j])
  {
  }
}
