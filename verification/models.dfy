/** The passive data shapes of the advisor: parsed events, rule findings and the analysis report. */
module Models {
  import opened Wrappers

  datatype EventKind = Pause | Other

  datatype Severity = Info | Warn | Critical

  /**
    One parsed log line. `raw` is the line without its trailing newlines, `lineNo` its
    1-based position; the optional fields are `None` when the line does not carry them.
   */
  datatype Event = Event(
    raw: string,
    lineNo: nat,
    gcId: Option<nat>,
    kind: EventKind,
    name: string,
    durationMs: Option<real>,
    tags: seq<string>)

  /** `e.duration_ms or 0.0` */
  function DurationOrZero(e: Event): real {
    e.durationMs.GetOr(0.0)
  }

  /** A metric value: a count, or a threshold in milliseconds. */
  datatype MetricValue = Number(n: nat) | Millis(ms: real)

  /** What one rule reports. The remediation advice, prose apart from the over-budget figures, is not modelled. */
  datatype Finding = Finding(
    ruleId: string,
    title: string,
    severity: Severity,
    evidence: seq<string>,
    metrics: map<string, MetricValue>)

  datatype Report = Report(
    maxPauseMs: real,
    totalPauseEvents: nat,
    overBudgetPauseEvents: nat,
    worstPauses: seq<Event>,
    findings: seq<Finding>)
}
