/**
 * The parsed security-audit report: services, each holding findings.
 * The JSON objects keyed by service name and by finding identifier are
 * modelled as sequences in one fixed iteration order; the keys themselves
 * are dropped, since nothing downstream uses them.
 */
module Report {
  import opened Wrappers

  /** One compliance-standard annotation of a finding. */
  datatype Compliance = Compliance(name: string, reference: string, version: string)

  /** One flagged security issue, with every field the report carries. */
  datatype Finding = Finding(
    checkedItems: int,
    compliance: Option<seq<Compliance>>,  // the JSON field is nullable
    dashboardName: string,
    description: string,
    displayPath: string,
    flaggedItems: int,
    items: seq<string>,
    level: string,
    path: string,
    rationale: string,
    references: seq<string>,
    remediation: string,
    service: string)

  /** The findings of one service, in iteration order. */
  type Service = seq<Finding>

  /** All services of a report, in iteration order. */
  type ScoutSuiteReport = seq<Service>

  /** The only severity level the tool keeps. */
  const DangerLevel: string := "danger"

  predicate IsDanger(f: Finding) {
    f.level == DangerLevel
  }
}
