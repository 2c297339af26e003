/** Severities, in ascending order. */
module Findings {
  datatype Severity = Info | Notice | Warning | Critical
}
