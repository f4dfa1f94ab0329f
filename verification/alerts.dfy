/** The alert vocabulary of the security classifier: severities with their
    display labels, categories, and the alert record. */
module Alerts {
  import opened Wrappers

  /** Five tiers; the source derives no ordering between them. */
  datatype Severity = Critical | High | Medium | Low | Info

  datatype Category = FailedLogin | PortScan | UnusualTraffic | FirewallBlock | SuspiciousProcess | SystemChange

  /** The capture time of an alert, as an abstract clock reading. */
  type Timestamp = int

  datatype SecurityAlert = SecurityAlert(
    timestamp: Timestamp,
    severity: Severity,
    category: Category,
    message: string,
    details: Option<string>)

  /** Reads a display name back; the inverse of `SeverityLabel`. */
  function ParseSeverityLabel(name: string): Option<Severity> {
    if name == "CRITICAL" then Some(Critical)
    else if name == "HIGH" then Some(High)
    else if name == "MEDIUM" then Some(Medium)
    else if name == "LOW" then Some(Low)
    else if name == "INFO" then Some(Info)
    else None
  }

  /** The `Display` text of a severity; it identifies the severity uniquely. */
  function SeverityLabel(s: Severity): (name: string)
    ensures ParseSeverityLabel(name) == Some(s)
  {
    match s
    case Critical => "CRITICAL"
    case High => "HIGH"
    case Medium => "MEDIUM"
    case Low => "LOW"
    case Info => "INFO"
  }

  /** The five labels are pairwise distinct. */
  lemma SeverityLabelsDistinct(a: Severity, b: Severity)
    requires a != b
    ensures SeverityLabel(a) != SeverityLabel(b)
  {
    assert ParseSeverityLabel(SeverityLabel(a)) != ParseSeverityLabel(SeverityLabel(b));
  }
}
