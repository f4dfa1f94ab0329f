/** The security classifier: three scan passes over captured command output
    (failed SSH logins, per-address connection volume, firewall log lines),
    their failure-isolating composition, the firewall-status decision and
    the severity counts of the summary. */
module Security {
  import opened Wrappers
  import opened Text
  import opened Numbers
  import opened Seqs
  import opened Alerts

  // ---------------------------------------------------------------------
  // Failed-login pass (`check_failed_logins`, over `journalctl -u ssh`)
  // ---------------------------------------------------------------------

  predicate IsFailedLoginLine(line: string) {
    Contains(line, "Failed password") || Contains(line, "Invalid user")
  }

  function FailedLoginAlert(line: string, now: Timestamp): SecurityAlert {
    SecurityAlert(now, Medium, FailedLogin, "Failed SSH login attempt detected", Some(line))
  }

  /** `check_failed_logins`: one Medium/FailedLogin alert per matching line,
      in line order, carrying the line; an empty list when `journalctl`
      cannot be started (`None`). Never an error. */
  function CheckFailedLogins(journal: Option<string>, now: Timestamp): (r: Result<seq<SecurityAlert>>)
    ensures r.Ok?
    ensures journal.None? ==> r.value == []
    ensures journal.Some? ==>
      var matching := Filter(Lines(journal.value), IsFailedLoginLine);
      && |r.value| == |matching|
      && forall i :: 0 <= i < |matching| ==> r.value[i] == FailedLoginAlert(matching[i], now)
  {
    match journal
    case None => Ok([])
    case Some(text) =>
      var f := (line: string) => if IsFailedLoginLine(line) then Some(FailedLoginAlert(line, now)) else None;
      FilterMapIsMapOfFilter(Lines(text), f, IsFailedLoginLine, (line: string) => FailedLoginAlert(line, now));
      Ok(FilterMap(Lines(text), f))
  }

  // ---------------------------------------------------------------------
  // Firewall-log pass (`check_firewall_logs`, over `dmesg -T --level=warn,err`)
  // ---------------------------------------------------------------------

  predicate IsFirewallLogLine(line: string) {
    Contains(line, "UFW BLOCK") || Contains(line, "iptables")
  }

  function FirewallBlockAlert(line: string, now: Timestamp): SecurityAlert {
    SecurityAlert(now, Info, FirewallBlock, "Firewall block detected", Some(line))
  }

  /** `check_firewall_logs`: one Info/FirewallBlock alert per matching line,
      in line order, carrying the line; an empty list when `dmesg` cannot be
      started (`None`). Never an error. */
  function CheckFirewallLogs(dmesg: Option<string>, now: Timestamp): (r: Result<seq<SecurityAlert>>)
    ensures r.Ok?
    ensures dmesg.None? ==> r.value == []
    ensures dmesg.Some? ==>
      var matching := Filter(Lines(dmesg.value), IsFirewallLogLine);
      && |r.value| == |matching|
      && forall i :: 0 <= i < |matching| ==> r.value[i] == FirewallBlockAlert(matching[i], now)
  {
    match dmesg
    case None => Ok([])
    case Some(text) =>
      var f := (line: string) => if IsFirewallLogLine(line) then Some(FirewallBlockAlert(line, now)) else None;
      FilterMapIsMapOfFilter(Lines(text), f, IsFirewallLogLine, (line: string) => FirewallBlockAlert(line, now));
      Ok(FilterMap(Lines(text), f))
  }

  // ---------------------------------------------------------------------
  // Connection-volume pass (`check_network_connections`, over `ss -tan`)
  // ---------------------------------------------------------------------

  /** An address an IP count is kept for: not empty and not loopback-looking. */
  predicate IsCountedKey(ip: string) {
    !StartsWith(ip, "127.") && !StartsWith(ip, "::1") && ip != ""
  }

  /** The address a data row is counted under: the text of field 4 before
      its first `:`, when the row has more than four fields and the address
      is counted at all. */
  function ConnectionKey(line: string): (r: Option<string>)
    ensures r.Some? ==> IsCountedKey(r.value) && ':' !in r.value
    ensures r.Some? <==> |Words(line)| > 4 && IsCountedKey(BeforeFirst(Words(line)[4], ':'))
    ensures r.Some? ==> r.value == BeforeFirst(Words(line)[4], ':')
  {
    var parts := Words(line);
    if |parts| > 4 then
      var ip := BeforeFirst(parts[4], ':');
      if IsCountedKey(ip) then Some(ip) else None
    else None
  }

  /** The counted addresses of the rows, one occurrence per counted row: the
      reference the tally is checked against. */
  function CountedAddresses(rows: seq<string>): (b: multiset<string>)
    ensures |b| <= |rows|
    ensures forall ip :: ip in b ==> IsCountedKey(ip) && ':' !in ip
  {
    var keys := FilterMap(rows, ConnectionKey);
    assert forall ip :: ip in multiset(keys) ==> ip in keys;
    multiset(keys)
  }

  /** Each address occurs in the reference once per row counted under it. */
  lemma CountedAddressesCount(rows: seq<string>, ip: string)
    ensures CountedAddresses(rows)[ip] == |Filter(rows, KeyedAs(ip))|
  {
    KeyMultiplicity(rows, ip);
  }

  /** The rows counted under `ip`. */
  function KeyedAs(ip: string): string -> bool {
    (line: string) => ConnectionKey(line) == Some(ip)
  }

  lemma {:induction false} KeyMultiplicity(rows: seq<string>, ip: string)
    ensures multiset(FilterMap(rows, ConnectionKey))[ip] == |Filter(rows, KeyedAs(ip))|
    decreases |rows|
  {
    if rows != [] {
      var k := ConnectionKey(rows[0]);
      var head := if k.Some? then [k.value] else [];
      assert FilterMap(rows, ConnectionKey) == head + FilterMap(rows[1..], ConnectionKey);
      assert multiset(head + FilterMap(rows[1..], ConnectionKey))
          == multiset(head) + multiset(FilterMap(rows[1..], ConnectionKey));
      var kept := if KeyedAs(ip)(rows[0]) then [rows[0]] else [];
      assert Filter(rows, KeyedAs(ip)) == kept + Filter(rows[1..], KeyedAs(ip));
      assert multiset(head)[ip] == |kept|;
      KeyMultiplicity(rows[1..], ip);
    }
  }

  /** Counting the rows one at a time, adding one to the address's count
      (from zero when it is new), starting from the counts `acc` gathered so
      far. */
  function TallyFrom(rows: seq<string>, acc: map<string, nat>): (r: map<string, nat>)
    requires forall ip :: ip in acc ==> acc[ip] > 0
    ensures forall ip :: ip in r <==> ip in acc || ip in CountedAddresses(rows)
    ensures forall ip :: ip in r ==> r[ip] == (if ip in acc then acc[ip] else 0) + CountedAddresses(rows)[ip]
    decreases |rows|
  {
    if rows == [] then acc
    else
      var k := ConnectionKey(rows[0]);
      var acc' := Bump(acc, k);
      var r := TallyFrom(rows[1..], acc');
      CountedAddressesStep(rows);
      TallyCombine(acc, acc', r, KeyBag(k), CountedAddresses(rows[1..]), CountedAddresses(rows));
      r
  }

  /** Counts that extend `acc` by `first`, extended again by `rest`, extend
      `acc` by both. */
  lemma TallyCombine(acc: map<string, nat>, mid: map<string, nat>, r: map<string, nat>,
                     first: multiset<string>, rest: multiset<string>, both: multiset<string>)
    requires both == first + rest
    requires forall ip :: ip in mid <==> ip in acc || ip in first
    requires forall ip :: ip in mid ==> mid[ip] == (if ip in acc then acc[ip] else 0) + first[ip]
    requires forall ip :: ip in r <==> ip in mid || ip in rest
    requires forall ip :: ip in r ==> r[ip] == (if ip in mid then mid[ip] else 0) + rest[ip]
    ensures forall ip :: ip in r <==> ip in acc || ip in both
    ensures forall ip :: ip in r ==> r[ip] == (if ip in acc then acc[ip] else 0) + both[ip]
  {
  }

  /** The key of one row, as a bag: empty when the row is not counted. */
  function KeyBag(k: Option<string>): multiset<string> {
    if k.Some? then multiset{k.value} else multiset{}
  }

  /** One counted row adds one to its address's count, from zero when the
      address is new; a row that is not counted changes nothing. */
  function Bump(acc: map<string, nat>, k: Option<string>): (r: map<string, nat>)
    requires forall ip :: ip in acc ==> acc[ip] > 0
    ensures forall ip :: ip in r <==> ip in acc || ip in KeyBag(k)
    ensures forall ip :: ip in r ==> r[ip] > 0 && r[ip] == (if ip in acc then acc[ip] else 0) + KeyBag(k)[ip]
  {
    match k
    case None => acc
    case Some(ip) => acc[ip := (if ip in acc then acc[ip] else 0) + 1]
  }

  /** The reference gains the first row's key, if it has one, on top of the
      rest's. */
  lemma CountedAddressesStep(rows: seq<string>)
    requires rows != []
    ensures CountedAddresses(rows)
         == KeyBag(ConnectionKey(rows[0])) + CountedAddresses(rows[1..])
  {
    var k := ConnectionKey(rows[0]);
    var head := if k.Some? then [k.value] else [];
    assert FilterMap(rows, ConnectionKey) == head + FilterMap(rows[1..], ConnectionKey);
    assert multiset(head + FilterMap(rows[1..], ConnectionKey))
        == multiset(head) + multiset(FilterMap(rows[1..], ConnectionKey));
  }

  /** The per-address counts of the rows: an address is a key exactly when
      some row is counted under it, and its count is the number of such rows. */
  function ConnectionCounts(rows: seq<string>): (r: map<string, nat>)
    ensures forall ip :: ip in r <==> ip in CountedAddresses(rows)
    ensures forall ip :: ip in r ==> r[ip] == CountedAddresses(rows)[ip] && IsCountedKey(ip) && ':' !in ip
  {
    TallyFrom(rows, map[])
  }

  /** The tally of `ss -tan` text: its header line is skipped, and every
      address is mapped to the number of data rows counted under it. */
  function ConnectionTally(output: string): (r: map<string, nat>)
    ensures forall ip :: ip in r <==> |Filter(SkipHeader(Lines(output)), KeyedAs(ip))| > 0
    ensures forall ip :: ip in r ==> r[ip] == |Filter(SkipHeader(Lines(output)), KeyedAs(ip))|
  {
    var rows := SkipHeader(Lines(output));
    CountsAreRowCounts(rows);
    ConnectionCounts(rows)
  }

  lemma CountsAreRowCounts(rows: seq<string>)
    ensures forall ip :: ip in ConnectionCounts(rows) <==> |Filter(rows, KeyedAs(ip))| > 0
    ensures forall ip :: ip in ConnectionCounts(rows) ==> ConnectionCounts(rows)[ip] == |Filter(rows, KeyedAs(ip))|
  {
    forall ip {
      CountedAddressesCount(rows, ip);
    }
  }

  const ConnectionThreshold: nat := 50

  function HighTrafficMessage(ip: string, count: nat): string {
    "High connection count from " + ip + ": " + Decimal(count) + " connections"
  }

  function HighTrafficAlert(ip: string, count: nat, now: Timestamp): SecurityAlert {
    SecurityAlert(now, High, UnusualTraffic, HighTrafficMessage(ip, count), Some("Possible port scan or DDoS attempt"))
  }

  /** The addresses whose count is strictly above the threshold. */
  function HotAddresses(counts: map<string, nat>): set<string> {
    set ip | ip in counts && counts[ip] > ConnectionThreshold
  }

  /** `order` lists every key of `counts` exactly once: a `HashMap` iteration order. */
  ghost predicate Enumerates(order: seq<string>, counts: map<string, nat>) {
    Distinct(order) && forall ip :: ip in order <==> ip in counts
  }

  predicate IsHot(counts: map<string, nat>, ip: string) {
    ip in counts && counts[ip] > ConnectionThreshold
  }

  function HotTest(counts: map<string, nat>): string -> bool {
    (ip: string) => IsHot(counts, ip)
  }

  function AlertFor(counts: map<string, nat>, now: Timestamp): string -> SecurityAlert {
    (ip: string) => HighTrafficAlert(ip, if ip in counts then counts[ip] else 0, now)
  }

  /** The body of the alert loop for one key. */
  function HotAlertOf(counts: map<string, nat>, now: Timestamp): string -> Option<SecurityAlert> {
    (ip: string) => if IsHot(counts, ip) then Some(AlertFor(counts, now)(ip)) else None
  }

  /** Visiting an enumeration of the keys picks every hot address exactly once. */
  lemma HotPicks(counts: map<string, nat>, order: seq<string>)
    requires Enumerates(order, counts)
    ensures |Filter(order, HotTest(counts))| == |HotAddresses(counts)|
    ensures Elements(Filter(order, HotTest(counts))) == HotAddresses(counts)
  {
    var picked := Filter(order, HotTest(counts));
    assert Distinct(order);
    FilterDistinct(order, HotTest(counts));
    assert Distinct(picked);
    DistinctCardinality(picked);
    assert |Elements(picked)| == |picked|;
    FilterElements(order, HotTest(counts));
    assert (set x | x in order && HotTest(counts)(x)) == HotAddresses(counts);
    assert Elements(picked) == HotAddresses(counts);
  }

  /** The alert loop over the counts, visiting keys in `order`: one
      High/UnusualTraffic alert per address above the threshold, and none
      for the others. */
  function ConnectionAlerts(counts: map<string, nat>, order: seq<string>, now: Timestamp): (r: seq<SecurityAlert>)
    requires Enumerates(order, counts)
    ensures |r| == |HotAddresses(counts)|
    ensures forall ip :: ip in HotAddresses(counts) ==> HighTrafficAlert(ip, counts[ip], now) in r
    ensures forall a :: a in r ==> exists ip :: ip in HotAddresses(counts) && a == HighTrafficAlert(ip, counts[ip], now)
  {
    var r := FilterMap(order, HotAlertOf(counts, now));
    ConnectionAlertsMatch(counts, order, now);
    r
  }

  lemma ConnectionAlertsMatch(counts: map<string, nat>, order: seq<string>, now: Timestamp)
    requires Enumerates(order, counts)
    ensures var r := FilterMap(order, HotAlertOf(counts, now));
      && |r| == |HotAddresses(counts)|
      && (forall ip :: ip in HotAddresses(counts) ==> HighTrafficAlert(ip, counts[ip], now) in r)
      && (forall a :: a in r ==> exists ip :: ip in HotAddresses(counts) && a == HighTrafficAlert(ip, counts[ip], now))
  {
    AlertsFollowPicks(counts, order, now);
    HotPicks(counts, order);
    HotAlertsPresent(counts, order, now);
    AlertsAreHot(counts, order, now);
  }

  lemma HotAlertsPresent(counts: map<string, nat>, order: seq<string>, now: Timestamp)
    requires Enumerates(order, counts)
    ensures forall ip :: ip in HotAddresses(counts) ==>
      HighTrafficAlert(ip, counts[ip], now) in FilterMap(order, HotAlertOf(counts, now))
  {
    forall ip | ip in HotAddresses(counts)
      ensures HighTrafficAlert(ip, counts[ip], now) in FilterMap(order, HotAlertOf(counts, now))
    {
      assert ip in order;
      assert IsHot(counts, ip);
      assert AlertFor(counts, now)(ip) == HighTrafficAlert(ip, counts[ip], now);
      assert HotAlertOf(counts, now)(ip) == Some(AlertFor(counts, now)(ip));
    }
  }

  lemma AlertsAreHot(counts: map<string, nat>, order: seq<string>, now: Timestamp)
    ensures forall a :: a in FilterMap(order, HotAlertOf(counts, now)) ==>
      exists ip :: ip in HotAddresses(counts) && a == HighTrafficAlert(ip, counts[ip], now)
  {
    var r := FilterMap(order, HotAlertOf(counts, now));
    forall a | a in r ensures exists ip :: ip in HotAddresses(counts) && a == HighTrafficAlert(ip, counts[ip], now) {
      var ip :| ip in order && HotAlertOf(counts, now)(ip) == Some(a);
      assert HotAlertOf(counts, now)(ip) ==
        if IsHot(counts, ip) then Some(AlertFor(counts, now)(ip)) else None;
      assert IsHot(counts, ip);
      assert a == AlertFor(counts, now)(ip);
      assert a == HighTrafficAlert(ip, counts[ip], now);
      assert ip in HotAddresses(counts);
    }
  }

  /** The alerts are, index by index, those of the picked hot addresses. */
  lemma AlertsFollowPicks(counts: map<string, nat>, order: seq<string>, now: Timestamp)
    ensures |FilterMap(order, HotAlertOf(counts, now))| == |Filter(order, HotTest(counts))|
    ensures forall i :: 0 <= i < |Filter(order, HotTest(counts))| ==>
      FilterMap(order, HotAlertOf(counts, now))[i] == AlertFor(counts, now)(Filter(order, HotTest(counts))[i])
  {
    FilterMapIsMapOfFilter(order, HotAlertOf(counts, now), HotTest(counts), AlertFor(counts, now));
  }

  /** `check_network_connections`: the alerts of the `ss -tan` tally, or the
      error raised when `ss` cannot be started (`None`). */
  function CheckNetworkConnections(ss: Option<string>, order: seq<string>, now: Timestamp): (r: Result<seq<SecurityAlert>>)
    requires ss.Some? ==> Enumerates(order, ConnectionTally(ss.value))
    ensures r.Err? <==> ss.None?
    ensures r.Err? ==> r.message == "Failed to check network connections"
    ensures r.Ok? ==> (|r.value| == |HotAddresses(ConnectionTally(ss.value))|
      && (forall a :: a in r.value ==> a.severity == High && a.category == UnusualTraffic)
      && (forall ip :: ip in HotAddresses(ConnectionTally(ss.value)) ==>
            HighTrafficAlert(ip, ConnectionTally(ss.value)[ip], now) in r.value)
      && (forall a :: a in r.value ==> exists ip :: (ip in HotAddresses(ConnectionTally(ss.value))
            && a == HighTrafficAlert(ip, ConnectionTally(ss.value)[ip], now))))
  {
    match ss
    case None => Err("Failed to check network connections")
    case Some(text) =>
      var r := ConnectionAlerts(ConnectionTally(text), order, now);
      assert forall a :: a in r ==> a.severity == High && a.category == UnusualTraffic by {
        forall a | a in r ensures a.severity == High && a.category == UnusualTraffic {
          var ip :| ip in HotAddresses(ConnectionTally(text)) && a == HighTrafficAlert(ip, ConnectionTally(text)[ip], now);
        }
      }
      Ok(r)
  }

  // ---------------------------------------------------------------------
  // Composition (`scan_security_logs`)
  // ---------------------------------------------------------------------

  /** The alerts a pass contributes to the scan: all of them when it
      succeeded, none when it failed. */
  function Passed(pass: Result<seq<SecurityAlert>>): seq<SecurityAlert> {
    if pass.Ok? then pass.value else []
  }

  /** `scan_security_logs`: the login, connection and firewall alerts, in that
      order; a pass whose command cannot run contributes nothing, and the scan
      itself always succeeds. */
  function ScanSecurityLogs(journal: Option<string>, ss: Option<string>, order: seq<string>,
                            dmesg: Option<string>, now: Timestamp): (r: Result<seq<SecurityAlert>>)
    requires ss.Some? ==> Enumerates(order, ConnectionTally(ss.value))
    ensures r.Ok?
    ensures r.value == CheckFailedLogins(journal, now).value
                     + (if ss.Some? then CheckNetworkConnections(ss, order, now).value else [])
                     + CheckFirewallLogs(dmesg, now).value
  {
    Ok(Passed(CheckFailedLogins(journal, now))
       + Passed(CheckNetworkConnections(ss, order, now))
       + Passed(CheckFirewallLogs(dmesg, now)))
  }

  // ---------------------------------------------------------------------
  // Firewall status (`check_firewall_status`)
  // ---------------------------------------------------------------------

  /** `check_firewall_status` as a function of what its commands produced:
      the `ufw status` text if `ufw` could be started, and whether
      `iptables -L -n` exited successfully if it could be started. */
  function FirewallStatus(ufwOutput: Option<string>, iptablesSucceeded: Option<bool>): (active: bool)
    ensures ufwOutput.Some? ==> (active <==> exists i: nat :: OccursAt(ufwOutput.value, "Status: active", i))
    ensures ufwOutput.None? ==> (active <==> iptablesSucceeded == Some(true))
  {
    if ufwOutput.Some? then Contains(ufwOutput.value, "Status: active")
    else if iptablesSucceeded.Some? then iptablesSucceeded.value
    else false
  }

  // ---------------------------------------------------------------------
  // Summary counts (`get_security_summary`)
  // ---------------------------------------------------------------------

  /** The number of alerts whose severity is exactly `s`. */
  function CountSeverity(alerts: seq<SecurityAlert>, s: Severity): (n: nat)
    ensures n <= |alerts|
  {
    |Filter(alerts, HasSeverity(s))|
  }

  function HasSeverity(s: Severity): SecurityAlert -> bool {
    (a: SecurityAlert) => a.severity == s
  }

  datatype SecuritySummary = SecuritySummary(firewallActive: bool, critical: nat, high: nat, medium: nat)

  /** The rendered summary. */
  function SummaryText(s: SecuritySummary): (text: string)
    ensures StartsWith(text, "Firewall: Active\n") <==> s.firewallActive
  {
    var head := if s.firewallActive then "Firewall: Active" else "Firewall: Inactive";
    var text := head + "\nAlerts - Critical: " + Decimal(s.critical)
      + ", High: " + Decimal(s.high) + ", Medium: " + Decimal(s.medium);
    assert text[..|head|] == head;
    assert !s.firewallActive ==> text[10] == 'I' && "Firewall: Active\n"[10] == 'A';
    text
  }

  /** `get_security_summary`: firewall state, and the Critical, High and Medium
      counts of the scan. The scan only ever raises Medium alerts for failed
      logins and High alerts for busy addresses, so those are what is counted. */
  function GetSecuritySummary(journal: Option<string>, ss: Option<string>, order: seq<string>,
                              dmesg: Option<string>, now: Timestamp,
                              ufwOutput: Option<string>, iptablesSucceeded: Option<bool>): (s: SecuritySummary)
    requires ss.Some? ==> Enumerates(order, ConnectionTally(ss.value))
    ensures s.firewallActive == FirewallStatus(ufwOutput, iptablesSucceeded)
    ensures s.critical == 0
    ensures s.high == if ss.Some? then |HotAddresses(ConnectionTally(ss.value))| else 0
    ensures s.medium == if journal.Some? then |Filter(Lines(journal.value), IsFailedLoginLine)| else 0
  {
    var alerts := ScanSecurityLogs(journal, ss, order, dmesg, now).value;
    ScanSeverityCounts(journal, ss, order, dmesg, now);
    SecuritySummary(FirewallStatus(ufwOutput, iptablesSucceeded),
      CountSeverity(alerts, Critical), CountSeverity(alerts, High), CountSeverity(alerts, Medium))
  }

  // ---------------------------------------------------------------------
  // Properties
  // ---------------------------------------------------------------------

  lemma CountAppend(xs: seq<SecurityAlert>, ys: seq<SecurityAlert>, s: Severity)
    ensures CountSeverity(xs + ys, s) == CountSeverity(xs, s) + CountSeverity(ys, s)
  {
    FilterAppend(xs, ys, HasSeverity(s));
  }

  /** In alerts that all share severity `t`, `t` counts them all and every other severity none. */
  lemma {:induction false} CountUniform(xs: seq<SecurityAlert>, t: Severity, s: Severity)
    requires forall a :: a in xs ==> a.severity == t
    ensures CountSeverity(xs, s) == if s == t then |xs| else 0
    decreases |xs|
  {
    if xs != [] {
      assert xs[0] in xs;
      CountUniform(xs[1..], t, s);
      assert xs == [xs[0]] + xs[1..];
      CountAppend([xs[0]], xs[1..], s);
    }
  }

  /** Every alert has exactly one of the five severities: the counts add up. */
  lemma {:induction false} SeverityCountsPartition(xs: seq<SecurityAlert>)
    ensures CountSeverity(xs, Critical) + CountSeverity(xs, High) + CountSeverity(xs, Medium)
          + CountSeverity(xs, Low) + CountSeverity(xs, Info) == |xs|
    decreases |xs|
  {
    if xs != [] {
      SeverityCountsPartition(xs[1..]);
      assert xs == [xs[0]] + xs[1..];
      CountAppend([xs[0]], xs[1..], Critical);
      CountAppend([xs[0]], xs[1..], High);
      CountAppend([xs[0]], xs[1..], Medium);
      CountAppend([xs[0]], xs[1..], Low);
      CountAppend([xs[0]], xs[1..], Info);
    }
  }

  lemma LoginAlertsAreMedium(journal: Option<string>, now: Timestamp)
    ensures forall a :: a in Passed(CheckFailedLogins(journal, now)) ==> a.severity == Medium
  {
    var logins := Passed(CheckFailedLogins(journal, now));
    forall a | a in logins ensures a.severity == Medium {
      var i :| 0 <= i < |logins| && logins[i] == a;
    }
  }

  lemma FirewallAlertsAreInfo(dmesg: Option<string>, now: Timestamp)
    ensures forall a :: a in Passed(CheckFirewallLogs(dmesg, now)) ==> a.severity == Info
  {
    var fw := Passed(CheckFirewallLogs(dmesg, now));
    forall a | a in fw ensures a.severity == Info {
      var i :| 0 <= i < |fw| && fw[i] == a;
    }
  }

  lemma ConnectionAlertsAreHigh(ss: Option<string>, order: seq<string>, now: Timestamp)
    requires ss.Some? ==> Enumerates(order, ConnectionTally(ss.value))
    ensures var conns := if ss.Some? then CheckNetworkConnections(ss, order, now).value else [];
      && (forall a :: a in conns ==> a.severity == High)
      && |conns| == (if ss.Some? then |HotAddresses(ConnectionTally(ss.value))| else 0)
  {
  }

  lemma CountThree(xs: seq<SecurityAlert>, ys: seq<SecurityAlert>, zs: seq<SecurityAlert>, s: Severity)
    ensures CountSeverity(xs + ys + zs, s) == CountSeverity(xs, s) + CountSeverity(ys, s) + CountSeverity(zs, s)
  {
    CountAppend(xs + ys, zs, s);
    CountAppend(xs, ys, s);
  }

  /** Counting over three uniformly-graded parts. */
  lemma CountParts(logins: seq<SecurityAlert>, conns: seq<SecurityAlert>, fw: seq<SecurityAlert>, s: Severity)
    requires forall a :: a in logins ==> a.severity == Medium
    requires forall a :: a in conns ==> a.severity == High
    requires forall a :: a in fw ==> a.severity == Info
    ensures CountSeverity(logins + conns + fw, s)
         == (if s == Medium then |logins| else 0) + (if s == High then |conns| else 0) + (if s == Info then |fw| else 0)
  {
    CountThree(logins, conns, fw, s);
    CountUniform(logins, Medium, s);
    CountUniform(conns, High, s);
    CountUniform(fw, Info, s);
  }

  /** The severities of a scan: Medium for each failed-login line, High for
      each address above the threshold, Info for each firewall line, and no
      Critical or Low alert at all. */
  /** All five counts over three uniformly-graded parts. */
  lemma CountsOfParts(logins: seq<SecurityAlert>, conns: seq<SecurityAlert>, fw: seq<SecurityAlert>)
    requires forall a :: a in logins ==> a.severity == Medium
    requires forall a :: a in conns ==> a.severity == High
    requires forall a :: a in fw ==> a.severity == Info
    ensures var alerts := logins + conns + fw;
      && CountSeverity(alerts, Critical) == 0
      && CountSeverity(alerts, Low) == 0
      && CountSeverity(alerts, Medium) == |logins|
      && CountSeverity(alerts, High) == |conns|
      && CountSeverity(alerts, Info) == |fw|
  {
    CountParts(logins, conns, fw, Critical);
    CountParts(logins, conns, fw, Low);
    CountParts(logins, conns, fw, Medium);
    CountParts(logins, conns, fw, High);
    CountParts(logins, conns, fw, Info);
  }

  lemma ScanSeverityCounts(journal: Option<string>, ss: Option<string>, order: seq<string>,
                           dmesg: Option<string>, now: Timestamp)
    requires ss.Some? ==> Enumerates(order, ConnectionTally(ss.value))
    ensures var alerts := ScanSecurityLogs(journal, ss, order, dmesg, now).value;
      && CountSeverity(alerts, Critical) == 0
      && CountSeverity(alerts, Low) == 0
      && CountSeverity(alerts, Medium) == (if journal.Some? then |Filter(Lines(journal.value), IsFailedLoginLine)| else 0)
      && CountSeverity(alerts, High) == (if ss.Some? then |HotAddresses(ConnectionTally(ss.value))| else 0)
      && CountSeverity(alerts, Info) == (if dmesg.Some? then |Filter(Lines(dmesg.value), IsFirewallLogLine)| else 0)
  {
    var logins := CheckFailedLogins(journal, now).value;
    var conns := if ss.Some? then CheckNetworkConnections(ss, order, now).value else [];
    var fw := CheckFirewallLogs(dmesg, now).value;
    LoginAlertsAreMedium(journal, now);
    FirewallAlertsAreInfo(dmesg, now);
    ConnectionAlertsAreHigh(ss, order, now);
    assert ScanSecurityLogs(journal, ss, order, dmesg, now).value == logins + conns + fw;
    CountsOfParts(logins, conns, fw);
  }

  lemma ConnectionsPassFailed(order: seq<string>, now: Timestamp)
    ensures Passed(CheckNetworkConnections(None, order, now)) == []
  {
    assert CheckNetworkConnections(None, order, now).Err?;
  }

  /** One pass failing leaves the other two passes' alerts in place. */
  lemma FailureIsolation(journal: Option<string>, order: seq<string>, dmesg: Option<string>, now: Timestamp)
    ensures ScanSecurityLogs(journal, None, order, dmesg, now).value
         == CheckFailedLogins(journal, now).value + CheckFirewallLogs(dmesg, now).value
    ensures ScanSecurityLogs(None, None, order, dmesg, now).value == CheckFirewallLogs(dmesg, now).value
  {
    ScanWithoutConnections(journal, order, dmesg, now);
    ScanWithoutConnections(None, order, dmesg, now);
    var fw := CheckFirewallLogs(dmesg, now).value;
    assert CheckFailedLogins(None, now).value == [];
    assert [] + fw == fw;
  }

  lemma ScanWithoutConnections(journal: Option<string>, order: seq<string>, dmesg: Option<string>, now: Timestamp)
    ensures ScanSecurityLogs(journal, None, order, dmesg, now).value
         == CheckFailedLogins(journal, now).value + CheckFirewallLogs(dmesg, now).value
  {
    ConnectionsPassFailed(order, now);
    EmptyMiddle(Passed(CheckFailedLogins(journal, now)), Passed(CheckFirewallLogs(dmesg, now)));
  }

  /** The counts of the addresses listed in `order`, added up. */
  function TotalConnections(counts: map<string, nat>, order: seq<string>): nat
    decreases |order|
  {
    if order == [] then 0
    else (if order[0] in counts then counts[order[0]] else 0) + TotalConnections(counts, order[1..])
  }

  lemma {:induction false} TotalIsSumOfMultiplicities(counts: map<string, nat>, order: seq<string>, m: multiset<string>)
    requires forall ip :: ip in counts <==> ip in m
    requires forall ip :: ip in counts ==> counts[ip] == m[ip]
    ensures TotalConnections(counts, order) == SumMultiplicities(order, m)
    decreases |order|
  {
    if order != [] {
      TotalIsSumOfMultiplicities(counts, order[1..], m);
    }
  }

  /** Every counted connection comes from its own data line: the counts add
      up to the number of counted rows, which is at most the number of lines
      after the header. */
  lemma TallyTotalBounded(output: string, order: seq<string>)
    requires Enumerates(order, ConnectionTally(output))
    ensures TotalConnections(ConnectionTally(output), order) == |CountedAddresses(SkipHeader(Lines(output)))|
    ensures TotalConnections(ConnectionTally(output), order) <= |SkipHeader(Lines(output))|
  {
    var rows := SkipHeader(Lines(output));
    var m := CountedAddresses(rows);
    TotalIsSumOfMultiplicities(ConnectionTally(output), order, m);
    SumMultiplicitiesIsSize(order, m);
  }

  /** A row whose field 4 is `host:port` is counted under `host`, when
      `host` holds no `:` and is not loopback-looking, however the columns
      are padded. */
  lemma RowCountedUnderHost(line: string, cols: seq<string>, host: string, port: string)
    requires Words(line) == cols
    requires |cols| > 4
    requires cols[4] == host + ":" + port
    requires ':' !in host && IsCountedKey(host)
    ensures ConnectionKey(line) == Some(host)
  {
    var a := cols[4];
    var k := BeforeFirst(a, ':');
    assert a[|host|] == ':';
    assert a[..|host|] == host;
    assert k == host;
  }

  /** A row whose field 4 starts `127.` is never counted. */
  lemma LoopbackRowIgnored(line: string, cols: seq<string>, rest: string)
    requires Words(line) == cols
    requires |cols| > 4
    requires cols[4] == "127." + rest
    ensures ConnectionKey(line) == None
  {
    var k := BeforeFirst(cols[4], ':');
    assert cols[4][..4] == "127.";
    assert forall j :: 0 <= j < 4 ==> cols[4][j] != ':';
    assert |k| >= 4;
    assert k[..4] == "127.";
  }

  /** The key never holds a `:`, so the `::1` test can never exclude
      anything: a bracketed address whose text begins `[::`, such as the
      IPv6 loopback `[::1]:631` or a mapped `[::ffff:10.0.0.5]:22`, is
      counted under the key `[`. */
  lemma BracketedIpv6CountedUnderBracket(line: string, cols: seq<string>)
    requires Words(line) == cols
    requires |cols| > 4
    requires |cols[4]| >= 2 && cols[4][0] == '[' && cols[4][1] == ':'
    ensures ConnectionKey(line) == Some("[")
    ensures forall l :: ConnectionKey(l).Some? ==> !StartsWith(ConnectionKey(l).value, "::1")
  {
    var k := BeforeFirst(cols[4], ':');
    assert |k| == 1 by {
      assert IndexOf(cols[4], ':') == 1;
    }
    assert k == "[" by { assert k == cols[4][..1]; }
    forall l | ConnectionKey(l).Some? ensures !StartsWith(ConnectionKey(l).value, "::1") {
      var v := ConnectionKey(l).value;
      if |v| > 0 {
        assert v[0] in v;
      }
    }
  }

  /** Any other bracketed IPv6 address is counted under `[` followed by
      its first group: `[2001:db8::7]:51234` is counted under `[2001`. */
  lemma BracketedIpv6CountedUnderFirstGroup(line: string, cols: seq<string>, group: string, rest: string)
    requires Words(line) == cols
    requires |cols| > 4
    requires cols[4] == "[" + group + ":" + rest
    requires ':' !in group
    ensures ConnectionKey(line) == Some("[" + group)
  {
    var host := "[" + group;
    assert host[0] == '[';
    assert !StartsWith(host, "127.") && !StartsWith(host, "::1");
    RowCountedUnderHost(line, cols, host, rest);
  }

  lemma {:induction false} KeysOfOneHost(rows: seq<string>, host: string)
    requires forall i :: 0 <= i < |rows| ==> ConnectionKey(rows[i]) == Some(host)
    ensures FilterMap(rows, ConnectionKey) == seq(|rows|, _ => host)
    decreases |rows|
  {
    if rows != [] {
      KeysOfOneHost(rows[1..], host);
    }
  }

  lemma {:induction false} KeysOfQuietRows(rows: seq<string>)
    requires forall i :: 0 <= i < |rows| ==> ConnectionKey(rows[i]) == None
    ensures FilterMap(rows, ConnectionKey) == []
    decreases |rows|
  {
    if rows != [] {
      KeysOfQuietRows(rows[1..]);
    }
  }

  lemma {:induction false} MultisetOfConstant(n: nat, host: string)
    ensures multiset(seq(n, _ => host)) == multiset{}[host := n]
    decreases n
  {
    if n > 0 {
      var s := seq(n, _ => host);
      assert s == seq(n - 1, _ => host) + [host];
      MultisetOfConstant(n - 1, host);
    }
  }

  /** Rows that all count one address, followed by rows that count nothing
      (loopback, short rows), tally that address once per row. */
  lemma OneBusyHostTally(hostRows: seq<string>, quiet: seq<string>, host: string)
    requires |hostRows| > 0
    requires forall i :: 0 <= i < |hostRows| ==> ConnectionKey(hostRows[i]) == Some(host)
    requires forall i :: 0 <= i < |quiet| ==> ConnectionKey(quiet[i]) == None
    ensures ConnectionCounts(hostRows + quiet) == map[host := |hostRows|]
  {
    FilterMapAppend(hostRows, quiet, ConnectionKey);
    KeysOfOneHost(hostRows, host);
    KeysOfQuietRows(quiet);
    assert FilterMap(hostRows + quiet, ConnectionKey) == seq(|hostRows|, _ => host);
    MultisetOfConstant(|hostRows|, host);
    CountsOfOneHost(ConnectionCounts(hostRows + quiet), CountedAddresses(hostRows + quiet), host, |hostRows|);
  }

  /** Counts that agree with a bag holding one address `n` times are the
      one-entry map of that address to `n`. */
  lemma CountsOfOneHost(c: map<string, nat>, b: multiset<string>, host: string, n: nat)
    requires n > 0 && b == multiset{}[host := n]
    requires forall ip :: ip in c <==> ip in b
    requires forall ip :: ip in c ==> c[ip] == b[ip]
    ensures c == map[host := n]
  {
    assert forall ip :: ip in c <==> ip == host;
    assert c.Keys == {host};
  }

  /** The threshold is strict: one address with `n` connections raises one
      alert, naming it and `n`, exactly when `n` exceeds 50. */
  lemma ThresholdIsStrict(host: string, n: nat, now: Timestamp)
    ensures Enumerates([host], map[host := n])
    ensures ConnectionAlerts(map[host := n], [host], now) ==
      if n > ConnectionThreshold then [HighTrafficAlert(host, n, now)] else []
  {
    var counts := map[host := n];
    var r := ConnectionAlerts(counts, [host], now);
    if n > ConnectionThreshold {
      assert HotAddresses(counts) == {host};
      assert |r| == 1;
      assert HighTrafficAlert(host, n, now) in r;
    } else {
      assert HotAddresses(counts) == {};
      assert |r| == 0;
    }
  }

  /** One address seen on more than 50 rows among traffic that counts
      nothing (60 connections from one peer, say): exactly one
      High/UnusualTraffic alert, for that address and its row count; at 50
      rows or fewer, none. */
  lemma BusyHostAlerts(hostRows: seq<string>, quiet: seq<string>, host: string, now: Timestamp)
    requires |hostRows| > 0
    requires forall i :: 0 <= i < |hostRows| ==> ConnectionKey(hostRows[i]) == Some(host)
    requires forall i :: 0 <= i < |quiet| ==> ConnectionKey(quiet[i]) == None
    ensures Enumerates([host], ConnectionCounts(hostRows + quiet))
    ensures ConnectionAlerts(ConnectionCounts(hostRows + quiet), [host], now) ==
      if |hostRows| > ConnectionThreshold then [HighTrafficAlert(host, |hostRows|, now)] else []
  {
    var c := ConnectionCounts(hostRows + quiet);
    OneBusyHostTally(hostRows, quiet, host);
    assert c == map[host := |hostRows|];
    ThresholdIsStrict(host, |hostRows|, now);
  }

  lemma CancelLeft(p: string, x: string, y: string)
    requires p + x == p + y
    ensures x == y
  {
    assert x == (p + x)[|p|..];
    assert y == (p + y)[|p|..];
  }

  lemma CancelRight(x: string, y: string, t: string)
    requires x + t == y + t
    ensures x == y
  {
    assert |x| == |y|;
    assert x == (x + t)[..|x|];
    assert y == (y + t)[..|y|];
  }

  /** Two texts that each read as a `:`-free head, a `:`, then a tail, split
      the same way. */
  lemma SplitAtFirstColon(a: string, x: string, b: string, y: string)
    requires ':' !in a && ':' !in b
    requires a + ([':'] + x) == b + ([':'] + y)
    ensures a == b && x == y
  {
    IndexOfPrefix(a, [':'] + x, ':');
    IndexOfPrefix(b, [':'] + y, ':');
    var s := a + ([':'] + x);
    assert a == s[..|a|];
    assert b == s[..|b|];
    CancelLeft(a + [':'], x, y) by {
      assert a + ([':'] + x) == (a + [':']) + x;
      assert b + ([':'] + y) == (b + [':']) + y;
    }
  }

  lemma MessageShape(ip: string, count: nat)
    ensures HighTrafficMessage(ip, count) ==
      "High connection count from " + (ip + ([':'] + (" " + (Decimal(count) + " connections"))))
  {
  }

  /** The message determines the address and the count it was made from
      (for the `:`-free addresses the tally produces). */
  lemma MessageInjective(a: string, c: nat, b: string, d: nat)
    requires ':' !in a && ':' !in b
    requires HighTrafficMessage(a, c) == HighTrafficMessage(b, d)
    ensures a == b && c == d
  {
    var tailA := " " + (Decimal(c) + " connections");
    var tailB := " " + (Decimal(d) + " connections");
    MessageShape(a, c);
    MessageShape(b, d);
    CancelLeft("High connection count from ", a + ([':'] + tailA), b + ([':'] + tailB));
    SplitAtFirstColon(a, tailA, b, tailB);
    CancelLeft(" ", Decimal(c) + " connections", Decimal(d) + " connections");
    CancelRight(Decimal(c), Decimal(d), " connections");
    DecimalInjective(c, d);
  }

  /** Once `ufw` has run, the `iptables` result plays no part. */
  lemma UfwTakesPrecedence(ufw: string, a: Option<bool>, b: Option<bool>)
    ensures FirewallStatus(Some(ufw), a) == FirewallStatus(Some(ufw), b)
  {
  }

  /** `ufw status` reporting `Status: inactive` is not mistaken for active,
      even though `iptables` would succeed. */
  lemma InactiveUfwIsInactive(rest: string)
    requires forall i: nat :: !OccursAt(rest, "Status: active", i)
    ensures !FirewallStatus(Some("Status: inactive" + rest), Some(true))
  {
    var h := "Status: inactive";
    var s := h + rest;
    var t := "Status: active";
    assert forall j :: 1 <= j < 16 ==> h[j] != 'S';
    forall i: nat ensures !OccursAt(s, t, i) {
      if i + 14 <= |s| {
        if i == 0 {
          assert s[i..i + 14][8] != t[8];
        } else if i < 16 {
          assert s[i..i + 14][0] == h[i];
        } else {
          assert s[i..i + 14] == rest[i - 16..i - 16 + 14];
          assert !OccursAt(rest, t, i - 16);
        }
      }
    }
  }
}
