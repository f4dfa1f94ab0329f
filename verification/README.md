# netninja telemetry core in Dafny

netninja is a terminal network and security monitor. It shells out to
`ss`, `ip neigh`, `journalctl`, `dmesg`, `ufw` and `iptables`, and reads
interfaces through `pnet`. It turns their text into typed records and alert
lists. This project models that normalisation and classification layer as
pure functions over the captured output:

- `Interfaces` takes the interface list (`get_interfaces`) and provides:
  - the `{:02x}` MAC formatting;
  - primary-interface selection (`get_primary_interface`);
  - VPN detection and typing (`get_vpn_status`).
- `Ports` is the `ss -tuln` table parser (`get_open_ports`).
- `Neighbors` is the `ip neigh show` line parser (`parse_neighbor_line`, `get_network_peers`).
- `Fingerprint` is the OUI lookup (`guess_device_from_mac`).
- `Alerts` holds the alert types and their `Display` labels.
- `Security` covers:
  - the three log passes;
  - their composition (`scan_security_logs`);
  - the firewall-status decision;
  - the summary counts.
- `Text`, `Numbers`, `Seqs` and `Wrappers` hold the Rust library behaviour the core relies on:
  - `split_whitespace`, `lines`, `split`/`rsplit` on `:`, `contains`, `starts_with`;
  - `parse::<u16>`, `{}` and `{:02x}`;
  - `Option` and `anyhow::Result`.

Conventions:
- A command's captured standard output is an `Option<string>`. `None`
  means the program could not be started (`Command::output` returned an
  error).
- `iptables` reports success as `Option<bool>`.
- Text parsing of `IpAddr` is a parameter `parse`, giving an abstract
  `IpAddr` (four octets or eight segments).
- The iteration order of the connection-count `HashMap` is a parameter
  `order`, which must list every key exactly once (`Enumerates`).
- The clock is a single value `now`.

Where the code and its description differ, the model follows the code:
- The primary interface accepts any IPv6 address other than `::1`, so a
  link-local `fe80::` address qualifies. Only IPv4 link-local addresses are
  excluded.
- In `ss -tan` output (no `Netid` column), field 4 is the peer address, not
  the local one. The tally counts whatever field 4 holds.
- The OUI check is a `starts_with` on the lowercased first three
  `:`-segments, not an exact comparison.
- The connection key is the text before the first `:`, so it can never
  start with `::1`, and that exclusion never fires. Bracketed addresses
  whose text begins `[::`, such as the IPv6 loopback `[::1]:631` or a
  mapped `[::ffff:10.0.0.5]:22`, are all counted under the key `[`
  (`Security.BracketedIpv6CountedUnderBracket`). Any other bracketed IPv6
  address is counted under `[` followed by its first group, so
  `[2001:db8::7]:51234` is counted under `[2001`
  (`Security.BracketedIpv6CountedUnderFirstGroup`).

## Model

| member | source | states |
|---|---|---|
| Interfaces.FormatMac | src/network.rs:35-37 | the MAC text is 17 characters, six lowercase two-hex-digit groups joined by `:`, and reads back as the same six bytes |
| Interfaces.FormatOfParse | src/network.rs:35-37 | every canonical MAC text is the format of the bytes it denotes, so formatting is a bijection onto canonical texts |
| Interfaces.GetInterfaces | src/network.rs:24-51 | one record per datalink interface, in order; name, addresses and up flag copied; MAC present exactly when the link has one, canonical, and equal to the link's bytes |
| Interfaces.HasUsableAddress | src/network.rs:61-72 | true iff some address parses to an IPv4 address that is neither 127/8 nor 169.254/16, or to an IPv6 address other than `::1` |
| Interfaces.PrimaryInterface | src/network.rs:54-78 | Ok iff some interface is a candidate (not `lo`, addresses non-empty, up, a usable address); the result is the first candidate in order; otherwise the error "No suitable network interface found" |
| Interfaces.LoopbackOnlyNeverPrimary | src/network.rs:58-75 | an interface none of whose addresses is usable is never returned as primary |
| Interfaces.MatchesVpnPattern | src/network.rs:85-89 | true iff the interface is up and its name contains one of `tun`, `tap`, `wg`, `ppp`, `vpn` |
| Interfaces.GetVpnStatus | src/network.rs:81-115 | connected iff some interface is up with a VPN-pattern name; then the interface is the first such one, its IP is that interface's first address (or none), and the type follows the name; otherwise interface, IP and type are all none |
| Interfaces.VpnType | src/network.rs:91-97 | the kind is WireGuard iff the name starts `wg`, OpenVPN/Generic iff it starts `tun` or `tap` (the prefixes exclude each other), and Unknown iff it starts with none of them |
| Interfaces.VpnTypeByPrefix | src/network.rs:91-97 | WireGuard iff the name starts `wg`; OpenVPN/Generic iff it starts `tun` or `tap` but not `wg`; Unknown otherwise |
| Interfaces.WireGuardExample | src/network.rs:87-104 | an up `eth0` before an up `wg0` gives connected through `wg0`, its address, WireGuard |
| Numbers.Decimal | src/security.rs:130 | the `{}` rendering of a count is a non-empty digit string whose value is the count, with no leading zero (it starts with `0` only for zero itself) |
| Numbers.DecimalInjective | src/security.rs:130 | distinct counts render differently |
| Numbers.ParseU16 | src/network.rs:134 | succeeds iff the text, after one optional `+`, is a non-empty run of ASCII digits whose value is below 65536, and then yields that value |
| Numbers.ParseU16OfDecimal | src/network.rs:133-134 | a port printed in decimal parses back to itself |
| Numbers.ParseU16RejectsNonDigits | src/network.rs:134 | a text with a non-digit after its first character never parses |
| Numbers.Hex2 | src/network.rs:36 | `{:02x}` gives exactly two lowercase hex digits whose value is the byte |
| Text.Words | src/network.rs:128 | `split_whitespace` yields only non-empty, whitespace-free fields, and yields none exactly when the text is all whitespace |
| Text.Lines | src/network.rs:127 | `str::lines` yields lines holding no `\n`; `Text.LinesCrLf`, `Text.LinesOfUnlines` and `Text.FinalNewlineOptional` fix how the text is cut at `\r\n` and at `\n` |
| Text.LinesCrLf | src/network.rs:127 | a `\r\n` line end is cut like `\n`, and its `\r` is dropped from the line |
| Text.WordsSkipsSpace | src/network.rs:128 | leading whitespace of any length and kind yields no field |
| Text.WordsOfPaddedField | src/network.rs:128 | a field followed by any non-empty run of whitespace is the first field, and splitting carries on after the run, so column padding changes nothing |
| Text.WordsOfUnwords | src/network.rs:128 | whitespace-free fields joined by spaces split back into the same fields |
| Text.LinesOfUnlines | src/network.rs:127 | `lines` recovers the lines of a newline-terminated text, with no trailing empty line |
| Text.FinalNewlineOptional | src/security.rs:78 | a final line end adds no line |
| Text.JoinSplit | src/network.rs:214 | joining the `:`-pieces of a text restores it |
| Text.SplitJoin | src/network.rs:214 | `:`-free pieces joined by `:` split back into themselves |
| Text.BeforeFirst | src/security.rs:114 | `split(':').next()` is the longest `:`-free prefix |
| Text.AfterLast | src/network.rs:133 | `rsplit(':').next()` is the longest `:`-free suffix |
| Text.AfterLastIsLastPiece | src/network.rs:133 | the text after the last `:` is the final piece of the split |
| Text.Contains | src/security.rs:79 | `contains` holds iff the pattern occurs at some position |
| Text.Lower | src/network.rs:217 | lowercasing keeps the length and maps each character |
| Ports.ParsePortLine | src/network.rs:128-142 | fewer than 5 fields gives nothing; with 5 or more, an entry iff the text after the last `:` of field 4 is a u16; the entry's protocol is field 0, its port that value, its state field 1 when there are more than 5 fields and LISTEN otherwise |
| Ports.PortRows | src/network.rs:127-144 | at most one entry per line after the header; each entry comes from one such line, and every such line that parses contributes its entry |
| Ports.ParsePortTable | src/network.rs:127-144 | over the captured text: at most one entry per line after the first, each from such a line, and every such line that parses contributes its entry |
| Ports.GetOpenPorts | src/network.rs:118-147 | error "Failed to execute ss command" iff `ss` could not start; otherwise every entry comes from a non-header line, and every non-header line that parses contributes its entry |
| Ports.HeaderIgnored | src/network.rs:127 | the first line never contributes, whatever it holds |
| Ports.RowsKeepOrder | src/network.rs:127-144 | appending lines appends their entries: entries keep line order |
| Ports.BadRowDropped | src/network.rs:129-134 | a line that yields no entry changes nothing |
| Ports.PortRowRoundTrip | src/network.rs:128-140 | a row whose field 4 is `host:port`, however its columns are padded, yields exactly (field 0, port, state rule) |
| Ports.WildcardPortDropped | src/network.rs:133-134 | a row listening on `host:*`, however padded, yields nothing |
| Fingerprint.TableShaped | src/network.rs:218-228 | the OUI prefixes are distinct `xx:xx:xx` texts |
| Fingerprint.LookupOui | src/network.rs:217-230 | a key matching no prefix gives (Unknown, Unknown); a key that starts with a table prefix gives that prefix's (device type, OS guess) |
| Fingerprint.GuessDevice | src/network.rs:212-235 | no MAC gives (Unknown, Unknown); otherwise the lookup of the lowercased MAC |
| Fingerprint.OuiIsPrefix | src/network.rs:214 | the first three `:`-segments, rejoined, are a prefix of the MAC |
| Fingerprint.Oui | src/network.rs:214 | the `:`-segments of the cut are exactly the first three segments of the MAC (all of them when it has three or fewer) |
| Fingerprint.OuiCutIsInvisible | src/network.rs:214-217 | cutting the MAC to three segments changes no lookup result |
| Fingerprint.GuessExamples | src/network.rs:221-230 | any MAC beginning `08:00:27` in either case is a VirtualBox virtual machine; `aa:bb:cc:dd:ee:ff` is (Unknown, Unknown) |
| Neighbors.ScanFields | src/network.rs:191-198 | the scan keeps the token after the last usable `lladdr` and the last REACHABLE/STALE/DELAY token, or its starting values if there are none |
| Neighbors.ParseNeighborLine | src/network.rs:178-210 | none iff fewer than 4 fields; otherwise ip is field 0, interface field 2, mac the token after the last `lladdr` that is not final (else none), state the last known state token (else UNKNOWN), and the guess is the fingerprint of the mac |
| Neighbors.NeighborRows | src/network.rs:159-163 | at most one peer per line; each peer comes from one line, and every line that parses contributes its peer |
| Neighbors.NeighborRowsKeepOrder | src/network.rs:159-163 | the peers of two runs of lines are the peers of the first run followed by those of the second, so the table keeps line order |
| Neighbors.ShortNeighborLineDropped | src/network.rs:181-183 | a line with fewer than 4 fields adds no peer to the table |
| Neighbors.ParseNeighborTable | src/network.rs:159-163 | at most one peer per line; each peer comes from one line, and every line that parses contributes its peer |
| Neighbors.GetNetworkPeers | src/network.rs:150-166 | error "Failed to execute ip neigh command" iff `ip` could not start; otherwise every peer comes from one line, and every line that parses contributes its peer |
| Neighbors.SingleLladdr | src/network.rs:191-194 | with one `lladdr`, the mac is the token after it |
| Neighbors.NeighborRowRoundTrip | src/network.rs:178-210 | a line whose fields are `ip dev if lladdr mac STATE`, however padded, parses to exactly those values and the mac's guess |
| Neighbors.IncompleteEntry | src/network.rs:188-200 | a line whose fields are `ip dev if INCOMPLETE`, however padded, has no mac, state UNKNOWN and an Unknown guess |
| Alerts.SeverityLabel | src/security.rs:34-44 | each severity's label reads back as that severity |
| Alerts.SeverityLabelsDistinct | src/security.rs:36-42 | the five labels are pairwise distinct |
| Security.CheckFailedLogins | src/security.rs:68-92 | always Ok; no journal gives no alerts; otherwise one Medium/FailedLogin alert per line containing "Failed password" or "Invalid user", in line order, with that line as details |
| Security.CheckFirewallLogs | src/security.rs:139-163 | always Ok; no dmesg gives no alerts; otherwise one Info/FirewallBlock alert per line containing "UFW BLOCK" or "iptables", in line order, with that line as details |
| Security.ConnectionKey | src/security.rs:110-117 | a row is counted iff it has more than 4 fields and the text of field 4 before its first `:` is non-empty and starts with neither `127.` nor `::1`; the key is exactly that text before the first `:`, so it holds no `:` |
| Security.CountedAddresses | src/security.rs:109-121 | at most one counted key per row, each a permitted key |
| Security.CountedAddressesCount | src/security.rs:109-121 | each address is counted exactly as many times as there are rows keyed under it |
| Security.TallyFrom | src/security.rs:109-121 | the `or_insert(0) += 1` loop adds each row's key to the counts so far |
| Security.Bump | src/security.rs:116 | a counted row adds one to its address's count, starting the address at one when it is new, and leaves every other count as it was; a row that is not counted changes nothing |
| Security.ConnectionCounts | src/security.rs:104-121 | an address is in the tally iff some row counts it, and its count is the number of such rows |
| Security.ConnectionTally | src/security.rs:108-121 | over `ss -tan` text with its header skipped: an address is tallied iff some data row is counted under it, and its count is the number of such rows |
| Security.TallyTotalBounded | src/security.rs:109-121 | the counts add up to the number of counted rows, at most the number of lines after the header |
| Security.RowCountedUnderHost | src/security.rs:113-116 | a row whose field 4 is `host:port`, however padded, is counted under `host`, provided `host` holds no `:`, is non-empty and starts with neither `127.` nor `::1` |
| Security.LoopbackRowIgnored | src/security.rs:115 | a row whose field 4 starts `127.`, however padded, is never counted |
| Security.BracketedIpv6CountedUnderBracket | src/security.rs:114-115 | a row whose field 4 begins `[:` (the bracketed addresses printed as `[::…]`, loopback included) is counted under `[`, and no key ever starts `::1` |
| Security.BracketedIpv6CountedUnderFirstGroup | src/security.rs:114-115 | a row whose field 4 is `[` + group + `:` + rest, with a `:`-free group, is counted under `[` + group, so `[2001:db8::7]:51234` counts under `[2001` |
| Security.OneBusyHostTally | src/security.rs:109-121 | rows that all count one address, plus rows that count nothing, tally that address once per row |
| Security.ConnectionAlerts | src/security.rs:124-134 | one alert per address whose count exceeds 50, each High/UnusualTraffic with that address and count, and no other alert |
| Security.ThresholdIsStrict | src/security.rs:123-134 | an address with count n gets an alert iff n > 50 |
| Security.BusyHostAlerts | src/security.rs:109-134 | more than 50 rows from one address among uncounted traffic give exactly one alert for that address and its count; 50 or fewer give none |
| Security.MessageInjective | src/security.rs:130 | the alert message determines the address and the count |
| Security.HighTrafficMessage | src/security.rs:130 | the `format!` message naming the address and the decimal count; `Security.MessageShape` fixes its text and `Security.MessageInjective` shows it determines both |
| Security.CheckNetworkConnections | src/security.rs:94-137 | error "Failed to check network connections" iff `ss` could not start; otherwise as many alerts as addresses above the threshold, all High/UnusualTraffic, one for each such address with its count, and no alert for any other address |
| Security.ScanSecurityLogs | src/security.rs:47-66 | always Ok: the login alerts, then the connection alerts when `ss` could start (none when it could not), then the firewall alerts, in that order |
| Security.Passed | src/security.rs:51-63 | the `if let Ok` of each pass: a successful pass contributes its alerts and a failed one nothing; `Security.ScanSecurityLogs` and `Security.FailureIsolation` state its effect on the scan |
| Security.FailureIsolation | src/security.rs:51-63 | a connection pass that fails leaves the other two passes' alerts intact |
| Security.FirewallStatus | src/security.rs:166-186 | if `ufw` ran, active iff its output contains "Status: active"; otherwise active iff `iptables` ran and succeeded |
| Security.UfwTakesPrecedence | src/security.rs:171-174 | once `ufw` ran, the `iptables` result plays no part |
| Security.InactiveUfwIsInactive | src/security.rs:173 | "Status: inactive" is not active, even when `iptables` would succeed |
| Security.CountSeverity | src/security.rs:193-195 | a severity count never exceeds the number of alerts |
| Security.CountAppend | src/security.rs:193-195 | severity counts add over concatenation |
| Security.SeverityCountsPartition | src/security.rs:193-195 | the five severity counts add up to the number of alerts |
| Security.ScanSeverityCounts | src/security.rs:190-195 | after a scan: no Critical or Low alerts; Medium = failed-login lines, High = addresses above the threshold, Info = firewall-log lines |
| Security.GetSecuritySummary | src/security.rs:189-204 | the summary's firewall flag is the firewall decision, Critical is 0, High counts addresses above the threshold, Medium counts failed-login lines |
| Security.SummaryText | src/security.rs:197-203 | the text starts "Firewall: Active" and a line end iff the firewall is active |
| Seqs.FilterMapIsMapOfFilter | src/security.rs:78-88 | pushing a fixed alert for each matching line is mapping over the filtered lines |
| Seqs.SumMultiplicitiesIsSize | src/security.rs:116 | over a list of its elements, once each, a multiset's multiplicities add up to its size |

## Left out

- Process spawning (`Command::new(...).output()`), `pnet::datalink::interfaces()`
  and UTF-8 lossy decoding: the model takes the captured text and the
  interface list as inputs.
- `get_network_stats`: a plain file read with no logic.
- `Utc::now()`: one abstract timestamp per scan, where the source reads the
  clock once per alert.
- `IpAddr` text parsing: given as the `parse` parameter, not modelled.
- `HashMap` iteration order: given as the `order` parameter. Connection
  alerts are stated as a set of alerts and a count, not in a fixed order.
- `str::to_lowercase`: modelled as ASCII lowercasing. It gives the same
  match results against the all-ASCII OUI table, but not the same text for
  non-ASCII input.
- Security.SummaryText: states only the firewall line's prefix, not the
  rest of the formatted text.
- Security.GetSecuritySummary: returns the summary record rather than a
  `Result<String>`. The source's result is always Ok, because both of the
  calls it makes always return Ok.
- `AlertCategory` and `SecurityAlert` serialisation (serde derives):
  formats that are not part of the logic.
- The tmux session control, the monitor's printing and truncation, and the
  command-line dispatch: terminal I/O around the core.
