/** The neighbour table of `get_network_peers`: `ip neigh show` lines of the
    form `<ip> dev <iface> [lladdr <mac>] <STATE>` turned into peer records. */
module Neighbors {
  import opened Wrappers
  import opened Text
  import opened Seqs
  import opened Fingerprint

  datatype NetworkPeer = NetworkPeer(
    ip: string,
    mac: Option<string>,
    interface: string,
    state: string,
    deviceType: string,
    osGuess: string)

  /** The states the scan recognises. */
  predicate IsKnownState(t: string) {
    t == "REACHABLE" || t == "STALE" || t == "DELAY"
  }

  /** Field `k` is `lladdr` and some field follows it. */
  predicate LladdrAt(parts: seq<string>, k: int) {
    0 <= k && k + 1 < |parts| && parts[k] == "lladdr"
  }

  /** Field `k` is a recognised state. */
  predicate StateAt(parts: seq<string>, k: int) {
    0 <= k < |parts| && IsKnownState(parts[k])
  }

  /** The hardware address is the field after the last `lladdr` that has a
      successor, and absent when there is no such `lladdr`. */
  ghost predicate MacRule(parts: seq<string>, mac: Option<string>) {
    && (mac.None? <==> forall k :: !LladdrAt(parts, k))
    && (mac.Some? ==> exists k :: LladdrAt(parts, k) && mac.value == parts[k + 1]
                                  && forall j :: k < j ==> !LladdrAt(parts, j))
  }

  /** The state is the last recognised state field, and `UNKNOWN` without one. */
  ghost predicate StateRule(parts: seq<string>, state: string) {
    || ((forall k :: !StateAt(parts, k)) && state == "UNKNOWN")
    || exists k :: StateAt(parts, k) && state == parts[k] && forall j :: k < j ==> !StateAt(parts, j)
  }

  /** The field-by-field scan of `parse_neighbor_line`, from field `i` on,
      starting from the values found before `i`. */
  function ScanFields(parts: seq<string>, i: nat, mac: Option<string>, state: string): (r: (Option<string>, string))
    requires i <= |parts|
    ensures (forall k :: i <= k ==> !LladdrAt(parts, k)) ==> r.0 == mac
    ensures (exists k :: i <= k && LladdrAt(parts, k)) ==>
      exists k :: i <= k && LladdrAt(parts, k) && r.0 == Some(parts[k + 1]) && forall j :: k < j ==> !LladdrAt(parts, j)
    ensures (forall k :: i <= k ==> !StateAt(parts, k)) ==> r.1 == state
    ensures (exists k :: i <= k && StateAt(parts, k)) ==>
      exists k :: i <= k && StateAt(parts, k) && r.1 == parts[k] && forall j :: k < j ==> !StateAt(parts, j)
    decreases |parts| - i
  {
    if i == |parts| then (mac, state)
    else
      assert LladdrAt(parts, i) <==> parts[i] == "lladdr" && i + 1 < |parts|;
      assert StateAt(parts, i) <==> IsKnownState(parts[i]);
      var mac' := if parts[i] == "lladdr" && i + 1 < |parts| then Some(parts[i + 1]) else mac;
      var state' := if IsKnownState(parts[i]) then parts[i] else state;
      ScanFields(parts, i + 1, mac', state')
  }

  /** `parse_neighbor_line`: lines of fewer than four fields are dropped;
      otherwise field 0 is the address, field 2 the interface, and the
      hardware address feeds the fingerprint guess. */
  function ParseNeighborLine(line: string): (r: Option<NetworkPeer>)
    ensures r.None? <==> |Words(line)| < 4
    ensures r.Some? ==>
      var parts := Words(line);
      && r.value.ip == parts[0]
      && r.value.interface == parts[2]
      && MacRule(parts, r.value.mac)
      && StateRule(parts, r.value.state)
      && (r.value.deviceType, r.value.osGuess) == GuessDevice(r.value.mac)
  {
    var parts := Words(line);
    if |parts| < 4 then None
    else
      var scanned := ScanFields(parts, 0, None, "UNKNOWN");
      var (mac, state) := scanned;
      var guess := GuessDevice(mac);
      Some(NetworkPeer(parts[0], mac, parts[2], state, guess.0, guess.1))
  }

  /** The peers of a table given as lines: every line is a candidate (there
      is no header to skip), and each line that parses yields its peer. */
  function NeighborRows(lines: seq<string>): (r: seq<NetworkPeer>)
    ensures |r| <= |lines|
    ensures forall p :: p in r ==> exists l :: l in lines && ParseNeighborLine(l) == Some(p)
    ensures forall l :: l in lines && ParseNeighborLine(l).Some? ==> ParseNeighborLine(l).value in r
  {
    FilterMap(lines, ParseNeighborLine)
  }

  /** Lines are parsed independently and their peers keep the line order. */
  lemma NeighborRowsKeepOrder(lines1: seq<string>, lines2: seq<string>)
    ensures NeighborRows(lines1 + lines2) == NeighborRows(lines1) + NeighborRows(lines2)
  {
    FilterMapAppend(lines1, lines2, ParseNeighborLine);
  }

  /** A line that does not parse (fewer than four fields) adds no peer. */
  lemma ShortNeighborLineDropped(lines: seq<string>, short: string)
    requires |Words(short)| < 4
    ensures NeighborRows(lines + [short]) == NeighborRows(lines)
  {
    NeighborRowsKeepOrder(lines, [short]);
    assert NeighborRows([short]) == [];
  }

  /** The loop of `get_network_peers` over the captured text. */
  function ParseNeighborTable(output: string): (r: seq<NetworkPeer>)
    ensures |r| <= |Lines(output)|
    ensures forall p :: p in r ==> exists l :: l in Lines(output) && ParseNeighborLine(l) == Some(p)
    ensures forall l :: l in Lines(output) && ParseNeighborLine(l).Some? ==> ParseNeighborLine(l).value in r
  {
    NeighborRows(Lines(output))
  }

  /** `get_network_peers`: the peers of `ip neigh show`, or the error raised
      when the command cannot be started (`None`). */
  function GetNetworkPeers(ipOutput: Option<string>): (r: Result<seq<NetworkPeer>>)
    ensures ipOutput.None? <==> r.Err?
    ensures r.Err? ==> r.message == "Failed to execute ip neigh command"
    ensures r.Ok? ==> forall p :: p in r.value ==>
      exists l :: l in Lines(ipOutput.value) && ParseNeighborLine(l) == Some(p)
    ensures r.Ok? ==> forall l :: l in Lines(ipOutput.value) && ParseNeighborLine(l).Some? ==>
      ParseNeighborLine(l).value in r.value
  {
    match ipOutput
    case None => Err("Failed to execute ip neigh command")
    case Some(text) => Ok(ParseNeighborTable(text))
  }

  /** A line with a single `lladdr` that is not its last field reports the
      field right after it as the hardware address. */
  lemma SingleLladdr(line: string, k: nat)
    requires |Words(line)| >= 4
    requires LladdrAt(Words(line), k)
    requires forall j :: 0 <= j < |Words(line)| && j != k ==> Words(line)[j] != "lladdr"
    ensures ParseNeighborLine(line).Some?
    ensures ParseNeighborLine(line).value.mac == Some(Words(line)[k + 1])
  {
    var parts := Words(line);
    var mac := ParseNeighborLine(line).value.mac;
    var k' :| LladdrAt(parts, k') && mac.value == parts[k' + 1] && forall j :: k' < j ==> !LladdrAt(parts, j);
    assert k' == k;
  }

  /** A complete `ip neigh show` line, however it is spaced, parses back to
      its fields. */
  lemma NeighborRowRoundTrip(line: string, ip: string, iface: string, mac: string, state: string)
    requires Words(line) == [ip, "dev", iface, "lladdr", mac, state]
    requires mac != "lladdr"
    requires IsKnownState(state)
    ensures ParseNeighborLine(line) ==
      var guess := GuessDevice(Some(mac));
      Some(NetworkPeer(ip, Some(mac), iface, state, guess.0, guess.1))
  {
    var parts := Words(line);
    var r := ParseNeighborLine(line).value;
    assert LladdrAt(parts, 3);
    var k :| LladdrAt(parts, k) && r.mac.value == parts[k + 1] && forall j :: k < j ==> !LladdrAt(parts, j);
    assert k == 3;
    assert StateAt(parts, 5);
    var s :| StateAt(parts, s) && r.state == parts[s] && forall j :: s < j ==> !StateAt(parts, j);
    assert s == 5;
  }

  /** A line without `lladdr` or a recognised state (an `INCOMPLETE` entry)
      has no hardware address, the `UNKNOWN` state and the Unknown guess. */
  lemma IncompleteEntry(line: string, ip: string, iface: string)
    requires Words(line) == [ip, "dev", iface, "INCOMPLETE"]
    requires ip != "lladdr" && iface != "lladdr" && !IsKnownState(ip) && !IsKnownState(iface)
    ensures ParseNeighborLine(line) ==
      Some(NetworkPeer(ip, None, iface, "UNKNOWN", "Unknown", "Unknown"))
  {
    var parts := Words(line);
    var r := ParseNeighborLine(line).value;
    assert forall k :: !LladdrAt(parts, k);
    assert forall k :: !StateAt(parts, k);
  }
}
