/** Interface snapshots (`get_interfaces`), primary-interface selection
    (`get_primary_interface`) and VPN detection (`get_vpn_status`), all as
    functions of the interface list the platform link layer enumerates. */
module Interfaces {
  import opened Wrappers
  import opened Text
  import opened Numbers
  import opened Seqs

  /** A six-byte hardware address as the link layer reports it. */
  datatype MacAddr = MacAddr(b0: Byte, b1: Byte, b2: Byte, b3: Byte, b4: Byte, b5: Byte)

  /** One interface as the link layer enumerates it; each address is
      already in its textual form. */
  datatype DatalinkInterface = DatalinkInterface(name: string, ips: seq<string>, isUp: bool, mac: Option<MacAddr>)

  /** The snapshot record handed to callers. */
  datatype NetworkInterface = NetworkInterface(name: string, ipAddresses: seq<string>, isUp: bool, macAddress: Option<string>)

  /** Two lowercase hexadecimal digits. */
  predicate IsHexPair(g: string) {
    |g| == 2 && IsLowerHex(g[0]) && IsLowerHex(g[1])
  }

  function PairValue(g: string): Byte
    requires IsHexPair(g)
  {
    HexValue(g[0]) * 16 + HexValue(g[1])
  }

  /** Six groups of two lowercase hexadecimal digits separated by `:`. */
  predicate IsCanonicalMac(s: string) {
    var groups := Split(s, ':');
    |groups| == 6 && forall g :: g in groups ==> IsHexPair(g)
  }

  /** Reads back a canonical hardware-address string; the inverse of `FormatMac`. */
  function ParseMac(s: string): Option<MacAddr> {
    if IsCanonicalMac(s) then
      var g := Split(s, ':');
      Some(MacAddr(PairValue(g[0]), PairValue(g[1]), PairValue(g[2]), PairValue(g[3]), PairValue(g[4]), PairValue(g[5])))
    else None
  }

  /** The six bytes, most significant first. */
  function Bytes(m: MacAddr): seq<Byte> {
    [m.b0, m.b1, m.b2, m.b3, m.b4, m.b5]
  }

  /** The two-digit groups of the six bytes. */
  function HexGroups(m: MacAddr): (gs: seq<string>)
    ensures |gs| == 6
    ensures forall j :: 0 <= j < 6 ==> IsHexPair(gs[j]) && PairValue(gs[j]) == Bytes(m)[j]
  {
    seq(6, j requires 0 <= j < 6 => Hex2(Bytes(m)[j]))
  }

  lemma {:induction false} JoinLength(gs: seq<string>, c: char)
    requires |gs| >= 1
    requires forall j :: 0 <= j < |gs| ==> |gs[j]| == 2
    ensures |Join(gs, c)| == 3 * |gs| - 1
    decreases |gs|
  {
    if |gs| > 1 {
      JoinLength(gs[1..], c);
    }
  }

  /** The `{:02x}:{:02x}:{:02x}:{:02x}:{:02x}:{:02x}` format of `get_interfaces`:
      17 characters that read back as the same six bytes. */
  function FormatMac(m: MacAddr): (s: string)
    ensures |s| == 17
    ensures IsCanonicalMac(s)
    ensures ParseMac(s) == Some(m)
  {
    var groups := HexGroups(m);
    assert forall g :: g in groups ==> ':' !in g && IsHexPair(g);
    SplitJoin(groups, ':');
    JoinLength(groups, ':');
    Join(groups, ':')
  }

  lemma HexDigitOfValue(c: char)
    requires IsLowerHex(c)
    ensures HexDigit(HexValue(c)) == c
  {
  }

  /** A two-digit group is the format of its value. */
  lemma PairRoundTrip(g: string)
    requires IsHexPair(g)
    ensures Hex2(PairValue(g)) == g
  {
    var hi, lo := HexValue(g[0]), HexValue(g[1]);
    var b := PairValue(g);
    assert b / 16 == hi && b % 16 == lo;
    HexDigitOfValue(g[0]);
    HexDigitOfValue(g[1]);
  }

  /** Every canonical string is the format of the address it parses to, so
      formatting is a bijection onto canonical strings. */
  lemma FormatOfParse(s: string)
    requires IsCanonicalMac(s)
    ensures FormatMac(ParseMac(s).value) == s
  {
    var parts := Split(s, ':');
    var m := ParseMac(s).value;
    var groups := HexGroups(m);
    forall j | 0 <= j < 6 ensures groups[j] == parts[j] {
      assert parts[j] in parts;
      PairRoundTrip(parts[j]);
    }
    assert groups == parts;
    JoinSplit(s, ':');
  }

  /** `get_interfaces`: one snapshot per enumerated interface, in order, with
      the hardware address in canonical text. */
  function GetInterfaces(links: seq<DatalinkInterface>): (r: seq<NetworkInterface>)
    ensures |r| == |links|
    ensures forall i :: 0 <= i < |r| ==>
      && r[i].name == links[i].name
      && r[i].ipAddresses == links[i].ips
      && r[i].isUp == links[i].isUp
      && (r[i].macAddress.Some? ==> IsCanonicalMac(r[i].macAddress.value))
      && (if r[i].macAddress.Some? then ParseMac(r[i].macAddress.value) else None) == links[i].mac
  {
    seq(|links|, i requires 0 <= i < |links| =>
      var l := links[i];
      NetworkInterface(l.name, l.ips, l.isUp, if l.mac.Some? then Some(FormatMac(l.mac.value)) else None))
  }

  type Segment = x: int | 0 <= x < 0x1_0000
  type Segments = s: seq<Segment> | |s| == 8 witness [0, 0, 0, 0, 0, 0, 0, 0]

  /** A parsed `std::net::IpAddr`. */
  datatype IpAddr = V4(a: Byte, b: Byte, c: Byte, d: Byte) | V6(segments: Segments)

  /** Not `Ipv4Addr::is_loopback` (127/8) nor `is_link_local` (169.254/16);
      for IPv6, not `Ipv6Addr::is_loopback` (`::1` only). */
  predicate IsUsableAddress(ip: IpAddr) {
    match ip
    case V4(a, b, _, _) => a != 127 && !(a == 169 && b == 254)
    case V6(s) => s != [0, 0, 0, 0, 0, 0, 0, 1]
  }

  /** The address text parses, and the address it denotes is usable. */
  predicate ParsesUsable(parse: string -> Option<IpAddr>, ip: string) {
    parse(ip).Some? && IsUsableAddress(parse(ip).value)
  }

  /** The inner loop of `get_primary_interface`: does some address qualify? */
  function HasUsableAddress(ips: seq<string>, parse: string -> Option<IpAddr>): (r: bool)
    ensures r <==> exists i :: 0 <= i < |ips| && ParsesUsable(parse, ips[i])
  {
    FirstWhere(ips, ip => ParsesUsable(parse, ip), 0) < |ips|
  }

  /** The test `get_primary_interface` applies to each interface. */
  predicate IsPrimaryCandidate(iface: NetworkInterface, parse: string -> Option<IpAddr>) {
    iface.name != "lo" && |iface.ipAddresses| != 0 && iface.isUp && HasUsableAddress(iface.ipAddresses, parse)
  }

  /** `get_primary_interface`: the first candidate in enumeration order, or
      an error when no interface is a candidate. */
  function PrimaryInterface(ifaces: seq<NetworkInterface>, parse: string -> Option<IpAddr>): (r: Result<NetworkInterface>)
    ensures r.Ok? <==> exists k :: 0 <= k < |ifaces| && IsPrimaryCandidate(ifaces[k], parse)
    ensures r.Ok? ==> exists k :: (0 <= k < |ifaces| && r.value == ifaces[k]
      && r.value.name != "lo" && r.value.isUp
      && (exists i :: 0 <= i < |r.value.ipAddresses| && ParsesUsable(parse, r.value.ipAddresses[i]))
      && forall j :: 0 <= j < k ==> !IsPrimaryCandidate(ifaces[j], parse))
    ensures r.Err? ==> r.message == "No suitable network interface found"
  {
    var k := FirstWhere(ifaces, iface => IsPrimaryCandidate(iface, parse), 0);
    if k < |ifaces| then Ok(ifaces[k]) else Err("No suitable network interface found")
  }

  /** An interface none of whose addresses is usable (only `127.0.0.1`,
      `::1`, `169.254.x.x`, or text that does not parse) is never primary. */
  lemma LoopbackOnlyNeverPrimary(ifaces: seq<NetworkInterface>, parse: string -> Option<IpAddr>, k: nat)
    requires k < |ifaces|
    requires forall i :: 0 <= i < |ifaces[k].ipAddresses| ==> !ParsesUsable(parse, ifaces[k].ipAddresses[i])
    ensures PrimaryInterface(ifaces, parse) != Ok(ifaces[k])
  {
  }

  /** The name fragments `get_vpn_status` looks for, in its order. */
  const VpnPatterns: seq<string> := ["tun", "tap", "wg", "ppp", "vpn"]

  /** An interface `get_vpn_status` accepts: up, and its name contains a pattern. */
  predicate IsVpnCandidate(iface: NetworkInterface) {
    iface.isUp && exists i :: 0 <= i < |VpnPatterns| && Contains(iface.name, VpnPatterns[i])
  }

  /** The inner loop of `get_vpn_status` over the patterns. */
  function MatchesVpnPattern(iface: NetworkInterface): (r: bool)
    ensures r <==> IsVpnCandidate(iface)
  {
    FirstWhere(VpnPatterns, pattern => Contains(iface.name, pattern) && iface.isUp, 0) < |VpnPatterns|
  }

  /** The VPN kind, decided by name prefix alone. The prefixes exclude each
      other, so the order of the tests only matters for the fallback. */
  function VpnType(name: string): (t: string)
    ensures t == "WireGuard" <==> StartsWith(name, "wg")
    ensures t == "OpenVPN/Generic" <==> StartsWith(name, "tun") || StartsWith(name, "tap")
    ensures t == "Unknown" <==> !StartsWith(name, "wg") && !StartsWith(name, "tun") && !StartsWith(name, "tap")
  {
    if StartsWith(name, "wg") then
      assert name[0] == 'w' && "tun"[0] != name[0] && "tap"[0] != name[0];
      "WireGuard"
    else if StartsWith(name, "tun") || StartsWith(name, "tap") then "OpenVPN/Generic"
    else "Unknown"
  }

  datatype VpnStatus = VpnStatus(isConnected: bool, interface: Option<string>, ipAddress: Option<string>, vpnType: Option<string>)

  /** `get_vpn_status`: the first VPN candidate in enumeration order, with its
      first address and kind; otherwise "not connected" with nothing else set. */
  function GetVpnStatus(ifaces: seq<NetworkInterface>): (r: VpnStatus)
    ensures r.isConnected <==> exists k :: 0 <= k < |ifaces| && IsVpnCandidate(ifaces[k])
    ensures r.isConnected ==> exists k :: (0 <= k < |ifaces| && IsVpnCandidate(ifaces[k])
      && (forall j :: 0 <= j < k ==> !IsVpnCandidate(ifaces[j]))
      && r.interface == Some(ifaces[k].name)
      && r.ipAddress == (if ifaces[k].ipAddresses == [] then None else Some(ifaces[k].ipAddresses[0]))
      && r.vpnType == Some(VpnType(ifaces[k].name)))
    ensures !r.isConnected ==> r.interface == None && r.ipAddress == None && r.vpnType == None
  {
    var k := FirstWhere(ifaces, MatchesVpnPattern, 0);
    if k < |ifaces| then
      var iface := ifaces[k];
      var ip := if iface.ipAddresses == [] then None else Some(iface.ipAddresses[0]);
      VpnStatus(true, Some(iface.name), ip, Some(VpnType(iface.name)))
    else VpnStatus(false, None, None, None)
  }

  /** The kind is one of three labels: `wg` prefix gives WireGuard, `tun` or
      `tap` prefix gives OpenVPN/Generic, and only other names give Unknown. */
  lemma VpnTypeByPrefix(name: string)
    ensures VpnType(name) == "WireGuard" <==> StartsWith(name, "wg")
    ensures VpnType(name) == "OpenVPN/Generic" <==>
      !StartsWith(name, "wg") && (StartsWith(name, "tun") || StartsWith(name, "tap"))
    ensures VpnType(name) == "Unknown" <==>
      !StartsWith(name, "wg") && !StartsWith(name, "tun") && !StartsWith(name, "tap")
  {
  }

  /** An up `eth0` followed by an up `wg0`: connected through `wg0`, WireGuard. */
  lemma WireGuardExample()
    ensures GetVpnStatus([NetworkInterface("eth0", ["10.0.0.2"], true, None),
                          NetworkInterface("wg0", ["10.8.0.2"], true, None)])
         == VpnStatus(true, Some("wg0"), Some("10.8.0.2"), Some("WireGuard"))
  {
    var ifaces := [NetworkInterface("eth0", ["10.0.0.2"], true, None),
                   NetworkInterface("wg0", ["10.8.0.2"], true, None)];
    assert !IsVpnCandidate(ifaces[0]) by {
      forall i | 0 <= i < |VpnPatterns| ensures !Contains("eth0", VpnPatterns[i]) {
        NotContainsShort("eth0", VpnPatterns[i]);
      }
    }
    assert Contains("wg0", "wg") by { assert OccursAt("wg0", "wg", 0); }
    assert IsVpnCandidate(ifaces[1]) by { assert VpnPatterns[2] == "wg"; }
    assert StartsWith("wg0", "wg");
  }

  /** The `eth0` step of `WireGuardExample`: that name contains none of the
      VPN patterns. */
  lemma NotContainsShort(s: string, t: string)
    requires s == "eth0" && t in VpnPatterns
    ensures !Contains(s, t)
  {
    forall i: nat ensures !OccursAt(s, t, i) {
      if i + |t| <= |s| {
        assert s[i..i + |t|][0] == s[i] && s[i..i + |t|][1] == s[i + 1];
        assert t[0] != s[i] || t[1] != s[i + 1];
      }
    }
  }
}
