/** The listening-socket table of `get_open_ports`: the text of `ss -tuln`
    turned into (protocol, port, state) entries. */
module Ports {
  import opened Wrappers
  import opened Text
  import opened Numbers
  import opened Seqs

  datatype PortEntry = PortEntry(protocol: string, port: Port, state: string)

  /** One data row: at least five columns, and the text after the last `:`
      of the local-address column (field 4) must parse as a `u16`. */
  function ParsePortLine(line: string): (r: Option<PortEntry>)
    ensures |Words(line)| < 5 ==> r == None
    ensures r.Some? ==>
      var parts := Words(line);
      && r.value.protocol == parts[0]
      && ParseU16(AfterLast(parts[4], ':')) == Some(r.value.port)
      && r.value.state == (if |parts| > 5 then parts[1] else "LISTEN")
    ensures |Words(line)| >= 5 ==> (r.None? <==> ParseU16(AfterLast(Words(line)[4], ':')).None?)
  {
    var parts := Words(line);
    if |parts| >= 5 then
      match ParseU16(AfterLast(parts[4], ':'))
      case Some(port) =>
        var state := if |parts| > 5 then parts[1] else "LISTEN";
        Some(PortEntry(parts[0], port, state))
      case None => None
    else None
  }

  /** The entries of a table given as lines; the first line is the header. */
  function PortRows(lines: seq<string>): (r: seq<PortEntry>)
    ensures |lines| > 0 ==> |r| <= |lines| - 1
    ensures forall e :: e in r ==> exists l :: l in SkipHeader(lines) && ParsePortLine(l) == Some(e)
    ensures forall l :: l in SkipHeader(lines) && ParsePortLine(l).Some? ==> ParsePortLine(l).value in r
  {
    FilterMap(SkipHeader(lines), ParsePortLine)
  }

  /** The loop of `get_open_ports` over the captured text: one entry for
      each line after the first that parses, and nothing else. */
  function ParsePortTable(output: string): (r: seq<PortEntry>)
    ensures |r| <= |SkipHeader(Lines(output))|
    ensures forall e :: e in r ==> exists l :: l in SkipHeader(Lines(output)) && ParsePortLine(l) == Some(e)
    ensures forall l :: l in SkipHeader(Lines(output)) && ParsePortLine(l).Some? ==> ParsePortLine(l).value in r
  {
    PortRows(Lines(output))
  }

  /** `get_open_ports`: the entries of `ss -tuln`, or the error raised when the
      command cannot be started (`None`). */
  function GetOpenPorts(ssOutput: Option<string>): (r: Result<seq<PortEntry>>)
    ensures ssOutput.None? <==> r.Err?
    ensures r.Err? ==> r.message == "Failed to execute ss command"
    ensures r.Ok? ==> forall e :: e in r.value ==>
      exists l :: l in SkipHeader(Lines(ssOutput.value)) && ParsePortLine(l) == Some(e)
    ensures r.Ok? ==> forall l :: l in SkipHeader(Lines(ssOutput.value)) && ParsePortLine(l).Some? ==>
      ParsePortLine(l).value in r.value
  {
    match ssOutput
    case None => Err("Failed to execute ss command")
    case Some(text) => Ok(ParsePortTable(text))
  }

  /** The header never yields an entry, whatever it holds. */
  lemma {:induction false} HeaderIgnored(header: string, rows: seq<string>)
    ensures PortRows([header] + rows) == FilterMap(rows, ParsePortLine)
  {
    assert ([header] + rows)[1..] == rows;
  }

  /** Rows are parsed independently and their entries keep the row order. */
  lemma {:induction false} RowsKeepOrder(header: string, rows1: seq<string>, rows2: seq<string>)
    ensures PortRows([header] + rows1 + rows2) == PortRows([header] + rows1) + FilterMap(rows2, ParsePortLine)
  {
    assert ([header] + rows1 + rows2)[1..] == rows1 + rows2;
    assert ([header] + rows1)[1..] == rows1;
    FilterMapAppend(rows1, rows2, ParsePortLine);
  }

  /** A row that does not parse (too few columns, or a port that is not a
      `u16`) adds nothing: the table has one entry fewer than rows. */
  lemma {:induction false} BadRowDropped(header: string, rows: seq<string>, bad: string)
    requires ParsePortLine(bad) == None
    ensures PortRows([header] + rows + [bad]) == PortRows([header] + rows)
  {
    RowsKeepOrder(header, rows, [bad]);
    assert FilterMap([bad], ParsePortLine) == [];
  }

  /** A row printed by `ss`, however its columns are padded, parses back to
      its protocol, its port and (when a sixth column exists) its state
      column. */
  lemma PortRowRoundTrip(line: string, cols: seq<string>, host: string, port: Port)
    requires Words(line) == cols
    requires |cols| >= 5
    requires cols[4] == host + ":" + Decimal(port)
    ensures ParsePortLine(line) ==
      Some(PortEntry(cols[0], port, if |cols| > 5 then cols[1] else "LISTEN"))
  {
    var d := Decimal(port);
    assert ':' !in d by {
      forall i | 0 <= i < |d| ensures d[i] != ':' {
        assert IsDigit(d[i]);
      }
    }
    AfterLastOfSuffix(host, d);
    ParseU16OfDecimal(port);
  }

  lemma AfterLastOfSuffix(host: string, d: string)
    requires ':' !in d
    ensures AfterLast(host + ":" + d, ':') == d
  {
    var s := host + ":" + d;
    assert s[|s| - |d| - 1] == ':';
    assert s[|s| - |d|..] == d;
  }

  /** A row whose local port is the `*` wildcard (an unbound UDP socket,
      say) is dropped rather than reported. */
  lemma WildcardPortDropped(line: string, cols: seq<string>, host: string)
    requires Words(line) == cols
    requires |cols| >= 5
    requires cols[4] == host + ":*"
    ensures ParsePortLine(line) == None
  {
    assert cols[4] == host + ":" + "*";
    AfterLastOfSuffix(host, "*");
    assert !IsDigit("*"[0]);
  }
}
