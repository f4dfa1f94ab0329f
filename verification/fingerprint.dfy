/** `guess_device_from_mac`: a device-type and vendor guess from the first
    three octets (the OUI) of a hardware address, by a fixed prefix table. */
module Fingerprint {
  import opened Wrappers
  import opened Text
  import opened Seqs

  datatype OuiEntry = OuiEntry(prefix: string, deviceType: string, osGuess: string)

  /** The prefix tests of `guess_device_from_mac`, in the order it tries them. */
  const OuiTable: seq<OuiEntry> := [
    OuiEntry("00:50:56", "Virtual Machine", "VMware"),
    OuiEntry("00:0c:29", "Virtual Machine", "VMware"),
    OuiEntry("08:00:27", "Virtual Machine", "VirtualBox"),
    OuiEntry("dc:a6:32", "IoT Device", "Raspberry Pi"),
    OuiEntry("b8:27:eb", "IoT Device", "Raspberry Pi"),
    OuiEntry("00:1b:63", "Computer", "Apple")
  ]

  /** The guess for an absent address or an unlisted prefix. */
  const Unknown: (string, string) := ("Unknown", "Unknown")

  /** The first three `:`-separated segments of the address, joined again
      with `:` (all of it when it has three segments or fewer). */
  function Oui(mac: string): (o: string)
    ensures Split(o, ':') == if |Split(mac, ':')| <= 3 then Split(mac, ':') else Split(mac, ':')[..3]
  {
    var parts := Split(mac, ':');
    var kept := if |parts| <= 3 then parts else parts[..3];
    SplitJoin(kept, ':');
    Join(kept, ':')
  }

  /** An OUI prefix as the table writes it: `hh:hh:hh`. */
  predicate IsOuiShaped(p: string) {
    |p| == 8 && p[2] == ':' && p[5] == ':'
    && p[0] != ':' && p[1] != ':' && p[3] != ':' && p[4] != ':' && p[6] != ':' && p[7] != ':'
  }

  lemma TableShaped()
    ensures forall i :: 0 <= i < |OuiTable| ==> IsOuiShaped(OuiTable[i].prefix)
    ensures forall i, j :: 0 <= i < j < |OuiTable| ==> OuiTable[i].prefix != OuiTable[j].prefix
  {
  }

  /** The first table entry whose prefix starts `key`; since the prefixes are
      distinct and of one length, that is the only matching entry. */
  function LookupOui(key: string): (r: (string, string))
    ensures (forall i :: 0 <= i < |OuiTable| ==> !StartsWith(key, OuiTable[i].prefix)) ==> r == Unknown
    ensures forall i :: 0 <= i < |OuiTable| && StartsWith(key, OuiTable[i].prefix) ==>
      r == (OuiTable[i].deviceType, OuiTable[i].osGuess)
  {
    TableShaped();
    var k := FirstWhere(OuiTable, (e: OuiEntry) => StartsWith(key, e.prefix), 0);
    if k < |OuiTable| then
      assert forall i :: 0 <= i < |OuiTable| && StartsWith(key, OuiTable[i].prefix) ==> i == k by {
        forall i | 0 <= i < |OuiTable| && StartsWith(key, OuiTable[i].prefix) ensures i == k {
          assert OuiTable[i].prefix == key[..8] == OuiTable[k].prefix;
        }
      }
      (OuiTable[k].deviceType, OuiTable[k].osGuess)
    else Unknown
  }

  /** `guess_device_from_mac`: no address gives the Unknown pair; otherwise the
      lowercased address is looked up as if it were not cut to its OUI first. */
  function GuessDevice(mac: Option<string>): (r: (string, string))
    ensures mac.None? ==> r == Unknown
    ensures mac.Some? ==> r == LookupOui(Lower(mac.value))
  {
    match mac
    case None => Unknown
    case Some(m) =>
      OuiCutIsInvisible(m);
      LookupOui(Lower(Oui(m)))
  }

  /** Joining the first `n` pieces gives a prefix of joining them all. */
  lemma {:induction false} JoinFirstPieces(parts: seq<string>, n: nat, c: char)
    requires 1 <= n <= |parts|
    ensures Join(parts[..n], c) <= Join(parts, c)
    decreases n
  {
    if n > 1 {
      assert parts[..n][1..] == parts[1..][..n - 1];
      JoinFirstPieces(parts[1..], n - 1, c);
    }
  }

  lemma LowerPrefix(a: string, b: string)
    requires a <= b
    ensures Lower(a) <= Lower(b)
  {
  }

  /** The OUI is a prefix of the address. */
  lemma OuiIsPrefix(m: string)
    ensures Oui(m) <= m
  {
    var parts := Split(m, ':');
    JoinSplit(m, ':');
    if |parts| > 3 {
      JoinFirstPieces(parts, 3, ':');
    } else {
      assert parts[..|parts|] == parts;
    }
  }

  /** An address that starts `hh:hh:hh` keeps at least those eight characters in its OUI. */
  lemma OuiKeepsShapedPrefix(m: string)
    requires |m| >= 8 && IsOuiShaped(m[..8])
    ensures |Oui(m)| >= 8
  {
    assert m[..8][2] == m[2];
    var i0 := IndexOf(m, ':');
    assert i0 == 2 by { assert m[0] == m[..8][0] && m[1] == m[..8][1]; }
    var m1 := m[3..];
    assert m1[0] == m[3] && m1[1] == m[4] && m1[2] == m[5];
    assert m[3] == m[..8][3] && m[4] == m[..8][4] && m[5] == m[..8][5];
    var i1 := IndexOf(m1, ':');
    assert i1 == 2;
    var m2 := m1[3..];
    assert m2[0] == m[6] && m2[1] == m[7];
    assert m[6] == m[..8][6] && m[7] == m[..8][7];
    var piece := Split(m2, ':')[0];
    assert piece == BeforeFirst(m2, ':');
    assert |piece| >= 2;
    var parts := Split(m, ':');
    assert parts == [m[..2]] + Split(m1, ':');
    assert Split(m1, ':') == [m1[..2]] + Split(m2, ':');
    assert parts[..3] == [m[..2], m1[..2], piece];
    if |parts| == 3 {
      assert parts[..3] == parts;
    }
    assert Join([m1[..2], piece], ':') == m1[..2] + [':'] + piece by {
      assert [m1[..2], piece][1..] == [piece];
    }
    assert Oui(m) == m[..2] + [':'] + Join([m1[..2], piece], ':');
  }

  /** Cutting the address to its OUI never changes which table prefix matches. */
  lemma OuiCutIsInvisible(m: string)
    ensures LookupOui(Lower(Oui(m))) == LookupOui(Lower(m))
  {
    OuiIsPrefix(m);
    LowerPrefix(Oui(m), m);
    TableShaped();
    forall i | 0 <= i < |OuiTable|
      ensures StartsWith(Lower(Oui(m)), OuiTable[i].prefix) <==> StartsWith(Lower(m), OuiTable[i].prefix)
    {
      var p := OuiTable[i].prefix;
      if StartsWith(Lower(m), p) {
        assert IsOuiShaped(m[..8]) by {
          forall j | 0 <= j < 8 ensures (m[j] == ':') <==> (p[j] == ':') {
            assert Lower(m)[j] == p[j];
          }
        }
        OuiKeepsShapedPrefix(m);
        assert Lower(Oui(m))[..8] == Lower(m)[..8];
      }
    }
    if exists i :: 0 <= i < |OuiTable| && StartsWith(Lower(m), OuiTable[i].prefix) {
      var i :| 0 <= i < |OuiTable| && StartsWith(Lower(m), OuiTable[i].prefix);
      assert StartsWith(Lower(Oui(m)), OuiTable[i].prefix);
    }
  }

  /** The VirtualBox range, in any letter case, and an unlisted range. */
  lemma GuessExamples(m: string)
    requires |m| >= 8 && Lower(m[..8]) == "08:00:27"
    ensures GuessDevice(Some(m)) == ("Virtual Machine", "VirtualBox")
    ensures GuessDevice(Some("aa:bb:cc:dd:ee:ff")) == Unknown
  {
    assert Lower(m)[..8] == Lower(m[..8]);
    assert StartsWith(Lower(m), OuiTable[2].prefix);
    var u := "aa:bb:cc:dd:ee:ff";
    forall i | 0 <= i < |OuiTable| ensures !StartsWith(Lower(u), OuiTable[i].prefix) {
      assert Lower(u)[0] == 'a' && Lower(u)[1] == 'a';
    }
  }
}
