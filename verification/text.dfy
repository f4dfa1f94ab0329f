/** The string operations of Rust's `str` that the parsers rely on:
    `split_whitespace`, `lines`, `split(':')`, `rsplit(':')`, `contains`,
    `starts_with` and `to_lowercase` (restricted to ASCII letters). */
module Text {

  /** Rust's `char::is_whitespace`: the characters with the Unicode
      White_Space property. */
  predicate IsWhitespace(c: char) {
    var n := c as int;
    (9 <= n <= 13) || n == 0x20 || n == 0x85 || n == 0xA0 || n == 0x1680
    || (0x2000 <= n <= 0x200A) || n == 0x2028 || n == 0x2029 || n == 0x202F
    || n == 0x205F || n == 0x3000
  }

  /** A token of `split_whitespace`: non-empty and free of whitespace. */
  predicate IsWord(w: string) {
    |w| > 0 && forall i :: 0 <= i < |w| ==> !IsWhitespace(w[i])
  }

  /** Length of the leading run of non-whitespace characters of `s`. */
  function WordLength(s: string): (n: nat)
    ensures n <= |s|
    ensures forall i :: 0 <= i < n ==> !IsWhitespace(s[i])
    ensures n < |s| ==> IsWhitespace(s[n])
  {
    if s == [] || IsWhitespace(s[0]) then 0 else 1 + WordLength(s[1..])
  }

  /** `str::split_whitespace`: the maximal whitespace-free runs of `s`, in order. */
  function Words(s: string): (ws: seq<string>)
    ensures forall w :: w in ws ==> IsWord(w)
    ensures ws == [] <==> AllWhitespace(s)
    decreases |s|
  {
    if s == [] then []
    else if IsWhitespace(s[0]) then
      assert AllWhitespace(s) <==> AllWhitespace(s[1..]) by {
        if AllWhitespace(s[1..]) {
          forall i | 0 <= i < |s| ensures IsWhitespace(s[i]) {
            if i > 0 { assert s[i] == s[1..][i - 1]; }
          }
        }
      }
      Words(s[1..])
    else
      var n := WordLength(s);
      [s[..n]] + Words(s[n..])
  }

  /** Text made only of whitespace (or empty): a separator between fields. */
  predicate AllWhitespace(s: string) {
    forall i :: 0 <= i < |s| ==> IsWhitespace(s[i])
  }

  /** Leading whitespace, of any length and kind, yields no field. */
  lemma {:induction false} WordsSkipsSpace(sep: string, s: string)
    requires AllWhitespace(sep)
    ensures Words(sep + s) == Words(s)
    decreases |sep|
  {
    if sep == [] {
      assert sep + s == s;
    } else {
      assert (sep + s)[0] == sep[0];
      assert (sep + s)[1..] == sep[1..] + s;
      assert AllWhitespace(sep[1..]) by {
        forall i | 0 <= i < |sep[1..]| ensures IsWhitespace(sep[1..][i]) {
          assert sep[1..][i] == sep[i + 1];
        }
      }
      WordsSkipsSpace(sep[1..], s);
    }
  }

  /** A field followed by a run of whitespace, of any length and kind, is the
      next field: column padding changes nothing. */
  lemma WordsOfPaddedField(w: string, sep: string, rest: string)
    requires IsWord(w)
    requires |sep| > 0 && AllWhitespace(sep)
    ensures Words(w + sep + rest) == [w] + Words(rest)
  {
    var t := sep + rest;
    var s := w + t;
    assert w + sep + rest == s;
    assert t[0] == sep[0];
    WordLengthOfWord(w, t);
    assert s[0] == w[0];
    assert s[..|w|] == w;
    assert s[|w|..] == t;
    WordsSkipsSpace(sep, rest);
  }

  /** Joins tokens with one space: the shape of a row of command output. */
  function Unwords(ws: seq<string>): string {
    if ws == [] then ""
    else if |ws| == 1 then ws[0]
    else ws[0] + " " + Unwords(ws[1..])
  }

  lemma {:induction false} WordLengthOfWord(w: string, t: string)
    requires IsWord(w)
    requires t == [] || IsWhitespace(t[0])
    ensures WordLength(w + t) == |w|
    decreases |w|
  {
    assert (w + t)[0] == w[0];
    if |w| > 1 {
      assert (w + t)[1..] == w[1..] + t;
      assert IsWord(w[1..]) by {
        forall i | 0 <= i < |w[1..]| ensures !IsWhitespace(w[1..][i]) {
          assert w[1..][i] == w[i + 1];
        }
      }
      WordLengthOfWord(w[1..], t);
    } else {
      assert (w + t)[1..] == t;
    }
  }

  /** Splitting a space-joined row recovers its tokens. */
  lemma {:induction false} WordsOfUnwords(ws: seq<string>)
    requires forall w :: w in ws ==> IsWord(w)
    ensures Words(Unwords(ws)) == ws
    decreases |ws|
  {
    if ws == [] {
    } else if |ws| == 1 {
      var w := ws[0];
      assert w + [] == w;
      WordLengthOfWord(w, []);
      assert w[|w|..] == [];
      assert w[..|w|] == w;
    } else {
      assert AllWhitespace(" ") by { assert " "[0] == ' '; }
      WordsOfPaddedField(ws[0], " ", Unwords(ws[1..]));
      assert forall q :: q in ws[1..] ==> q in ws;
      WordsOfUnwords(ws[1..]);
      assert ws == [ws[0]] + ws[1..];
    }
  }

  /** Index of the first `c` in `s`, or `|s|` when `s` has none. */
  function IndexOf(s: string, c: char): (i: nat)
    ensures i <= |s|
    ensures i < |s| ==> s[i] == c
    ensures c !in s[..i]
  {
    if s == [] || s[0] == c then 0 else 1 + IndexOf(s[1..], c)
  }

  /** Drops one trailing carriage return (the `\r` of a `\r\n` line end). */
  function StripCr(l: string): string {
    if |l| > 0 && l[|l| - 1] == '\r' then l[..|l| - 1] else l
  }

  /** `str::lines`: splits at `\n` and at `\r\n`; a final line end is
      optional and produces no empty trailing line; a final bare `\r` stays. */
  function Lines(s: string): (ls: seq<string>)
    ensures forall l :: l in ls ==> '\n' !in l
    decreases |s|
  {
    if s == [] then []
    else
      var i := IndexOf(s, '\n');
      if i == |s| then [s]
      else [StripCr(s[..i])] + Lines(s[i + 1..])
  }

  /** A line as `lines` yields it: no `\n` and no trailing `\r`. */
  predicate IsLine(l: string) {
    '\n' !in l && (|l| == 0 || l[|l| - 1] != '\r')
  }

  /** Terminates every line with `\n`: command output as a program writes it. */
  function Unlines(ls: seq<string>): string {
    if ls == [] then "" else ls[0] + "\n" + Unlines(ls[1..])
  }

  /** Splitting newline-terminated lines recovers them. */
  lemma {:induction false} LinesOfUnlines(ls: seq<string>)
    requires forall l :: l in ls ==> IsLine(l)
    ensures Lines(Unlines(ls)) == ls
    decreases |ls|
  {
    if ls != [] {
      var l, rest := ls[0], Unlines(ls[1..]);
      var s := l + "\n" + rest;
      assert ls[0] in ls;
      IndexOfPrefix(l, "\n" + rest, '\n');
      assert s == l + ("\n" + rest);
      assert s[..|l|] == l;
      assert s[|l| + 1..] == rest;
      assert StripCr(l) == l;
      LinesOfUnlines(ls[1..]);
      assert Lines(s) == [l] + ls[1..];
    }
  }

  lemma {:induction false} IndexOfPrefix(a: string, b: string, c: char)
    requires c !in a
    requires |b| > 0 && b[0] == c
    ensures IndexOf(a + b, c) == |a|
    decreases |a|
  {
    if a != [] {
      assert (a + b)[1..] == a[1..] + b;
      IndexOfPrefix(a[1..], b, c);
    } else {
      assert a + b == b;
    }
  }

  /** The last line end is optional: dropping it changes nothing, unless the
      text then ends in a bare `\r`. */
  lemma {:induction false} FinalNewlineOptional(s: string)
    requires |s| > 0 && s[|s| - 1] != '\n' && s[|s| - 1] != '\r'
    ensures Lines(s + "\n") == Lines(s)
    decreases |s|
  {
    var i := IndexOf(s, '\n');
    if i == |s| {
      IndexOfPrefix(s, "\n", '\n');
      assert (s + "\n")[..|s|] == s;
      assert (s + "\n")[|s| + 1..] == [];
    } else {
      IndexOfSuffix(s, "\n", '\n');
      assert (s + "\n")[..i] == s[..i];
      assert (s + "\n")[i + 1..] == s[i + 1..] + "\n";
      FinalNewlineOptional(s[i + 1..]);
    }
  }

  lemma IndexOfAbsent(a: string, c: char)
    requires c !in a
    ensures IndexOf(a, c) == |a|
  {
    assert forall j :: 0 <= j < |a| ==> a[j] in a;
  }

  lemma {:induction false} IndexOfSuffix(a: string, b: string, c: char)
    requires c in a
    ensures IndexOf(a + b, c) == IndexOf(a, c)
    decreases |a|
  {
    if a[0] != c {
      assert (a + b)[1..] == a[1..] + b;
      IndexOfSuffix(a[1..], b, c);
    }
  }

  /** `lines().skip(1)`: every line but the first (the header of a table). */
  function SkipHeader(lines: seq<string>): (rows: seq<string>)
    ensures |lines| > 0 ==> rows == lines[1..]
    ensures |lines| == 0 ==> rows == []
  {
    if lines == [] then [] else lines[1..]
  }

  /** `str::split(c)`: the pieces between occurrences of `c`; always at least one. */
  function Split(s: string, c: char): (parts: seq<string>)
    ensures |parts| >= 1
    ensures forall p :: p in parts ==> c !in p
    decreases |s|
  {
    var i := IndexOf(s, c);
    if i == |s| then [s] else [s[..i]] + Split(s[i + 1..], c)
  }

  /** `join(c)` over pieces. */
  function Join(parts: seq<string>, c: char): string {
    if parts == [] then ""
    else if |parts| == 1 then parts[0]
    else parts[0] + [c] + Join(parts[1..], c)
  }

  /** Joining the pieces of a split restores the string. */
  lemma {:induction false} JoinSplit(s: string, c: char)
    ensures Join(Split(s, c), c) == s
    decreases |s|
  {
    var i := IndexOf(s, c);
    if i < |s| {
      var rest := Split(s[i + 1..], c);
      var parts := [s[..i]] + rest;
      assert Split(s, c) == parts;
      assert parts[0] == s[..i] && parts[1..] == rest && |parts| > 1;
      assert Join(parts, c) == s[..i] + [c] + Join(rest, c);
      JoinSplit(s[i + 1..], c);
      assert s == s[..i] + [c] + s[i + 1..];
    } else {
      assert Split(s, c) == [s];
    }
  }

  /** Splitting joined pieces that hold no separator restores the pieces. */
  lemma {:induction false} SplitJoin(parts: seq<string>, c: char)
    requires |parts| >= 1
    requires forall p :: p in parts ==> c !in p
    ensures Split(Join(parts, c), c) == parts
    decreases |parts|
  {
    var p := parts[0];
    assert p in parts;
    if |parts| == 1 {
      assert Join(parts, c) == p;
      IndexOfAbsent(p, c);
    } else {
      var rest := Join(parts[1..], c);
      var s := p + [c] + rest;
      assert Join(parts, c) == s;
      assert s == p + ([c] + rest);
      IndexOfPrefix(p, [c] + rest, c);
      SplitStep(s, c);
      assert s[..|p|] == p && s[|p| + 1..] == rest;
      assert forall q :: q in parts[1..] ==> q in parts;
      SplitJoin(parts[1..], c);
      assert parts == [p] + parts[1..];
    }
  }

  /** `s.split(c).next()`: the text before the first `c` (all of `s` without one). */
  function BeforeFirst(s: string, c: char): (r: string)
    ensures c !in r
    ensures r <= s
    ensures |r| < |s| ==> s[|r|] == c
  {
    var i := IndexOf(s, c);
    assert Split(s, c)[0] == s[..i];
    Split(s, c)[0]
  }

  /** The recursion behind `AfterLast`: skip past each `c` in turn. */
  function LastPiece(s: string, c: char): string
    decreases |s|
  {
    var i := IndexOf(s, c);
    if i == |s| then s else LastPiece(s[i + 1..], c)
  }

  /** What `LastPiece` returns is a `c`-free suffix, preceded by a `c` when shorter than `s`. */
  lemma {:induction false} LastPieceIsSuffix(s: string, c: char)
    ensures var r := LastPiece(s, c);
      && c !in r
      && |r| <= |s| && s[|s| - |r|..] == r
      && (|r| < |s| ==> s[|s| - |r| - 1] == c)
    decreases |s|
  {
    var i := IndexOf(s, c);
    if i < |s| {
      var t := s[i + 1..];
      var r := LastPiece(t, c);
      assert LastPiece(s, c) == r;
      LastPieceIsSuffix(t, c);
      SuffixOfDrop(s, i + 1, |r|);
      assert s[|s| - |r| - 1] == if |r| < |t| then t[|t| - |r| - 1] else s[i];
    }
  }

  /** A suffix of `s[k..]` is the same suffix of `s`. */
  lemma SuffixOfDrop(s: string, k: nat, n: nat)
    requires k <= |s| && n <= |s| - k
    ensures s[k..][|s| - k - n..] == s[|s| - n..]
  {
  }

  /** `s.rsplit(c).next()`: the text after the last `c` (all of `s` without one). */
  function AfterLast(s: string, c: char): (r: string)
    ensures c !in r
    ensures |r| <= |s| && s[|s| - |r|..] == r
    ensures |r| < |s| ==> s[|s| - |r| - 1] == c
  {
    LastPieceIsSuffix(s, c);
    LastPiece(s, c)
  }

  /** `AfterLast` is the final piece of `Split`, as `rsplit(c).next()` is. */
  lemma AfterLastIsLastPiece(s: string, c: char)
    ensures AfterLast(s, c) == Split(s, c)[|Split(s, c)| - 1]
  {
    LastPieceOfSplit(s, c);
  }

  lemma {:induction false} LastPieceOfSplit(s: string, c: char)
    ensures LastPiece(s, c) == Split(s, c)[|Split(s, c)| - 1]
    decreases |s|
  {
    var i := IndexOf(s, c);
    if i < |s| {
      var t := s[i + 1..];
      assert LastPiece(s, c) == LastPiece(t, c);
      SplitStep(s, c);
      LastPieceOfSplit(t, c);
      LastPieceStep(LastPiece(s, c), LastPiece(t, c), Split(s, c), Split(t, c), s[..i]);
    } else {
      assert Split(s, c) == [s];
    }
  }

  lemma SplitStep(s: string, c: char)
    requires IndexOf(s, c) < |s|
    ensures Split(s, c) == [s[..IndexOf(s, c)]] + Split(s[IndexOf(s, c) + 1..], c)
  {
  }

  /** The last piece of `[x] + tail` is the last piece of `tail`. */
  lemma LastPieceStep(a: string, b: string, parts: seq<string>, tail: seq<string>, x: string)
    requires parts == [x] + tail && |tail| >= 1
    requires a == b && b == tail[|tail| - 1]
    ensures a == parts[|parts| - 1]
  {
  }

  /** `str::starts_with`. */
  predicate StartsWith(s: string, prefix: string) {
    prefix <= s
  }

  /** `t` occurs in `s` at position `i`. */
  predicate OccursAt(s: string, t: string, i: nat) {
    i + |t| <= |s| && s[i..i + |t|] == t
  }

  /** A slice of `s[1..]` is the slice of `s` one place further on. */
  lemma SliceOfTail(s: string, i: nat, n: nat)
    requires i + 1 + n <= |s|
    ensures s[1..][i..i + n] == s[i + 1..i + 1 + n]
  {
    var a, b := s[1..][i..i + n], s[i + 1..i + 1 + n];
    assert forall k :: 0 <= k < n ==> a[k] == b[k];
  }

  /** `str::contains` for a string pattern. */
  function Contains(s: string, t: string): (r: bool)
    ensures r <==> exists i: nat :: OccursAt(s, t, i)
    decreases |s|
  {
    if t <= s then
      assert OccursAt(s, t, 0);
      true
    else if s == [] then
      assert forall i: nat :: !OccursAt(s, t, i);
      false
    else
      var r := Contains(s[1..], t);
      assert forall i: nat :: OccursAt(s, t, i + 1) <==> OccursAt(s[1..], t, i) by {
        forall i: nat ensures OccursAt(s, t, i + 1) <==> OccursAt(s[1..], t, i) {
          if i + 1 + |t| <= |s| {
            SliceOfTail(s, i, |t|);
          }
        }
      }
      assert r ==> exists i: nat :: OccursAt(s, t, i) by {
        if r {
          var i: nat :| OccursAt(s[1..], t, i);
          assert OccursAt(s, t, i + 1);
        }
      }
      assert (exists i: nat :: OccursAt(s, t, i)) ==> r by {
        if exists i: nat :: OccursAt(s, t, i) {
          var i: nat :| OccursAt(s, t, i);
          assert i != 0;
          assert OccursAt(s[1..], t, i - 1);
        }
      }
      r
  }

  /** ASCII lowercase of one character; every other character is kept. */
  function LowerChar(c: char): char {
    if 'A' <= c <= 'Z' then (c as int + 32) as char else c
  }

  /** `to_lowercase` restricted to ASCII letters. */
  function Lower(s: string): (r: string)
    ensures |r| == |s|
    ensures forall i :: 0 <= i < |s| ==> r[i] == LowerChar(s[i])
  {
    seq(|s|, i requires 0 <= i < |s| => LowerChar(s[i]))
  }

  /** A `\r\n` line end is cut like `\n`, and its `\r` is dropped. */
  lemma LinesCrLf(l: string, rest: string)
    requires '\n' !in l
    ensures Lines(l + "\r\n" + rest) == [l] + Lines(rest)
  {
    var s := l + "\r\n" + rest;
    IndexOfPrefix(l + "\r", "\n" + rest, '\n');
    assert s == (l + "\r") + ("\n" + rest);
    assert s[..|l| + 1] == l + "\r";
    assert s[|l| + 2..] == rest;
    assert StripCr(l + "\r") == l;
  }
}
