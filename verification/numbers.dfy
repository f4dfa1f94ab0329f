/** Integer text: `{}` formatting of counts, `str::parse::<u16>()` of port
    numbers, and the `{:02x}` formatting of hardware-address bytes. */
module Numbers {
  import opened Wrappers

  type Byte = x: int | 0 <= x < 256
  type Port = x: int | 0 <= x < 0x1_0000

  predicate IsDigit(c: char) {
    '0' <= c <= '9'
  }

  function DigitChar(d: nat): char
    requires d < 10
  {
    ('0' as int + d) as char
  }

  function DigitValue(c: char): nat
    requires IsDigit(c)
  {
    c as int - '0' as int
  }

  predicate AllDigits(s: string) {
    forall i :: 0 <= i < |s| ==> IsDigit(s[i])
  }

  /** Value of a string of decimal digits, most significant first. */
  function DigitsValue(s: string): nat
    requires AllDigits(s)
    decreases |s|
  {
    if s == [] then 0
    else DigitsValue(s[..|s| - 1]) * 10 + DigitValue(s[|s| - 1])
  }

  /** Decimal text of a natural number (Rust's `{}` for `usize` and `u16`):
      no leading zero, except for zero itself. */
  function Decimal(n: nat): (s: string)
    ensures |s| > 0 && AllDigits(s)
    ensures DigitsValue(s) == n
    ensures s[0] == '0' <==> n == 0
    ensures |s| == 1 || s[0] != '0'
  {
    if n < 10 then [DigitChar(n)]
    else
      var s := Decimal(n / 10) + [DigitChar(n % 10)];
      assert s[..|s| - 1] == Decimal(n / 10);
      s
  }

  /** Two numbers with the same decimal text are equal. */
  lemma DecimalInjective(m: nat, n: nat)
    requires Decimal(m) == Decimal(n)
    ensures m == n
  {
    assert DigitsValue(Decimal(m)) == m;
  }

  /** `str::parse::<u16>()`: an optional leading `+`, then one or more ASCII
      digits whose value is below 65536; anything else is an error. */
  function ParseU16(s: string): (r: Option<Port>)
    ensures r.Some? <==>
      var digits := if |s| > 0 && s[0] == '+' then s[1..] else s;
      |digits| > 0 && AllDigits(digits) && DigitsValue(digits) < 0x1_0000
    ensures r.Some? ==>
      var digits := if |s| > 0 && s[0] == '+' then s[1..] else s;
      AllDigits(digits) && r.value == DigitsValue(digits)
  {
    var digits := if |s| > 0 && s[0] == '+' then s[1..] else s;
    if |digits| == 0 || !AllDigits(digits) then None
    else
      var v := DigitsValue(digits);
      if v < 0x1_0000 then Some(v) else None
  }

  /** A port number printed in decimal parses back to itself. */
  lemma ParseU16OfDecimal(p: Port)
    ensures ParseU16(Decimal(p)) == Some(p)
  {
    var s := Decimal(p);
    assert s[0] != '+' by { assert IsDigit(s[0]); }
  }

  /** Text that is not a decimal number (a `*` wildcard port, say) never parses. */
  lemma ParseU16RejectsNonDigits(s: string, i: nat)
    requires 0 < i < |s| && !IsDigit(s[i])
    ensures ParseU16(s) == None
  {
    if s[0] == '+' {
      assert s[1..][i - 1] == s[i];
    }
  }

  /** The lowercase hexadecimal digit of a value below 16. */
  function HexDigit(d: nat): (c: char)
    requires d < 16
    ensures IsLowerHex(c)
  {
    "0123456789abcdef"[d]
  }

  predicate IsLowerHex(c: char) {
    ('0' <= c <= '9') || ('a' <= c <= 'f')
  }

  /** Inverse of `HexDigit`. */
  function HexValue(c: char): (d: nat)
    requires IsLowerHex(c)
    ensures d < 16
  {
    if c <= '9' then c as int - '0' as int else c as int - 'a' as int + 10
  }

  lemma HexDigitRoundTrip(d: nat)
    requires d < 16
    ensures HexValue(HexDigit(d)) == d
  {
  }

  /** `{:02x}`: exactly two lowercase hexadecimal digits. */
  function Hex2(b: Byte): (s: string)
    ensures |s| == 2 && IsLowerHex(s[0]) && IsLowerHex(s[1])
    ensures HexValue(s[0]) * 16 + HexValue(s[1]) == b
  {
    HexDigitRoundTrip(b / 16);
    HexDigitRoundTrip(b % 16);
    [HexDigit(b / 16), HexDigit(b % 16)]
  }
}
