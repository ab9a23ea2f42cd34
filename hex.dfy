/**
 * Hexadecimal digits and the subset of Python's `int(s, 16)` that the
 * resource resolver relies on: an optional sign, an optional `0x`/`0X`
 * prefix and at least one hex digit.
 */
module Hex {
  import opened Wrappers

  /** The character class `[a-fA-F0-9]`. */
  predicate IsHexDigit(c: char) {
    ('0' <= c <= '9') || ('a' <= c <= 'f') || ('A' <= c <= 'F')
  }

  predicate AllHex(s: string) {
    forall i | 0 <= i < |s| :: IsHexDigit(s[i])
  }

  function DigitValue(c: char): (v: nat)
    requires IsHexDigit(c)
    ensures v < 16
    ensures ('0' <= c <= '9') == (v < 10)
  {
    if '0' <= c <= '9' then c as int - '0' as int
    else if 'a' <= c <= 'f' then c as int - 'a' as int + 10
    else c as int - 'A' as int + 10
  }

  /** The value of a non-negative big-endian hexadecimal numeral. */
  function HexValue(digits: string): nat
    requires AllHex(digits)
  {
    if digits == [] then 0
    else 16 * HexValue(digits[..|digits| - 1]) + DigitValue(digits[|digits| - 1])
  }

  /** What is left of `s` once a leading `+` or `-` is removed. */
  function Unsigned(s: string): string {
    if |s| > 0 && (s[0] == '-' || s[0] == '+') then s[1..] else s
  }

  /** What is left of `s` once the sign and a `0x`/`0X` prefix are removed. */
  function Digits(s: string): string {
    var u := Unsigned(s);
    if |u| >= 2 && u[0] == '0' && (u[1] == 'x' || u[1] == 'X') then u[2..] else u
  }

  /**
   * `int(s, 16)`: `Some(value)` when Python returns a value, `None` when it
   * raises `ValueError`.
   */
  function ParseHex(s: string): Option<int> {
    var d := Digits(s);
    if d != [] && AllHex(d) then
      var v: int := HexValue(d);
      Some(if |s| > 0 && s[0] == '-' then -v else v)
    else None
  }

  /** Reference encoder: the shortest lower-case hex numeral of `n`. */
  function HexChar(d: nat): (c: char)
    requires d < 16
    ensures IsHexDigit(c) && DigitValue(c) == d
  {
    if d < 10 then ('0' as int + d) as char else ('a' as int + d - 10) as char
  }

  function ToHex(n: nat): (s: string)
    ensures s != [] && AllHex(s)
    ensures n > 0 ==> s[0] != '0'
    decreases n
  {
    if n < 16 then [HexChar(n)] else ToHex(n / 16) + [HexChar(n % 16)]
  }

  lemma HexValueSnoc(d: string, c: char)
    requires AllHex(d) && IsHexDigit(c)
    ensures AllHex(d + [c])
    ensures HexValue(d + [c]) == 16 * HexValue(d) + DigitValue(c)
  {
    assert (d + [c])[..|d|] == d;
  }

  lemma {:induction false} HexValueOfToHex(n: nat)
    ensures HexValue(ToHex(n)) == n
    decreases n
  {
    if n >= 16 {
      HexValueOfToHex(n / 16);
      HexValueSnoc(ToHex(n / 16), HexChar(n % 16));
    }
  }

  /** Parsing undoes encoding, with and without the prefix and the sign. */
  lemma ParseHexOfToHex(n: nat)
    ensures ParseHex(ToHex(n)) == Some(n)
    ensures ParseHex("0x" + ToHex(n)) == Some(n)
    ensures ParseHex("-0x" + ToHex(n)) == Some(-(n as int))
  {
    var h := ToHex(n);
    HexValueOfToHex(n);
    assert Unsigned("0x" + h) == "0x" + h;
    assert ("0x" + h)[2..] == h;
    assert Unsigned("-0x" + h) == "0x" + h;
    assert Digits(h) == h;
  }

  /** Four appended zero digits multiply the value by 0x10000. */
  lemma HexValueAppendZeros(d: string)
    requires AllHex(d)
    ensures AllHex(d + "0000")
    ensures HexValue(d + "0000") == HexValue(d) * 0x10000
  {
    var d1 := d + ['0'];
    var d2 := d1 + ['0'];
    var d3 := d2 + ['0'];
    var d4 := d3 + ['0'];
    HexValueSnoc(d, '0');
    HexValueSnoc(d1, '0');
    HexValueSnoc(d2, '0');
    HexValueSnoc(d3, '0');
    assert d4 == d + "0000";
  }

  /**
   * The `const/high16` reconstruction: for an operand that ends in a hex
   * digit, parsing it with four zero digits appended gives its own value
   * times 0x10000, and fails exactly when parsing the operand fails.
   */
  lemma ParseHexAppendZeros(op: string)
    requires op != [] && IsHexDigit(op[|op| - 1])
    ensures ParseHex(op + "0000") ==
      if ParseHex(op).Some? then Some(ParseHex(op).value * 0x10000) else None
  {
    DigitsAppendZeros(op);
    var d := Digits(op);
    AllHexAppendZeros(d);
    assert (op + "0000")[0] == op[0];
    if d != [] && AllHex(d) {
      HexValueAppendZeros(d);
    }
  }

  /** Appending zeros keeps a string all hex digits, and does not make it so. */
  lemma AllHexAppendZeros(d: string)
    ensures AllHex(d + "0000") <==> AllHex(d)
  {
    var s := d + "0000";
    if AllHex(d) {
      forall i | 0 <= i < |s| ensures IsHexDigit(s[i]) {
        if i < |d| { assert s[i] == d[i]; } else { assert s[i] == '0'; }
      }
    }
    if AllHex(s) {
      forall i | 0 <= i < |d| ensures IsHexDigit(d[i]) {
        assert s[i] == d[i];
      }
    }
  }

  /** Four trailing zeros after a final hex digit survive the removal of the sign and the prefix. */
  lemma DigitsAppendZeros(op: string)
    requires op != [] && IsHexDigit(op[|op| - 1])
    ensures Digits(op + "0000") == Digits(op) + "0000"
  {
    var s := op + "0000";
    assert Unsigned(s) == Unsigned(op) + "0000";
    var u := Unsigned(op);
    assert u != [] && u[|u| - 1] == op[|op| - 1];
    assert |u| == 1 ==> (u + "0000")[1] == '0';
  }

  /** `0x` followed by hex digits parses to the value of the digits. */
  lemma ParseHexPrefixed(h: string)
    requires h != [] && AllHex(h)
    ensures ParseHex("0x" + h) == Some(HexValue(h))
  {
    assert Unsigned("0x" + h) == "0x" + h;
    assert ("0x" + h)[2..] == h;
  }

  /** A character that is not a hex digit does not occur in a string of hex digits. */
  lemma NotInHex(h: string, c: char)
    requires AllHex(h) && !IsHexDigit(c)
    ensures c !in h
  {
    forall i | 0 <= i < |h| ensures h[i] != c {
      assert IsHexDigit(h[i]);
    }
  }
}
