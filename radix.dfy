/** The JavaScript number <-> string conversions the colour codec relies on,
    restricted to integers: `parseInt(s, 16)` on a string of hex digits,
    `Number(s)` on a string of decimal digits, and
    `Number.prototype.toString(16)` / `toString(10)` on an integer. */
module Radix {

  /** 2^53: every integer up to this bound is an exact JavaScript Number. */
  const MAX_EXACT_INTEGER: nat := 0x20_0000_0000_0000

  // ---------------------------------------------------------------------
  // Decimal digits: the class `[0-9]` (and `\d`, which is ASCII-only)
  // ---------------------------------------------------------------------

  predicate IsDecimalDigit(c: char) {
    '0' <= c <= '9'
  }

  predicate AllDecimal(s: string) {
    forall i | 0 <= i < |s| :: IsDecimalDigit(s[i])
  }

  predicate NoDecimal(s: string) {
    forall i | 0 <= i < |s| :: !IsDecimalDigit(s[i])
  }

  function DecimalDigitValue(c: char): (v: nat)
    requires IsDecimalDigit(c)
    ensures v < 10
  {
    c as int - '0' as int
  }

  function DecimalDigit(v: nat): (c: char)
    requires v < 10
    ensures IsDecimalDigit(c) && DecimalDigitValue(c) == v
  {
    ('0' as int + v) as char
  }

  /** `Number(s)` for a string of decimal digits (leading zeros allowed);
      exact as long as the result does not exceed MAX_EXACT_INTEGER. */
  function DecimalValue(s: string): nat
    requires AllDecimal(s)
  {
    if s == [] then 0
    else DecimalValue(s[..|s| - 1]) * 10 + DecimalDigitValue(s[|s| - 1])
  }

  /** `String(n)` for a non-negative integer: decimal digits, no leading zero. */
  function DecimalString(n: nat): (s: string)
    ensures 0 < |s| && AllDecimal(s)
    ensures |s| == 1 || s[0] != '0'
    ensures DecimalValue(s) == n
  {
    if n < 10 then [DecimalDigit(n)]
    else
      var prefix := DecimalString(n / 10);
      var s := prefix + [DecimalDigit(n % 10)];
      assert s[..|s| - 1] == prefix;
      s
  }

  // ---------------------------------------------------------------------
  // Hex digits: the class `[a-f\d]` under the `/i` flag
  // ---------------------------------------------------------------------

  predicate IsHexDigit(c: char) {
    IsDecimalDigit(c) || 'a' <= c <= 'f' || 'A' <= c <= 'F'
  }

  predicate AllHex(s: string) {
    forall i | 0 <= i < |s| :: IsHexDigit(s[i])
  }

  /** A hex digit as `toString(16)` writes it: `0-9` or lower-case `a-f`. */
  predicate IsLowerHexDigit(c: char) {
    IsDecimalDigit(c) || 'a' <= c <= 'f'
  }

  predicate AllLowerHex(s: string) {
    forall i | 0 <= i < |s| :: IsLowerHexDigit(s[i])
  }

  function HexDigitValue(c: char): (v: nat)
    requires IsHexDigit(c)
    ensures v < 16
    ensures IsDecimalDigit(c) ==> v == DecimalDigitValue(c)
  {
    if IsDecimalDigit(c) then c as int - '0' as int
    else if 'a' <= c <= 'f' then c as int - 'a' as int + 10
    else c as int - 'A' as int + 10
  }

  function HexDigit(v: nat): (c: char)
    requires v < 16
    ensures IsLowerHexDigit(c) && IsHexDigit(c) && HexDigitValue(c) == v
  {
    if v < 10 then ('0' as int + v) as char else ('a' as int + v - 10) as char
  }

  /** `parseInt(s, 16)` for a string made only of hex digits; JavaScript's
      result equals this value as long as it does not exceed 2^53. */
  function ParseHex(s: string): nat
    requires AllHex(s)
  {
    if s == [] then 0
    else ParseHex(s[..|s| - 1]) * 16 + HexDigitValue(s[|s| - 1])
  }

  /** `n.toString(16)` for a non-negative integer n, most significant
      digit first. */
  function ToHex(n: nat): (s: string)
    ensures 0 < |s|
  {
    if n < 16 then [HexDigit(n)] else ToHex(n / 16) + [HexDigit(n % 16)]
  }

  /** `toString(16)` writes lower-case hex digits without leading zeros,
      and ParseHex reads them back as n; `parseInt(_, 16)` agrees for n up
      to 2^53 (the model only applies ToHex to values below 2^32). */
  lemma {:induction false} ToHexDigits(n: nat)
    ensures AllLowerHex(ToHex(n)) && AllHex(ToHex(n))
    ensures |ToHex(n)| == 1 || ToHex(n)[0] != '0'
    ensures ParseHex(ToHex(n)) == n
  {
    if n >= 16 {
      ToHexDigits(n / 16);
      var prefix := ToHex(n / 16);
      var s := ToHex(n);
      assert s == prefix + [HexDigit(n % 16)];
      assert s[..|s| - 1] == prefix;
      assert forall i | 0 <= i < |prefix| :: s[i] == prefix[i];
    }
  }

  /** `x.toString(16)` for any integer x: a minus sign before the digits of
      a negative number. */
  function ToStringRadix16(x: int): (s: string)
    ensures 0 < |s|
  {
    if x < 0 then "-" + ToHex(-x) else ToHex(x)
  }

  /** The value of a two-digit hex string is its first digit times 16 plus
      its second digit, so it lies in 0..255. */
  lemma ParseHexPair(s: string)
    requires |s| == 2 && AllHex(s)
    ensures ParseHex(s) == 16 * HexDigitValue(s[0]) + HexDigitValue(s[1])
    ensures ParseHex(s) < 256
  {
    assert s[..1][..0] == [];
    assert ParseHex(s[..1]) == HexDigitValue(s[0]);
  }

  /** Three hex digits of 256 + b, for a byte b: a leading `1` and then b
      as exactly two digits, zero-padded. */
  lemma {:induction false} ToHexOfByteWithBit8(b: nat)
    requires b < 256
    ensures ToHex(256 + b) == ['1', HexDigit(b / 16), HexDigit(b % 16)]
  {
    var hi := 16 + b / 16;
    assert (256 + b) / 16 == hi && (256 + b) % 16 == b % 16;
    assert hi / 16 == 1 && hi % 16 == b / 16;
    assert ToHex(1) == ['1'];
    assert ToHex(hi) == ['1', HexDigit(b / 16)];
  }
}
