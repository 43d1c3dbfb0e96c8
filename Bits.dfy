/** The integer operations that Str::uuid relies on: PHP's bitwise `|` on
    non-negative integers, and sprintf's `%0Nx` conversion (lower-case
    hexadecimal, left-padded with '0' to at least N digits). */
module Bits {

  function Pow2(k: nat): (p: nat)
    ensures p >= 1
  {
    if k == 0 then 1 else 2 * Pow2(k - 1)
  }

  /** `a | b`, bit by bit from the least significant end. */
  function BitOr(a: nat, b: nat): nat
    decreases a + b
  {
    if a == 0 && b == 0 then 0
    else 2 * BitOr(a / 2, b / 2) + (if a % 2 == 1 || b % 2 == 1 then 1 else 0)
  }

  lemma {:induction false} BitOrZero(b: nat)
    ensures BitOr(0, b) == b
    decreases b
  {
    if b != 0 {
      BitOrZero(b / 2);
    }
  }

  /** Or-ing a value below 2^k into a multiple of 2^k is addition: the two
      have no bit in common. */
  lemma {:induction false} BitOrDisjoint(a: nat, m: nat, k: nat)
    requires a < Pow2(k)
    ensures BitOr(a, m * Pow2(k)) == a + m * Pow2(k)
    decreases k
  {
    var b := m * Pow2(k);
    if k == 0 {
      assert a == 0 && b == m;
      BitOrZero(m);
    } else {
      var p := Pow2(k - 1);
      assert b == 2 * (m * p);
      assert b / 2 == m * p && b % 2 == 0;
      assert a / 2 < p;
      BitOrDisjoint(a / 2, m, k - 1);
      if a != 0 || b != 0 {
        assert BitOr(a, b) == 2 * BitOr(a / 2, b / 2) + a % 2;
      } else {
        assert BitOr(a, b) == 0;
      }
    }
  }

  predicate IsLowerHex(c: char) { '0' <= c <= '9' || 'a' <= c <= 'f' }

  /** The digit sprintf writes for a value below 16 ("0123456789abcdef"). */
  function HexDigit(v: nat): (c: char)
    requires v < 16
    ensures IsLowerHex(c)
  {
    if v < 10 then ((('0' as int) + v) as char) else ((('a' as int) + v - 10) as char)
  }

  /** The value of one lower-case hexadecimal digit. */
  function DigitValue(c: char): (v: nat)
    requires IsLowerHex(c)
    ensures v < 16
  {
    if c <= '9' then (c as int) - ('0' as int) else (c as int) - ('a' as int) + 10
  }

  lemma DigitRoundTrip(v: nat)
    requires v < 16
    ensures DigitValue(HexDigit(v)) == v
  {
  }

  /** `%x`: the shortest lower-case hexadecimal numeral of `v`. */
  function Hex(v: nat): (s: string)
    ensures |s| >= 1
    decreases v
  {
    if v < 16 then [HexDigit(v)] else Hex(v / 16) + [HexDigit(v % 16)]
  }

  /** `%0<width>x`: Hex(v) left-padded with '0' to `width` digits. */
  function FormatHex(v: nat, width: nat): string
  {
    var h := Hex(v);
    if |h| >= width then h else seq(width - |h|, _ => '0') + h
  }

  /** The value of a numeral of lower-case hexadecimal digits. */
  function HexValue(s: string): nat
    requires forall i :: 0 <= i < |s| ==> IsLowerHex(s[i])
  {
    if s == [] then 0 else HexValue(s[..|s| - 1]) * 16 + DigitValue(s[|s| - 1])
  }

  lemma Hex1(v: nat)
    requires v < 16
    ensures Hex(v) == [HexDigit(v)]
  {
  }

  lemma Hex2(v: nat)
    requires 16 <= v < 0x100
    ensures Hex(v) == [HexDigit(v / 16), HexDigit(v % 16)]
  {
  }

  lemma Hex3(v: nat)
    requires 0x100 <= v < 0x1000
    ensures Hex(v) == [HexDigit(v / 0x100), HexDigit(v / 16 % 16), HexDigit(v % 16)]
  {
    var q := v / 16;
    assert q / 16 == v / 0x100;
    Hex2(q);
  }

  lemma Hex4(v: nat)
    requires 0x1000 <= v < 0x10000
    ensures Hex(v) ==
      [HexDigit(v / 0x1000), HexDigit(v / 0x100 % 16), HexDigit(v / 16 % 16), HexDigit(v % 16)]
  {
    var q := v / 16;
    assert q / 0x100 == v / 0x1000;
    assert q / 16 % 16 == v / 0x100 % 16;
    Hex3(q);
  }

  /** `%04x` of a 16-bit value: exactly four digits, most significant
      first. */
  lemma FormatHex4(v: nat)
    requires v < 0x10000
    ensures FormatHex(v, 4) ==
      [HexDigit(v / 0x1000), HexDigit(v / 0x100 % 16), HexDigit(v / 16 % 16), HexDigit(v % 16)]
  {
    if v < 16 {
      Hex1(v);
    } else if v < 0x100 {
      Hex2(v);
    } else if v < 0x1000 {
      Hex3(v);
    } else {
      Hex4(v);
    }
  }

  lemma HexValue4(s: string)
    requires |s| == 4 && forall i :: 0 <= i < 4 ==> IsLowerHex(s[i])
    ensures HexValue(s) ==
      ((DigitValue(s[0]) * 16 + DigitValue(s[1])) * 16 + DigitValue(s[2])) * 16 + DigitValue(s[3])
  {
    var s3 := s[..3];
    var s2 := s3[..2];
    var s1 := s2[..1];
    assert s1[..0] == [];
    assert HexValue(s1) == DigitValue(s[0]);
    assert HexValue(s2) == HexValue(s1) * 16 + DigitValue(s[1]);
    assert HexValue(s3) == HexValue(s2) * 16 + DigitValue(s[2]);
  }

  lemma Digits16(v: nat)
    requires v < 0x10000
    ensures ((v / 0x1000 * 16 + v / 0x100 % 16) * 16 + v / 16 % 16) * 16 + v % 16 == v
  {
    assert v / 0x1000 * 16 + v / 0x100 % 16 == v / 0x100;
    assert v / 0x100 * 16 + v / 16 % 16 == v / 16;
  }

  /** Reading back the four digits of `%04x` gives the value printed. */
  lemma FormatHex4RoundTrip(v: nat)
    requires v < 0x10000
    ensures var s := FormatHex(v, 4);
      && |s| == 4
      && (forall i :: 0 <= i < 4 ==> IsLowerHex(s[i]))
      && HexValue(s) == v
  {
    FormatHex4(v);
    var s := FormatHex(v, 4);
    DigitRoundTrip(v / 0x1000);
    DigitRoundTrip(v / 0x100 % 16);
    DigitRoundTrip(v / 16 % 16);
    DigitRoundTrip(v % 16);
    HexValue4(s);
    Digits16(v);
  }
}
