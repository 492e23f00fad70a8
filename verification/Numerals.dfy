/** The texts of numbers, written by division, and exactly what the readers in Strings accept. */
module Numerals {
  import opened NumberTheory
  import opened Strings

  const DIGITS := "0123456789"
  const LOWER_HEX := "0123456789abcdef"
  const UPPER_HEX := "0123456789ABCDEF"

  /** The digits of n, lowest last, with any number of leading zeros. */
  predicate SpellsDecimal(s: string, n: nat) {
    if s == "" then n == 0
    else s[|s| - 1] == DIGITS[n % 10] && SpellsDecimal(s[..|s| - 1], n / 10)
  }

  /** The same in base 16, each letter in either case. */
  predicate SpellsHex(s: string, n: nat) {
    if s == "" then n == 0
    else
      && (s[|s| - 1] == LOWER_HEX[n % 16] || s[|s| - 1] == UPPER_HEX[n % 16])
      && SpellsHex(s[..|s| - 1], n / 16)
  }

  lemma DecimalDigit(c: char, d: nat)
    requires d < 10
    ensures c == DIGITS[d] <==> IsDigit(c) && c as int - '0' as int == d
  {}

  lemma HexDigitChar(c: char, d: nat)
    requires d < 16
    ensures c == LOWER_HEX[d] || c == UPPER_HEX[d] <==> IsHexDigit(c) && HexDigit(c) == d
  {}

  lemma {:induction false} DecimalSpelling(s: string, n: nat)
    ensures SpellsDecimal(s, n) <==> AllDigits(s) && DigitsValue(s) == n
  {
    if s != "" {
      var less, last := s[..|s| - 1], s[|s| - 1];
      DecimalSpelling(less, n / 10);
      DecimalDigit(last, n % 10);
      assert s == less + [last];
      if AllDigits(s) { assert DigitsValue(s) == 10 * DigitsValue(less) + (last as int - '0' as int); }
    }
  }

  lemma {:induction false} HexSpelling(s: string, n: nat)
    ensures SpellsHex(s, n) <==> AllHex(s) && HexValue(s) == n
  {
    if s != "" {
      var less, last := s[..|s| - 1], s[|s| - 1];
      HexSpelling(less, n / 16);
      HexDigitChar(last, n % 16);
      assert s == less + [last];
      hide HexDigit, IsHexDigit;
      if AllHex(s) {
        assert IsHexDigit(last);
        HexDigitBound(last);
        assert HexValue(s) == 16 * HexValue(less) + HexDigit(last);
      }
    }
  }

  lemma HexDigitBound(c: char)
    requires IsHexDigit(c)
    ensures HexDigit(c) < 16
  {}

  /** `parse` of an unsigned type accepts the decimal texts of the numbers below the bound, with or
      without a plus, and nothing else. */
  lemma ParseUnsignedIff(s: string, bound: nat, n: nat)
    ensures ParseUnsigned(s, bound) == Some(n) <==>
      n < bound && ((s != "" && SpellsDecimal(s, n)) || (|s| > 1 && s[0] == '+' && SpellsDecimal(s[1..], n)))
  {
    DecimalSpelling(s, n);
    if s != "" { DecimalSpelling(s[1..], n); }
    hide SpellsDecimal, DigitsValue;
  }

  /** `parse` of a signed type: the same texts up to half - 1, and after a minus up to half. */
  lemma ParseSignedIff(s: string, half: nat, n: int)
    ensures ParseSigned(s, half) == Some(n) <==>
      || (n >= 0 && ParseUnsigned(s, half) == Some(n))
      || (0 - half <= n <= 0 && |s| > 1 && s[0] == '-' && SpellsDecimal(s[1..], 0 - n))
  {
    if s != "" && s[0] == '-' && n <= 0 { DecimalSpelling(s[1..], 0 - n); }
    hide SpellsDecimal, DigitsValue;
  }

  lemma SignedHexIff(t: string, v: int)
    ensures SignedHex(t) == Some(v) <==>
      || (v >= 0 && t != "" && SpellsHex(t, v))
      || (v >= 0 && |t| > 1 && t[0] == '+' && SpellsHex(t[1..], v))
      || (v <= 0 && |t| > 1 && t[0] == '-' && SpellsHex(t[1..], 0 - v))
  {
    if v >= 0 { HexSpelling(t, v); }
    if t != "" {
      if v >= 0 { HexSpelling(t[1..], v); }
      if v <= 0 { HexSpelling(t[1..], 0 - v); }
    }
    hide SpellsHex, HexValue;
  }

  /** `TrimPrefix` and `SetString` accept, after an optional "0x" and an optional sign, the texts in
      base 16, and nothing else. */
  lemma HexNumberIff(s: string, v: int)
    ensures var t := if "0x" <= s then s[2..] else s;
      HexNumber(s) == Some(v) <==>
        || (v >= 0 && t != "" && SpellsHex(t, v))
        || (v >= 0 && |t| > 1 && t[0] == '+' && SpellsHex(t[1..], v))
        || (v <= 0 && |t| > 1 && t[0] == '-' && SpellsHex(t[1..], 0 - v))
  {
    SignedHexIff(if "0x" <= s then s[2..] else s, v);
    hide SpellsHex, SignedHex;
  }

  // --- Printing ----------------------------------------------------------------------

  /** `to_string` prints the digits without leading zeros. */
  lemma {:induction false} DecimalSpells(n: nat)
    ensures SpellsDecimal(Decimal(n), n) && (n > 0 ==> Decimal(n)[0] != '0')
  {
    var s := Decimal(n);
    DecimalDigit(s[|s| - 1], n % 10);
    if n >= 10 {
      DecimalSpells(n / 10);
      assert s[..|s| - 1] == Decimal(n / 10);
    } else {
      assert s[..0] == "";
    }
  }

  function Hex(n: nat, width: nat): (s: string)
    ensures |s| == width
  {
    if width == 0 then "" else Hex(n / 16, width - 1) + [LOWER_HEX[n % 16]]
  }

  function Pow16(w: nat): nat { if w == 0 then 1 else 16 * Pow16(w - 1) }

  /** A number below 16^w is spelled by its w digits. */
  lemma {:induction false} HexSpells(n: nat, width: nat)
    requires n < Pow16(width)
    ensures SpellsHex(Hex(n, width), n)
  {
    if width > 0 {
      HexSpells(n / 16, width - 1);
      assert Hex(n, width)[..width - 1] == Hex(n / 16, width - 1);
    }
  }

  /** What is printed in w > 0 digits after "0x" reads back as the number. */
  lemma HexRoundTrip(n: nat, width: nat)
    requires 0 < width && n < Pow16(width)
    ensures HexNumber("0x" + Hex(n, width)) == Some(n)
  {
    HexSpells(n, width);
    HexNumberIff("0x" + Hex(n, width), n);
    assert ("0x" + Hex(n, width))[2..] == Hex(n, width);
  }
}
