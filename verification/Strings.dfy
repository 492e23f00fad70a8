/** Characters, numbers and names as the Rust standard library reads them. */
module Strings {
  import opened NumberTheory

  predicate IsDigit(c: char) { '0' <= c <= '9' }

  predicate IsLetter(c: char) { 'a' <= c <= 'z' || 'A' <= c <= 'Z' }

  predicate IsHexDigit(c: char) { IsDigit(c) || 'a' <= c <= 'f' || 'A' <= c <= 'F' }

  predicate AllDigits(s: string) { forall i :: 0 <= i < |s| ==> IsDigit(s[i]) }

  predicate AllHex(s: string) { forall i :: 0 <= i < |s| ==> IsHexDigit(s[i]) }

  function DigitsValue(s: string): nat
    requires AllDigits(s)
  {
    if s == "" then 0 else 10 * DigitsValue(s[..|s| - 1]) + (s[|s| - 1] as int - '0' as int)
  }

  /** `parse` for an unsigned integer type with `bound` values: an optional plus, then digits. */
  function ParseUnsigned(s: string, bound: nat): Option<nat> {
    var digits := if s != "" && s[0] == '+' then s[1..] else s;
    if digits == "" || !AllDigits(digits) || DigitsValue(digits) >= bound then None
    else Some(DigitsValue(digits))
  }

  /** `parse` for the signed type with values in [-half, half). */
  function ParseSigned(s: string, half: nat): Option<int> {
    if s != "" && s[0] == '-' then
      var digits := s[1..];
      if digits == "" || !AllDigits(digits) || DigitsValue(digits) > half then None
      else Some(0 - DigitsValue(digits))
    else
      match ParseUnsigned(s, half) case None => None case Some(n) => Some(n)
  }

  function HexDigit(c: char): nat
    requires IsHexDigit(c)
  {
    if IsDigit(c) then c as int - '0' as int
    else if 'a' <= c then c as int - 'a' as int + 10 else c as int - 'A' as int + 10
  }

  function HexValue(s: string): nat
    requires AllHex(s)
  {
    if s == "" then 0 else 16 * HexValue(s[..|s| - 1]) + HexDigit(s[|s| - 1])
  }

  /** `big.Int.SetString` in base 16: an optional sign, then digits. */
  function SignedHex(t: string): Option<int> {
    var digits := if t != "" && (t[0] == '-' || t[0] == '+') then t[1..] else t;
    if digits == "" || !AllHex(digits) then None
    else Some(if t[0] == '-' then 0 - HexValue(digits) else HexValue(digits))
  }

  /** The same after `TrimPrefix(s, "0x")`. */
  function HexNumber(s: string): Option<int> { SignedHex(if "0x" <= s then s[2..] else s) }

  function Decimal(n: nat): (s: string)
    ensures s != "" && AllDigits(s)
  {
    var last := [('0' as int + n % 10) as char];
    if n < 10 then last else Decimal(n / 10) + last
  }

  function DecimalInt(n: int): string { if n < 0 then "-" + Decimal(-n) else Decimal(n) }

  lemma {:induction false} DecimalValue(n: nat)
    ensures DigitsValue(Decimal(n)) == n
  {
    var s := Decimal(n);
    if n >= 10 {
      DecimalValue(n / 10);
      assert s[..|s| - 1] == Decimal(n / 10);
    }
  }

  /** What `to_string` prints, `parse` reads back. */
  lemma ParseDecimalInt(n: int, half: nat)
    requires 0 - half <= n < half
    ensures ParseSigned(DecimalInt(n), half) == Some(n)
    ensures n >= 0 ==> ParseUnsigned(DecimalInt(n), half) == Some(n)
  {
    if n < 0 {
      DecimalValue(-n);
      assert DecimalInt(n)[1..] == Decimal(-n);
    } else {
      DecimalValue(n);
      assert IsDigit(Decimal(n)[0]);
    }
  }

  /** `str::len`: the length in UTF-8 bytes. */
  function ByteLength(s: string): nat {
    if s == "" then 0
    else
      var c := s[|s| - 1] as int;
      ByteLength(s[..|s| - 1]) + (if c < 0x80 then 1 else if c < 0x800 then 2 else if c < 0x10000 then 3 else 4)
  }

  lemma {:induction false} HexByteLength(s: string)
    requires AllHex(s)
    ensures ByteLength(s) == |s|
  {
    if s != "" {
      HexByteLength(s[..|s| - 1]);
      assert IsHexDigit(s[|s| - 1]);
    }
  }

  /** A letter, then letters, digits, hyphens and underscores. */
  predicate IsContractName(s: string) {
    s != "" && IsLetter(s[0]) && forall i :: 1 <= i < |s| ==> IsLetter(s[i]) || IsDigit(s[i]) || s[i] in "-_"
  }

  /** A letter or underscore, then letters, digits and underscores. */
  predicate IsIdentifier(s: string) {
    s != "" && (IsLetter(s[0]) || s[0] == '_')
    && forall i :: 1 <= i < |s| ==> IsLetter(s[i]) || IsDigit(s[i]) || s[i] == '_'
  }

  function Split(s: string, at: char): (parts: seq<string>)
    ensures |parts| > 0
  {
    if s == "" then [""]
    else
      var rest := Split(s[1..], at);
      if s[0] == at then [""] + rest else [[s[0]] + rest[0]] + rest[1..]
  }

  /** Three dot-separated 32-bit numbers. */
  predicate IsVersion(s: string) {
    var parts := Split(s, '.');
    |parts| == 3 && forall i :: 0 <= i < 3 ==> ParseUnsigned(parts[i], 0x1_0000_0000).Some?
  }

  /** Unicode White_Space. */
  predicate IsSpace(c: char) {
    var n := c as int;
    9 <= n <= 13 || n == 32 || n == 0x85 || n == 0xA0 || n == 0x1680 || 0x2000 <= n <= 0x200A
    || n == 0x2028 || n == 0x2029 || n == 0x202F || n == 0x205F || n == 0x3000
  }

  /** `split_whitespace`: the maximal runs of other characters. */
  function Words(s: string): (r: seq<string>)
    ensures forall i :: 0 <= i < |r| ==> r[i] != "" && forall k :: 0 <= k < |r[i]| ==> !IsSpace(r[i][k])
  {
    if s == "" then []
    else
      var rest := Words(s[1..]);
      if IsSpace(s[0]) then rest
      else if |s| > 1 && !IsSpace(s[1]) && rest != [] then [[s[0]] + rest[0]] + rest[1..]
      else [[s[0]]] + rest
  }

  /** `str::contains`. */
  predicate Contains(s: string, part: string) {
    part <= s || (s != "" && Contains(s[1..], part))
  }
}
