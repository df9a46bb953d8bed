/**
 * The JavaScript string and number conversions that the utility functions and the
 * restaurant search rely on, for the inputs the model admits:
 *  - `${n}` on an integer (decimal rendering) and its parser,
 *  - `Number.parseInt(s, 16)` on a string of hex digits and `n.toString(16)`,
 *  - `String.prototype.padStart` with a one-character filler,
 *  - `String.prototype.toLowerCase` restricted to ASCII,
 *  - `String.prototype.includes`.
 */
module Text {
  import opened Wrappers

  // ---------------------------------------------------------------------------
  // Decimal digits
  // ---------------------------------------------------------------------------

  predicate IsDecimalDigit(c: char) {
    '0' <= c <= '9'
  }

  predicate AllDecimal(s: string) {
    forall i :: 0 <= i < |s| ==> IsDecimalDigit(s[i])
  }

  function DigitChar(d: nat): (c: char)
    requires d < 10
    ensures IsDecimalDigit(c)
  {
    ('0' as int + d) as char
  }

  function DigitValue(c: char): (d: nat)
    requires IsDecimalDigit(c)
    ensures d < 10 && DigitChar(d) == c
  {
    c as int - '0' as int
  }

  /** A decimal numeral as JavaScript prints a non-negative integer: digits only, no leading zero. */
  predicate IsCanonicalDecimal(s: string) {
    |s| > 0 && AllDecimal(s) && (s[0] == '0' ==> |s| == 1)
  }

  /** `${n}` for a safe non-negative integer `n`. */
  function NatToDecimal(n: nat): (s: string)
    ensures IsCanonicalDecimal(s)
    ensures n < 10 <==> |s| == 1
    decreases n
  {
    if n < 10 then [DigitChar(n)] else NatToDecimal(n / 10) + [DigitChar(n % 10)]
  }

  /** The value of a string of decimal digits, most significant first. */
  function ParseDecimal(s: string): nat
    requires AllDecimal(s)
    decreases |s|
  {
    if s == [] then 0 else ParseDecimal(s[..|s| - 1]) * 10 + DigitValue(s[|s| - 1])
  }

  lemma {:induction false} DecimalRoundTrip(n: nat)
    ensures ParseDecimal(NatToDecimal(n)) == n
    decreases n
  {
    if n >= 10 {
      var s := NatToDecimal(n);
      assert s[..|s| - 1] == NatToDecimal(n / 10);
      DecimalRoundTrip(n / 10);
    }
  }

  /** A numeral that starts with a non-zero digit has a positive value. */
  lemma {:induction false} ParseDecimalPositive(s: string)
    requires AllDecimal(s) && |s| > 0 && s[0] != '0'
    ensures ParseDecimal(s) > 0
    decreases |s|
  {
    if |s| > 1 {
      var p := s[..|s| - 1];
      assert p[0] == s[0];
      ParseDecimalPositive(p);
    }
  }

  /** Printing is also a right inverse of parsing: every canonical numeral is the rendering of its value. */
  lemma {:induction false} DecimalCanonicalRoundTrip(s: string)
    requires IsCanonicalDecimal(s)
    ensures NatToDecimal(ParseDecimal(s)) == s
    decreases |s|
  {
    if |s| > 1 {
      var p := s[..|s| - 1];
      assert p[0] == s[0];
      DecimalCanonicalRoundTrip(p);
      ParseDecimalPositive(p);
      var v := ParseDecimal(s);
      assert v / 10 == ParseDecimal(p) && v % 10 == DigitValue(s[|s| - 1]);
      assert s == p + [s[|s| - 1]];
    }
  }

  // ---------------------------------------------------------------------------
  // Signed integers
  // ---------------------------------------------------------------------------

  /** What JavaScript prints for an integer: an optional `-`, then a canonical numeral that is not `0`. */
  predicate IsCanonicalInteger(s: string) {
    IsCanonicalDecimal(s) || (|s| > 1 && s[0] == '-' && IsCanonicalDecimal(s[1..]) && s[1..] != "0")
  }

  /** `${n}` for a safe integer `n`. */
  function IntToDecimal(n: int): (s: string)
    ensures |s| > 0
    ensures s[0] == '-' <==> n < 0
  {
    if n < 0 then "-" + NatToDecimal(-n) else NatToDecimal(n)
  }

  /** Reads back an integer numeral with an optional leading minus sign. */
  function ParseInteger(s: string): (r: Option<int>)
    ensures r.Some? <==> (|s| > 0 && AllDecimal(s)) || (|s| > 1 && s[0] == '-' && AllDecimal(s[1..]))
  {
    if |s| > 0 && AllDecimal(s) then Some(ParseDecimal(s) as int)
    else if |s| > 1 && s[0] == '-' && AllDecimal(s[1..]) then Some(-(ParseDecimal(s[1..]) as int))
    else None
  }

  lemma IntegerRoundTrip(n: int)
    ensures IsCanonicalInteger(IntToDecimal(n))
    ensures ParseInteger(IntToDecimal(n)) == Some(n)
  {
    var s := IntToDecimal(n);
    if n < 0 {
      var digits := NatToDecimal(-n);
      assert s == "-" + digits && s[1..] == digits;
      assert !IsDecimalDigit(s[0]) && !AllDecimal(s);
      DecimalRoundTrip(-n);
      assert digits != "0";
    } else {
      DecimalRoundTrip(n);
    }
  }

  /** Distinct integers print differently. */
  lemma IntToDecimalInjective(m: int, n: int)
    requires IntToDecimal(m) == IntToDecimal(n)
    ensures m == n
  {
    IntegerRoundTrip(m);
    IntegerRoundTrip(n);
  }

  // ---------------------------------------------------------------------------
  // Hexadecimal digits
  // ---------------------------------------------------------------------------

  /** The characters `Number.parseInt(_, 16)` accepts as digits. */
  predicate IsHexDigit(c: char) {
    '0' <= c <= '9' || 'a' <= c <= 'f' || 'A' <= c <= 'F'
  }

  predicate AllHex(s: string) {
    forall i :: 0 <= i < |s| ==> IsHexDigit(s[i])
  }

  /** The digits `Number.prototype.toString(16)` produces. */
  predicate IsLowerHexDigit(c: char) {
    '0' <= c <= '9' || 'a' <= c <= 'f'
  }

  function HexDigitValue(c: char): (d: nat)
    requires IsHexDigit(c)
    ensures d < 16
    ensures '0' <= c <= '9' ==> d == c as int - '0' as int
    ensures 'a' <= c <= 'f' ==> d == c as int - 'a' as int + 10
    ensures 'A' <= c <= 'F' ==> d == c as int - 'A' as int + 10
  {
    if '0' <= c <= '9' then c as int - '0' as int
    else if 'a' <= c <= 'f' then c as int - 'a' as int + 10
    else c as int - 'A' as int + 10
  }

  function LowerHexChar(d: nat): (c: char)
    requires d < 16
    ensures IsHexDigit(c) && IsLowerHexDigit(c) && HexDigitValue(c) == d
  {
    if d < 10 then ('0' as int + d) as char else ('a' as int + d - 10) as char
  }

  /** `n.toString(16)` for a non-negative integer `n`. */
  function NatToHex(n: nat): (s: string)
    ensures |s| > 0
    ensures forall i :: 0 <= i < |s| ==> IsLowerHexDigit(s[i]) && IsHexDigit(s[i])
    ensures n < 16 <==> |s| == 1
    decreases n
  {
    if n < 16 then [LowerHexChar(n)] else NatToHex(n / 16) + [LowerHexChar(n % 16)]
  }

  /** `16` to the power `k`: one more than the largest value `k` hex digits can denote. */
  function Pow16(k: nat): (p: nat)
    ensures p > 0
  {
    if k == 0 then 1 else 16 * Pow16(k - 1)
  }

  /** `Number.parseInt(s, 16)` for a string made only of hex digits; `k` digits denote less than `16^k`. */
  function ParseHex(s: string): (n: nat)
    requires AllHex(s)
    ensures n < Pow16(|s|)
    decreases |s|
  {
    if s == [] then 0 else ParseHex(s[..|s| - 1]) * 16 + HexDigitValue(s[|s| - 1])
  }

  /** A two-digit hex string denotes `16 * high + low`, a byte. */
  lemma HexPairValue(s: string)
    requires |s| == 2 && AllHex(s)
    ensures ParseHex(s) == 16 * HexDigitValue(s[0]) + HexDigitValue(s[1])
    ensures ParseHex(s) < 256
  {
    assert s[..1][..0] == [];
    assert ParseHex(s[..1]) == HexDigitValue(s[0]);
  }

  lemma {:induction false} HexRoundTrip(n: nat)
    ensures ParseHex(NatToHex(n)) == n
    decreases n
  {
    if n >= 16 {
      var s := NatToHex(n);
      assert s[..|s| - 1] == NatToHex(n / 16);
      HexRoundTrip(n / 16);
    }
  }

  /** A leading zero digit does not change the value `parseInt` reads. */
  lemma {:induction false} ParseHexLeadingZero(s: string)
    requires AllHex(s)
    ensures AllHex(['0'] + s) && ParseHex(['0'] + s) == ParseHex(s)
    decreases |s|
  {
    var z := ['0'] + s;
    if s != [] {
      assert z[..|z| - 1] == ['0'] + s[..|s| - 1];
      ParseHexLeadingZero(s[..|s| - 1]);
    } else {
      assert z[..0] == [];
    }
  }

  // ---------------------------------------------------------------------------
  // padStart
  // ---------------------------------------------------------------------------

  /** `s.padStart(width, fill)` with a one-character filler. */
  function PadStart(s: string, width: nat, fill: char): (r: string)
    ensures |r| == if |s| >= width then |s| else width
    ensures r[|r| - |s|..] == s
    ensures forall i :: 0 <= i < |r| - |s| ==> r[i] == fill
  {
    if |s| >= width then s else seq(width - |s|, _ => fill) + s
  }

  /** `n.toString(16).padStart(2, "0")`: a byte renders as its high and its low hex digit, in lower case. */
  function HexByte(n: nat): (s: string)
    requires n < 256
    ensures s == [LowerHexChar(n / 16), LowerHexChar(n % 16)]
  {
    if n < 16 then
      assert PadStart(NatToHex(n), 2, '0') == ['0'] + NatToHex(n);
      PadStart(NatToHex(n), 2, '0')
    else
      assert NatToHex(n / 16) == [LowerHexChar(n / 16)];
      PadStart(NatToHex(n), 2, '0')
  }

  /** The high and the low hex digit of a byte read back as the byte. */
  lemma HexPairRoundTrip(s: string, n: nat)
    requires n < 256 && s == [LowerHexChar(n / 16), LowerHexChar(n % 16)]
    ensures AllHex(s) && ParseHex(s) == n
  {
    assert IsHexDigit(s[0]) && IsHexDigit(s[1]);
    HexPairValue(s);
    assert n == 16 * (n / 16) + n % 16;
  }

  /** Every byte renders as exactly two lower-case hex digits that `parseInt(_, 16)` reads back as the byte. */
  lemma HexByteRoundTrip(n: nat)
    requires n < 256
    ensures |HexByte(n)| == 2
    ensures forall i :: 0 <= i < 2 ==> IsLowerHexDigit(HexByte(n)[i])
    ensures AllHex(HexByte(n)) && ParseHex(HexByte(n)) == n
  {
    HexPairRoundTrip(HexByte(n), n);
  }

  // ---------------------------------------------------------------------------
  // Lower-casing (ASCII)
  // ---------------------------------------------------------------------------

  function LowerChar(c: char): (l: char)
    ensures 'A' <= c <= 'Z' ==> l as int == c as int + 32
    ensures !('A' <= c <= 'Z') ==> l == c
    ensures !('A' <= l <= 'Z')
  {
    if 'A' <= c <= 'Z' then (c as int + 32) as char else c
  }

  /** `s.toLowerCase()` for the ASCII letters; every other character is kept. */
  function ToLower(s: string): (r: string)
    ensures |r| == |s|
    ensures forall i :: 0 <= i < |s| ==> r[i] == LowerChar(s[i])
    decreases |s|
  {
    if s == [] then [] else [LowerChar(s[0])] + ToLower(s[1..])
  }

  lemma ToLowerIdempotent(s: string)
    ensures ToLower(ToLower(s)) == ToLower(s)
  {
  }

  // ---------------------------------------------------------------------------
  // includes
  // ---------------------------------------------------------------------------

  /** `needle` occurs in `hay` starting at index `i`. */
  predicate OccursAt(hay: string, needle: string, i: int) {
    0 <= i && i + |needle| <= |hay| && hay[i..i + |needle|] == needle
  }

  /** `hay.includes(needle)`, scanning the start positions left to right. */
  function Includes(hay: string, needle: string): (b: bool)
    ensures b <==> exists i :: OccursAt(hay, needle, i)
    decreases |hay|
  {
    if |needle| > |hay| then
      assert forall i :: !OccursAt(hay, needle, i);
      false
    else if hay[..|needle|] == needle then
      assert OccursAt(hay, needle, 0);
      true
    else
      var rest := Includes(hay[1..], needle);
      assert forall i :: OccursAt(hay[1..], needle, i) <==> OccursAt(hay, needle, i + 1);
      assert !OccursAt(hay, needle, 0);
      assert forall i :: OccursAt(hay, needle, i) ==> OccursAt(hay[1..], needle, i - 1);
      rest
  }

  lemma IncludesEmpty(hay: string)
    ensures Includes(hay, "")
  {
    assert OccursAt(hay, "", 0);
  }
}
