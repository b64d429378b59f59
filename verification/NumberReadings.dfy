/** What the number parser of source/cclib/src/jsonutil.cpp reads: hex and decimal
    texts of every integer, with signs, prefixes, closing letters and limits, and
    decimals with point and exponent. */
module NumberReadings {
  import opened Arith
  import opened BaseN
  import opened Numeral
  import opened NumberParser
  import opened NumberTexts
  import opened NumberGrammar
  import opened Options
  import Limbs

  // ---- Hex texts ----

  const LOWER: string := "0123456789abcdef"
  const UPPER: string := "0123456789ABCDEF"

  /** v in hex digits, highest first. */
  function HexText(v: nat, upper: bool): (s: string)
    ensures s != ""
  {
    var d := (if upper then UPPER else LOWER)[v % 16];
    if v < 16 then [d] else HexText(v / 16, upper) + [d]
  }

  lemma {:induction false} HexTextSpells(v: nat, upper: bool)
    ensures IsHex(HexText(v, upper)) && HexNumber(HexText(v, upper)) == v
  {
    var s, d := HexText(v, upper), (if upper then UPPER else LOWER)[v % 16];
    DigitOfHex(v % 16);
    if v < 16 {
      assert s[..0] == "";
      assert HexNumber(s) == HexNumber("") * 16 + HexDigit(d);
    } else {
      HexTextSpells(v / 16, upper);
      assert s[..|s| - 1] == HexText(v / 16, upper);
    }
  }

  lemma DigitOfHex(d: nat)
    requires d < 16
    ensures HexDigit(LOWER[d]) == d == HexDigit(UPPER[d])
  {
  }

  // ---- Texts of integers ----

  /** A sign, a prefix, digits, and a closing letter. */
  function TextOf(negative: bool, prefix: string, digits: string, closing: bool): string {
    (if negative then "-" else "") + prefix + digits + if closing then "L" else ""
  }

  predicate IsHexPrefix(prefix: string) { prefix == "x" || prefix == "X" || prefix == "0x" || prefix == "0X" }

  lemma {:induction false} NoL(digits: string)
    requires digits != "" && (IsHex(digits) || AreDigits(digits))
    ensures digits[|digits| - 1] != 'L'
  {
  }

  /** The absolute value that a hex text denotes. */
  lemma HexMagnitude(negative: bool, prefix: string, v: nat, upper: bool, closing: bool)
    requires IsHexPrefix(prefix)
    ensures var s := TextOf(negative, prefix, HexText(v, upper), closing);
      Magnitude(s, false) == Some(v) && IsNegative(s) == negative
  {
    hide HexText, HexNumber, IsHex;
    var digits := HexText(v, upper);
    var s := TextOf(negative, prefix, digits, closing);
    HexTextSpells(v, upper);
    NoL(digits);
    var n := if negative then 1 else 0;
    assert SignLength(s, false) == n && IsNegative(s) == negative;
    assert HexStart(s, false) == Some(n + |prefix|) by {
      assert s[n] == prefix[0] && (|prefix| > 1 ==> s[n + 1] == prefix[1]);
    }
    assert s[|s| - 1] == if closing then 'L' else digits[|digits| - 1];
    assert s[n + |prefix|..End(s, false)] == digits;
  }

  /** The absolute value that a decimal text denotes. */
  lemma DecimalMagnitude(negative: bool, v: nat, closing: bool)
    requires v < BIG
    ensures var s := TextOf(negative, "", DecimalText(v), closing);
      Magnitude(s, false) == Some(v) && IsNegative(s) == negative
  {
    hide DecimalText, IsBody, Mantissa, FractionDigits, Scaled;
    var t := DecimalText(v);
    var s := TextOf(negative, "", t, closing);
    DecimalTextSpells(v);
    DigitsAreBody(t, true);
    NoL(t);
    var n := if negative then 1 else 0;
    assert s[n] == t[0] && (|t| > 1 ==> s[n + 1] == t[1]) && (|s| > n + |t| ==> s[n + |t|] == 'L');
    assert s[|s| - 1] == if closing then 'L' else t[|t| - 1];
    assert SignLength(s, false) == n && HexStart(s, false) == None && End(s, false) == n + |t|;
    assert s[n..n + |t|] == t;
    NoExponent(t, 0);
    assert t[..|t|] == t;
    ScaledZero(v);
  }

  // ---- Limits ----

  /** Up to maxval, if it is given; otherwise what nbits hold, and one more for a negative
      number unless there are 256 bits. */
  predicate IsInLimits(negative: bool, v: nat, nbits: nat, maxval: nat) {
    if maxval != 0 then v <= maxval
    else if negative && nbits < 256 then v <= Pow2(nbits)
    else v < Pow2(nbits)
  }

  /** The largest field element, of 254 bits. */
  predicate IsLargestElement(fieldMax: nat) { Pow2(253) < fieldMax < Pow2(254) }

  /** What an absolute value is read as: refused out of the limits; a negative number as its
      field element if the limit is the field's, and otherwise in two's complement. */
  lemma ReadingIs(s: string, v: nat, nbits: nat, maxval: nat, fieldMax: nat)
    requires Magnitude(s, false) == Some(v) && nbits <= 256 && IsLargestElement(fieldMax)
    ensures IntValue(s, nbits, maxval, fieldMax, false)
         == if !IsInLimits(IsNegative(s), v, nbits, maxval) then None
            else if !IsNegative(s) || v == 0 then Some(v)
            else Some((if maxval == fieldMax then fieldMax + 1 else Pow2(256)) - v)
  {
    hide Magnitude, Pow2, Limbs.Capacity;
    BigIsPow2();
    if maxval == 0 {
      NotThePower(nbits, fieldMax);
    }
  }

  lemma NotThePower(nbits: nat, fieldMax: nat)
    requires nbits <= 256 && IsLargestElement(fieldMax)
    ensures fieldMax != Pow2(nbits) && fieldMax < Pow2(256) - 1 && Pow2(nbits) <= Pow2(256)
  {
    hide Pow2;
    if nbits <= 253 {
      Pow2Mono(nbits, 253);
    } else {
      Pow2Mono(254, nbits);
    }
    Pow2Mono(nbits, 256);
    Pow2Double(254);
    Pow2Double(255);
  }

  /** Every hex text of an integer of any size is read as that integer, within the limits,
      whatever its prefix, its case, its sign and its closing letter. */
  lemma HexReading(negative: bool, prefix: string, v: nat, upper: bool, closing: bool, nbits: nat, maxval: nat,
                   fieldMax: nat)
    requires IsHexPrefix(prefix) && nbits <= 256 && IsLargestElement(fieldMax)
    ensures IntValue(TextOf(negative, prefix, HexText(v, upper), closing), nbits, maxval, fieldMax, false)
         == if !IsInLimits(negative, v, nbits, maxval) then None
            else if !negative || v == 0 then Some(v)
            else Some((if maxval == fieldMax then fieldMax + 1 else Pow2(256)) - v)
  {
    hide HexText, IntValue, Magnitude, Pow2;
    HexMagnitude(negative, prefix, v, upper, closing);
    ReadingIs(TextOf(negative, prefix, HexText(v, upper), closing), v, nbits, maxval, fieldMax);
  }

  /** The same for decimal texts of up to 256 bits. */
  lemma DecimalReading(negative: bool, v: nat, closing: bool, nbits: nat, maxval: nat, fieldMax: nat)
    requires v < Pow2(256) && nbits <= 256 && IsLargestElement(fieldMax)
    ensures IntValue(TextOf(negative, "", DecimalText(v), closing), nbits, maxval, fieldMax, false)
         == if !IsInLimits(negative, v, nbits, maxval) then None
            else if !negative || v == 0 then Some(v)
            else Some((if maxval == fieldMax then fieldMax + 1 else Pow2(256)) - v)
  {
    hide DecimalText, IntValue, Magnitude, Pow2, Limbs.Capacity;
    BigIsPow2();
    DecimalMagnitude(negative, v, closing);
    ReadingIs(TextOf(negative, "", DecimalText(v), closing), v, nbits, maxval, fieldMax);
  }

  // ---- Point and exponent ----

  /** The text of an exponent is read as that exponent. */
  lemma ExponentReading(x: int, plus: bool)
    requires -0x100_0000 <= x < 0x100_0000
    ensures var t := if x < 0 then "-" + DecimalText(-x) else (if plus then "+" else "") + DecimalText(x);
      Exponent(t) == Some(x) && t[|t| - 1] != 'L'
  {
    hide DecimalText, IsBody, Mantissa, FractionDigits;
    var v := if x < 0 then -x else x;
    var d := DecimalText(v);
    var t := if x < 0 then "-" + d else (if plus then "+" else "") + d;
    DecimalTextSpells(v);
    DigitsAreBody(d, false);
    NoL(d);
    assert t[|t| - 1] == d[|d| - 1];
    if x < 0 || plus {
      assert t[1..] == d;
    } else {
      assert t == d && IsDigit(d[0]);
    }
  }

  /** r is mant * 10^k, with factors on both sides so that nothing is divided. */
  lemma ScaledIff(mant: nat, k: int, r: nat)
    ensures Scaled(mant, k) == Some(r)
       <==> r * Pow(10, if k < 0 then -k else 0) == mant * Pow(10, if k > 0 then k else 0)
  {
    hide Pow;
    PowZero(10);
    if k < 0 {
      var p := Pow(10, -k);
      PowPositive(10, -k);
      if r * p == mant {
        ModIs(mant, r, p, 0);
      }
      if mant % p == 0 {
        assert mant == mant / p * p;
      }
    }
  }

  /** a.bEx is read as v if and only if v times the powers of ten on its side is the number
      ab, of at most 256 bits, times those on the other. */
  lemma PointReading(a: string, b: string, x: int, plus: bool, v: nat)
    requires AreDigits(a) && AreDigits(b) && -0x100_0000 <= x < 0x100_0000
    ensures IsBody(a + b, true)
    ensures var t := if x < 0 then "-" + DecimalText(-x) else (if plus then "+" else "") + DecimalText(x);
      var k := x - |b|;
      Magnitude(a + "." + b + "e" + t, false) == Some(v)
      <==> && Mantissa(a + b) < Pow2(256)
           && v * Pow(10, if k < 0 then -k else 0) == Mantissa(a + b) * Pow(10, if k > 0 then k else 0)
  {
    hide DecimalText, IsBody, Mantissa, Magnitude, Pow2, Pow, Scaled, Limbs.Capacity, Exponent;
    BigIsPow2();
    ExponentReading(x, plus);
    var t := if x < 0 then "-" + DecimalText(-x) else (if plus then "+" else "") + DecimalText(x);
    PointAndExponent(a, b, t);
    ScaledIff(Mantissa(a + b), x - |b|, v);
  }
}
