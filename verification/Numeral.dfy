/** The numbers that the text format of source/cclib/src/jsonutil.cpp denotes:
    sign, hex or decimal digits, fraction, exponent and limits. */
module Numeral {
  import opened Arith
  import opened BaseN
  import opened Options

  // ---- Digits ----

  predicate IsDigit(c: char) { '0' <= c <= '9' }

  function DigitValue(c: char): int { c as int - '0' as int }

  /** The value of a hex digit, or 255. */
  function HexDigit(c: char): (d: int)
    ensures 0 <= d <= 15 || d == 255
  {
    if IsDigit(c) then DigitValue(c)
    else if 'a' <= c <= 'f' then c as int - 'a' as int + 10
    else if 'A' <= c <= 'F' then c as int - 'A' as int + 10
    else 255
  }

  predicate IsHex(s: string) { forall i :: 0 <= i < |s| ==> HexDigit(s[i]) != 255 }

  function HexNumber(s: string): nat {
    if s == "" then 0 else HexNumber(s[..|s| - 1]) * 16 + HexDigit(s[|s| - 1])
  }

  /** Digits, with at most one decimal point among them if points are allowed. */
  predicate IsBody(s: string, points: bool) {
    s == "" || (IsBody(s[..|s| - 1], points)
                && (IsDigit(s[|s| - 1]) || (s[|s| - 1] == '.' && points && '.' !in s[..|s| - 1])))
  }

  /** The number spelled by the digits, without the decimal point. */
  function Mantissa(s: string): (m: nat)
    requires IsBody(s, true)
  {
    if s == "" then 0
    else if s[|s| - 1] == '.' then Mantissa(s[..|s| - 1])
    else 10 * Mantissa(s[..|s| - 1]) + DigitValue(s[|s| - 1])
  }

  /** The number of digits after the decimal point. */
  function FractionDigits(s: string): (n: nat)
    ensures n <= |s| && (n > 0 ==> '.' in s)
  {
    if s == "" || '.' !in s[..|s| - 1] then 0 else FractionDigits(s[..|s| - 1]) + 1
  }

  // ---- Decimals ----

  /** mant * 10^(exp - frac). */
  datatype Decimal = Decimal(mant: nat, frac: nat, exp: int)

  /** The place of the exponent's letter: never the first char. */
  function ExponentAt(t: string, i: nat): (e: nat)
    requires i <= |t|
    ensures i <= e <= |t|
    ensures forall j :: i <= j < e && j > 0 ==> t[j] != 'e' && t[j] != 'E'
    ensures e < |t| ==> e > 0 && (t[e] == 'e' || t[e] == 'E')
    decreases |t| - i
  {
    if i == |t| || (i > 0 && (t[i] == 'e' || t[i] == 'E')) then i else ExponentAt(t, i + 1)
  }

  const EXPONENT_BITS: nat := 24

  /** A sign, if any, and digits: at most 2^24 - 1, or -2^24. */
  function Exponent(x: string): (e: Option<int>)
    ensures e.Some? ==> -0x100_0000 <= e.value < 0x100_0000
  {
    if x == "" then None
    else
      var digits := if x[0] == '-' || x[0] == '+' then x[1..] else x;
      if digits == "" || !IsBody(digits, false) then None
      else
        BodyWithoutPoint(digits);
        var v: int := Mantissa(digits);
        if v > (if x[0] == '-' then 0x100_0000 else 0xFF_FFFF) then None
        else Some(if x[0] == '-' then -v else v)
  }

  lemma {:induction false} BodyWithoutPoint(s: string)
    requires IsBody(s, false)
    ensures IsBody(s, true) && '.' !in s && FractionDigits(s) == 0
  {
    if s != "" {
      BodyWithoutPoint(s[..|s| - 1]);
      assert s == s[..|s| - 1] + [s[|s| - 1]];
    }
  }

  lemma {:induction false} BodyAllowed(s: string, points: bool)
    requires IsBody(s, points)
    ensures IsBody(s, true)
  {
    if s != "" {
      BodyAllowed(s[..|s| - 1], points);
    }
  }

  /** The decimal in s[start..end]; the exponent, if there is one, goes on to the
      end of s. Within an exponent there is neither point nor exponent. */
  function ReadDecimal(s: string, start: nat, end: nat, isexp: bool): Option<Decimal>
    requires start <= end <= |s|
  {
    var t := s[start..end];
    if t == "" then None
    else
      var e := if isexp then |t| else ExponentAt(t, 0);
      if !IsBody(t[..e], !isexp) then None
      else
        BodyAllowed(t[..e], !isexp);
        var m, f := Mantissa(t[..e]), FractionDigits(t[..e]);
        if e == |t| then Some(Decimal(m, f, 0))
        else
          match Exponent(s[start + e + 1..])
          case None => None
          case Some(x) => Some(Decimal(m, f, x))
  }

  /** mant * 10^k, if that is an integer. */
  function Scaled(mant: nat, k: int): (r: Option<nat>) {
    if k >= 0 then Some(mant * Pow(10, k))
    else
      PowPositive(10, -k);
      if mant % Pow(10, -k) == 0 then Quotient(mant, Pow(10, -k)) else None
  }

  function Quotient(a: nat, b: nat): Option<nat>
    requires b > 0
  {
    Some(a / b)
  }

  // ---- Signed texts ----

  function SignLength(s: string, isexp: bool): (n: nat)
    ensures n <= |s|
  {
    if s != "" && (s[0] == '-' || (s[0] == '+' && isexp)) then 1 else 0
  }

  /** The end of the digits: before a closing "L". */
  function End(s: string, isexp: bool): (n: nat)
    requires s != ""
    ensures n <= |s|
  {
    if s[|s| - 1] == 'L' && !isexp then |s| - 1 else |s|
  }

  function Slice(s: string, start: nat, end: nat): string
    requires end <= |s|
  {
    if start < end then s[start..end] else ""
  }

  predicate IsX(c: char) { c == 'x' || c == 'X' }

  /** Where the hex digits start, if the text has a hex prefix. */
  function HexStart(s: string, isexp: bool): (r: Option<nat>)
    ensures r.Some? ==> r.value <= |s|
  {
    var sign := SignLength(s, isexp);
    if isexp then None
    else if |s| > sign && IsX(s[sign]) then Some(sign + 1)
    else if |s| >= sign + 2 && s[sign] == '0' && IsX(s[sign + 1]) then Some(sign + 2)
    else None
  }

  function HexValue(digits: string): Option<nat> {
    if digits == "" || !IsHex(digits) then None else Some(HexNumber(digits))
  }

  /** The integer that the decimal text denotes; its mantissa has to fit 256 bits. */
  ghost function DecimalValue(s: string, start: nat, end: nat, isexp: bool): Option<nat>
    requires end <= |s|
  {
    if start >= end then None
    else
      match ReadDecimal(s, start, end, isexp)
      case None => None
      case Some(d) => if d.mant >= BIG then None else Scaled(d.mant, d.exp - d.frac)
  }

  /** The absolute value that a text denotes. */
  ghost function Magnitude(s: string, isexp: bool): Option<nat> {
    var sign := SignLength(s, isexp);
    if s == "" || (sign == 1 && |s| < 2) then None
    else
      match HexStart(s, isexp)
      case Some(start) => HexValue(Slice(s, start, End(s, isexp)))
      case None => DecimalValue(s, sign, End(s, isexp), isexp)
  }

  predicate IsNegative(s: string) { s != "" && s[0] == '-' }

  /** The largest absolute value: maxval, or what goes into nbits bits and a sign. */
  ghost function LargestValue(s: string, nbits: nat, maxval: nat): int {
    if maxval != 0 then maxval
    else if !IsNegative(s) then Pow2(nbits) - 1
    else if nbits == 256 then BIG - 1
    else Pow2(nbits)
  }

  /** What parse_int_value returns: a negative number in two's complement of 256
      bits, or in the field if the limit is the largest field element. */
  ghost function IntValue(s: string, nbits: nat, maxval: nat, fieldMax: nat, isexp: bool): Option<int> {
    match Magnitude(s, isexp)
    case None => None
    case Some(v) =>
      var limit := LargestValue(s, nbits, maxval);
      if v > limit then None
      else if !IsNegative(s) || v == 0 then Some(v)
      else Some((if limit == fieldMax then fieldMax + 1 else BIG) - v)
  }
}
