/** Texts and the numbers they denote: decimal points and exponents scale, and
    every printed integer is read back. */
module NumberTexts {
  import opened Arith
  import opened BaseN
  import opened Numeral
  import opened NumberParser
  import opened Options

  predicate AreDigits(s: string) { forall i :: 0 <= i < |s| ==> IsDigit(s[i]) }

  lemma {:induction false} DigitsAreBody(s: string, points: bool)
    requires AreDigits(s)
    ensures IsBody(s, points) && IsBody(s, true) && FractionDigits(s) == 0 && '.' !in s
  {
    if s != "" {
      DigitsAreBody(s[..|s| - 1], points);
      assert s == s[..|s| - 1] + [s[|s| - 1]];
    }
  }

  /** A decimal point does not change the mantissa, and counts the digits after it. */
  lemma {:induction false} PointedBody(a: string, b: string)
    requires AreDigits(a) && AreDigits(b)
    ensures IsBody(a + b, true) && IsBody(a + "." + b, true)
    ensures Mantissa(a + "." + b) == Mantissa(a + b) && FractionDigits(a + "." + b) == |b| && '.' in a + "." + b
  {
    hide IsBody, Mantissa, FractionDigits, IsDigit, DigitValue;
    DigitsAreBody(a + b, true);
    DigitsAreBody(a, true);
    if b == "" {
      AppendPoint(a);
      assert a + b == a;
      assert a + "." + b == a + ['.'];
    } else {
      var c, d := b[..|b| - 1], b[|b| - 1];
      assert b == c + [d];
      PointedBody(a, c);
      PointedDigit(a, c, d);
    }
  }

  lemma PointedDigit(a: string, c: string, d: char)
    requires IsDigit(d) && IsBody(a + c, true) && IsBody(a + "." + c, true)
    requires Mantissa(a + "." + c) == Mantissa(a + c) && FractionDigits(a + "." + c) == |c| && '.' in a + "." + c
    ensures var b := c + [d];
      && IsBody(a + b, true) && IsBody(a + "." + b, true)
      && Mantissa(a + "." + b) == Mantissa(a + b) && FractionDigits(a + "." + b) == |b| && '.' in a + "." + b
  {
    hide IsBody, Mantissa, FractionDigits, IsDigit, DigitValue;
    AppendDigit(a + "." + c, d, true);
    AppendDigit(a + c, d, true);
    assert a + (c + [d]) == a + c + [d];
    assert a + "." + (c + [d]) == a + "." + c + [d];
  }

  /** "a.bex" denotes ab * 10^(x - |b|), if the mantissa fits and the result is integral. */
  lemma PointAndExponent(a: string, b: string, x: string)
    requires AreDigits(a) && AreDigits(b) && x != "" && x[|x| - 1] != 'L'
    ensures IsBody(a + b, true)
    ensures Magnitude(a + "." + b + "e" + x, false)
         == if Exponent(x).None? || Mantissa(a + b) >= BIG then None
            else Scaled(Mantissa(a + b), Exponent(x).value - |b|)
  {
    hide Scaled, Exponent, IsBody, Mantissa, FractionDigits, ReadDecimal, Magnitude, SignLength, HexStart, End, IsDigit;
    PointedBody(a, b);
    PlainText(a, b, x);
    ReadPointed(a, b, x);
    PlainMagnitude(a + "." + b + "e" + x);
  }

  lemma PlainMagnitude(s: string)
    requires s != "" && SignLength(s, false) == 0 && HexStart(s, false) == None && End(s, false) == |s|
    ensures var d := ReadDecimal(s, 0, |s|, false);
      Magnitude(s, false)
      == if d.None? || d.value.mant >= BIG then None else Scaled(d.value.mant, d.value.exp - d.value.frac)
  {
    hide Scaled, ReadDecimal;
  }

  /** No sign, no hex prefix, no closing "L". */
  lemma PlainText(a: string, b: string, x: string)
    requires AreDigits(a) && AreDigits(b) && x != "" && x[|x| - 1] != 'L'
    ensures var s := a + "." + b + "e" + x;
      |s| > 2 && SignLength(s, false) == 0 && HexStart(s, false) == None && End(s, false) == |s|
  {
    var s := a + "." + b + "e" + x;
    assert s[|s| - 1] == x[|x| - 1];
    assert s[0] == if a == "" then '.' else a[0];
    assert s[1] == if |a| > 1 then a[1] else if |a| == 1 then '.' else if b != "" then b[0] else 'e';
  }

  lemma ReadPointed(a: string, b: string, x: string)
    requires AreDigits(a) && AreDigits(b) && x != ""
    ensures IsBody(a + b, true)
    ensures var s := a + "." + b + "e" + x;
      ReadDecimal(s, 0, |s|, false)
      == if Exponent(x).None? then None else Some(Decimal(Mantissa(a + b), |b|, Exponent(x).value))
  {
    hide Exponent, IsBody, Mantissa, FractionDigits;
    PointedBody(a, b);
    var body := a + "." + b;
    var s := body + "e" + x;
    assert s[0..|s|] == s;
    BodyChars(body, true);
    assert forall j :: 0 <= j < |body| ==> s[j] == body[j];
    ExponentIsAt(s, 0, |body|);
    assert s[..|body|] == body && s[|body| + 1..] == x;
  }

  // ---- Printed integers ----

  function DigitChar(d: int): char
    requires 0 <= d <= 9
  {
    '0' + d as char
  }

  function DecimalText(v: nat): (s: string)
    ensures s != "" && AreDigits(s)
  {
    if v < 10 then [DigitChar(v)] else DecimalText(v / 10) + [DigitChar(v % 10)]
  }

  lemma {:induction false} DecimalTextSpells(v: nat)
    ensures IsBody(DecimalText(v), true) && Mantissa(DecimalText(v)) == v
  {
    var s := DecimalText(v);
    DigitsAreBody(s, true);
    if v < 10 {
      assert s[..0] == "";
    } else {
      DecimalTextSpells(v / 10);
      assert s[..|s| - 1] == DecimalText(v / 10);
    }
  }

  function SignedText(n: int): string { if n < 0 then "-" + DecimalText(-n) else DecimalText(n) }

  /** The absolute value of a printed integer is read back. */
  lemma SignedTextMagnitude(n: int)
    requires -BIG < n < BIG
    ensures IsNegative(SignedText(n)) <==> n < 0
    ensures Magnitude(SignedText(n), false) == Some(if n < 0 then -n else n)
  {
    hide DecimalText, IsBody, Mantissa, FractionDigits;
    var v := if n < 0 then -n else n;
    var sign := if n < 0 then 1 else 0;
    var t, s := DecimalText(v), SignedText(n);
    DecimalTextSpells(v);
    DigitsAreBody(t, true);
    assert s[sign..|s|] == t && s[sign] == t[0] && (|s| >= sign + 2 ==> s[sign + 1] == t[1]);
    assert SignLength(s, false) == sign && HexStart(s, false) == None && End(s, false) == |s|;
    NoExponent(t, 0);
    assert t[..|t|] == t;
    ScaledZero(v);
  }

  lemma {:induction false} NoExponent(t: string, i: nat)
    requires AreDigits(t) && i <= |t|
    ensures ExponentAt(t, i) == |t|
    decreases |t| - i
  {
    if i < |t| {
      NoExponent(t, i + 1);
    }
  }

  /** Every integer within the limit is read back from its decimal text, as a
      256-bit two's complement number. */
  lemma SignedRoundTrip(n: int, nbits: nat, maxval: nat, fieldMax: nat)
    requires nbits <= 256 && maxval < BIG
    requires LargestValue(SignedText(n), nbits, maxval) != fieldMax
    requires (if n < 0 then -n else n) <= LargestValue(SignedText(n), nbits, maxval)
    ensures IntValue(SignedText(n), nbits, maxval, fieldMax, false) == Some(if n < 0 then BIG + n else n)
  {
    hide DecimalText, Pow2, Magnitude;
    LargestFits(SignedText(n), nbits, maxval);
    SignedTextMagnitude(n);
  }

  /** The code accepts more than its documentation says: a decimal point without
      any digit reads as 0. */
  lemma PointWithoutDigits()
    ensures Magnitude(".", false) == Some(0)
  {
    hide IsBody, Mantissa, FractionDigits, Scaled, IsDigit;
    BigIsLarge();
    PointedBody("", "");
    assert "" + "." + "" == "." && "" + "" == "";
    MantissaOfNone();
    assert "."[0..1] == "." && "."[..1] == ".";
    assert ReadDecimal(".", 0, 1, false) == Some(Decimal(0, 0, 0));
    ScaledZero(0);
  }

  lemma MantissaOfNone()
    ensures IsBody("", true) && Mantissa("") == 0
  {
  }
}
