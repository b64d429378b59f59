/** The number format that the head of source/cclib/src/jsonutil.cpp documents,
    and exactly how far the texts that the parser accepts are those of the format. */
module NumberGrammar {
  import opened BaseN
  import opened Numeral
  import opened Options
  import NumberParser
  import opened NumberTexts

  // ---- The documented format ----

  /** One or more digits, with at most one decimal point anywhere. */
  predicate IsMantissa(m: string) {
    && (forall i :: 0 <= i < |m| ==> IsDigit(m[i]) || m[i] == '.')
    && (forall i, j :: 0 <= i < j < |m| ==> m[i] != '.' || m[j] != '.')
    && exists i :: 0 <= i < |m| && IsDigit(m[i])
  }

  function Unsigned(x: string): string { if x != "" && (x[0] == '-' || x[0] == '+') then x[1..] else x }

  predicate IsExponent(x: string) { Unsigned(x) != "" && AreDigits(Unsigned(x)) }

  predicate IsLetterE(c: char) { c == 'e' || c == 'E' }

  predicate IsSplit(t: string, e: nat) {
    e < |t| && IsLetterE(t[e]) && IsMantissa(t[..e]) && IsExponent(t[e + 1..])
  }

  predicate EndsInL(t: string) { t != "" && t[|t| - 1] == 'L' }

  function WithoutL(t: string): string { if EndsInL(t) then t[..|t| - 1] else t }

  /** A mantissa with an exponent or, if wanted, with a closing L. */
  ghost predicate IsDocumentedDecimal(t: string) {
    IsMantissa(WithoutL(t)) || exists e: nat :: IsSplit(t, e)
  }

  predicate IsDocumentedHex(h: string) { WithoutL(h) != "" && IsHex(WithoutL(h)) }

  function WithoutMinus(s: string): string { if IsNegative(s) then s[1..] else s }

  ghost predicate IsDocumented(s: string) {
    var t := WithoutMinus(s);
    || IsDocumentedDecimal(t)
    || (|t| > 0 && IsX(t[0]) && IsDocumentedHex(t[1..]))
    || (|t| > 1 && t[0] == '0' && IsX(t[1]) && IsDocumentedHex(t[2..]))
  }

  // ---- Its parts ----

  /** The place of the exponent's letter, or the end of the mantissa. */
  function MantissaEnd(t: string): (e: nat)
    ensures e <= |WithoutL(t)|
  {
    ExponentAt(WithoutL(t), 0)
  }

  function MantissaPart(s: string): string { WithoutMinus(s)[..MantissaEnd(WithoutMinus(s))] }

  function ExponentPart(s: string): Option<string> {
    var t := WithoutMinus(s);
    if MantissaEnd(t) == |WithoutL(t)| then None else Some(t[MantissaEnd(t) + 1..])
  }

  // ---- Mantissas ----

  lemma {:induction false} BodyIff(m: string)
    ensures IsBody(m, true)
       <==> && (forall i :: 0 <= i < |m| ==> IsDigit(m[i]) || m[i] == '.')
            && (forall i, j :: 0 <= i < j < |m| ==> m[i] != '.' || m[j] != '.')
  {
    if m != "" {
      var k := m[..|m| - 1];
      BodyIff(k);
      assert m == k + [m[|m| - 1]];
      assert '.' in k <==> exists i :: 0 <= i < |k| && k[i] == '.';
      assert forall i :: 0 <= i < |k| ==> k[i] == m[i];
    }
  }

  /** The parser's mantissas are the documented ones and the lone point. */
  lemma BodyIsMantissa(m: string)
    requires m != ""
    ensures IsBody(m, true) <==> IsMantissa(m) || m == "."
  {
    BodyIff(m);
    if |m| > 1 && IsBody(m, true) {
      assert IsDigit(m[0]) || IsDigit(m[1]);
    }
  }

  lemma NoMantissa()
    ensures !IsMantissa("") && !IsMantissa(".")
  {
    assert !IsDigit("."[0]);
  }

  // ---- Exponents ----

  lemma {:induction false} PlainBodyIff(d: string)
    ensures IsBody(d, false) <==> AreDigits(d)
  {
    if d != "" {
      PlainBodyIff(d[..|d| - 1]);
      assert d == d[..|d| - 1] + [d[|d| - 1]];
    }
  }

  function LargestExponent(x: string): nat { if IsNegative(x) then 0x100_0000 else 0xFF_FFFF }

  /** The parser reads the documented exponents of 24 bits, and no others. */
  lemma ExponentIff(x: string)
    ensures IsExponent(x) ==> IsBody(Unsigned(x), true)
    ensures Exponent(x).Some? <==> IsExponent(x) && Mantissa(Unsigned(x)) <= LargestExponent(x)
    ensures Exponent(x).Some? ==> Exponent(x).value == (if IsNegative(x) then -1 else 1) * Mantissa(Unsigned(x))
  {
    hide Mantissa, IsBody, FractionDigits;
    if x != "" {
      PlainBodyIff(Unsigned(x));
      if IsBody(Unsigned(x), false) {
        BodyWithoutPoint(Unsigned(x));
      }
    }
  }

  // ---- Texts without a hex prefix ----

  /** What follows a documented exponent's letter ends in a digit, not in an L. */
  lemma SplitHasNoL(t: string, e: nat)
    requires e < |t| && IsExponent(t[e + 1..])
    ensures !EndsInL(t)
  {
    var x := t[e + 1..];
    var d := Unsigned(x);
    assert x[|x| - 1] == t[|t| - 1] && d[|d| - 1] == x[|x| - 1];
    assert IsDigit(d[|d| - 1]);
  }

  /** The exponent's letter is where the mantissa ends. */
  lemma SplitIsFirst(t: string, e: nat)
    requires IsSplit(t, e)
    ensures MantissaEnd(t) == e && WithoutL(t) == t
  {
    SplitHasNoL(t, e);
    assert e > 0;
    forall j | 0 <= j < e ensures t[j] != 'e' && t[j] != 'E' {
      assert t[..e][j] == t[j];
    }
    NumberParser.ExponentIsAt(t, 0, e);
  }

  lemma NoLetter(m: string)
    requires IsMantissa(m)
    ensures ExponentAt(m, 0) == |m|
  {
    var e := ExponentAt(m, 0);
    assert forall i :: 0 <= i < |m| ==> !IsLetterE(m[i]);
  }

  /** A text is a documented decimal if and only if its parts are documented. */
  lemma DecimalIff(t: string)
    ensures IsDocumentedDecimal(t) <==>
      && IsMantissa(t[..MantissaEnd(t)])
      && (MantissaEnd(t) == |WithoutL(t)| || IsExponent(t[MantissaEnd(t) + 1..]))
  {
    hide IsExponent;
    var m, e := WithoutL(t), MantissaEnd(t);
    assert t[..e] == m[..e];
    if IsMantissa(m) {
      NoLetter(m);
      assert m[..|m|] == m;
    } else if exists e0: nat :: IsSplit(t, e0) {
      var e0: nat :| IsSplit(t, e0);
      SplitIsFirst(t, e0);
    } else if IsMantissa(t[..e]) {
      assert m[..|m|] == m;
      assert e < |m| && IsLetterE(t[e]);
      assert !IsSplit(t, e);
    }
  }

  // ---- What is accepted ----

  /** Places in the text and places behind its sign. */
  lemma BehindSign(s: string)
    requires WithoutMinus(s) != ""
    ensures var n := SignLength(s, false); var t := WithoutMinus(s);
      && t == s[n..] && (n == 1 ==> |s| > 1)
      && Slice(s, n, End(s, false)) == WithoutL(t) && End(s, false) == n + |WithoutL(t)|
  {
    var n := SignLength(s, false);
    assert s[n..][|s| - n - 1] == s[|s| - 1];
    assert s[n..End(s, false)] == s[n..][..End(s, false) - n];
  }

  lemma NothingBehindSign(s: string)
    requires WithoutMinus(s) == ""
    ensures Magnitude(s, false) == None && !IsDocumented(s) && HexStart(s, false) == None
  {
    NoMantissa();
    DecimalIff("");
  }

  /** With a hex prefix: accepted if and only if documented. */
  lemma HexIff(s: string)
    requires HexStart(s, false).Some?
    ensures IsDocumented(s) <==> Magnitude(s, false).Some?
    ensures Magnitude(s, false).Some? ==>
      Magnitude(s, false).value == HexNumber(WithoutL(s[HexStart(s, false).value..]))
  {
    hide HexNumber, IsHex, IsDocumentedDecimal;
    var t := WithoutMinus(s);
    BehindSign(s);
    HexIsNoDecimal(t);
    var k := HexStart(s, false).value;
    assert s[k..] == t[k - SignLength(s, false)..];
    HexDigitsOf(s, k);
  }

  lemma HexDigitsOf(s: string, k: nat)
    requires 0 < k <= |s| && s[k - 1] != 'L'
    ensures Slice(s, k, End(s, false)) == WithoutL(s[k..])
  {
    if k < |s| {
      assert s[k..][|s| - k - 1] == s[|s| - 1];
    }
  }

  lemma HexIsNoDecimal(t: string)
    requires t != "" && (IsX(t[0]) || (|t| > 1 && t[0] == '0' && IsX(t[1])))
    ensures !IsDocumentedDecimal(t)
  {
    hide IsExponent;
    DecimalIff(t);
  }

  /** The decimal reader in terms of the parts. */
  lemma ReadParts(s: string)
    requires HexStart(s, false) == None && WithoutL(WithoutMinus(s)) != ""
    ensures var n := SignLength(s, false); var m := MantissaPart(s); var x := ExponentPart(s);
      && n < End(s, false)
      && (IsBody(m, true) <==> IsMantissa(m) || m == ".")
      && ReadDecimal(s, n, End(s, false), false)
         == if !IsBody(m, true) || (x.Some? && Exponent(x.value).None?) then None
            else Some(Decimal(Mantissa(m), FractionDigits(m), if x.None? then 0 else Exponent(x.value).value))
  {
    hide Exponent, IsBody, Mantissa, FractionDigits, IsMantissa;
    var t, n := WithoutMinus(s), SignLength(s, false);
    BehindSign(s);
    var e := MantissaEnd(t);
    assert WithoutL(t)[..e] == t[..e];
    BodyIsMantissa(t[..e]);
    assert e < |WithoutL(t)| ==> s[n + e + 1..] == t[e + 1..];
  }

  /** The value of a text without hex prefix in terms of its parts. */
  lemma PartsMagnitude(s: string)
    requires HexStart(s, false) == None && WithoutL(WithoutMinus(s)) != ""
    ensures var m := MantissaPart(s); var x := ExponentPart(s);
      && (IsBody(m, true) <==> IsMantissa(m) || m == ".")
      && (x.Some? && Exponent(x.value).Some? ==> IsBody(Unsigned(x.value), true))
      && Magnitude(s, false)
         == if !IsBody(m, true) || (x.Some? && Exponent(x.value).None?) || Mantissa(m) >= BIG then None
            else Scaled(Mantissa(m), ExponentValue(x) - FractionDigits(m))
  {
    hide IsBody, Mantissa, FractionDigits, Scaled, IsMantissa, Exponent, IsExponent, ReadDecimal, MantissaPart,
         ExponentPart;
    BehindSign(s);
    ReadParts(s);
    var x := ExponentPart(s);
    if x.Some? {
      ExponentIff(x.value);
    }
  }

  function ExponentValue(x: Option<string>): int
    requires x.Some? ==> IsBody(Unsigned(x.value), true)
  {
    if x.None? then 0 else (if IsNegative(x.value) then -1 else 1) * Mantissa(Unsigned(x.value))
  }

  lemma NoHexIsDecimal(s: string)
    requires HexStart(s, false) == None
    ensures IsDocumented(s) <==> IsDocumentedDecimal(WithoutMinus(s))
  {
    hide IsDocumentedDecimal;
    var t, n := WithoutMinus(s), SignLength(s, false);
    assert t == s[n..];
  }

  /** A text without hex prefix is documented if and only if its parts are. */
  lemma PartsDocumented(s: string)
    requires HexStart(s, false) == None
    ensures var x := ExponentPart(s);
      IsDocumented(s) <==> IsMantissa(MantissaPart(s)) && (x.None? || IsExponent(x.value))
  {
    hide IsMantissa, IsExponent, IsDocumented, IsDocumentedDecimal, MantissaEnd, WithoutL;
    NoHexIsDecimal(s);
    DecimalIff(WithoutMinus(s));
  }

  /** No digits at all. */
  lemma NoDigits(s: string)
    requires HexStart(s, false) == None && WithoutL(WithoutMinus(s)) == ""
    ensures Magnitude(s, false) == None && !IsMantissa(MantissaPart(s))
  {
    NoMantissa();
    if WithoutMinus(s) == "" {
      NothingBehindSign(s);
    } else {
      BehindSign(s);
    }
  }

  /** What is accepted is documented if and only if it is hex or its mantissa is
      more than a point. */
  lemma AcceptedIsDocumented(s: string)
    requires Magnitude(s, false).Some?
    ensures IsDocumented(s) <==> HexStart(s, false).Some? || MantissaPart(s) != "."
  {
    hide IsBody, Mantissa, FractionDigits, Scaled, IsMantissa, Exponent, IsExponent, Magnitude, MantissaPart,
         ExponentPart, IsDocumented, WithoutL;
    NoMantissa();
    if HexStart(s, false).Some? {
      HexIff(s);
    } else if WithoutL(WithoutMinus(s)) == "" {
      NoDigits(s);
    } else {
      PartsMagnitude(s);
      PartsDocumented(s);
      if ExponentPart(s).Some? {
        ExponentIff(ExponentPart(s).value);
      }
    }
  }

  /** The mantissa and the result are within the documented limits, and the exponent
      is one of 24 bits. */
  ghost predicate IsWithinLimits(s: string)
    requires IsBody(MantissaPart(s), true)
    requires ExponentPart(s).Some? ==> IsBody(Unsigned(ExponentPart(s).value), true)
  {
    var m, x := MantissaPart(s), ExponentPart(s);
    && Mantissa(m) < BIG
    && (x.Some? ==> Mantissa(Unsigned(x.value)) <= LargestExponent(x.value))
    && Scaled(Mantissa(m), ExponentValue(x) - FractionDigits(m)).Some?
  }

  /** Every documented hex number is accepted; any other documented number if and
      only if it is within the limits. */
  lemma DocumentedIsAccepted(s: string)
    requires IsDocumented(s)
    ensures HexStart(s, false).Some? ==> Magnitude(s, false).Some?
    ensures HexStart(s, false).None? ==>
      && IsBody(MantissaPart(s), true)
      && (ExponentPart(s).Some? ==> IsBody(Unsigned(ExponentPart(s).value), true))
      && (Magnitude(s, false).Some? <==> IsWithinLimits(s))
  {
    hide IsBody, Mantissa, FractionDigits, Scaled, IsMantissa, Exponent, IsExponent, Magnitude, MantissaPart,
         ExponentPart, IsDocumented, WithoutL;
    if HexStart(s, false).Some? {
      HexIff(s);
    } else {
      PartsDocumented(s);
      if WithoutL(WithoutMinus(s)) == "" {
        NoDigits(s);
      } else {
        PartsMagnitude(s);
        if ExponentPart(s).Some? {
          ExponentIff(ExponentPart(s).value);
        }
      }
    }
  }

  lemma ZeroIsMantissa()
    ensures IsMantissa("0")
  {
    assert IsDigit("0"[0]);
  }

  /** Documented, but beyond the 24 bits of an exponent. */
  lemma LargeExponent(v: nat)
    requires v > 0xFF_FFFF
    ensures IsDocumented("0e" + DecimalText(v)) && Magnitude("0e" + DecimalText(v), false) == None
  {
    hide IsBody, Mantissa, FractionDigits, Scaled, IsMantissa, Exponent, DecimalText;
    var x := DecimalText(v);
    var s := "0e" + x;
    assert s[0] == '0' && s[1] == 'e' && s[2..] == x && s[..1] == "0";
    ZeroIsMantissa();
    assert IsSplit(s, 1);
    SplitIsFirst(s, 1);
    DecimalTextSpells(v);
    assert IsDigit(x[0]);
    assert Unsigned(x) == x;
    assert WithoutMinus(s) == s && HexStart(s, false) == None;
    ExponentIff(x);
    ReadParts(s);
  }

  /** Accepted, but not documented. */
  lemma LonePoint()
    ensures Magnitude(".", false) == Some(0) && !IsDocumented(".")
  {
    hide Magnitude, IsDocumented;
    PointWithoutDigits();
    AcceptedIsDocumented(".");
  }
}
