/** The number parser of source/cclib/src/jsonutil.cpp: loops on 256-bit
    arithmetic that wraps, proved to accept exactly the texts that denote an
    integer within the limit, and to return that integer. */
module NumberParser {
  import opened Arith
  import opened BaseN
  import opened Bytes
  import opened Numeral
  import Limbs
  import opened Options

  /** No index or exponent counter overflows an int. */
  const MAX_TEXT: nat := 0x4000_0000

  // ---- Prefixes of digit strings ----

  lemma {:induction false} HexPrefix(s: string, k: nat)
    requires k <= |s| && IsHex(s)
    ensures IsHex(s[..k]) && HexNumber(s[..k]) <= HexNumber(s)
  {
    if k == |s| {
      assert s[..k] == s;
    } else {
      var t := s[..|s| - 1];
      HexPrefix(t, k);
      assert t[..k] == s[..k];
      assert HexNumber(s) == HexNumber(t) * 16 + HexDigit(s[|s| - 1]);
    }
  }

  lemma {:induction false} BodyPrefix(s: string, k: nat, points: bool)
    requires k <= |s| && IsBody(s, points)
    ensures IsBody(s[..k], points) && IsBody(s, true) && IsBody(s[..k], true) && Mantissa(s[..k]) <= Mantissa(s)
  {
    BodyAllowed(s, points);
    if k == |s| {
      assert s[..k] == s;
    } else {
      var t := s[..|s| - 1];
      BodyPrefix(t, k, points);
      assert t[..k] == s[..k];
    }
  }

  lemma {:induction false} BodyChars(s: string, points: bool)
    requires IsBody(s, points)
    ensures forall i :: 0 <= i < |s| ==> IsDigit(s[i]) || (s[i] == '.' && points)
  {
    if s != "" {
      BodyChars(s[..|s| - 1], points);
      assert s == s[..|s| - 1] + [s[|s| - 1]];
    }
  }

  lemma AppendDigit(s: string, d: char, points: bool)
    requires IsBody(s, points) && IsBody(s, true) && IsDigit(d)
    ensures IsBody(s + [d], points) && IsBody(s + [d], true) && Mantissa(s + [d]) == 10 * Mantissa(s) + DigitValue(d)
    ensures FractionDigits(s + [d]) == if '.' in s then FractionDigits(s) + 1 else 0
    ensures '.' in s + [d] <==> '.' in s
  {
    assert (s + [d])[..|s|] == s;
  }

  lemma AppendPoint(s: string)
    requires IsBody(s, true) && '.' !in s
    ensures IsBody(s + ['.'], true) && Mantissa(s + ['.']) == Mantissa(s) && FractionDigits(s + ['.']) == 0
    ensures '.' in s + ['.']
  {
    assert (s + ['.'])[..|s|] == s;
  }

  // ---- Steps of 256-bit arithmetic ----

  lemma Wraps(x: int)
    ensures 0 <= x < BIG ==> Big(x) == x
    ensures -BIG <= x < 0 ==> Big(x) == BIG + x
  {
    hide Residue;
    if 0 <= x < BIG {
      ResidueSmall(x, BIG);
    } else if -BIG <= x < 0 {
      AddOnce(x, BIG);
      ResidueSmall(BIG + x, BIG);
    }
  }

  lemma AddOnce(x: int, p: int)
    requires p > 0
    ensures Residue(x, p) == Residue(p + x, p)
  {
    var q := x / p;
    assert (q + 1) * p == q * p + p;
    ModIs(p + x, q + 1, p, x % p);
  }

  lemma BigIsLarge()
    ensures BIG >= 0x1_0000_0000_0000_0000
  {
    hide Pow2;
    BigIsPow2();
    Limbs.WordIsPow2();
    Pow2Mono(64, 256);
  }

  /** val * 10 + c, if that is below 2^256. */
  method TimesTenPlus(val: nat, c: nat) returns (r: Option<nat>)
    requires val < BIG && c <= 9
    ensures r == if val * 10 + c < BIG then Some(val * 10 + c) else None
  {
    hide Big;
    BigIsLarge();
    var m1 := Big(0 - 1);
    Wraps(-1);
    var premax := m1 / 10;
    if val > premax {
      return None;
    }
    Wraps(val * 10);
    var v := Big(val * 10);
    Wraps(-(c + 1));
    var premaxc := Big(0 - (c + 1));
    if v > premaxc {
      return None;
    }
    Wraps(v + c);
    v := Big(v + c);
    return Some(v);
  }

  /** val / 10, if that is exact. */
  method DivideByTen(val: nat) returns (r: Option<nat>)
    requires val < BIG
    ensures r == if val % 10 == 0 then Some(val / 10) else None
  {
    hide Big;
    var newval := val / 10;
    Wraps(newval * 10);
    var rem := Big(newval * 10);
    Wraps(val - rem);
    rem := Big(val - rem);
    if rem != 0 {
      return None;
    }
    return Some(newval);
  }

  // ---- Hex ----

  /** val * 16 + c, if that is at most maxval. */
  method TimesSixteenPlus(val: nat, c: nat, maxval: nat) returns (r: Option<nat>)
    requires val <= maxval && 0 < maxval < BIG && c <= 15
    ensures r == if val * 16 + c <= maxval then Some(val * 16 + c) else None
  {
    hide Big;
    BigIsLarge();
    var premax := maxval / 16;
    if premax != 0 && val > premax {
      return None;
    }
    Wraps(val * 16);
    var v := Big(val * 16);
    Wraps(maxval - c);
    var premaxc := Big(maxval - c);
    if v > premaxc {
      return None;
    }
    Wraps(v + c);
    v := Big(v + c);
    if v > maxval {
      return None;
    }
    return Some(v);
  }

  method ParseHexValue(sval: string, start: nat, end: nat, maxval: nat) returns (r: Option<nat>)
    requires start <= |sval| && end <= |sval| && 0 < maxval < BIG
    ensures var v := HexValue(Slice(sval, start, end));
      r == if v.Some? && v.value <= maxval then v else None
  {
    hide IsHex, HexNumber, HexDigit;
    if start >= end {
      return None;
    }
    var val: nat := 0;
    ghost var t := sval[start..end];
    NoHex();
    for i := start to end
      invariant val == HexNumber(t[..i - start]) <= maxval && IsHex(t[..i - start])
    {
      var c := HexDigit(sval[i]);
      HexStep(t, i - start);
      if c > 15 {
        return None;
      }
      var next := TimesSixteenPlus(val, c, maxval);
      if next.None? {
        return None;
      }
      val := next.value;
    }
    assert t[..end - start] == t;
    return Some(val);
  }

  lemma NoHex()
    ensures IsHex("") && HexNumber("") == 0
  {
  }

  /** One more digit; if the prefix is no hex number, or too large, so is the whole. */
  lemma HexStep(t: string, k: nat)
    requires k < |t| && IsHex(t[..k])
    ensures IsHex(t[..k + 1]) <==> HexDigit(t[k]) != 255
    ensures HexNumber(t[..k + 1]) == HexNumber(t[..k]) * 16 + HexDigit(t[k])
    ensures IsHex(t) ==> IsHex(t[..k + 1]) && HexNumber(t[..k + 1]) <= HexNumber(t)
  {
    assert t[..k + 1][..k] == t[..k];
    assert t[..k + 1] == t[..k] + [t[k]];
    if IsHex(t) {
      HexPrefix(t, k + 1);
    }
  }

  // ---- Decimals ----

  /** Moving one power of ten between a number and its scale. */
  lemma ScaledStep(val: nat, k: int)
    requires k != 0
    ensures k > 0 ==> Scaled(val, k) == Scaled(val * 10, k - 1) && Scaled(val, k).value >= val * 10
    ensures k < 0 && val % 10 == 0 ==> Scaled(val, k) == Scaled(val / 10, k + 1)
    ensures k < 0 && val % 10 != 0 ==> Scaled(val, k) == None
  {
    hide Pow;
    if k > 0 {
      PowStep(10, k);
      PowPositive(10, k - 1);
      MulMono(1, Pow(10, k - 1), val * 10);
      assert val * Pow(10, k) == val * 10 * Pow(10, k - 1);
      assert Pow(10, k - 1) * (val * 10) == val * 10 * Pow(10, k - 1);
    } else {
      PowStep(10, -k);
      PowPositive(10, -k - 1);
      TenTimes(val, Pow(10, -k - 1));
      PowZero(10);
    }
  }

  lemma TenTimes(val: nat, p: nat)
    requires p >= 1
    ensures 10 * p > 0
    ensures val % 10 != 0 ==> val % (10 * p) != 0
    ensures val % 10 == 0 ==> (val % (10 * p) == 0 <==> val / 10 % p == 0) && val / (10 * p) == val / 10 / p
  {
    LowDigits(val, 10, p);
    DivideTwice(val, 10, p);
    assert 0 <= val / 10 % p;
  }

  lemma ScaledZero(val: nat)
    ensures Scaled(val, 0) == Some(val)
  {
  }

  /** What a text denotes as soon as its mantissa, scale and limit are known. */
  ghost function Finished(val: nat, k: int, maxval: nat): Option<nat> {
    var v := Scaled(val, k);
    if v.Some? && v.value <= maxval then v else None
  }

  /** The text in terms of what has been read before place i. */
  ghost function Expected(sval: string, start: nat, end: nat, maxval: nat, isexp: bool): Option<nat>
    requires start <= end <= |sval|
  {
    var v := DecimalValue(sval, start, end, isexp);
    if v.Some? && v.value <= maxval then v else None
  }

  /** The chars from start to i are the beginning of a mantissa. */
  ghost predicate Scanned(sval: string, start: nat, end: nat, isexp: bool, i: nat, val: int, frac: int)
    requires start <= end <= |sval|
  {
    && start <= i <= end
    && var body := sval[start..i];
      && IsBody(body, !isexp) && IsBody(body, true)
      && val == Mantissa(body) < BIG
      && frac == if '.' in body then FractionDigits(body) + 1 else 0
  }

  lemma ScanDone(sval: string, start: nat, end: nat, isexp: bool, val: int, frac: int, maxval: nat)
    requires start < end <= |sval| && Scanned(sval, start, end, isexp, end, val, frac)
    ensures 0 <= val
    ensures Expected(sval, start, end, maxval, isexp) == Finished(val, if frac >= 2 then -(frac - 1) else 0, maxval)
  {
    hide Scaled;
    var t := sval[start..end];
    BodyChars(t, !isexp);
    var e := ExponentAt(t, 0);
    assert e == |t|;
    assert t[..|t|] == t;
  }

  /** At an exponent's letter. */
  lemma ScanExponent(sval: string, start: nat, end: nat, i: nat, val: int, frac: int, maxval: nat)
    requires start < i < end <= |sval| && Scanned(sval, start, end, false, i, val, frac)
    requires sval[i] == 'e' || sval[i] == 'E'
    ensures 0 <= val
    ensures var x := Exponent(sval[i + 1..]);
      Expected(sval, start, end, maxval, false)
      == if x.None? then None else Finished(val, x.value - if frac > 1 then frac - 1 else 0, maxval)
  {
    hide Scaled, Exponent;
    var t := sval[start..end];
    BodyChars(sval[start..i], true);
    assert forall j :: 0 <= j < i - start ==> t[j] == sval[start..i][j];
    ExponentIsAt(t, 0, i - start);
    assert t[..i - start] == sval[start..i];
  }

  lemma {:induction false} ExponentIsAt(t: string, i: nat, e: nat)
    requires i <= e < |t| && 0 < e && (t[e] == 'e' || t[e] == 'E')
    requires forall j :: i <= j < e ==> t[j] != 'e' && t[j] != 'E'
    ensures ExponentAt(t, i) == e
    decreases e - i
  {
    if i < e {
      ExponentIsAt(t, i + 1, e);
    }
  }

  lemma NextPrefix(s: string, start: nat, end: nat, e: nat, i: nat)
    requires start <= i < start + e <= end <= |s|
    ensures s[start..end][..e][..i - start + 1] == s[start..i + 1]
    ensures var b := s[start..i + 1]; b[..|b| - 1] == s[start..i] && b[|b| - 1] == s[i]
  {
    assert s[start..end][..e] == s[start..start + e];
    assert s[start..start + e][..i - start + 1] == s[start..i + 1];
  }

  /** A char that can neither go on with the mantissa nor start an exponent. */
  lemma ScanBad(sval: string, start: nat, end: nat, isexp: bool, i: nat, val: int, frac: int, maxval: nat)
    requires i < end <= |sval| && start <= end && Scanned(sval, start, end, isexp, i, val, frac)
    requires !IsDigit(sval[i]) && !(sval[i] == '.' && frac == 0 && !isexp)
    requires !((sval[i] == 'e' || sval[i] == 'E') && i > start && !isexp)
    ensures Expected(sval, start, end, maxval, isexp) == None
  {
    hide Scaled, Exponent;
    var t := sval[start..end];
    var e := if isexp then |t| else ExponentAt(t, 0);
    var k := i - start;
    BodyChars(sval[start..i], !isexp);
    assert forall j :: 0 <= j < k ==> t[j] == sval[start..i][j];
    assert t[k] == sval[i] && e > k;
    if IsBody(t[..e], !isexp) {
      BodyPrefix(t[..e], k + 1, !isexp);
      NextPrefix(sval, start, end, e, i);
    }
  }

  /** One more digit or the decimal point. */
  lemma ScanStep(sval: string, start: nat, end: nat, isexp: bool, i: nat, val: int, frac: int)
    requires i < end <= |sval| && start <= end && Scanned(sval, start, end, isexp, i, val, frac)
    ensures sval[i] == '.' && frac == 0 && !isexp ==> Scanned(sval, start, end, isexp, i + 1, val, 1)
    ensures IsDigit(sval[i]) && val * 10 + DigitValue(sval[i]) < BIG ==>
              Scanned(sval, start, end, isexp, i + 1, val * 10 + DigitValue(sval[i]), if frac == 0 then 0 else frac + 1)
  {
    hide IsBody, Mantissa, FractionDigits, IsDigit, DigitValue;
    assert sval[start..i + 1] == sval[start..i] + [sval[i]];
    PointIsNoDigit(sval[i]);
    if sval[i] == '.' && frac == 0 && !isexp {
      AppendPoint(sval[start..i]);
    } else if IsDigit(sval[i]) {
      AppendDigit(sval[start..i], sval[i], !isexp);
    }
  }

  lemma PointIsNoDigit(c: char)
    ensures IsDigit(c) ==> c != '.' && 0 <= DigitValue(c) <= 9
  {
  }

  /** The mantissa gets too large. */
  lemma ScanOverflow(sval: string, start: nat, end: nat, isexp: bool, i: nat, val: int, frac: int, maxval: nat)
    requires i < end <= |sval| && start <= end && Scanned(sval, start, end, isexp, i, val, frac)
    requires IsDigit(sval[i]) && val * 10 + DigitValue(sval[i]) >= BIG
    ensures Expected(sval, start, end, maxval, isexp) == None
  {
    hide Scaled, Exponent;
    var t := sval[start..end];
    var e := if isexp then |t| else ExponentAt(t, 0);
    var k := i - start;
    BodyChars(sval[start..i], !isexp);
    assert forall j :: 0 <= j < k ==> t[j] == sval[start..i][j];
    assert t[k] == sval[i] && e > k;
    if IsBody(t[..e], !isexp) {
      BodyPrefix(t[..e], k + 1, !isexp);
      NextPrefix(sval, start, end, e, i);
      assert Mantissa(sval[start..i + 1]) == 10 * Mantissa(sval[start..i]) + DigitValue(sval[i]);
    }
  }

  /** The lowest limb. */
  function LowLimb(x: nat): int { x % Limbs.WORD }

  /** The lowest limb of a parsed exponent, as an int32, is the exponent. */
  lemma ExponentWord(e: int)
    requires -0x100_0000 <= e < 0x100_0000
    ensures 0 <= (if e < 0 then BIG + e else e) < BIG
    ensures Int32(LowLimb(if e < 0 then BIG + e else e)) == e
  {
    BigIsLarge();
    if e < 0 {
      var k := Limbs.Capacity(3);
      assert BIG == Limbs.WORD * k;
      ModIs(BIG + e, k - 1, Limbs.WORD, Limbs.WORD + e);
      assert (k - 1) * Limbs.WORD == Limbs.WORD * k - Limbs.WORD;
      IntOfWord(e);
    } else {
      ModSmall(e, Limbs.WORD);
    }
  }

  lemma IntOfWord(e: int)
    requires -0x100_0000 <= e < 0
    ensures Int32(Limbs.WORD + e) == e
  {
  }

  /** In an exponent, parse_int_value reads the exponent. */
  lemma ExponentIsValue(x: string, fieldMax: nat)
    requires fieldMax > 0x100_0000
    ensures var e := Exponent(x);
      IntValue(x, EXPONENT_BITS, 0, fieldMax, true)
      == if e.None? then None else Some(if e.value < 0 then BIG + e.value else e.value)
  {
    hide Mantissa, IsBody, FractionDigits, Pow2, Pow;
    BigIsLarge();
    Pow2Of24();
    if x != "" {
      var sign := SignLength(x, true);
      var digits := x[sign..];
      assert sign == 0 ==> digits == x;
      assert x[sign..|x|] == digits && digits[..|digits|] == digits;
      assert digits == if x[0] == '-' || x[0] == '+' then x[1..] else x;
      if digits != "" && IsBody(digits, false) {
        BodyWithoutPoint(digits);
        ScaledZero(Mantissa(digits));
        assert ReadDecimal(x, sign, |x|, true) == Some(Decimal(Mantissa(digits), 0, 0));
      }
    }
  }

  lemma Pow2Of24()
    ensures Pow2(24) == 0x100_0000
  {
    assert Pow2(4) == 16;
    Pow2Add(4, 4);
    Pow2Add(8, 8);
    Pow2Add(16, 8);
  }

  /** What one step of the exponent phase does to the expected result. */
  lemma FinishedStep(val: nat, k: int, maxval: nat)
    requires val < BIG && k != 0 && maxval < BIG
    ensures k > 0 && val * 10 >= BIG ==> Finished(val, k, maxval) == None
    ensures k > 0 ==> Finished(val, k, maxval) == Finished(val * 10, k - 1, maxval)
    ensures k < 0 && val % 10 == 0 ==> Finished(val, k, maxval) == Finished(val / 10, k + 1, maxval)
    ensures k < 0 && val % 10 != 0 ==> Finished(val, k, maxval) == None
  {
    hide Scaled;
    ScaledStep(val, k);
  }

  lemma FinishedNow(val: nat, maxval: nat)
    ensures Finished(val, 0, maxval) == if val <= maxval then Some(val) else None
  {
    hide Scaled;
    ScaledZero(val);
  }

  lemma ScanStart(sval: string, start: nat, end: nat, isexp: bool)
    requires start <= end <= |sval|
    ensures Scanned(sval, start, end, isexp, start, 0, 0)
  {
    BigIsLarge();
  }

  lemma ScanBounds(sval: string, start: nat, end: nat, isexp: bool, i: nat, val: int, frac: int)
    requires start <= end <= |sval| && Scanned(sval, start, end, isexp, i, val, frac)
    ensures 0 <= val < BIG && 0 <= frac <= |sval| + 1
  {
  }

  /** A mantissa, then the exponent's multiplications or divisions by ten. */
  method ParseDecValue(sval: string, start: nat, end: nat, maxval: nat, fieldMax: nat, isexp: bool)
    returns (r: Option<nat>)
    requires start <= |sval| < MAX_TEXT && end <= |sval| && 0 < maxval < BIG && fieldMax > 0x100_0000
    ensures start >= end ==> r == None
    ensures start < end ==> r == Expected(sval, start, end, maxval, isexp)
    decreases if isexp then 0 else 1, 0
  {
    hide Scanned, Expected, Finished, Int32, LowLimb, Exponent, IntValue, IsDigit;
    if end <= start {
      return None;
    }
    var val: nat, frac, exp, i: nat := 0, 0, 0, start;
    ghost var want := Expected(sval, start, end, maxval, isexp);
    ScanStart(sval, start, end, isexp);
    while true
      invariant exp == 0 ==> Scanned(sval, start, end, isexp, i, val, frac)
      invariant exp != 0 ==> want == Finished(val, exp, maxval)
      invariant val < BIG && 0 <= frac && start <= i && (exp == 0 ==> i <= end)
      decreases exp == 0, if exp == 0 then end - i else if exp > 0 then exp else -exp
    {
      if exp == 0 {
        ScanBounds(sval, start, end, isexp, i, val, frac);
      }
      if i >= end && exp == 0 {
        ScanDone(sval, start, end, isexp, val, frac, maxval);
        if frac < 2 {
          break;
        }
        exp := exp - (frac - 1);
      }
      var c := if exp != 0 then '0' else sval[i];
      if exp == 0 {
        ScanStep(sval, start, end, isexp, i, val, frac);
      }
      if c == '.' && frac == 0 && !isexp {
        frac := 1;
        i := i + 1;
        continue;
      } else if (c == 'e' || c == 'E') && i > start && !isexp {
        ScanExponent(sval, start, end, i, val, frac, maxval);
        var bigval := ParseIntValue(sval[i + 1..], EXPONENT_BITS, 0, fieldMax, true);
        ExponentIsValue(sval[i + 1..], fieldMax);
        if bigval.None? {
          return None;
        }
        ExponentWord(Exponent(sval[i + 1..]).value);
        exp := Int32(LowLimb(bigval.value));
        if frac > 1 {
          exp := exp - (frac - 1);
        }
        assert -0x8000_0000 <= exp < 0x8000_0000;
        if exp == 0 {
          break;
        }
        i := i + 1;
        continue;
      } else if c < '0' || c > '9' {
        CharIsDigit(c);
        ScanBad(sval, start, end, isexp, i, val, frac, maxval);
        return None;
      }
      CharIsDigit(c);
      var d := DigitValue(c);
      if exp != 0 {
        FinishedStep(val, exp, maxval);
      }
      ghost var frac0 := frac;
      if frac != 0 {
        frac := frac + 1;
      }
      if exp >= 0 {
        var next := TimesTenPlus(val, d);
        if next.None? {
          if exp == 0 {
            ScanOverflow(sval, start, end, isexp, i, val, frac0, maxval);
          }
          return None;
        }
        val := next.value;
        if exp > 0 {
          exp := exp - 1;
          if exp == 0 {
            break;
          }
        }
      } else {
        var next := DivideByTen(val);
        if next.None? {
          return None;
        }
        val := next.value;
        exp := exp + 1;
        if exp == 0 {
          break;
        }
      }
      i := i + 1;
    }
    FinishedNow(val, maxval);
    if val > maxval {
      return None;
    }
    return Some(val);
  }

  lemma CharIsDigit(c: char)
    ensures IsDigit(c) <==> !(c < '0' || c > '9')
    ensures IsDigit(c) ==> 0 <= DigitValue(c) <= 9
    ensures DigitValue('0') == 0
  {
  }

  /** The sign, the limit, and the absolute value. */
  method ParseSignedValue(sval: string, nbits: nat, maxval0: nat, fieldMax: nat, isexp: bool)
    returns (r: Option<nat>, negative: bool, maxval: nat)
    requires |sval| < MAX_TEXT && fieldMax > 0x100_0000
    requires (maxval0 == 0 <==> nbits > 0) && nbits <= 256 && maxval0 < BIG
    ensures var v := Magnitude(sval, isexp);
      r == if v.Some? && v.value <= LargestValue(sval, nbits, maxval0) then v else None
    ensures r.Some? ==> negative == IsNegative(sval) && maxval == LargestValue(sval, nbits, maxval0)
    decreases if isexp then 0 else 1, 1
  {
    hide Pow2, HexValue, DecimalValue, Big;
    negative := false;
    maxval := maxval0;
    if maxval == 0 {
      maxval := AllOnes(nbits);
    }
    LimitsFit(nbits);
    if |sval| == 0 {
      return None, negative, maxval;
    }
    var hasSign := 0;
    var prechar := sval[0];
    if prechar == '-' || (prechar == '+' && isexp) {
      if |sval| < 2 {
        return None, negative, maxval;
      }
      hasSign := 1;
      if prechar == '-' {
        negative := true;
        if nbits > 0 {
          Wraps(maxval + 1);
          if nbits == 256 {
            WrapsToZero();
          } else {
            NoWrap(nbits);
          }
          maxval := Big(maxval + 1);
          if maxval == 0 {
            Wraps(-1);
            maxval := Big(maxval - 1);
          }
        }
      }
    }
    assert maxval == LargestValue(sval, nbits, maxval0) && 0 < maxval < BIG;
    var end := |sval|;
    if sval[end - 1] == 'L' && !isexp {
      end := end - 1;
    }
    if IsX(sval[hasSign]) && !isexp {
      r := ParseHexValue(sval, hasSign + 1, end, maxval);
      return r, negative, maxval;
    }
    if |sval| >= hasSign + 2 && sval[hasSign] == '0' && IsX(sval[hasSign + 1]) && !isexp {
      r := ParseHexValue(sval, hasSign + 2, end, maxval);
      return r, negative, maxval;
    }
    r := ParseDecValue(sval, hasSign, end, maxval, fieldMax, isexp);
    DecimalNone(sval, hasSign, end, isexp);
  }

  lemma DecimalNone(sval: string, start: nat, end: nat, isexp: bool)
    requires end <= |sval|
    ensures start >= end ==> DecimalValue(sval, start, end, isexp) == None
  {
  }

  lemma LimitsFit(nbits: nat)
    requires nbits <= 256
    ensures Pow2(nbits) - 1 < BIG && (nbits > 0 ==> Pow2(nbits) > 1)
    ensures nbits < 256 ==> Pow2(nbits) < BIG
    ensures Pow2(256) == BIG
  {
    hide Pow2;
    BigIsPow2();
    Pow2Mono(nbits, 256);
    Pow2Small();
    if nbits > 0 {
      Pow2Mono(1, nbits);
    }
    if nbits < 256 {
      Pow2Mono(nbits, 255);
      Pow2Double(255);
    }
  }

  lemma NoWrap(nbits: nat)
    requires nbits < 256
    ensures Big(Pow2(nbits)) == Pow2(nbits)
  {
    hide Pow2, Big;
    LimitsFit(nbits);
    Wraps(Pow2(nbits));
  }

  lemma WrapsToZero()
    ensures Big(Pow2(256)) == 0
  {
    hide Pow2;
    BigIsPow2();
    ModIs(BIG, 1, BIG, 0);
  }

  /** maxval = 2^nbits - 1, bit by bit. */
  method AllOnes(nbits: nat) returns (maxval: nat)
    requires nbits <= 256
    ensures maxval == Pow2(nbits) - 1
  {
    hide Pow2, Big;
    maxval := 0;
    Pow2Small();
    for i := 0 to nbits
      invariant maxval == Pow2(i) - 1
    {
      LimitsFit(i + 1);
      Pow2Double(i);
      Wraps(maxval * 2);
      maxval := Big(maxval * 2);
      Wraps(maxval + 1);
      maxval := Big(maxval + 1);
    }
  }

  /** parse_int_value: the integer denoted by the text, within the limit. */
  method ParseIntValue(sval: string, nbits: nat, maxval0: nat, fieldMax: nat, isexp: bool) returns (r: Option<int>)
    requires |sval| < MAX_TEXT && fieldMax > 0x100_0000
    requires (maxval0 == 0 <==> nbits > 0) && nbits <= 256 && maxval0 < BIG
    ensures r == IntValue(sval, nbits, maxval0, fieldMax, isexp)
    decreases if isexp then 0 else 1, 2
  {
    hide Magnitude, LargestValue, Big;
    var v, negative, maxval := ParseSignedValue(sval, nbits, maxval0, fieldMax, isexp);
    if v.None? {
      return None;
    }
    var val: int := v.value;
    if negative && val != 0 {
      if maxval == fieldMax {
        val := fieldMax + 1 - val;
      } else {
        LargestFits(sval, nbits, maxval0);
        Wraps(-val);
        val := Big(0 - val);
      }
    }
    return Some(val);
  }

  lemma LargestFits(sval: string, nbits: nat, maxval: nat)
    requires nbits <= 256 && maxval < BIG
    ensures LargestValue(sval, nbits, maxval) < BIG
  {
    LimitsFit(nbits);
  }
}
