/** The portable floats of source/cccommon/src/unifloat.cpp: multiplication and
    division of exact dyadic numbers on 128-bit integers, with directed rounding. */
module UniFloats {
  import opened Arith
  import opened Bytes

  /** sign * mant * 2^exp. */
  datatype Tuple = Tuple(mant: nat, exp: int, sign: int)

  const P128: int := 0x1_0000_0000_0000_0000_0000_0000_0000_0000
  const P64: int := 0x1_0000_0000_0000_0000
  const P63: int := 0x8000_0000_0000_0000
  const P62: int := 0x4000_0000_0000_0000
  const P52: int := 0x10_0000_0000_0000
  const P51: int := 0x8_0000_0000_0000

  /** What Decompose makes of a finite number: 0, or 63 significant bits. */
  predicate IsOperand(v: Tuple) {
    if v.sign == 0 then v.mant == 0 && v.exp == 0 else (v.sign == 1 || v.sign == -1) && P62 <= v.mant < P63
  }

  /** Unsigned 128-bit arithmetic wraps. */
  function U128(x: int): (r: int)
    ensures 0 <= r < P128
    ensures 0 <= x < P128 ==> r == x
  {
    x % P128
  }

  // ---- Shifting with rounding ----

  /** r is v / 2^shift, rounded as asked: down, up, or to the nearest. */
  predicate IsRounded(v: int, p: int, rounding: int, r: int) {
    if rounding < 0 then r * p <= v < r * p + p
    else if rounding > 0 then r * p - p < v <= r * p
    else -p <= 2 * (r * p - v) <= p
  }

  /** v / p, rounded as asked, halves up. */
  function Rounded(v: nat, p: nat, rounding: int): (r: nat)
    requires p > 0
    ensures IsRounded(v, p, rounding, r) && v / p <= r <= v / p + 1
    ensures p == 1 ==> r == v
  {
    RoundedBounds(v, p);
    if rounding < 0 then v / p else if rounding > 0 then (v + p - 1) / p else (2 * v + p) / (2 * p)
  }

  lemma RoundedBounds(v: nat, p: nat)
    requires p > 0
    ensures 0 <= v / p && v / p * p <= v < v / p * p + p
    ensures (v + p - 1) / p == if v % p != 0 then v / p + 1 else v / p
    ensures (2 * v + p) / (2 * p) == if 2 * (v % p) >= p then v / p + 1 else v / p
    ensures p == 1 ==> v / p == v && v % p == 0
    ensures IsRounded(v, p, -1, v / p) && IsRounded(v, p, 1, (v + p - 1) / p)
    ensures IsRounded(v, p, 0, (2 * v + p) / (2 * p))
  {
    hide IsRounded;
    var q, r := v / p, v % p;
    FloorIff(v, p, 0);
    assert v == q * p + r;
    CeilIs(v, p, q, r);
    NearestIs(v, p, q, r);
    RoundedIs(v, p, q, r);
    if p == 1 {
      ModIs(v, v, 1, 0);
    }
  }

  lemma CeilIs(v: int, p: int, q: int, r: int)
    requires 0 <= r < p && v == q * p + r
    ensures (v + p - 1) / p == if r != 0 then q + 1 else q
  {
    assert (q + 1) * p == q * p + p;
    if r != 0 {
      ModIs(v + p - 1, q + 1, p, r - 1);
    } else {
      ModIs(v + p - 1, q, p, p - 1);
    }
  }

  lemma NearestIs(v: int, p: int, q: int, r: int)
    requires 0 <= r < p && v == q * p + r
    ensures (2 * v + p) / (2 * p) == if 2 * r >= p then q + 1 else q
  {
    var two := 2 * p;
    assert q * two == 2 * (q * p) && (q + 1) * two == 2 * (q * p) + two;
    if 2 * r >= p {
      ModIs(2 * v + p, q + 1, two, 2 * r - p);
    } else {
      ModIs(2 * v + p, q, two, 2 * r + p);
    }
  }

  lemma RoundedIs(v: int, p: int, q: int, r: int)
    requires 0 <= r < p && v == q * p + r
    ensures IsRounded(v, p, -1, q)
    ensures IsRounded(v, p, 1, if r != 0 then q + 1 else q)
    ensures IsRounded(v, p, 0, if 2 * r >= p then q + 1 else q)
  {
    assert (q + 1) * p == q * p + p;
  }

  method Shift(v: nat, shift: nat, rounding: int) returns (r: nat)
    requires v / Pow2(shift) < P64 - 1
    ensures r == Rounded(v, Pow2(shift), rounding)
  {
    hide Pow2, IsRounded;
    var p := Pow2(shift);
    RoundedBounds(v, p);
    SomeShift(v);
    if rounding < 0 || shift == 0 {
      r := U64(v / p);
    } else if rounding > 0 {
      var up := v % p;
      r := U64(v / p);
      if up != 0 {
        r := r + 1;
      }
    } else {
      HalfBit(v, shift);
      var up := v / Pow2(shift - 1) % 2;
      r := U64(v / p);
      if up != 0 {
        r := r + 1;
      }
    }
  }

  /** The highest bit that is shifted out tells whether half a unit is. */
  lemma HalfBit(v: nat, shift: nat)
    requires shift > 0
    ensures Pow2(shift) == 2 * Pow2(shift - 1)
    ensures v / Pow2(shift - 1) % 2 != 0 <==> v % Pow2(shift) >= Pow2(shift - 1)
  {
    var h := Pow2(shift - 1);
    LowBitsStep(v, shift - 1);
    var bit := v / h % 2;
    assert bit == 0 || bit == 1;
    assert v % Pow2(shift) == bit * h + v % h;
  }

  /** How many of the lowest bits have to go for 52 to be left. */
  function ExcessBits(y: nat): (s: nat)
    ensures y < P52 * Pow2(s) && (s > 0 ==> P51 * Pow2(s) <= y)
  {
    if y < P52 then 0 else ExcessBits(y / 2) + 1
  }

  lemma ExcessIs(y: nat, s: nat)
    requires y < P52 * Pow2(s) && (s > 0 ==> P51 * Pow2(s) <= y)
    ensures ExcessBits(y) == s
  {
    hide Pow2, ExcessBits;
    var t := ExcessBits(y);
    if s < t {
      Pow2Double(s);
      Pow2Mono(s + 1, t);
    } else if t < s {
      Pow2Double(t);
      Pow2Mono(t + 1, s);
    }
  }

  /** y * 2^exp on 52 bits. */
  function Normalized(y: nat, exp: int, sign: int, rounding: int): (r: Tuple)
    ensures r.mant <= P52
  {
    FitsAfterShift(y, rounding);
    Tuple(Rounded(y, Pow2(ExcessBits(y)), rounding), exp + ExcessBits(y), sign)
  }

  /** What is shifted by the excess bits keeps 52 bits, or all it has. */
  lemma ShiftedParts(y: nat, rounding: int)
    ensures var s := ExcessBits(y); var m := Rounded(y, Pow2(s), rounding);
      IsRounded(y, Pow2(s), rounding, m) && (s == 0 ==> m == y) && (s > 0 ==> P51 * Pow2(s) <= y)
  {
    hide Pow2, ExcessBits, Rounded, IsRounded;
    SomeShift(y);
  }

  lemma FitsAfterShift(y: nat, rounding: int)
    ensures Rounded(y, Pow2(ExcessBits(y)), rounding) <= P52
  {
    hide Pow2, ExcessBits, Rounded;
    FloorIff(y, Pow2(ExcessBits(y)), P52);
  }

  /** Shifts out as many bits as it takes to come below 2^52. */
  method Normalize(mant: nat, x: Tuple, rounding: int) returns (r: Tuple)
    ensures r == Normalized(mant, x.exp, x.sign, rounding)
  {
    hide Pow2, Rounded, ExcessBits;
    var s: nat := 0;
    SomeShift(mant);
    while mant / Pow2(s) >= P52
      invariant s > 0 ==> mant / Pow2(s - 1) >= P52
      decreases mant - s
    {
      BitsAtMost(mant, s);
      s := s + 1;
    }
    FloorIff(mant, Pow2(s), P52);
    if s > 0 {
      DivideThenHalve(mant, s - 1);
      FloorIff(mant, Pow2(s), P51);
    }
    ExcessIs(mant, s);
    var m := Shift(mant, s, rounding);
    r := Tuple(m, x.exp + s, x.sign);
  }

  lemma SomeShift(mant: nat)
    ensures mant / Pow2(0) == mant && Pow2(0) == 1
  {
  }

  lemma BitsAtMost(mant: nat, s: nat)
    requires mant / Pow2(s) >= P52
    ensures s < mant
  {
    FloorIff(mant, Pow2(s), P52);
    Pow2Above(s);
    MulMono(1, P52, Pow2(s));
  }

  lemma {:induction false} Pow2Above(s: nat)
    ensures Pow2(s) > s
  {
    if s > 0 {
      Pow2Above(s - 1);
    }
  }

  // ---- The exact values ----

  /** 2^e. */
  ghost function Scale(e: int): (r: real)
    ensures r > 0.0
  {
    if e >= 0 then Pow2(e) as real else 1.0 / (Pow2(-e) as real)
  }

  /** The absolute value. */
  ghost function Magnitude(v: Tuple): real { v.mant as real * Scale(v.exp) }

  ghost function ValueOf(v: Tuple): real { v.sign as real * Magnitude(v) }

  lemma {:induction false} ScaleUp(e: int, n: nat)
    ensures Scale(e + n) == Scale(e) * (Pow2(n) as real)
    decreases n
  {
    hide Scale, Pow2;
    if n > 0 {
      ScaleUp(e, n - 1);
      ScaleStep(e + n - 1);
      RealDouble(n - 1);
      var p := Pow2(n - 1) as real;
      assert Scale(e) * (2.0 * p) == 2.0 * (Scale(e) * p);
      assert e + n == e + n - 1 + 1;
    } else {
      SomeShift(0);
    }
  }

  lemma RealDouble(n: nat)
    ensures Pow2(n + 1) as real == 2.0 * Pow2(n) as real
  {
  }

  lemma ScaleStep(e: int)
    ensures Scale(e + 1) == 2.0 * Scale(e)
  {
    if e < -1 {
      assert Pow2(-e) == 2 * Pow2(-e - 1);
      var x := Pow2(-e - 1) as real;
      assert x * (1.0 / x) == 1.0;
      assert 2.0 * x * (1.0 / (2.0 * x)) == 1.0;
    } else if e == -1 {
      assert Pow2(1) == 2 * Pow2(0);
    }
  }

  lemma ScaleAdd(d: int, e: int)
    ensures Scale(d + e) == Scale(d) * Scale(e)
  {
    hide Scale;
    if e >= 0 {
      ScaleUp(d, e);
      ScaleUp(0, e);
      ScaleZero();
    } else {
      ScaleUp(d + e, -e);
      ScaleUp(e, -e);
      ScaleZero();
      var p, x, y, z := Pow2(-e) as real, Scale(d), Scale(e), Scale(d + e);
      assert x == z * p && y * p == 1.0;
      assert x * y == z * (p * y);
    }
  }

  lemma ScaleZero()
    ensures Scale(0) == 1.0
  {
  }

  // ---- Multiplication ----

  /** r is the exact value, rounded as asked, with an error of at most one part in bound. */
  ghost predicate IsNear(r: real, exact: real, rounding: int, bound: int) {
    && (rounding < 0 ==> r <= exact)
    && (rounding > 0 ==> r >= exact)
    && (r - exact) * bound as real <= exact && (exact - r) * bound as real <= exact
  }

  function Product(v: Tuple, x: Tuple, rounding: int): Tuple {
    ProductOfNats(v.mant, x.mant);
    Normalized(v.mant * x.mant, v.exp + x.exp, v.sign * x.sign, rounding)
  }

  lemma ProductOfNats(a: nat, b: nat)
    ensures a * b >= 0
  {
  }

  /** a * b: the product of the mantissas fits 128 bits; the result has at most 52
      bits, or is 2^52, and is off by at most one part in 2^51 in the direction asked for. */
  method Multiply(v: Tuple, x: Tuple, rounding: int) returns (r: Tuple)
    requires IsOperand(v) && IsOperand(x)
    ensures r == Product(v, x, rounding)
    ensures r.mant <= P52 && r.sign == v.sign * x.sign && (r.sign == 0 <==> r.mant == 0)
    ensures IsNear(Magnitude(r), Magnitude(v) * Magnitude(x), rounding, P51)
  {
    hide Scale, Magnitude, IsNear, Pow2, Rounded, ExcessBits;
    ProductFits(v.mant, x.mant);
    var y := U128(v.mant * x.mant);
    r := Normalize(y, Tuple(v.mant, v.exp + x.exp, v.sign * x.sign), rounding);
    ShiftedParts(y, rounding);
    RoundedProduct(v, x, rounding, r.mant, ExcessBits(y));
    MagnitudeIs(r);
    NotRoundedAway(y, ExcessBits(y), rounding, r.mant);
  }

  lemma MagnitudeIs(r: Tuple)
    ensures Magnitude(r) == Magnitude(Tuple(r.mant, r.exp, 0))
  {
  }

  lemma ProductFits(a: nat, b: nat)
    requires a < P63 && b < P63
    ensures 0 <= a * b < P128
    ensures a >= P62 && b >= P62 ==> a * b >= P62 * P62
    ensures a == 0 || b == 0 ==> a * b == 0
  {
    MulMono(a, P63, b);
    MulMono(b, P63, P63);
    if a >= P62 && b >= P62 {
      MulMono(P62, a, b);
      MulMono(P62, b, P62);
    }
  }

  /** A rounding never makes something nothing, or nothing something. */
  lemma NotRoundedAway(y: nat, shift: nat, rounding: int, m: nat)
    requires IsRounded(y, Pow2(shift), rounding, m) && (shift == 0 ==> m == y)
    requires shift > 0 ==> P51 * Pow2(shift) <= y
    ensures m == 0 <==> y == 0
  {
    var p := Pow2(shift);
    if m == 0 {
      assert m * p == 0;
    }
  }

  lemma RoundedProduct(v: Tuple, x: Tuple, rounding: int, m: nat, shift: nat)
    requires IsRounded(v.mant * x.mant, Pow2(shift), rounding, m) && (shift == 0 ==> m == v.mant * x.mant)
    requires shift > 0 ==> P51 * Pow2(shift) <= v.mant * x.mant
    ensures IsNear(Magnitude(Tuple(m, v.exp + x.exp + shift, 0)), Magnitude(v) * Magnitude(x), rounding, P51)
  {
    hide Scale, IsNear, Pow2, Magnitude, IsRounded;
    var y, a := v.mant * x.mant, m * Pow2(shift);
    ShiftedMagnitude(m, v.exp + x.exp, shift, a);
    ProductMagnitude(v, x, y);
    RoundedNear(y, shift, rounding, m, a, Scale(v.exp + x.exp), Magnitude(Tuple(m, v.exp + x.exp + shift, 0)),
                Magnitude(v) * Magnitude(x));
  }

  /** A shifted integer with rounding, in any unit. */
  lemma RoundedNear(y: nat, shift: nat, rounding: int, m: nat, a: int, e: real, r: real, exact: real)
    requires r == a as real * e && exact == y as real * e
    requires a == m * Pow2(shift) && IsRounded(y, Pow2(shift), rounding, m) && (shift == 0 ==> m == y)
    requires shift > 0 ==> P51 * Pow2(shift) <= y
    requires e > 0.0
    ensures IsNear(r, exact, rounding, P51)
  {
    hide Pow2, IsNear, IsRounded;
    if shift == 0 {
      SomeShift(y);
      assert a == y;
    }
    ErrorBound(y, Pow2(shift), rounding, m);
    NearIntegers(a, y, rounding, P51);
    NearScaled(a as real, y as real, rounding, P51, e, r, exact);
  }

  lemma ShiftedMagnitude(m: nat, e: int, shift: nat, a: int)
    requires a == m * Pow2(shift)
    ensures Magnitude(Tuple(m, e + shift, 0)) == a as real * Scale(e)
  {
    hide Scale, Pow2;
    ScaleUp(e, shift);
    var p, q := Pow2(shift) as real, Scale(e);
    assert a as real == m as real * p;
    assert m as real * (q * p) == m as real * p * q;
  }

  lemma ProductMagnitude(v: Tuple, x: Tuple, y: int)
    requires y == v.mant * x.mant
    ensures Magnitude(v) * Magnitude(x) == y as real * Scale(v.exp + x.exp)
  {
    hide Scale;
    ScaleAdd(v.exp, x.exp);
    Regroup(v.mant as real, Scale(v.exp), x.mant as real, Scale(x.exp));
    assert y as real == v.mant as real * x.mant as real;
  }

  lemma Regroup(a: real, b: real, c: real, d: real)
    ensures (a * b) * (c * d) == (a * c) * (b * d)
  {
    assert (a * b) * (c * d) == a * (b * c) * d;
    assert (a * c) * (b * d) == a * (c * b) * d;
  }

  /** The error of a rounded shift, relative to what is shifted. */
  lemma ErrorBound(y: int, p: int, rounding: int, m: int)
    requires IsRounded(y, p, rounding, m) && p >= 1
    requires m * p == y || P51 * p <= y
    requires y >= 0
    ensures (rounding < 0 ==> m * p <= y) && (rounding > 0 ==> m * p >= y)
    ensures (m * p - y) * P51 <= y && (y - m * p) * P51 <= y
  {
    var d := m * p - y;
    if m * p != y {
      assert -p <= d <= p;
      MulMono(d, p, P51);
      MulMono(-d, p, P51);
    }
  }

  /** Being near does not depend on the unit. */
  lemma NearScaled(a: real, y: real, rounding: int, bound: int, e: real, r: real, exact: real)
    requires e > 0.0 && IsNear(a, y, rounding, bound) && r == a * e && exact == y * e
    ensures IsNear(r, exact, rounding, bound)
  {
    var b := bound as real;
    ScaleLe((a - y) * b, y, e);
    ScaleLe((y - a) * b, y, e);
    assert (r - exact) * b == (a - y) * b * e;
    assert (exact - r) * b == (y - a) * b * e;
    if rounding < 0 {
      ScaleLe(a, y, e);
    } else if rounding > 0 {
      ScaleLe(y, a, e);
    }
  }

  lemma NearIntegers(a: int, y: int, rounding: int, bound: int)
    requires (rounding < 0 ==> a <= y) && (rounding > 0 ==> a >= y)
    requires (a - y) * bound <= y && (y - a) * bound <= y
    ensures IsNear(a as real, y as real, rounding, bound)
  {
    assert (a as real - y as real) * bound as real == ((a - y) * bound) as real;
    assert (y as real - a as real) * bound as real == ((y - a) * bound) as real;
  }

  lemma ScaleLe(a: real, b: real, e: real)
    requires a <= b && e > 0.0
    ensures a * e <= b * e
  {
    assert (b - a) * e >= 0.0;
  }

  // ---- Division ----

  /** A quotient, or the largest float with the sign of the numerator when the
      denominator is 0. */
  datatype Quotient = Finite(value: Tuple) | Largest(negative: bool)

  const P50: int := 0x4_0000_0000_0000

  /** What is added to the numerator before the division. */
  function Added(d: nat, rounding: int): (a: nat)
    requires d > 0
    ensures a <= d
  {
    if rounding == 0 then (d + 1) / 2 else if rounding > 0 then d - 1 else 0
  }

  function IntegerQuotient(n: nat, d: nat, rounding: int): nat
    requires d > 0
  {
    (n + Added(d, rounding)) / d
  }

  function QuotientOf(v: Tuple, x: Tuple, rounding: int): Tuple
    requires x.mant > 0
  {
    Normalized(IntegerQuotient(v.mant * P64, x.mant, rounding), v.exp - (x.exp + 64), v.sign * x.sign, rounding)
  }

  /** a / b: the numerator is shifted up by 64 bits, which fits 128 bits, before it
      is divided; off by at most one part in 2^50 in the direction asked for. */
  method Divide(v: Tuple, x: Tuple, rounding: int) returns (r: Quotient)
    requires IsOperand(v) && IsOperand(x)
    ensures r == if x.mant == 0 then Largest(v.sign < 0) else Finite(QuotientOf(v, x, rounding))
    ensures r.Finite? ==> r.value.mant <= P52 && r.value.sign == v.sign * x.sign
    ensures r.Finite? ==> Magnitude(x) > 0.0
    ensures r.Finite? ==> IsNear(Magnitude(r.value), Magnitude(v) / Magnitude(x), rounding, P50)
  {
    hide Scale, Magnitude, IsNear, Pow2, IsRounded, Rounded, ExcessBits;
    if x.mant == 0 {
      return Largest(v.sign < 0);
    }
    var y := U128(v.mant * P64);
    var added := if rounding == 0 then (x.mant + 1) / 2 else if rounding > 0 then x.mant - 1 else 0;
    assert y == v.mant * P64 && 0 <= y + added < P128;
    y := U128(y + added);
    QuotientError(v.mant * P64, x.mant, rounding);
    y := y / x.mant;
    var t := Normalize(y, Tuple(v.mant, v.exp - (x.exp + 64), v.sign * x.sign), rounding);
    ShiftedParts(y, rounding);
    RoundedDivision(v, x, rounding, y, t.mant, ExcessBits(y));
    MagnitudeIs(t);
    return Finite(t);
  }

  /** How far the integer quotient is from the exact one. */
  predicate IsQuotient(n: int, d: int, rounding: int, q: int) {
    && 0 <= q && -d <= q * d - n <= d
    && (rounding < 0 ==> q * d <= n) && (rounding > 0 ==> q * d >= n)
    && (n == 0 ==> q == 0)
  }

  lemma QuotientError(n: int, d: int, rounding: int)
    requires n >= 0 && d >= 2
    ensures IsQuotient(n, d, rounding, IntegerQuotient(n, d, rounding))
  {
    var added := Added(d, rounding);
    assert n == 0 ==> n + added < d;
    QuotientBounds(n + added, d);
  }

  lemma QuotientBounds(x: int, d: int)
    requires x >= 0 && d > 0
    ensures 0 <= x / d && x / d * d <= x < x / d * d + d
    ensures x < d ==> x / d == 0
  {
    FloorIff(x, d, 0);
    FloorIff(x, d, 1);
  }

  lemma RoundedDivision(v: Tuple, x: Tuple, rounding: int, q: nat, m: nat, shift: nat)
    requires IsOperand(v) && IsOperand(x) && x.mant > 0 && IsQuotient(v.mant * P64, x.mant, rounding, q)
    requires IsRounded(q, Pow2(shift), rounding, m) && (shift == 0 ==> m == q)
    requires shift > 0 ==> P51 * Pow2(shift) <= q
    ensures Magnitude(x) > 0.0
    ensures IsNear(Magnitude(Tuple(m, v.exp - (x.exp + 64) + shift, 0)), Magnitude(v) / Magnitude(x), rounding, P50)
  {
    hide Scale, IsNear, Pow2, Magnitude, IsRounded, IsQuotient;
    var n, d, a := v.mant * P64, x.mant, m * Pow2(shift);
    var ratio := n as real / d as real;
    RoundedQuotientNear(n, d, rounding, q, m, shift, a, ratio);
    var e := v.exp - (x.exp + 64);
    ShiftedMagnitude(m, e, shift, a);
    QuotientMagnitude(v, x, n, ratio);
    NearScaled(a as real, ratio, rounding, P50, Scale(e), Magnitude(Tuple(m, e + shift, 0)),
               Magnitude(v) / Magnitude(x));
  }

  lemma RoundedQuotientNear(n: int, d: int, rounding: int, q: nat, m: nat, shift: nat, a: int, ratio: real)
    requires ratio * d as real == n as real
    requires 0 < d < P63 && IsQuotient(n, d, rounding, q) && (n == 0 || n >= P62 * P64) && a == m * Pow2(shift)
    requires IsRounded(q, Pow2(shift), rounding, m) && (shift == 0 ==> m == q)
    requires shift > 0 ==> P51 * Pow2(shift) <= q
    ensures IsNear(a as real, ratio, rounding, P50)
  {
    hide IsNear, Pow2, IsRounded, IsQuotient;
    if shift == 0 {
      SomeShift(q);
      assert a == q;
    }
    ErrorBound(q, Pow2(shift), rounding, m);
    TotalError(n, d, q, a, rounding);
    NearQuotient(a, n, d, rounding, ratio);
  }

  /** The error of the division and the error of the rounding together. */
  lemma TotalError(n: int, d: int, q: int, a: int, rounding: int)
    requires 0 < d < P63 && IsQuotient(n, d, rounding, q) && (n == 0 || n >= P62 * P64)
    requires (rounding < 0 ==> a <= q) && (rounding > 0 ==> a >= q) && 0 <= q
    requires (a - q) * P51 <= q && (q - a) * P51 <= q
    ensures (rounding < 0 ==> a * d <= n) && (rounding > 0 ==> a * d >= n)
    ensures (a * d - n) * P50 <= n && (n - a * d) * P50 <= n
  {
    if rounding < 0 {
      MulMono(a, q, d);
    } else if rounding > 0 {
      MulMono(q, a, d);
    }
    var f, g := a - q, q * d - n;
    assert a * d - n == f * d + g;
    MulMono(f * P51, q, d);
    MulMono(-f * P51, q, d);
    assert f * P51 * d == f * d * P51 && -f * P51 * d == -(f * d) * P51;
  }

  /** v / x is the integer ratio in the unit of the quotient. */
  lemma QuotientMagnitude(v: Tuple, x: Tuple, n: int, t: real)
    requires x.mant > 0 && n == v.mant * P64 && t * x.mant as real == n as real
    ensures Magnitude(x) > 0.0
    ensures Magnitude(v) / Magnitude(x) == t * Scale(v.exp - (x.exp + 64))
  {
    hide Scale, Pow2;
    var e := v.exp - (x.exp + 64);
    ScaleAdd(e, x.exp);
    ScaleUp(v.exp - 64, 64);
    Pow2Of64();
    var d, se, sx, sv := x.mant as real, Scale(e), Scale(x.exp), Scale(v.exp);
    assert Scale(v.exp - 64) == se * sx && sv == se * sx * P64 as real;
    assert d * sx > 0.0;
    assert t * se * (d * sx) == t * d * (se * sx);
    assert n as real == v.mant as real * P64 as real;
    assert n as real * (se * sx) == v.mant as real * sv;
    DivideBack(v.mant as real * sv, d * sx, t * se);
  }

  lemma Pow2Of64()
    ensures Pow2(64) as real == P64 as real
  {
    hide Pow2;
    SomeShift(0);
    RealDouble(0);
    Pow2Add(1, 1);
    Pow2Add(2, 2);
    Pow2Add(4, 4);
    Pow2Add(8, 8);
    Pow2Add(16, 16);
    Pow2Add(32, 32);
  }

  lemma DivideBack(x: real, y: real, t: real)
    requires y > 0.0 && t * y == x
    ensures x / y == t
  {
  }

  lemma NearQuotient(a: int, n: int, d: int, rounding: int, ratio: real)
    requires d > 0 && ratio * d as real == n as real
    requires (rounding < 0 ==> a * d <= n) && (rounding > 0 ==> a * d >= n)
    requires (a * d - n) * P50 <= n && (n - a * d) * P50 <= n
    ensures IsNear(a as real, ratio, rounding, P50)
  {
    hide IsNear;
    var dr, e, c := d as real, 1.0 / d as real, a * d;
    NearIntegers(c, n, rounding, P50);
    assert dr * e == 1.0;
    assert c as real == a as real * dr;
    Inverse(a as real, dr, e);
    Inverse(ratio, dr, e);
    NearScaled(c as real, n as real, rounding, P50, e, a as real, ratio);
  }

  lemma Inverse(x: real, d: real, e: real)
    requires d * e == 1.0
    ensures x * d * e == x
  {
    assert x * d * e == x * (d * e);
  }

  // ---- Signs ----

  /** No bit that is set is shifted out. */
  predicate FitsMantissa(y: nat) { y % Pow2(ExcessBits(y)) == 0 }

  /** Is the result on the side asked for? */
  ghost predicate IsOnSide(r: real, exact: real, rounding: int) {
    (rounding > 0 ==> r >= exact) && (rounding < 0 ==> r <= exact)
  }

  /** What is left of y when it is normalized, in the unit of y. */
  function Kept(y: nat, rounding: int): int { Rounded(y, Pow2(ExcessBits(y)), rounding) * Pow2(ExcessBits(y)) }

  /** A directed rounding is exact if and only if it has nothing to round off. */
  lemma ExactIff(y: nat, rounding: int)
    requires rounding != 0
    ensures Kept(y, rounding) == y <==> FitsMantissa(y)
    ensures if rounding > 0 then Kept(y, rounding) >= y else Kept(y, rounding) <= y
  {
    hide Pow2, ExcessBits, Rounded;
    DirectedRounding(y, Pow2(ExcessBits(y)), rounding);
  }

  lemma DirectedRounding(y: nat, p: nat, rounding: int)
    requires p > 0 && rounding != 0
    ensures var a := Rounded(y, p, rounding) * p;
      (a == y <==> y % p == 0) && if rounding > 0 then a >= y else a <= y
  {
    DirectedQuotient(y, p, rounding);
    hide Rounded;
    DirectedIs(y, p, y / p, y % p);
  }

  lemma DirectedQuotient(y: nat, p: nat, rounding: int)
    requires p > 0 && rounding != 0
    ensures y == y / p * p + y % p
    ensures Rounded(y, p, rounding) == if rounding < 0 || y % p == 0 then y / p else y / p + 1
  {
    hide IsRounded;
    CeilIs(y, p, y / p, y % p);
  }

  lemma DirectedIs(y: int, p: int, q: int, r: int)
    requires 0 <= r < p && y == q * p + r
    ensures q * p <= y && (q * p == y <==> r == 0)
    ensures r != 0 ==> (q + 1) * p > y
  {
    assert (q + 1) * p == q * p + p;
  }

  ghost function Signed(sign: int, a: real, unit: real): real { sign as real * (a * unit) }

  /** With a sign, and in any unit: a is on the side of y asked for, unless the
      sign turns the sides round. */
  lemma SignedSide(sign: int, a: real, y: real, unit: real, rounding: int)
    requires -1 <= sign <= 1 && unit > 0.0 && rounding != 0
    requires if rounding > 0 then a >= y else a <= y
    ensures IsOnSide(Signed(sign, a, unit), Signed(sign, y, unit), rounding) <==> sign >= 0 || a == y
  {
    if a > y {
      assert (a - y) * unit > 0.0;
    } else if a < y {
      assert (y - a) * unit > 0.0;
    }
  }

  lemma SignOfTwo(v: Tuple, x: Tuple)
    requires IsOperand(v) && IsOperand(x)
    ensures -1 <= v.sign * x.sign <= 1
  {
  }

  /** The directions are those of the absolute value: a directed product is on the
      side asked for if and only if it is not negative or nothing is rounded off. */
  lemma ProductSideIff(v: Tuple, x: Tuple, rounding: int)
    requires IsOperand(v) && IsOperand(x) && rounding != 0
    ensures IsOnSide(ValueOf(Product(v, x, rounding)), ValueOf(v) * ValueOf(x), rounding)
       <==> v.sign * x.sign >= 0 || FitsMantissa(v.mant * x.mant)
  {
    hide Signed, Scale, ValueOf, Product, Kept, IsOnSide, FitsMantissa, IsOperand;
    ProductOfNats(v.mant, x.mant);
    var y: nat := v.mant * x.mant;
    ExactIff(y, rounding);
    ProductValue(v, x, rounding, y);
    SignOfTwo(v, x);
    SignedSide(v.sign * x.sign, Kept(y, rounding) as real, y as real, Scale(v.exp + x.exp), rounding);
  }

  lemma ProductValue(v: Tuple, x: Tuple, rounding: int, y: nat)
    requires y == v.mant * x.mant
    ensures ValueOf(Product(v, x, rounding)) == Signed(v.sign * x.sign, Kept(y, rounding) as real, Scale(v.exp + x.exp))
    ensures ValueOf(v) * ValueOf(x) == Signed(v.sign * x.sign, y as real, Scale(v.exp + x.exp))
  {
    hide Scale, Magnitude, Pow2, Rounded, ExcessBits;
    var r := Product(v, x, rounding);
    ShiftedMagnitude(r.mant, v.exp + x.exp, ExcessBits(y), Kept(y, rounding));
    MagnitudeIs(r);
    ProductMagnitude(v, x, y);
    Regroup(v.sign as real, Magnitude(v), x.sign as real, Magnitude(x));
    assert (v.sign * x.sign) as real == v.sign as real * x.sign as real;
  }

  /** The same for quotients. */
  lemma QuotientSideIff(v: Tuple, x: Tuple, rounding: int)
    requires IsOperand(v) && IsOperand(x) && x.mant > 0 && rounding != 0
    ensures ValueOf(x) != 0.0
    ensures var n := v.mant * P64;
      IsOnSide(ValueOf(QuotientOf(v, x, rounding)), ValueOf(v) / ValueOf(x), rounding)
      <==> v.sign * x.sign >= 0 || (n % x.mant == 0 && FitsMantissa(n / x.mant))
  {
    hide Signed, Scale, ValueOf, QuotientOf, IsOnSide, FitsMantissa, IsOperand;
    var n: nat := v.mant * P64;
    var ratio := n as real / x.mant as real;
    ExactQuotientValue(v, x, n, ratio);
    QuotientSide(v, x, rounding, n, ratio);
  }

  lemma QuotientSide(v: Tuple, x: Tuple, rounding: int, n: nat, ratio: real)
    requires IsOperand(v) && IsOperand(x) && x.mant > 0 && rounding != 0
    requires n == v.mant * P64 && ratio == n as real / x.mant as real
    ensures var exact := Signed(v.sign * x.sign, ratio, Scale(v.exp - (x.exp + 64)));
      IsOnSide(ValueOf(QuotientOf(v, x, rounding)), exact, rounding)
      <==> v.sign * x.sign >= 0 || (n % x.mant == 0 && FitsMantissa(n / x.mant))
  {
    hide Signed, Scale, ValueOf, QuotientOf, Kept, IntegerQuotient, IsOnSide, FitsMantissa;
    var q := IntegerQuotient(n, x.mant, rounding);
    ExactQuotientIff(n, x.mant, rounding, ratio);
    QuotientValue(v, x, rounding);
    SignOfTwo(v, x);
    SignedSide(v.sign * x.sign, Kept(q, rounding) as real, ratio, Scale(v.exp - (x.exp + 64)), rounding);
  }

  lemma QuotientValue(v: Tuple, x: Tuple, rounding: int)
    requires x.mant > 0
    ensures var q := IntegerQuotient(v.mant * P64, x.mant, rounding);
      ValueOf(QuotientOf(v, x, rounding))
      == Signed(v.sign * x.sign, Kept(q, rounding) as real, Scale(v.exp - (x.exp + 64)))
  {
    hide Scale, Magnitude, Pow2, Rounded, ExcessBits, IntegerQuotient;
    var q, r := IntegerQuotient(v.mant * P64, x.mant, rounding), QuotientOf(v, x, rounding);
    ShiftedMagnitude(r.mant, v.exp - (x.exp + 64), ExcessBits(q), Kept(q, rounding));
    MagnitudeIs(r);
  }

  lemma ExactQuotientValue(v: Tuple, x: Tuple, n: nat, ratio: real)
    requires IsOperand(v) && IsOperand(x) && x.mant > 0 && n == v.mant * P64 && ratio == n as real / x.mant as real
    ensures ValueOf(x) != 0.0
    ensures ValueOf(v) / ValueOf(x) == Signed(v.sign * x.sign, ratio, Scale(v.exp - (x.exp + 64)))
  {
    hide Scale, Magnitude;
    QuotientMagnitude(v, x, n, ratio);
    SignedQuotient(v.sign, Magnitude(v), x.sign, Magnitude(x));
  }

  /** A directed division is exact if and only if it leaves no remainder and its
      quotient fits. */
  lemma ExactQuotientIff(n: nat, d: nat, rounding: int, ratio: real)
    requires d >= 2 && rounding != 0 && ratio == n as real / d as real
    ensures var a := Kept(IntegerQuotient(n, d, rounding), rounding);
      && (a as real == ratio <==> n % d == 0 && FitsMantissa(n / d))
      && if rounding > 0 then a as real >= ratio else a as real <= ratio
  {
    hide Kept, IntegerQuotient, FitsMantissa;
    var q := IntegerQuotient(n, d, rounding);
    QuotientError(n, d, rounding);
    ExactIff(q, rounding);
    NoRemainder(n, d, rounding);
    TwoRoundings(n, d, rounding, q, Kept(q, rounding));
    RatioOrder(Kept(q, rounding), n, d, ratio);
  }

  /** Two roundings to the same side are exact together if and only if both are. */
  lemma TwoRoundings(n: int, d: int, rounding: int, q: int, a: int)
    requires d > 0 && rounding != 0
    requires if rounding > 0 then a >= q && q * d >= n else a <= q && q * d <= n
    ensures if rounding > 0 then a * d >= n else a * d <= n
    ensures a * d == n <==> a == q && q * d == n
  {
    var f := a - q;
    assert a * d == q * d + f * d;
    if f > 0 {
      MulMono(1, f, d);
    } else if f < 0 {
      MulMono(f, -1, d);
    }
  }

  lemma NoRemainder(n: nat, d: nat, rounding: int)
    requires d >= 2 && rounding != 0
    ensures var q := IntegerQuotient(n, d, rounding);
      (q * d == n <==> n % d == 0) && (n % d == 0 ==> q == n / d)
  {
    DirectedIs(n, d, n / d, n % d);
    if rounding > 0 {
      CeilIs(n, d, n / d, n % d);
    }
  }

  lemma RatioOrder(a: int, n: int, d: int, ratio: real)
    requires d > 0 && ratio == n as real / d as real
    ensures (a as real >= ratio <==> a * d >= n) && (a as real <= ratio <==> a * d <= n)
  {
    var dr := d as real;
    assert ratio * dr == n as real;
    assert (a * d) as real == a as real * dr;
    if a as real >= ratio {
      ScaleLe(ratio, a as real, dr);
    }
    if a as real <= ratio {
      ScaleLe(a as real, ratio, dr);
    }
    if a as real > ratio {
      assert (a as real - ratio) * dr > 0.0;
    }
    if a as real < ratio {
      assert (ratio - a as real) * dr > 0.0;
    }
  }

  lemma SignedQuotient(s: int, a: real, t: int, b: real)
    requires (t == 1 || t == -1) && b > 0.0
    ensures t as real * b != 0.0 && (s as real * a) / (t as real * b) == (s * t) as real * (a / b)
  {
    var c := a / b;
    assert c * b == a;
    if t == 1 {
      DivideBack(s as real * a, b, s as real * c);
    } else {
      assert s as real * a == (-(s as real) * c) * (-b);
      assert -(s as real) * c == (s * t) as real * c;
    }
  }

  /** Rounded "up", this product of mixed signs is below the exact one. */
  lemma RoundsTheOtherWay(e: int, f: int)
    ensures var v := Tuple(P62 + 1, e, 1); var x := Tuple(P62 + 1, f, -1);
      IsOperand(v) && IsOperand(x) && ValueOf(Product(v, x, 1)) < ValueOf(v) * ValueOf(x)
  {
    hide ExcessBits, Rounded, Magnitude, Pow2;
    var y := (P62 + 1) * (P62 + 1);
    PowersUpTo73();
    ExcessIs(y, 73);
    ModIs(y, y / Pow2(73), Pow2(73), P63 + 1);
    ProductSideIff(Tuple(P62 + 1, e, 1), Tuple(P62 + 1, f, -1), 1);
  }

  /** Rounded "down", this quotient of mixed signs is above the exact one. */
  lemma QuotientTheOtherWay(e: int, f: int)
    ensures var v := Tuple(P62 + 1, e, 1); var x := Tuple(P62, f, -1);
      IsOperand(v) && IsOperand(x) && ValueOf(x) != 0.0 && ValueOf(QuotientOf(v, x, -1)) > ValueOf(v) / ValueOf(x)
  {
    hide ExcessBits, QuotientOf, ValueOf, Pow2;
    var q := P64 + 4;
    PowersUpTo73();
    ExcessIs(q, 13);
    ModIs(q, q / Pow2(13), Pow2(13), 4);
    assert (P62 + 1) * P64 / P62 == q;
    QuotientSideIff(Tuple(P62 + 1, e, 1), Tuple(P62, f, -1), -1);
  }

  lemma PowersUpTo73()
    ensures Pow2(73) == 0x200_0000_0000_0000_0000 && Pow2(13) == 0x2000
  {
    hide Pow2;
    Pow2Of64();
    Pow2Small();
    Pow2Literals();
    Pow2Add(4, 5);
    Pow2Add(4, 9);
    Pow2Add(64, 9);
  }

  // ---- Exactly which results ----

  /** r is the multiple of 1/p next to y: from below, from above, or the nearest, halves up. */
  predicate IsRoundedTo(y: int, p: int, rounding: int, r: int) {
    if rounding < 0 then r * p <= y < r * p + p
    else if rounding > 0 then r * p - p < y <= r * p
    else 2 * (r * p) - p <= 2 * y < 2 * (r * p) + p
  }

  /** y * 2^exp with the fewest bits less that leave at most 52, rounded as asked. */
  predicate IsCutTo(y: int, exp: int, sign: int, rounding: int, r: Tuple, bits: nat) {
    && y < P52 * Pow2(bits) && (bits > 0 ==> P51 * Pow2(bits) <= y)
    && IsRoundedTo(y, Pow2(bits), rounding, r.mant) && r.exp == exp + bits && r.sign == sign
  }

  lemma RoundedTo(y: nat, p: nat, rounding: int)
    requires p > 0
    ensures IsRoundedTo(y, p, rounding, Rounded(y, p, rounding))
  {
    hide IsRounded, IsRoundedTo;
    var q, r := y / p, y % p;
    RoundedBounds(y, p);
    assert y == q * p + r;
    RoundedIsTo(y, p, q, r, rounding);
  }

  lemma RoundedIsTo(y: int, p: int, q: int, r: int, rounding: int)
    requires 0 <= r < p && y == q * p + r
    ensures rounding < 0 ==> IsRoundedTo(y, p, rounding, q)
    ensures rounding > 0 ==> IsRoundedTo(y, p, rounding, if r != 0 then q + 1 else q)
    ensures rounding == 0 ==> IsRoundedTo(y, p, rounding, if 2 * r >= p then q + 1 else q)
  {
    assert (q + 1) * p == q * p + p;
  }

  lemma NormalizedIs(y: nat, exp: int, sign: int, rounding: int)
    ensures IsCutTo(y, exp, sign, rounding, Normalized(y, exp, sign, rounding), ExcessBits(y))
  {
    hide Pow2, ExcessBits, Rounded, IsRoundedTo;
    RoundedTo(y, Pow2(ExcessBits(y)), rounding);
  }

  /** The product of two floats: that of the mantissas, cut. */
  lemma ProductIs(v: Tuple, x: Tuple, rounding: int) returns (bits: nat)
    ensures IsCutTo(v.mant * x.mant, v.exp + x.exp, v.sign * x.sign, rounding, Product(v, x, rounding), bits)
  {
    hide IsCutTo, Normalized;
    ProductOfNats(v.mant, x.mant);
    bits := ExcessBits(v.mant * x.mant);
    NormalizedIs(v.mant * x.mant, v.exp + x.exp, v.sign * x.sign, rounding);
  }

  /** The quotient of two floats: that of the mantissas, 64 bits up, from below or from above;
      or the nearest, but for an odd divisor up already from half a unit below the middle;
      then cut. */
  lemma QuotientIs(v: Tuple, x: Tuple, rounding: int) returns (q: nat, bits: nat)
    requires x.mant > 0
    ensures var n, d := v.mant * P64, x.mant;
      if rounding < 0 then q * d <= n < q * d + d
      else if rounding > 0 then q * d - d < n <= q * d
      else q * d <= n + (d + 1) / 2 < q * d + d
    ensures IsCutTo(q, v.exp - x.exp - 64, v.sign * x.sign, rounding, QuotientOf(v, x, rounding), bits)
  {
    hide IsCutTo, Normalized;
    var n := v.mant * P64;
    q := IntegerQuotient(n, x.mant, rounding);
    QuotientBounds(n + Added(x.mant, rounding), x.mant);
    bits := ExcessBits(q);
    NormalizedIs(q, v.exp - (x.exp + 64), v.sign * x.sign, rounding);
  }

  /** Rounded to the nearest, the quotient of the mantissas is the nearest one unless the
      divisor is odd and the remainder half a unit below its middle. */
  lemma NearestIff(n: int, d: int)
    requires n >= 0 && d > 0
    ensures var q := IntegerQuotient(n, d, 0);
      -d <= 2 * (q * d - n) <= d <==> !(d % 2 == 1 && n % d == d / 2)
  {
    QuotientBounds(n, d);
    var f := n / d;
    var r := n - f * d;
    ModIs(n, f, d, r);
    assert (f + 1) * d == f * d + d;
    if r + (d + 1) / 2 >= d {
      ModIs(n + (d + 1) / 2, f + 1, d, r + (d + 1) / 2 - d);
    } else {
      ModIs(n + (d + 1) / 2, f, d, r + (d + 1) / 2);
    }
  }
}
