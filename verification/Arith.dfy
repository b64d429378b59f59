/** Facts about products, quotients and remainders of integers. */
module Arith {

  lemma MulMono(a: int, b: int, k: int)
    requires a <= b && 0 <= k
    ensures a * k <= b * k
  {
    assert 0 <= (b - a) * k;
  }

  /** Rounding up: ceil(a/m) <= x exactly when a <= x*m. */
  lemma CeilIff(a: int, m: int, x: int)
    requires 0 < m
    ensures (a + m - 1) / m <= x <==> a <= x * m
  {
    var q := (a + m - 1) / m;
    assert q * m <= a + m - 1 < q * m + m;
    if q <= x {
      MulMono(q, x, m);
    } else {
      MulMono(x + 1, q, m);
    }
  }

  /** Rounding down: c <= floor(a/k) exactly when c*k <= a. */
  lemma FloorIff(a: int, k: int, c: int)
    requires 0 < k
    ensures c <= a / k <==> c * k <= a
  {
    var q := a / k;
    assert q * k <= a < q * k + k;
    if c <= q {
      MulMono(c, q, k);
    } else {
      MulMono(q + 1, c, k);
    }
  }

  lemma QuotientMono(a: int, b: int, d: int)
    requires a <= b && d > 0
    ensures a / d <= b / d
  {
    FloorIff(a, d, a / d);
    FloorIff(b, d, a / d);
  }

  lemma ModIs(x: int, q: int, d: int, r: int)
    requires 0 <= r < d && x == q * d + r
    ensures x / d == q && x % d == r
  {
    FloorIff(x, d, q);
    FloorIff(x, d, q + 1);
    assert (q + 1) * d == q * d + d;
  }

  /** Adding before or after reducing gives the same residue. */
  lemma ModAdd(a: int, b: int, p: int)
    requires p > 0
    ensures (a % p + b) % p == (a + b) % p
  {
    var q := (a % p + b) / p;
    var k := a / p;
    assert a == k * p + a % p;
    assert a % p + b == q * p + (a % p + b) % p;
    assert (q + k) * p == q * p + k * p;
    ModIs(a + b, q + k, p, (a % p + b) % p);
  }

  /** x reduced modulo p. */
  function Residue(x: int, p: int): (r: int)
    requires p > 0
    ensures 0 <= r < p
  {
    x % p
  }

  lemma ResidueAdd(a: int, b: int, p: int)
    requires p > 0
    ensures Residue(Residue(a, p) + b, p) == Residue(a + b, p)
  {
    ModAdd(a, b, p);
  }

  lemma ResidueAddBoth(a: int, b: int, p: int)
    requires p > 0
    ensures Residue(Residue(a, p) + Residue(b, p), p) == Residue(a + b, p)
  {
    hide Residue;
    var c := Residue(b, p);
    ResidueAdd(a, c, p);
    ResidueAdd(b, a, p);
    assert a + c == c + a && a + b == b + a;
  }

  lemma ResidueSmall(v: int, p: int)
    requires 0 <= v < p
    ensures Residue(v, p) == v
  {
  }

  lemma ResidueMul(a: int, b: int, p: int)
    requires p > 0
    ensures Residue(Residue(a, p) * b, p) == Residue(a * b, p)
  {
    ModMul(a, b, p);
  }

  /** Multiplying before or after reducing gives the same residue. */
  lemma ModMul(a: int, b: int, p: int)
    requires p > 0
    ensures a % p * b % p == a * b % p
  {
    var k := a / p;
    var m := a % p * b;
    var q := m / p;
    assert a == k * p + a % p;
    assert a * b == k * p * b + m;
    assert k * p * b == k * b * p;
    assert m == q * p + m % p;
    assert (q + k * b) * p == q * p + k * b * p;
    ModIs(a * b, q + k * b, p, m % p);
  }

  lemma ModSmall(v: int, p: int)
    requires 0 <= v < p
    ensures v % p == v
  {
  }

  function Pow2(n: nat): (r: nat)
    ensures r >= 1
  {
    if n == 0 then 1 else 2 * Pow2(n - 1)
  }

  lemma {:induction false} Pow2Add(m: nat, n: nat)
    ensures Pow2(m + n) == Pow2(m) * Pow2(n)
  {
    if m > 0 {
      Pow2Add(m - 1, n);
      assert Pow2(m + n) == 2 * Pow2(m - 1 + n);
    }
  }

  lemma {:induction false} Pow2Mono(m: nat, n: nat)
    requires m <= n
    ensures Pow2(m) <= Pow2(n)
    decreases n
  {
    if m < n {
      Pow2Mono(m, n - 1);
    }
  }

  lemma Pow2Small()
    ensures Pow2(0) == 1 && Pow2(1) == 2
  {
  }

  lemma Pow2Double(n: nat)
    ensures Pow2(n + 1) == 2 * Pow2(n)
  {
  }

  lemma Pow2Literals()
    ensures Pow2(4) == 16 && Pow2(5) == 32
  {
  }

  /** Dividing by 2 and then by 2^n is dividing by 2^(n+1). */
  lemma HalveThenDivide(v: nat, n: nat)
    ensures v / Pow2(n + 1) == v / 2 / Pow2(n)
  {
    var p := Pow2(n);
    var h := v / 2;
    var q := h / p;
    assert h == q * p + h % p;
    assert q * (2 * p) == 2 * (q * p);
    ModIs(v, q, 2 * p, 2 * (h % p) + v % 2);
  }

  /** Dividing by 2^n and then by 2 is dividing by 2^(n+1). */
  lemma DivideThenHalve(v: nat, n: nat)
    ensures v / Pow2(n + 1) == v / Pow2(n) / 2
  {
    var p := Pow2(n);
    var h := v / p;
    assert v == h * p + v % p;
    assert h * p == h / 2 * (2 * p) + h % 2 * p;
    ModIs(v, h / 2, 2 * p, h % 2 * p + v % p);
  }

  /** The n + 1 lowest bits are bit n above the n lowest bits. */
  lemma LowBitsStep(v: nat, n: nat)
    ensures v % Pow2(n + 1) == v / Pow2(n) % 2 * Pow2(n) + v % Pow2(n)
  {
    var p := Pow2(n);
    var h := v / p;
    assert v == h * p + v % p;
    assert h * p == h / 2 * (2 * p) + h % 2 * p;
    ModIs(v, h / 2, 2 * p, h % 2 * p + v % p);
  }

  function Pow(b: nat, e: nat): nat { if e == 0 then 1 else b * Pow(b, e - 1) }

  lemma PowPositive(b: nat, e: nat)
    requires b >= 1
    ensures Pow(b, e) >= 1
  {
  }

  lemma PowZero(b: nat)
    ensures Pow(b, 0) == 1
  {
  }

  lemma PowOne(b: nat)
    ensures Pow(b, 1) == b
  {
    assert Pow(b, 1) == b * Pow(b, 0);
  }

  lemma PowStep(b: nat, e: nat)
    requires e > 0
    ensures Pow(b, e) == b * Pow(b, e - 1)
  {
  }

  lemma {:induction false} PowAdd(b: nat, m: nat, n: nat)
    ensures Pow(b, m + n) == Pow(b, m) * Pow(b, n)
  {
    if m > 0 {
      PowAdd(b, m - 1, n);
      assert Pow(b, m + n) == b * Pow(b, m - 1 + n);
      assert b * (Pow(b, m - 1) * Pow(b, n)) == b * Pow(b, m - 1) * Pow(b, n);
    }
  }

  lemma DivideTwice(x: int, a: int, b: int)
    requires a > 0 && b > 0
    ensures a * b > 0 && x / a / b == x / (a * b)
  {
    var h := x / a;
    var q, r := h / b, h % b;
    assert x == h * a + x % a;
    assert h == q * b + r;
    assert h * a == q * (a * b) + r * a;
    MulMono(r + 1, b, a);
    assert (r + 1) * a == r * a + a && b * a == a * b;
    MulMono(0, r, a);
    ModIs(x, q, a * b, r * a + x % a);
  }

  lemma AddMultiple(x: int, k: int, c: int)
    requires c > 0
    ensures Residue(k * c + x, c) == Residue(x, c)
  {
    var q := x / c;
    assert (k + q) * c == k * c + q * c;
    ModIs(k * c + x, k + q, c, x % c);
  }
}
