/** The prime field of the circuit: numbers modulo p, with the absence of zero
    divisors derived from primality. */
module Field {
  import opened Arith

  predicate Divides(d: int, n: int)
    requires d > 0
  {
    n % d == 0
  }

  ghost predicate IsPrime(p: int) { p > 1 && forall d :: 1 < d < p ==> !Divides(d, p) }

  /** x is zero in the field. */
  predicate IsZero(p: int, x: int)
    requires p > 0
  {
    Residue(x, p) == 0
  }

  /** x and y are the same field element. */
  predicate Same(p: int, x: int, y: int)
    requires p > 0
  {
    Residue(x, p) == Residue(y, p)
  }

  lemma MultipleIsZero(p: int, x: int, k: int)
    requires p > 0 && x == k * p
    ensures IsZero(p, x)
  {
    ModIs(x, k, p, 0);
  }

  lemma ZeroIsMultiple(p: int, x: int) returns (k: int)
    requires p > 0 && IsZero(p, x)
    ensures x == k * p
  {
    k := x / p;
  }

  lemma ZeroAdd(p: int, x: int, y: int)
    requires p > 0 && IsZero(p, x) && IsZero(p, y)
    ensures IsZero(p, x + y)
  {
    hide IsZero;
    var j := ZeroIsMultiple(p, x);
    var k := ZeroIsMultiple(p, y);
    assert (j + k) * p == j * p + k * p;
    MultipleIsZero(p, x + y, j + k);
  }

  lemma ZeroTimes(p: int, x: int, y: int)
    requires p > 0 && IsZero(p, x)
    ensures IsZero(p, x * y) && IsZero(p, y * x)
  {
    hide IsZero;
    var k := ZeroIsMultiple(p, x);
    assert x * y == k * p * y == k * y * p && y * x == x * y;
    MultipleIsZero(p, x * y, k * y);
  }

  lemma ZeroNegate(p: int, x: int)
    requires p > 0 && IsZero(p, x)
    ensures IsZero(p, -x)
  {
    ZeroTimes(p, x, -1);
    assert x * -1 == -x;
  }

  lemma SameIffZero(p: int, x: int, y: int)
    requires p > 0
    ensures Same(p, x, y) <==> IsZero(p, x - y)
  {
    var a, b := Residue(x, p), Residue(y, p);
    var j, k := x / p, y / p;
    assert x == j * p + a && y == k * p + b;
    assert (j - k) * p == j * p - k * p;
    if a == b {
      MultipleIsZero(p, x - y, j - k);
    }
    if IsZero(p, x - y) {
      var q := ZeroIsMultiple(p, x - y);
      assert (q + k) * p == q * p + k * p;
      ModIs(x, q + k, p, b);
    }
  }

  lemma SameResidue(p: int, x: int)
    requires p > 0
    ensures Same(p, x, Residue(x, p))
  {
    ResidueSmall(Residue(x, p), p);
  }

  /** A field element below p that is zero is 0. */
  lemma SmallZero(p: int, x: int)
    requires -p < x < p && IsZero(p, x)
    ensures x == 0
  {
    var k := ZeroIsMultiple(p, x);
    if k >= 1 {
      MulMono(1, k, p);
    } else if k <= -1 {
      MulMono(k, -1, p);
    }
  }

  /** Euclid's lemma, by replacing a with the remainder of p by a. */
  lemma {:induction false} EuclidStep(p: int, a: int, b: int)
    requires IsPrime(p) && 0 < a < p && IsZero(p, a * b)
    ensures IsZero(p, b)
    decreases a
  {
    hide IsZero;
    if a == 1 {
      assert a * b == b;
    } else {
      var q, r := p / a, p % a;
      assert !Divides(a, p);
      var k := ZeroIsMultiple(p, a * b);
      RemainderTimes(p, a, b, q, r, k);
      MultipleIsZero(p, r * b, b - q * k);
      EuclidStep(p, r, b);
    }
  }

  lemma RemainderTimes(p: int, a: int, b: int, q: int, r: int, k: int)
    requires p == q * a + r && a * b == k * p
    ensures r * b == (b - q * k) * p
  {
    assert r * b == (p - q * a) * b == p * b - q * (a * b);
    assert q * (k * p) == q * k * p;
  }

  /** No zero divisors: a product is zero only if a factor is. */
  lemma NoZeroDivisors(p: int, x: int, y: int)
    requires IsPrime(p) && IsZero(p, x * y)
    ensures IsZero(p, x) || IsZero(p, y)
  {
    var a := Residue(x, p);
    if a != 0 {
      ResidueMul(x, y, p);
      EuclidStep(p, a, y);
    }
  }

  lemma SameTrans(p: int, x: int, y: int, z: int)
    requires p > 0 && Same(p, x, y) && Same(p, y, z)
    ensures Same(p, x, z)
  {
  }

  lemma SameSym(p: int, x: int, y: int)
    requires p > 0 && Same(p, x, y)
    ensures Same(p, y, x)
  {
  }
}
