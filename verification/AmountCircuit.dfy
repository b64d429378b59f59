/** The circuit of source/cclib/src/CCproof.cpp that turns an encoded amount into
    an integer, and the decoding function of source/cclib/src/transaction.cpp
    that it has to agree with. */
module AmountCircuit {
  import opened Arith
  import opened Field
  import opened Circuit
  import opened BitGadgets

  const TX_AMOUNT_BITS: nat := 40
  const TX_AMOUNT_EXPONENT_BITS: nat := 5
  const MANTISSA_BITS: nat := 35

  /** (mantissa + (exponent > 0)) * 10^exponent, with the exponent in the low bits. */
  function TxAmountDecode(amount: nat): nat {
    var exponent := amount % 32;
    (amount / 32 + if exponent > 0 then 1 else 0) * Pow(10, exponent)
  }

  // ---- What is built ----

  function NoneSet(bits: seq<Expr>, k: nat): Expr
    requires k <= |bits|
  {
    if k == 0 then Const(1) else Mul(NoneSet(bits, k - 1), Sub(Const(1), bits[k - 1]))
  }

  function WithMantissa(bits: seq<Expr>, k: nat): Expr
    requires k + TX_AMOUNT_EXPONENT_BITS <= |bits|
  {
    if k == 0 then Sub(Const(1), NoneSet(bits, TX_AMOUNT_EXPONENT_BITS))
    else Add(WithMantissa(bits, k - 1), Mul(Const(Pow2(k - 1)), bits[k - 1 + TX_AMOUNT_EXPONENT_BITS]))
  }

  function Factor(bit: Expr, i: nat): Expr { Add(Mul(Const(Pow(10, Pow2(i))), bit), Sub(Const(1), bit)) }

  function WithFactors(bits: seq<Expr>, k: nat): Expr
    requires |bits| == TX_AMOUNT_BITS && k <= TX_AMOUNT_EXPONENT_BITS
  {
    if k == 0 then WithMantissa(bits, MANTISSA_BITS) else Mul(WithFactors(bits, k - 1), Factor(bits[k - 1], k - 1))
  }

  method ComputeIntegerAmount(bits: seq<Expr>) returns (amount: Expr)
    requires |bits| == TX_AMOUNT_BITS
    ensures amount == WithFactors(bits, TX_AMOUNT_EXPONENT_BITS)
  {
    amount := Const(1);
    for i := 0 to TX_AMOUNT_EXPONENT_BITS
      invariant amount == NoneSet(bits, i)
    {
      amount := Mul(amount, Sub(Const(1), bits[i]));
    }
    amount := Sub(Const(1), amount);
    for i := 0 to MANTISSA_BITS
      invariant amount == WithMantissa(bits, i)
    {
      amount := Add(amount, Mul(Const(Pow2(i)), bits[i + TX_AMOUNT_EXPONENT_BITS]));
    }
    for i := 0 to TX_AMOUNT_EXPONENT_BITS
      invariant amount == WithFactors(bits, i)
    {
      var base := Pow(10, Pow2(i));
      amount := Mul(amount, Add(Mul(Const(base), bits[i]), Sub(Const(1), bits[i])));
    }
  }

  // ---- What it means ----

  lemma BitSame(p: int, e: Expr, w: Witness)
    requires p > 0
    ensures Same(p, Eval(e, w), Value(p, e, w)) && Same(p, 1 - Eval(e, w), 1 - Value(p, e, w))
  {
    hide Residue;
    var x, v := Eval(e, w), Value(p, e, w);
    ValueIsResidue(p, e, w);
    SameResidue(p, x);
    SameTimes(p, x, v, -1);
    SameSelf(p, 1);
    SameAdd(p, 1, 1, x * -1, v * -1);
  }

  /** 1 if the exponent is 0, and 0 otherwise. */
  lemma {:induction false} NoneSetMeans(p: int, bits: seq<Expr>, w: Witness, k: nat)
    requires p > 0 && k <= |bits| && AreBits(p, bits, w)
    ensures Same(p, Eval(NoneSet(bits, k), w), if Number(p, bits, w, k) == 0 then 1 else 0)
  {
    hide Same, Value;
    if k == 0 {
      SameSelf(p, 1);
    } else {
      NoneSetMeans(p, bits, w, k - 1);
      NumberInRange(p, bits, w, k - 1);
      var b := Value(p, bits[k - 1], w);
      assert b == 0 || b == 1;
      BitSame(p, bits[k - 1], w);
      var none := if Number(p, bits, w, k - 1) == 0 then 1 else 0;
      SameMul(p, Eval(NoneSet(bits, k - 1), w), none, 1 - Eval(bits[k - 1], w), 1 - b);
      assert Eval(Sub(Const(1), bits[k - 1]), w) == 1 - Eval(bits[k - 1], w);
      assert Number(p, bits, w, k) == Number(p, bits, w, k - 1) + b * Pow2(k - 1);
    }
  }

  /** The number that bits 5 to k + 4 spell. */
  function Upper(p: int, bits: seq<Expr>, w: Witness, k: nat): int
    requires p > 0 && k + TX_AMOUNT_EXPONENT_BITS <= |bits|
  {
    if k == 0 then 0
    else Upper(p, bits, w, k - 1) + Value(p, bits[k - 1 + TX_AMOUNT_EXPONENT_BITS], w) * Pow2(k - 1)
  }

  lemma {:induction false} UpperIsMantissa(p: int, bits: seq<Expr>, w: Witness, k: nat)
    requires p > 0 && k + TX_AMOUNT_EXPONENT_BITS <= |bits|
    ensures Number(p, bits, w, k + TX_AMOUNT_EXPONENT_BITS)
         == Number(p, bits, w, TX_AMOUNT_EXPONENT_BITS) + 32 * Upper(p, bits, w, k)
  {
    hide Value, Pow2;
    if k > 0 {
      UpperIsMantissa(p, bits, w, k - 1);
      Pow2Add(5, k - 1);
      Pow2Literals();
      var b := Value(p, bits[k - 1 + TX_AMOUNT_EXPONENT_BITS], w);
      assert b * (32 * Pow2(k - 1)) == 32 * (b * Pow2(k - 1));
    }
  }

  lemma {:induction false} WithMantissaMeans(p: int, bits: seq<Expr>, w: Witness, k: nat)
    requires p > 0 && k + TX_AMOUNT_EXPONENT_BITS <= |bits| && AreBits(p, bits, w)
    ensures Same(p, Eval(WithMantissa(bits, k), w),
                 Upper(p, bits, w, k) + if Number(p, bits, w, TX_AMOUNT_EXPONENT_BITS) > 0 then 1 else 0)
  {
    hide Same, Value, Pow2, Number, NoneSet;
    var some := if Number(p, bits, w, TX_AMOUNT_EXPONENT_BITS) > 0 then 1 else 0;
    if k == 0 {
      NoneSetMeans(p, bits, w, TX_AMOUNT_EXPONENT_BITS);
      NumberInRange(p, bits, w, TX_AMOUNT_EXPONENT_BITS);
      var x := Eval(NoneSet(bits, TX_AMOUNT_EXPONENT_BITS), w);
      SameTimes(p, x, 1 - some, -1);
      SameSelf(p, 1);
      SameAdd(p, 1, 1, x * -1, (1 - some) * -1);
      assert Eval(WithMantissa(bits, 0), w) == 1 + x * -1;
    } else {
      WithMantissaMeans(p, bits, w, k - 1);
      var bit := bits[k - 1 + TX_AMOUNT_EXPONENT_BITS];
      var x, b, c := Eval(bit, w), Value(p, bit, w), Pow2(k - 1);
      BitSame(p, bit, w);
      SameTimes(p, x, b, c);
      SameAdd(p, Eval(WithMantissa(bits, k - 1), w), Upper(p, bits, w, k - 1) + some, x * c, b * c);
      assert Eval(Mul(Const(c), bit), w) == x * c;
    }
  }

  /** A factor is 10^(2^i) if its bit is set, and 1 otherwise. */
  lemma FactorMeans(p: int, bit: Expr, i: nat, w: Witness)
    requires p > 0 && (Value(p, bit, w) == 0 || Value(p, bit, w) == 1)
    ensures Same(p, Eval(Factor(bit, i), w), if Value(p, bit, w) == 1 then Pow(10, Pow2(i)) else 1)
  {
    hide Same, Value, Pow, Pow2;
    var x, b, c := Eval(bit, w), Value(p, bit, w), Pow(10, Pow2(i));
    BitSame(p, bit, w);
    SameTimes(p, x, b, c);
    SameAdd(p, x * c, b * c, 1 - x, 1 - b);
    assert Eval(Mul(Const(c), bit), w) == x * c;
    assert Eval(Sub(Const(1), bit), w) == 1 - x;
    assert Eval(Factor(bit, i), w) == x * c + (1 - x);
  }

  lemma {:induction false} WithFactorsMeans(p: int, bits: seq<Expr>, w: Witness, k: nat, m: int)
    requires p > 0 && |bits| == TX_AMOUNT_BITS && k <= TX_AMOUNT_EXPONENT_BITS && AreBits(p, bits, w)
    requires Same(p, Eval(WithMantissa(bits, MANTISSA_BITS), w), m)
    ensures Number(p, bits, w, k) >= 0
    ensures Same(p, Eval(WithFactors(bits, k), w), m * Pow(10, Number(p, bits, w, k)))
  {
    hide Same, Value, Pow2, Pow, WithMantissa;
    NumberInRange(p, bits, w, k);
    if k == 0 {
      PowZero(10);
      assert Number(p, bits, w, 0) == 0;
      assert m * 1 == m;
    } else {
      WithFactorsMeans(p, bits, w, k - 1, m);
      NumberInRange(p, bits, w, k - 1);
      var n, b := Number(p, bits, w, k - 1), Value(p, bits[k - 1], w);
      assert b == 0 || b == 1;
      FactorMeans(p, bits[k - 1], k - 1, w);
      var f := if b == 1 then Pow(10, Pow2(k - 1)) else 1;
      SameMul(p, Eval(WithFactors(bits, k - 1), w), m * Pow(10, n), Eval(Factor(bits[k - 1], k - 1), w), f);
      PowAdd(10, n, Pow2(k - 1));
      assert Number(p, bits, w, k) == n + b * Pow2(k - 1);
      assert m * Pow(10, n) * f == m * (Pow(10, n) * f);
    }
  }

  /** The circuit decodes: on bits, its value is the integer that the encoded amount
      stands for. */
  lemma CircuitDecodes(p: int, bits: seq<Expr>, w: Witness)
    requires p > 0 && |bits| == TX_AMOUNT_BITS && AreBits(p, bits, w)
    ensures 0 <= Number(p, bits, w, TX_AMOUNT_BITS) < Pow2(TX_AMOUNT_BITS)
    ensures Same(p, Eval(WithFactors(bits, TX_AMOUNT_EXPONENT_BITS), w),
                 TxAmountDecode(Number(p, bits, w, TX_AMOUNT_BITS)))
  {
    hide Same, Value, Pow2, Pow, WithMantissa, WithFactors, Number, Upper;
    var amount, low := Number(p, bits, w, TX_AMOUNT_BITS), Number(p, bits, w, TX_AMOUNT_EXPONENT_BITS);
    NumberInRange(p, bits, w, TX_AMOUNT_BITS);
    NumberInRange(p, bits, w, TX_AMOUNT_EXPONENT_BITS);
    Pow2Literals();
    UpperIsMantissa(p, bits, w, MANTISSA_BITS);
    var mantissa := Upper(p, bits, w, MANTISSA_BITS);
    ModIs(amount, mantissa, 32, low);
    WithMantissaMeans(p, bits, w, MANTISSA_BITS);
    WithFactorsMeans(p, bits, w, TX_AMOUNT_EXPONENT_BITS, mantissa + if low > 0 then 1 else 0);
  }

  lemma {:induction false} PowMono(b: nat, m: nat, n: nat)
    requires b >= 1 && m <= n
    ensures Pow(b, m) <= Pow(b, n)
    decreases n
  {
    if m < n {
      PowMono(b, m, n - 1);
      PowPositive(b, n - 1);
      MulMono(1, b, Pow(b, n - 1));
    }
  }

  /** Decoded amounts have fewer than 144 bits. */
  lemma DecodedIsSmall(amount: nat)
    requires amount < Pow2(TX_AMOUNT_BITS)
    ensures TxAmountDecode(amount) < Pow2(144)
  {
    hide Pow, Pow2;
    PowMono(10, amount % 32, 32);
    PowPositive(10, amount % 32);
    TenTo32();
    Pow2Add(36, 108);
    Pow2Add(4, 36);
    Pow2Literals();
    var m, q := amount / 32 + (if amount % 32 > 0 then 1 else 0), Pow(10, amount % 32);
    assert amount < 16 * Pow2(36) && 2 <= Pow2(36) by {
      Pow2Small();
      Pow2Mono(1, 36);
    }
    assert m <= Pow2(36);
    MulMono(m, Pow2(36), q);
    MulMono(q, Pow2(108) - 1, Pow2(36));
    assert q * Pow2(36) == Pow2(36) * q;
    assert (Pow2(108) - 1) * Pow2(36) == Pow2(36) * Pow2(108) - Pow2(36);
  }

  lemma TenTo32()
    ensures Pow(10, 32) < Pow2(108)
  {
    hide Pow, Pow2;
    PowOne(10);
    PowStep(10, 2);
    PowAdd(10, 2, 2);
    PowAdd(10, 4, 4);
    PowAdd(10, 8, 8);
    PowAdd(10, 16, 16);
    Pow2Literals();
    Pow2Add(4, 4);
    Pow2Add(4, 8);
    Pow2Add(12, 12);
    Pow2Add(24, 24);
    Pow2Add(48, 48);
    Pow2Add(96, 12);
  }

  /** In a field of more than 144 bits nothing is reduced: the circuit's value is
      the decoded amount itself. */
  lemma CircuitDecodesExactly(p: int, bits: seq<Expr>, w: Witness)
    requires p >= Pow2(144) && |bits| == TX_AMOUNT_BITS && AreBits(p, bits, w)
    ensures 0 <= Number(p, bits, w, TX_AMOUNT_BITS) < Pow2(TX_AMOUNT_BITS)
    ensures Value(p, WithFactors(bits, TX_AMOUNT_EXPONENT_BITS), w)
         == TxAmountDecode(Number(p, bits, w, TX_AMOUNT_BITS))
  {
    hide WithFactors, Number, TxAmountDecode, Pow2, AreBits;
    CircuitDecodes(p, bits, w);
    DecodedIsSmall(Number(p, bits, w, TX_AMOUNT_BITS));
    ResidueSmall(TxAmountDecode(Number(p, bits, w, TX_AMOUNT_BITS)), p);
  }
}
