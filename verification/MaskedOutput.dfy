/** Masked encryption of output fields in source/cclib/src/CCproof.cpp: what
    check_and and check_xor enforce together on a value, its mask and its pad. */
module MaskedOutput {
  import opened Arith
  import opened Field
  import opened Circuit
  import opened BitGadgets

  /** pad * enforce + (1 - enforce) * value. */
  function ChosenPad(pad: Expr, enforce: Expr, value: Expr): Expr {
    Add(Mul(pad, enforce), Mul(Sub(Const(1), enforce), value))
  }

  /** The bits of the chosen pad; xor = mask & pad; enc = value ^ xor. */
  function EncryptConstraints(enc: seq<Expr>, valueBits: seq<Expr>, xorBits: seq<Expr>, maskBits: seq<Expr>,
                              chosen: Expr, first: nat): seq<Expr>
    requires |enc| == |valueBits| == |xorBits| == |maskBits|
  {
    BitConstraints(chosen, first, |enc|, false)
    + AndConstraints(xorBits, maskBits, BitVars(first, |enc|))
    + XorConstraints(enc, valueBits, xorBits)
  }

  method CheckEncrypted(cs: ConstraintSystem, enc: seq<Expr>, valueBits: seq<Expr>, xorBits: seq<Expr>,
                        maskBits: seq<Expr>, pad: Expr, enforce: Expr, value: Expr)
    requires |enc| == |valueBits| == |xorBits| == |maskBits|
    modifies cs
    ensures cs.next == old(cs.next) + |enc|
    ensures cs.constraints == old(cs.constraints)
              + EncryptConstraints(enc, valueBits, xorBits, maskBits, ChosenPad(pad, enforce, value), old(cs.next))
  {
    var chosen := Add(Mul(pad, enforce), Mul(Sub(Const(1), enforce), value));
    var padBits, rem, bitval := cs.ExtractBits(chosen, |enc|, false, false);
    cs.CheckAnd(xorBits, maskBits, padBits);
    cs.CheckXor(enc, valueBits, xorBits);
  }

  function XorBit(a: int, b: int): int { (a + b) % 2 }

  /** With a bit, the constraint of check_and says that val is the product. */
  lemma AndIff(p: int, val: Expr, a: Expr, b: Expr, w: Witness)
    requires p > 1 && (Value(p, b, w) == 0 || Value(p, b, w) == 1)
    ensures IsZero(p, Eval(Sub(Mul(a, b), val), w)) <==> Value(p, val, w) == Value(p, a, w) * Value(p, b, w)
  {
    hide IsZero, Same, Residue;
    var x, y := Eval(a, w), Eval(b, w);
    assert Eval(Sub(Mul(a, b), val), w) == x * y - Eval(val, w) by { assert Eval(Mul(a, b), w) == x * y; }
    SameIffZero(p, x * y, Eval(val, w));
    ProductSame(p, x, y);
    SameIffEqual(p, x * y, Eval(val, w));
    SameIffEqual(p, x * y, Residue(x, p) * Residue(y, p));
    ResidueSmall(Residue(x, p) * Residue(y, p), p);
  }

  lemma ProductSame(p: int, x: int, y: int)
    requires p > 0
    ensures Same(p, x * y, Residue(x, p) * Residue(y, p))
  {
    hide Residue;
    ResidueMul(x, y, p);
    ResidueMul(y, Residue(x, p), p);
    assert Residue(x, p) * y == y * Residue(x, p) && Residue(x, p) * Residue(y, p) == Residue(y, p) * Residue(x, p);
  }

  lemma SameIffEqual(p: int, x: int, y: int)
    requires p > 0
    ensures Same(p, x, y) <==> Residue(x, p) == Residue(y, p)
  {
  }

  /** On bits, the constraint of check_xor says that val is the exclusive or. */
  lemma XorIff(p: int, val: Expr, a: Expr, b: Expr, w: Witness)
    requires p > 1 && (Value(p, a, w) == 0 || Value(p, a, w) == 1) && (Value(p, b, w) == 0 || Value(p, b, w) == 1)
    ensures IsZero(p, Eval(Sub(Sub(Add(a, b), Mul(Mul(a, b), Const(2))), val), w))
       <==> Value(p, val, w) == XorBit(Value(p, a, w), Value(p, b, w))
  {
    hide IsZero, Same, Residue;
    var x, y, r, s := Eval(a, w), Eval(b, w), Value(p, a, w), Value(p, b, w);
    EvalXor(val, a, b, w);
    SameIffZero(p, x + y - x * y * 2, Eval(val, w));
    ProductSame(p, x, y);
    SameTimes(p, x * y, r * s, -2);
    SameResidue(p, x);
    SameResidue(p, y);
    SameAdd(p, x, r, y, s);
    SameAdd(p, x + y, r + s, x * y * -2, r * s * -2);
    assert x + y + x * y * -2 == x + y - x * y * 2;
    SameIffEqual(p, x + y - x * y * 2, Eval(val, w));
    SameIffEqual(p, x + y - x * y * 2, r + s + r * s * -2);
    assert r + s + r * s * -2 == XorBit(r, s);
    ResidueSmall(XorBit(r, s), p);
  }

  lemma EvalXor(val: Expr, a: Expr, b: Expr, w: Witness)
    ensures Eval(Sub(Sub(Add(a, b), Mul(Mul(a, b), Const(2))), val), w)
         == Eval(a, w) + Eval(b, w) - Eval(a, w) * Eval(b, w) * 2 - Eval(val, w)
  {
    var ab, t := Mul(a, b), Mul(Mul(a, b), Const(2));
    assert Eval(ab, w) == Eval(a, w) * Eval(b, w);
    assert Eval(t, w) == Eval(ab, w) * 2;
    assert Eval(Sub(Add(a, b), t), w) == Eval(Add(a, b), w) - Eval(t, w);
  }

  lemma EncryptSplit(p: int, enc: seq<Expr>, valueBits: seq<Expr>, xorBits: seq<Expr>, maskBits: seq<Expr>,
                     chosen: Expr, first: nat, w: Witness)
    requires p > 0 && |enc| == |valueBits| == |xorBits| == |maskBits|
    requires Satisfied(p, EncryptConstraints(enc, valueBits, xorBits, maskBits, chosen, first), w)
    ensures Satisfied(p, BitConstraints(chosen, first, |enc|, false), w)
    ensures forall i :: 0 <= i < |enc| ==>
              && IsZero(p, Eval(Sub(Mul(maskBits[i], BitVars(first, |enc|)[i]), xorBits[i]), w))
              && IsZero(p, Eval(Sub(Sub(Add(valueBits[i], xorBits[i]), Mul(Mul(valueBits[i], xorBits[i]), Const(2))),
                                    enc[i]), w))
  {
    hide IsZero, Eval, BitConstraints;
    var cb := BitConstraints(chosen, first, |enc|, false);
    var ca, cx := AndConstraints(xorBits, maskBits, BitVars(first, |enc|)), XorConstraints(enc, valueBits, xorBits);
    SatisfiedConcat(p, cb + ca, cx, w);
    SatisfiedConcat(p, cb, ca, w);
    forall i | 0 <= i < |enc|
      ensures IsZero(p, Eval(Sub(Mul(maskBits[i], BitVars(first, |enc|)[i]), xorBits[i]), w))
      ensures IsZero(p, Eval(Sub(Sub(Add(valueBits[i], xorBits[i]), Mul(Mul(valueBits[i], xorBits[i]), Const(2))),
                                 enc[i]), w))
    {
      assert IsZero(p, Eval(ca[i], w)) && IsZero(p, Eval(cx[i], w));
    }
  }

  /** Any satisfying witness encrypts bit by bit with the masked pad, whose bits
      spell the chosen pad; and the same operation decrypts. */
  lemma {:induction false} EncryptionRule(p: int, enc: seq<Expr>, valueBits: seq<Expr>, xorBits: seq<Expr>,
                                          maskBits: seq<Expr>,
                       chosen: Expr, first: nat, w: Witness)
    requires IsPrime(p) && |enc| == |valueBits| == |xorBits| == |maskBits| && Pow2(|enc|) <= p
    requires AreBits(p, valueBits, w) && AreBits(p, maskBits, w)
    requires Satisfied(p, EncryptConstraints(enc, valueBits, xorBits, maskBits, chosen, first), w)
    ensures AreBits(p, BitVars(first, |enc|), w)
    ensures Number(p, BitVars(first, |enc|), w, |enc|) == Value(p, chosen, w)
    ensures forall i :: 0 <= i < |enc| ==>
              var masked := Value(p, maskBits[i], w) * Value(p, BitVars(first, |enc|)[i], w);
              && Value(p, enc[i], w) == XorBit(Value(p, valueBits[i], w), masked)
              && Value(p, valueBits[i], w) == XorBit(Value(p, enc[i], w), masked)
  {
    hide IsZero, Value, Eval, BitConstraints, EncryptConstraints, Satisfied, Number;
    EncryptSplit(p, enc, valueBits, xorBits, maskBits, chosen, first, w);
    BitsMeanValue(p, chosen, first, |enc|, false, w);
    BitsBoundValue(p, chosen, first, |enc|, w);
    var padBits := BitVars(first, |enc|);
    forall i | 0 <= i < |enc|
      ensures var masked := Value(p, maskBits[i], w) * Value(p, padBits[i], w);
        && Value(p, enc[i], w) == XorBit(Value(p, valueBits[i], w), masked)
        && Value(p, valueBits[i], w) == XorBit(Value(p, enc[i], w), masked)
    {
      AndIff(p, xorBits[i], maskBits[i], padBits[i], w);
      XorIff(p, enc[i], valueBits[i], xorBits[i], w);
    }
  }

  /** Bits are determined by the number they spell. */
  lemma {:induction false} BitsUnique(p: int, a: seq<Expr>, b: seq<Expr>, w: Witness, k: nat)
    requires p > 0 && k <= |a| == |b| && AreBits(p, a, w) && AreBits(p, b, w)
    requires Number(p, a, w, k) == Number(p, b, w, k)
    ensures forall i :: 0 <= i < k ==> Value(p, a[i], w) == Value(p, b[i], w)
  {
    hide Value, Number, Pow2;
    if k > 0 {
      NumberInRange(p, a, w, k - 1);
      NumberInRange(p, b, w, k - 1);
      NumberStep(p, a, w, k);
      NumberStep(p, b, w, k);
      assert Value(p, a[k - 1], w) in {0, 1} && Value(p, b[k - 1], w) in {0, 1};
      BitsUnique(p, a, b, w, k - 1);
    }
  }

  lemma ChosenPadIs(p: int, pad: Expr, enforce: Expr, value: Expr, w: Witness)
    requires p > 1
    ensures Value(p, enforce, w) == 1 ==> Value(p, ChosenPad(pad, enforce, value), w) == Value(p, pad, w)
    ensures Value(p, enforce, w) == 0 ==> Value(p, ChosenPad(pad, enforce, value), w) == Value(p, value, w)
  {
    hide IsZero, Same, Residue;
    var x, e, v := Eval(pad, w), Eval(enforce, w), Eval(value, w);
    var c := Eval(ChosenPad(pad, enforce, value), w);
    assert Eval(Mul(Sub(Const(1), enforce), value), w) == (1 - e) * v by {
      assert Eval(Sub(Const(1), enforce), w) == 1 - e;
    }
    assert Eval(Mul(pad, enforce), w) == x * e;
    assert c == x * e + (1 - e) * v;
    SameResidue(p, e);
    SameIffZero(p, e, Residue(e, p));
    if Value(p, enforce, w) == 1 {
      ZeroTimes(p, e - 1, x - v);
      assert c - x == (e - 1) * (x - v);
      SameIffZero(p, c, x);
      SameIffEqual(p, c, x);
    } else if Value(p, enforce, w) == 0 {
      ZeroTimes(p, e, x - v);
      assert c - v == e * (x - v);
      SameIffZero(p, c, v);
      SameIffEqual(p, c, v);
    }
  }

  /** The rule for an enforced field: what is published is the value, encrypted
      with the masked bits of the pad. */
  lemma {:induction false} EnforcedField(p: int, enc: seq<Expr>, valueBits: seq<Expr>, xorBits: seq<Expr>,
                                         maskBits: seq<Expr>,
                      pad: Expr, enforce: Expr, value: Expr, first: nat, w: Witness)
    requires IsPrime(p) && |enc| == |valueBits| == |xorBits| == |maskBits| && Pow2(|enc|) <= p
    requires AreBits(p, valueBits, w) && AreBits(p, maskBits, w) && Value(p, enforce, w) == 1
    requires Satisfied(p, EncryptConstraints(enc, valueBits, xorBits, maskBits, ChosenPad(pad, enforce, value), first),
                       w)
    ensures Number(p, BitVars(first, |enc|), w, |enc|) == Value(p, pad, w)
    ensures forall i :: 0 <= i < |enc| ==>
              Value(p, enc[i], w)
              == XorBit(Value(p, valueBits[i], w), Value(p, maskBits[i], w) * Value(p, BitVars(first, |enc|)[i], w))
  {
    hide Value, AreBits, Satisfied, Number, EncryptConstraints, ChosenPad;
    ChosenPadIs(p, pad, enforce, value, w);
    EncryptionRule(p, enc, valueBits, xorBits, maskBits, ChosenPad(pad, enforce, value), first, w);
  }

  /** The rule for a field that is not enforced: under a full mask, what is
      published is 0, whatever the value is. */
  lemma {:induction false} UnenforcedField(p: int, enc: seq<Expr>, valueBits: seq<Expr>, xorBits: seq<Expr>,
                                           maskBits: seq<Expr>,
                        pad: Expr, enforce: Expr, value: Expr, first: nat, w: Witness)
    requires IsPrime(p) && |enc| == |valueBits| == |xorBits| == |maskBits| && Pow2(|enc|) <= p
    requires AreBits(p, valueBits, w) && Value(p, enforce, w) == 0
    requires Number(p, valueBits, w, |enc|) == Value(p, value, w)
    requires forall i :: 0 <= i < |enc| ==> Value(p, maskBits[i], w) == 1
    requires Satisfied(p, EncryptConstraints(enc, valueBits, xorBits, maskBits, ChosenPad(pad, enforce, value), first),
                       w)
    ensures forall i :: 0 <= i < |enc| ==> Value(p, enc[i], w) == 0
  {
    hide Value, Satisfied, Number, EncryptConstraints, ChosenPad;
    ChosenPadIs(p, pad, enforce, value, w);
    EncryptionRule(p, enc, valueBits, xorBits, maskBits, ChosenPad(pad, enforce, value), first, w);
    BitsUnique(p, valueBits, BitVars(first, |enc|), w, |enc|);
  }
}
