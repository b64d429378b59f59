/** The transaction rules of source/cclib/src/CCproof.cpp that spend secrets and
    assets have to obey: what the code emits, and what it enforces. */
module TxCircuit {
  import opened Arith
  import opened Field
  import opened Circuit
  import opened BitGadgets
  import opened Options

  const TX_MAX_SECRETS: nat := 7
  const TX_MAX_SECRETS_BITS: nat := 3

  // ---- Spend and trust secrets ----

  function SecretSum(valid: seq<Expr>, use: seq<Expr>, k: nat): Expr
    requires |valid| == |use| && k <= |valid|
  {
    if k == 0 then Const(0) else Add(SecretSum(valid, use, k - 1), Mul(valid[k - 1], use[k - 1]))
  }

  /** Booleanity of the slot bits and of the validity bit, the range of the
      required number, and sum(valid * use) >= required * allValid. */
  function SecretConstraints(valid: seq<Expr>, use: seq<Expr>, required: Expr, allValid: Expr, first: nat): seq<Expr>
    requires |valid| == |use|
  {
    Booleans(valid) + Booleans(use) + [Booleanity(allValid)]
    + BitConstraints(required, first, TX_MAX_SECRETS_BITS, false)
    + GreaterEqualConstraints(SecretSum(valid, use, |valid|), Mul(required, allValid), first + TX_MAX_SECRETS_BITS,
                              TX_MAX_SECRETS_BITS, None)
  }

  method CheckSecrets(cs: ConstraintSystem, valid: seq<Expr>, use: seq<Expr>, required: Expr, allValid: Expr)
    requires |valid| == |use|
    modifies cs
    ensures cs.next == old(cs.next) + 2 * TX_MAX_SECRETS_BITS + 1
    ensures cs.constraints == old(cs.constraints) + SecretConstraints(valid, use, required, allValid, old(cs.next))
  {
    hide ExtractConstraints, BitConstraints, GreaterEqualConstraints;
    for i := 0 to |valid|
      invariant cs.next == old(cs.next) && cs.constraints == old(cs.constraints) + Booleans(valid)[..i]
    {
      cs.AddBooleanity(valid[i]);
    }
    assert Booleans(valid)[..|valid|] == Booleans(valid);
    for i := 0 to |use|
      invariant cs.next == old(cs.next) && cs.constraints == old(cs.constraints) + Booleans(valid) + Booleans(use)[..i]
    {
      cs.AddBooleanity(use[i]);
    }
    assert Booleans(use)[..|use|] == Booleans(use);
    cs.AddBooleanity(allValid);
    var bits, rem, bitval := cs.ExtractBits(required, TX_MAX_SECRETS_BITS, false, false);
    var check := Const(0);
    for i := 0 to |valid|
      invariant check == SecretSum(valid, use, i)
      invariant cs.next == old(cs.next) + TX_MAX_SECRETS_BITS
      invariant cs.constraints == old(cs.constraints) + Booleans(valid) + Booleans(use) + [Booleanity(allValid)]
                                  + BitConstraints(required, old(cs.next), TX_MAX_SECRETS_BITS, false)
    {
      check := Add(check, Mul(valid[i], use[i]));
    }
    cs.CheckGreaterEqual(check, Mul(required, allValid), TX_MAX_SECRETS_BITS, None);
  }

  /** How many of the first k slots are both valid and used. */
  function CountBoth(p: int, valid: seq<Expr>, use: seq<Expr>, w: Witness, k: nat): (n: nat)
    requires p > 0 && |valid| == |use| && k <= |valid|
    ensures n <= k
  {
    if k == 0 then 0
    else CountBoth(p, valid, use, w, k - 1)
         + if Value(p, valid[k - 1], w) == 1 && Value(p, use[k - 1], w) == 1 then 1 else 0
  }

  lemma {:induction false} SecretSumCounts(p: int, valid: seq<Expr>, use: seq<Expr>, w: Witness, k: nat)
    requires p > 1 && |valid| == |use| && k <= |valid| && AreBits(p, valid, w) && AreBits(p, use, w)
    ensures Same(p, Eval(SecretSum(valid, use, k), w), CountBoth(p, valid, use, w, k))
  {
    hide Same, Value;
    if k == 0 {
      SameSelf(p, 0);
    } else {
      SecretSumCounts(p, valid, use, w, k - 1);
      var x, y := Value(p, valid[k - 1], w), Value(p, use[k - 1], w);
      ProductOfBits(p, valid[k - 1], use[k - 1], w);
      EvalSecretSum(valid, use, k, w);
      SameAdd(p, Eval(SecretSum(valid, use, k - 1), w), CountBoth(p, valid, use, w, k - 1),
              Eval(valid[k - 1], w) * Eval(use[k - 1], w), x * y);
    }
  }

  lemma EvalSecretSum(valid: seq<Expr>, use: seq<Expr>, k: nat, w: Witness)
    requires |valid| == |use| && 0 < k <= |valid|
    ensures Eval(SecretSum(valid, use, k), w)
         == Eval(SecretSum(valid, use, k - 1), w) + Eval(valid[k - 1], w) * Eval(use[k - 1], w)
  {
    assert Eval(Mul(valid[k - 1], use[k - 1]), w) == Eval(valid[k - 1], w) * Eval(use[k - 1], w);
  }

  lemma ProductOfBits(p: int, a: Expr, b: Expr, w: Witness)
    requires p > 0
    ensures Same(p, Eval(a, w) * Eval(b, w), Value(p, a, w) * Value(p, b, w))
  {
    hide Same, Residue;
    var x, y := Eval(a, w), Eval(b, w);
    var u, v := Value(p, a, w), Value(p, b, w);
    SameResidue(p, x);
    SameResidue(p, y);
    ValueIsResidue(p, a, w);
    ValueIsResidue(p, b, w);
    SameTimes(p, x, u, y);
    SameTimes(p, y, v, u);
    SameTrans(p, x * y, u * y, u * v);
    assert y * u == u * y && v * u == u * v;
  }

  /** RULE: if the secrets are claimed valid, at least the required number of
      slots are both valid and used; and the claim is a bit. */
  lemma {:induction false} SecretsThreshold(p: int, valid: seq<Expr>, use: seq<Expr>, required: Expr, allValid: Expr,
                                            first: nat, w: Witness)
    requires IsPrime(p) && 16 <= p && |valid| == |use| <= TX_MAX_SECRETS
    requires Satisfied(p, SecretConstraints(valid, use, required, allValid, first), w)
    ensures Value(p, allValid, w) == 0 || Value(p, allValid, w) == 1
    ensures Value(p, required, w) < 8
    ensures Value(p, allValid, w) == 1 ==> CountBoth(p, valid, use, w, |valid|) >= Value(p, required, w)
  {
    hide IsZero, Value, Booleans, BitConstraints, GreaterEqualConstraints, CountBoth, Same;
    var cb, cu, ca := Booleans(valid), Booleans(use), [Booleanity(allValid)];
    var cr := BitConstraints(required, first, TX_MAX_SECRETS_BITS, false);
    var sum, need := SecretSum(valid, use, |valid|), Mul(required, allValid);
    var cg := GreaterEqualConstraints(sum, need, first + TX_MAX_SECRETS_BITS, TX_MAX_SECRETS_BITS, None);
    SatisfiedConcat(p, cb + cu + ca + cr, cg, w);
    SatisfiedConcat(p, cb + cu + ca, cr, w);
    SatisfiedConcat(p, cb + cu, ca, w);
    SatisfiedConcat(p, cb, cu, w);
    assert IsZero(p, Eval(ca[0], w));
    BooleansAreBits(p, valid, w);
    BooleansAreBits(p, use, w);
    BooleanIsBit(p, allValid, w);
    assert Pow2(3) == 8 && Pow2(4) == 16;
    BitsBoundValue(p, required, first, TX_MAX_SECRETS_BITS, w);
    SecretSumCounts(p, valid, use, w, |valid|);
    SmallValue(p, sum, CountBoth(p, valid, use, w, |valid|), w);
    RequiredIfValid(p, required, allValid, w);
    GreaterEqualSound(p, sum, need, first + TX_MAX_SECRETS_BITS, TX_MAX_SECRETS_BITS, None, w);
  }

  lemma SmallValue(p: int, e: Expr, n: int, w: Witness)
    requires 0 <= n < p && Same(p, Eval(e, w), n)
    ensures Value(p, e, w) == n
  {
    ResidueSmall(n, p);
  }

  lemma RequiredIfValid(p: int, required: Expr, allValid: Expr, w: Witness)
    requires p > 1 && (Value(p, allValid, w) == 0 || Value(p, allValid, w) == 1)
    ensures Value(p, Mul(required, allValid), w) == Value(p, required, w) * Value(p, allValid, w)
  {
    hide Value, Same;
    ProductOfBits(p, required, allValid, w);
    var n := Value(p, required, w) * Value(p, allValid, w);
    assert Eval(Mul(required, allValid), w) == Eval(required, w) * Eval(allValid, w);
    SmallValue(p, Mul(required, allValid), n, w);
  }
}
