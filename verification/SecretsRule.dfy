/** Exactly when the rule of source/cclib/src/CCproof.cpp on the secrets of an input
    can be satisfied. */
module SecretsRule {
  import opened Arith
  import opened Field
  import opened Circuit
  import opened BitGadgets
  import opened TxCircuit
  import opened Options
  import HashCircuit
  import opened HashWitness

  lemma BitIsBoolean(p: int, e: Expr, w: Witness)
    requires p > 1 && (Value(p, e, w) == 0 || Value(p, e, w) == 1)
    ensures IsZero(p, Eval(Booleanity(e), w))
  {
    var x := Eval(e, w);
    EvalBooleanity(e, w);
    if Value(p, e, w) == 0 {
      ZeroTimes(p, x, x - 1);
    } else {
      ResidueSmall(1, p);
      SameIffZero(p, x, 1);
      ZeroTimes(p, x - 1, x);
    }
  }

  lemma BitsAreBooleans(p: int, bits: seq<Expr>, w: Witness)
    requires p > 1 && AreBits(p, bits, w)
    ensures Satisfied(p, Booleans(bits), w)
  {
    hide IsZero, Value, Booleanity;
    forall i | 0 <= i < |bits| ensures IsZero(p, Eval(Booleans(bits)[i], w)) {
      BitIsBoolean(p, bits[i], w);
    }
  }

  lemma BooleansBelow(bits: seq<Expr>, n: nat)
    requires AllBelow(bits, n)
    ensures AllBelow(Booleans(bits), n)
  {
    hide UsesBelow, Booleanity;
    forall i | 0 <= i < |bits| ensures UsesBelow(Booleans(bits)[i], n) {
      BooleanityBelow(bits[i], n);
    }
  }

  lemma {:induction false} SecretSumBelow(valid: seq<Expr>, use: seq<Expr>, k: nat, n: nat)
    requires |valid| == |use| && k <= |valid| && AllBelow(valid, n) && AllBelow(use, n)
    ensures UsesBelow(SecretSum(valid, use, k), n)
  {
    if k > 0 {
      SecretSumBelow(valid, use, k - 1, n);
      assert UsesBelow(Mul(valid[k - 1], use[k - 1]), n);
    }
  }

  /** The slots' bits and the claim are bits, the required number is below 8, and it is
      reached by the slots that are both valid and used, if the claim is made. */
  ghost predicate IsKept(p: int, valid: seq<Expr>, use: seq<Expr>, required: Expr, allValid: Expr, w: Witness)
    requires p > 0 && |valid| == |use|
  {
    && AreBits(p, valid, w) && AreBits(p, use, w) && Value(p, allValid, w) in {0, 1} && Value(p, required, w) < 8
    && (Value(p, allValid, w) == 1 ==> CountBoth(p, valid, use, w, |valid|) >= Value(p, required, w))
  }

  /** What is there before the new variables. */
  function Claims(valid: seq<Expr>, use: seq<Expr>, allValid: Expr): seq<Expr> {
    Booleans(valid) + Booleans(use) + [Booleanity(allValid)]
  }

  lemma ClaimsIff(p: int, valid: seq<Expr>, use: seq<Expr>, allValid: Expr, w: Witness)
    requires IsPrime(p)
    ensures Satisfied(p, Claims(valid, use, allValid), w)
       <==> AreBits(p, valid, w) && AreBits(p, use, w) && Value(p, allValid, w) in {0, 1}
  {
    hide IsZero, Value, Booleanity, Booleans;
    var c := Booleanity(allValid);
    SatisfiedConcat(p, Booleans(valid) + Booleans(use), [c], w);
    SatisfiedConcat(p, Booleans(valid), Booleans(use), w);
    if Satisfied(p, Claims(valid, use, allValid), w) {
      BooleansAreBits(p, valid, w);
      BooleansAreBits(p, use, w);
      HashCircuit.SatisfiedOne(p, c, w);
      BooleanIsBit(p, allValid, w);
    }
    if AreBits(p, valid, w) && AreBits(p, use, w) && Value(p, allValid, w) in {0, 1} {
      BitsAreBooleans(p, valid, w);
      BitsAreBooleans(p, use, w);
      BitIsBoolean(p, allValid, w);
      OneSatisfied(p, c, w);
    }
  }

  lemma ClaimsBelow(valid: seq<Expr>, use: seq<Expr>, allValid: Expr, n: nat)
    requires AllBelow(valid, n) && AllBelow(use, n) && UsesBelow(allValid, n)
    ensures AllBelow(Claims(valid, use, allValid), n)
  {
    hide UsesBelow, AllBelow, Booleanity, Booleans;
    BooleansBelow(valid, n);
    BooleansBelow(use, n);
    BooleanityBelow(allValid, n);
    OneBelow(Booleanity(allValid), n);
    ConcatBelow(Booleans(valid), Booleans(use), n);
    ConcatBelow(Booleans(valid) + Booleans(use), [Booleanity(allValid)], n);
  }

  lemma SecretsComplete(p: int, valid: seq<Expr>, use: seq<Expr>, required: Expr, allValid: Expr, first: nat,
                        w: Witness)
    returns (h: Witness)
    requires IsPrime(p) && 16 <= p && |valid| == |use| <= TX_MAX_SECRETS
    requires AllBelow(valid, first) && AllBelow(use, first) && UsesBelow(required, first) && UsesBelow(allValid, first)
    requires IsKept(p, valid, use, required, allValid, w)
    ensures AgreeBelow(w, h, first) && Satisfied(p, SecretConstraints(valid, use, required, allValid, first), h)
  {
    hide IsZero, Value, BitConstraints, GreaterEqualConstraints, CountBoth, Same, AllBelow, UsesBelow, AgreeBelow,
         Satisfied, SecretSum, Claims, AreBits, Eval;
    var claims, mid := Claims(valid, use, allValid), first + TX_MAX_SECRETS_BITS;
    var bits := BitConstraints(required, first, TX_MAX_SECRETS_BITS, false);
    var sum, need := SecretSum(valid, use, |valid|), Mul(required, allValid);
    ClaimsIff(p, valid, use, allValid, w);
    ClaimsBelow(valid, use, allValid, first);
    EightAndSixteen();
    WholeValue(p, Value(p, required, w));
    var g := BitsComplete(p, required, first, TX_MAX_SECRETS_BITS, false, w, HashCircuit.Cut(Value(p, required, w), 0));
    OperandsBelow(valid, use, required, allValid, first, mid);
    OperandsAre(p, valid, use, required, allValid, w);
    ValueAgrees(p, sum, w, g, first);
    ValueAgrees(p, need, w, g, first);
    h := GreaterEqualComplete(p, sum, need, mid, TX_MAX_SECRETS_BITS, None, g);
    AgreeTrans(w, g, h, first, mid);
    StaysSatisfied(p, claims, w, h, first);
    StaysSatisfied(p, bits, g, h, mid);
    ConstraintsJoin(p, valid, use, required, allValid, first, h);
  }

  lemma ConstraintsJoin(p: int, valid: seq<Expr>, use: seq<Expr>, required: Expr, allValid: Expr, first: nat,
                        h: Witness)
    requires p > 0 && |valid| == |use|
    ensures Satisfied(p, SecretConstraints(valid, use, required, allValid, first), h)
       <==> && Satisfied(p, Claims(valid, use, allValid), h)
            && Satisfied(p, BitConstraints(required, first, TX_MAX_SECRETS_BITS, false), h)
            && Satisfied(p, GreaterEqualConstraints(SecretSum(valid, use, |valid|), Mul(required, allValid),
                                                    first + TX_MAX_SECRETS_BITS, TX_MAX_SECRETS_BITS, None), h)
  {
    hide Satisfied, BitConstraints, GreaterEqualConstraints, SecretSum, Booleans, Booleanity;
    var claims, bits := Claims(valid, use, allValid), BitConstraints(required, first, TX_MAX_SECRETS_BITS, false);
    SatisfiedConcat(p, claims + bits,
                    GreaterEqualConstraints(SecretSum(valid, use, |valid|), Mul(required, allValid),
                                            first + TX_MAX_SECRETS_BITS, TX_MAX_SECRETS_BITS, None), h);
    SatisfiedConcat(p, claims, bits, h);
  }

  lemma EightAndSixteen()
    ensures Pow2(TX_MAX_SECRETS_BITS) == 8 && Pow2(TX_MAX_SECRETS_BITS + 1) == 16
  {
    assert Pow2(3) == 8 && Pow2(4) == 16;
  }

  lemma WholeValue(p: int, v: nat)
    requires p > 0 && v < 8
    ensures HashCircuit.IsCut(p, v, TX_MAX_SECRETS_BITS, HashCircuit.Cut(v, 0), false)
  {
    hide Pow2;
    EightAndSixteen();
    SameSelf(p, v);
  }

  lemma OperandsBelow(valid: seq<Expr>, use: seq<Expr>, required: Expr, allValid: Expr, first: nat, mid: nat)
    requires |valid| == |use| && first <= mid
    requires AllBelow(valid, first) && AllBelow(use, first) && UsesBelow(required, first) && UsesBelow(allValid, first)
    ensures UsesBelow(SecretSum(valid, use, |valid|), first) && UsesBelow(SecretSum(valid, use, |valid|), mid)
    ensures UsesBelow(Mul(required, allValid), first) && UsesBelow(Mul(required, allValid), mid)
  {
    hide AllBelow, SecretSum;
    SecretSumBelow(valid, use, |valid|, first);
    BelowMore(SecretSum(valid, use, |valid|), first, mid);
    BelowMore(Mul(required, allValid), first, mid);
  }

  /** The two numbers that are compared. */
  lemma OperandsAre(p: int, valid: seq<Expr>, use: seq<Expr>, required: Expr, allValid: Expr, w: Witness)
    requires IsPrime(p) && 16 <= p && |valid| == |use| <= TX_MAX_SECRETS
    requires AreBits(p, valid, w) && AreBits(p, use, w) && Value(p, allValid, w) in {0, 1}
    ensures Value(p, SecretSum(valid, use, |valid|), w) == CountBoth(p, valid, use, w, |valid|) < 8
    ensures Value(p, Mul(required, allValid), w) == Value(p, required, w) * Value(p, allValid, w)
  {
    hide Value, Same, SecretSum, CountBoth, AreBits;
    SecretSumCounts(p, valid, use, w, |valid|);
    SmallValue(p, SecretSum(valid, use, |valid|), CountBoth(p, valid, use, w, |valid|), w);
    RequiredIfValid(p, required, allValid, w);
  }

  lemma {:induction false} CountAgrees(p: int, valid: seq<Expr>, use: seq<Expr>, w: Witness, h: Witness, n: nat, k: nat)
    requires p > 0 && |valid| == |use| && k <= |valid| && AllBelow(valid, n) && AllBelow(use, n) && AgreeBelow(w, h, n)
    ensures CountBoth(p, valid, use, w, k) == CountBoth(p, valid, use, h, k)
  {
    hide UsesBelow, Value;
    if k > 0 {
      CountAgrees(p, valid, use, w, h, n, k - 1);
      ValueAgrees(p, valid[k - 1], w, h, n);
      ValueAgrees(p, use[k - 1], w, h, n);
    }
  }

  lemma SecretsSound(p: int, valid: seq<Expr>, use: seq<Expr>, required: Expr, allValid: Expr, first: nat, w: Witness,
                     h: Witness)
    requires IsPrime(p) && 16 <= p && |valid| == |use| <= TX_MAX_SECRETS
    requires AllBelow(valid, first) && AllBelow(use, first) && UsesBelow(required, first) && UsesBelow(allValid, first)
    requires AgreeBelow(w, h, first) && Satisfied(p, SecretConstraints(valid, use, required, allValid, first), h)
    ensures IsKept(p, valid, use, required, allValid, w)
  {
    hide Value, Satisfied, SecretConstraints, CountBoth, AreBits, AllBelow, AgreeBelow, UsesBelow, Claims;
    ConstraintsJoin(p, valid, use, required, allValid, first, h);
    SecretsThreshold(p, valid, use, required, allValid, first, h);
    ClaimsIff(p, valid, use, allValid, h);
    AgreeSym(w, h, first);
    BitsAgree(p, valid, h, w, first);
    BitsAgree(p, use, h, w, first);
    ValueAgrees(p, required, w, h, first);
    ValueAgrees(p, allValid, w, h, first);
    CountAgrees(p, valid, use, w, h, first, |valid|);
  }

  lemma AgreeSym(w: Witness, h: Witness, n: nat)
    requires AgreeBelow(w, h, n)
    ensures AgreeBelow(h, w, n)
  {
  }

  /** The rule can be satisfied if and only if it is kept. */
  lemma SecretsIff(p: int, valid: seq<Expr>, use: seq<Expr>, required: Expr, allValid: Expr, first: nat, w: Witness)
    requires IsPrime(p) && 16 <= p && |valid| == |use| <= TX_MAX_SECRETS
    requires AllBelow(valid, first) && AllBelow(use, first) && UsesBelow(required, first) && UsesBelow(allValid, first)
    ensures (exists h: Witness ::
               AgreeBelow(w, h, first) && Satisfied(p, SecretConstraints(valid, use, required, allValid, first), h))
       <==> IsKept(p, valid, use, required, allValid, w)
  {
    hide Satisfied, SecretConstraints, AllBelow, AgreeBelow, UsesBelow, IsKept;
    forall h: Witness
      | AgreeBelow(w, h, first) && Satisfied(p, SecretConstraints(valid, use, required, allValid, first), h)
      ensures IsKept(p, valid, use, required, allValid, w)
    {
      SecretsSound(p, valid, use, required, allValid, first, w, h);
    }
    if IsKept(p, valid, use, required, allValid, w) {
      var h := SecretsComplete(p, valid, use, required, allValid, first, w);
    }
  }
}
