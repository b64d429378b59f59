/** The rules of source/cclib/src/CCproof.cpp that tie a public value to a hash inside
    the circuit, if they are enforced. */
module EnforcedHash {
  import opened Arith
  import opened Field
  import opened Circuit
  import opened BitGadgets
  import opened HashCircuit
  import opened HashWitness
  import opened HashResults
  import NodeHash

  /** (hash - public) * enforce = 0. */
  function RuleEmits(hp: HashParams, key: PrfKey, a: seq<Input>, outbits: nat, public: Expr, enforce: Expr, first: nat)
    : seq<Expr>
    requires a != []
  {
    var e := HashEmits(hp, key, a, first, outbits, false);
    e.constraints + [Mul(Sub(e.result, public), enforce)]
  }

  method CheckHash(cs: ConstraintSystem, hp: HashParams, key: PrfKey, a: seq<Input>, outbits: nat, public: Expr,
                   enforce: Expr)
    requires a != [] && AreInputs(a)
    modifies cs
    ensures cs.constraints == old(cs.constraints) + RuleEmits(hp, key, a, outbits, public, enforce, old(cs.next))
  {
    hide HashEmits;
    var check := Hash(cs, hp, key, a, outbits, false);
    check := Sub(check, public);
    check := Mul(check, enforce);
    cs.ConstrainZero(check);
  }

  ghost predicate Passes(hp: HashParams, key: PrfKey, a: seq<Input>, outbits: nat, public: Expr, enforce: Expr,
                         first: nat, w: Witness, h: Witness)
    requires hp.p > 1 && a != []
  {
    AgreeBelow(w, h, first) && Satisfied(hp.p, RuleEmits(hp, key, a, outbits, public, enforce, first), h)
  }

  /** The rule passes just for the hashes that are admitted, or if it is not enforced. */
  lemma PassesIff(hp: HashParams, key: PrfKey, a: seq<Input>, outbits: nat, public: Expr, enforce: Expr, first: nat,
                  w: Witness, h: Witness)
    requires IsPrime(hp.p) && a != [] && AreGiven(hp.p, a, first, w)
    requires UsesBelow(public, first) && UsesBelow(enforce, first)
    ensures Passes(hp, key, a, outbits, public, enforce, first, w, h)
       <==> && IsWitness(hp, key, a, first, outbits, false, w, h)
            && (Value(hp.p, enforce, w) == 0
                || ResultOf(hp, key, a, first, outbits, false, h) == Value(hp.p, public, w))
  {
    hide AreGiven, HashEmits, Satisfied, Value, UsesBelow, AgreeBelow, IsZero, Eval;
    var p, e := hp.p, HashEmits(hp, key, a, first, outbits, false);
    var check := Mul(Sub(e.result, public), enforce);
    SatisfiedConcat(p, e.constraints, [check], h);
    EnforcedIff(p, e.result, public, enforce, h);
    if AgreeBelow(w, h, first) {
      ValueAgrees(p, public, w, h, first);
      ValueAgrees(p, enforce, w, h, first);
    }
    if IsZero(p, Eval(check, h)) {
      OneSatisfied(p, check, h);
    }
    if Satisfied(p, [check], h) {
      SatisfiedOne(p, check, h);
    }
  }

  /** A rule about a hash of fewer than 254 bits: it can be satisfied exactly when it is
      not enforced or the public value has so few bits. The inputs of the hash have no
      part in it. */
  lemma NarrowRuleIff(hp: HashParams, key: PrfKey, a: seq<Input>, outbits: nat, public: Expr, enforce: Expr,
                      first: nat, w: Witness)
    requires IsPrime(hp.p) && 2 < hp.p <= Pow2(FIELD_BITS) && a != [] && outbits < FIELD_BITS
    requires AreGiven(hp.p, a, first, w) && AreInRange(hp.p, a, w)
    requires UsesBelow(public, first) && UsesBelow(enforce, first)
    ensures (exists h: Witness :: Passes(hp, key, a, outbits, public, enforce, first, w, h))
       <==> Value(hp.p, enforce, w) == 0 || Value(hp.p, public, w) < Pow2(outbits)
  {
    hide AreGiven, AreInRange, Passes, IsWitness, ResultOf, Value, UsesBelow, Pow2, NodeHash.HashOf;
    var r := if Value(hp.p, enforce, w) == 0 then 0 else Value(hp.p, public, w);
    forall h: Witness
      ensures Passes(hp, key, a, outbits, public, enforce, first, w, h)
         <==> && IsWitness(hp, key, a, first, outbits, false, w, h)
              && (Value(hp.p, enforce, w) == 0
                  || ResultOf(hp, key, a, first, outbits, false, h) == Value(hp.p, public, w))
    {
      PassesIff(hp, key, a, outbits, public, enforce, first, w, h);
    }
    NarrowIff(hp, key, a, first, outbits, false, w, r);
  }

  /** A rule about a hash of 254 bits, on inputs with one spelling: it can be satisfied
      exactly when it is not enforced or the public value is the last knapsack of a
      spelling of the sum. */
  lemma WideRuleIff(hp: HashParams, key: PrfKey, a: seq<Input>, public: Expr, enforce: Expr, first: nat, w: Witness)
    requires IsPrime(hp.p) && IsFieldPrime(hp.p) && a != []
    requires AreGiven(hp.p, a, first, w) && AreFixed(hp.p, a, w)
    requires UsesBelow(public, first) && UsesBelow(enforce, first)
    ensures (exists h: Witness :: Passes(hp, key, a, FIELD_BITS, public, enforce, first, w, h))
       <==> Value(hp.p, enforce, w) == 0
            || exists u: nat :: IsSumOrLast(hp, key, Givens(hp.p, a, w), false, u, Value(hp.p, public, w))
  {
    hide AreGiven, AreFixed, Passes, IsWitness, ResultOf, Value, UsesBelow, NodeHash.HashOf, IsFieldPrime, Givens,
         IsSumOrLast;
    var seen := Givens(hp.p, a, w);
    var r := if Value(hp.p, enforce, w) == 0 then NodeHash.HashOf(hp, key, seen, FIELD_BITS, false)
             else Value(hp.p, public, w);
    forall h: Witness
      ensures Passes(hp, key, a, FIELD_BITS, public, enforce, first, w, h)
         <==> && IsWitness(hp, key, a, first, FIELD_BITS, false, w, h)
              && (Value(hp.p, enforce, w) == 0
                  || ResultOf(hp, key, a, first, FIELD_BITS, false, h) == Value(hp.p, public, w))
    {
      PassesIff(hp, key, a, FIELD_BITS, public, enforce, first, w, h);
    }
    HashIsSumOrLast(hp, key, seen, false);
    FullAdmittedIff(hp, key, a, first, false, w, r);
  }
}
