/** Values for the variables of a hash inside the circuit, source/cclib/src/zkhash.hpp:
    every choice of cuts satisfies what is emitted, the code's own choice among them. */
module HashWitness {
  import opened Arith
  import opened Field
  import opened Circuit
  import opened BitGadgets
  import opened HashCircuit
  import opened Options
  import NodeHash

  predicate AllBelow(cs: seq<Expr>, n: nat) { forall i :: 0 <= i < |cs| ==> UsesBelow(cs[i], n) }

  lemma {:induction false} BelowMore(e: Expr, m: nat, n: nat)
    requires UsesBelow(e, m) && m <= n
    ensures UsesBelow(e, n)
  {
    match e
    case Const(_) =>
    case Var(_) =>
    case Add(l, r) => BelowMore(l, m, n); BelowMore(r, m, n);
    case Sub(l, r) => BelowMore(l, m, n); BelowMore(r, m, n);
    case Mul(l, r) => BelowMore(l, m, n); BelowMore(r, m, n);
  }

  lemma AllBelowMore(cs: seq<Expr>, m: nat, n: nat)
    requires AllBelow(cs, m) && m <= n
    ensures AllBelow(cs, n)
  {
    hide UsesBelow;
    forall i | 0 <= i < |cs| ensures UsesBelow(cs[i], n) {
      BelowMore(cs[i], m, n);
    }
  }

  /** New variables do not disturb what is satisfied already. */
  lemma StaysSatisfied(p: int, cs: seq<Expr>, w: Witness, h: Witness, n: nat)
    requires p > 0 && AllBelow(cs, n) && AgreeBelow(w, h, n) && Satisfied(p, cs, w)
    ensures Satisfied(p, cs, h)
  {
    hide IsZero, UsesBelow, Eval;
    forall i | 0 <= i < |cs| ensures IsZero(p, Eval(cs[i], h)) {
      EvalAgrees(cs[i], w, h, n);
    }
  }

  lemma AgreeTrans(u: Witness, v: Witness, w: Witness, m: nat, n: nat)
    requires AgreeBelow(u, v, m) && AgreeBelow(v, w, n) && m <= n
    ensures AgreeBelow(u, w, m)
  {
  }

  /** The number that bits spell depends on their variables only. */
  lemma {:induction false} NumberAgrees(p: int, bits: seq<Expr>, w: Witness, h: Witness, n: nat, k: nat)
    requires p > 0 && AllBelow(bits, n) && AgreeBelow(w, h, n) && k <= |bits|
    ensures Number(p, bits, w, k) == Number(p, bits, h, k)
  {
    hide UsesBelow, Value, Pow2;
    if k > 0 {
      NumberAgrees(p, bits, w, h, n, k - 1);
      ValueAgrees(p, bits[k - 1], w, h, n);
    }
  }

  // ---- Extracted bits ----

  lemma {:induction false} SumBelow(bits: seq<Expr>, basis: nat -> int, k: nat, n: nat)
    requires k <= |bits| && AllBelow(bits, n)
    ensures UsesBelow(WeightedSum(bits, basis, k), n)
  {
    if k > 0 {
      SumBelow(bits, basis, k - 1, n);
    }
  }

  lemma BitVarsBelow(first: nat, nbits: nat)
    ensures AllBelow(BitVars(first, nbits), first + nbits)
    ensures AllBelow(Booleans(BitVars(first, nbits)), first + nbits)
  {
    forall i | 0 <= i < nbits ensures UsesBelow(Booleans(BitVars(first, nbits))[i], first + nbits) {
      BooleanityBelow(Var(first + i), first + nbits);
    }
  }

  lemma BooleanityBelow(e: Expr, n: nat)
    requires UsesBelow(e, n)
    ensures UsesBelow(Booleanity(e), n)
  {
    assert UsesBelow(Sub(e, Const(1)), n);
  }

  lemma RemainderBelow(v: Expr, low: Expr, rem: Option<Expr>, unit: int, n: nat)
    requires UsesBelow(v, n) && UsesBelow(low, n) && (rem.Some? ==> UsesBelow(rem.value, n))
    ensures UsesBelow(RemainderConstraint(v, low, rem, unit), n)
  {
    if rem.Some? {
      assert UsesBelow(Mul(rem.value, Const(unit)), n);
      assert UsesBelow(Add(low, Mul(rem.value, Const(unit))), n);
    }
  }

  lemma BitsBelow(v: Expr, first: nat, nbits: nat, withRem: bool)
    requires UsesBelow(v, first)
    ensures AllBelow(BitConstraints(v, first, nbits, withRem), first + nbits + if withRem then 1 else 0)
  {
    hide WeightedSum, Booleans;
    var n := first + nbits + if withRem then 1 else 0;
    BitVarsBelow(first, nbits);
    AllBelowMore(Booleans(BitVars(first, nbits)), first + nbits, n);
    AllBelowMore(BitVars(first, nbits), first + nbits, n);
    SumBelow(BitVars(first, nbits), POWERS, nbits, n);
    BelowMore(v, first, n);
    RemainderBelow(v, SumTo(BitVars(first, nbits), nbits), RemVar(first, nbits, withRem), Pow2(nbits), n);
  }

  function With(w: Witness, id: nat, x: int): Witness { (i: nat) => if i == id then x else w(i) }

  lemma WithAgrees(w: Witness, id: nat, x: int)
    ensures AgreeBelow(w, With(w, id, x), id)
  {
  }

  /** The new variables hold the bits of the lower part, and the upper part. */
  function CutWitness(c: Cut, first: nat, nbits: nat, w: Witness): Witness {
    With(Spelling(c.low, first, nbits, w), first + nbits, c.high)
  }

  /** Every cut of the value satisfies the constraints. */
  lemma BitsComplete(p: int, v: Expr, first: nat, nbits: nat, withRem: bool, w: Witness, c: Cut) returns (h: Witness)
    requires p > 1 && UsesBelow(v, first) && IsCut(p, Value(p, v, w), nbits, c, withRem)
    ensures AgreeBelow(w, h, first) && Satisfied(p, BitConstraints(v, first, nbits, withRem), h)
    ensures Number(p, BitVars(first, nbits), h, nbits) == c.low
    ensures AllBelow(BitConstraints(v, first, nbits, withRem), first + nbits + if withRem then 1 else 0)
  {
    hide Satisfied, Number, Pow2, Value, BitVars, UsesBelow, AllBelow, Booleans, IsZero, WeightedSum,
         RemainderConstraint;
    h := CutWitness(c, first, nbits, w);
    BitsBelow(v, first, nbits, withRem);
    var bits, rem := BitVars(first, nbits), RemVar(first, nbits, withRem);
    CutParts(p, v, first, nbits, w, c);
    EvalValueConstraint(v, bits, rem, h);
    EvalVar(first + nbits, h);
    CutIsZero(p, v, nbits, w, c, withRem);
    var e := ValueConstraint(v, bits, rem);
    assert Eval(e, h) == c.low + c.high * Pow2(nbits) - Eval(v, w);
    OneSatisfied(p, e, h);
    SatisfiedConcat(p, Booleans(bits), [e], h);
  }

  /** What the new variables amount to. */
  lemma CutParts(p: int, v: Expr, first: nat, nbits: nat, w: Witness, c: Cut)
    requires p > 1 && UsesBelow(v, first) && c.low < Pow2(nbits)
    ensures var h := CutWitness(c, first, nbits, w); var bits := BitVars(first, nbits);
      && AgreeBelow(w, h, first) && Satisfied(p, Booleans(bits), h) && Number(p, bits, h, nbits) == c.low
      && Eval(SumTo(bits, nbits), h) == c.low && Eval(v, h) == Eval(v, w) && h(first + nbits) == c.high
  {
    hide Satisfied, Pow2, Booleans, BitVars, WeightedSum, UsesBelow, AllBelow, Number;
    var g, h, bits := Spelling(c.low, first, nbits, w), CutWitness(c, first, nbits, w), BitVars(first, nbits);
    WithAgrees(g, first + nbits, c.high);
    SmallRemainder(c.low, Pow2(nbits));
    SpellingAgrees(c.low, first, nbits, w);
    AgreeTrans(w, g, h, first, first + nbits);
    BitVarsBelow(first, nbits);
    SpellingBooleans(p, c.low, first, nbits, w);
    StaysSatisfied(p, Booleans(bits), g, h, first + nbits);
    SpellingSum(c.low, first, nbits, w, nbits);
    SumBelow(bits, POWERS, nbits, first + nbits);
    EvalAgrees(SumTo(bits, nbits), g, h, first + nbits);
    SpellingNumber(p, c.low, first, nbits, w, nbits);
    NumberAgrees(p, bits, g, h, first + nbits, nbits);
    EvalAgrees(v, w, h, first);
  }

  lemma SpellingAgrees(val: int, first: nat, nbits: nat, w: Witness)
    ensures AgreeBelow(w, Spelling(val, first, nbits, w), first)
  {
  }

  lemma CutIsZero(p: int, v: Expr, nbits: nat, w: Witness, c: Cut, withRem: bool)
    requires p > 1 && IsCut(p, Value(p, v, w), nbits, c, withRem)
    ensures IsZero(p, c.low + c.high * Pow2(nbits) - Eval(v, w)) && (!withRem ==> c.high * Pow2(nbits) == 0)
  {
    hide Residue, Pow2;
    var x := c.low + c.high * Pow2(nbits);
    ValueIsResidue(p, v, w);
    SameResidue(p, Eval(v, w));
    assert Same(p, x, Eval(v, w));
    SameIffZero(p, x, Eval(v, w));
  }

  lemma OneSatisfied(p: int, c: Expr, w: Witness)
    requires p > 0 && IsZero(p, Eval(c, w))
    ensures Satisfied(p, [c], w)
  {
  }

  // ---- Knapsacks ----

  /** The sum of the bases at the set bits satisfies the knapsack constraint. */
  lemma KnapsackComplete(hp: HashParams, key: PrfKey, bits: seq<Expr>, basisi: nat, sequential: bool, next: nat,
                         w: Witness)
    returns (h: Witness)
    requires hp.p > 1 && AllBelow(bits, next)
    ensures AgreeBelow(w, h, next)
    ensures var c := KnapsackConstraint(hp, key, bits, basisi, sequential, Var(next));
      UsesBelow(c, next + 1) && Satisfied(hp.p, [c], h)
  {
    hide WeightedSum, KnapsackBasis;
    var sum := WeightedSum(bits, KnapsackBasis(hp, key, sequential, basisi), |bits|);
    SumBelow(bits, KnapsackBasis(hp, key, sequential, basisi), |bits|, next);
    BelowMore(sum, next, next + 1);
    h := With(w, next, Eval(sum, w));
    EvalAgrees(sum, w, h, next);
    EvalVar(next, h);
    EvalDifference(sum, Var(next), h);
    MultipleIsZero(hp.p, 0, 0);
  }

  // ---- Inputs ----

  /** Inputs without new variables; bits that are bits. */
  ghost predicate IsGiven(p: int, a: Input, first: nat, w: Witness)
    requires p > 0
  {
    match a
    case OfValue(v, _, _) => UsesBelow(v, first)
    case OfBits(bits) => AllBelow(bits, first) && AreBits(p, bits, w)
  }

  /** A number that the bits of an input can spell. */
  ghost predicate IsSpelling(p: int, a: Input, w: Witness, c: Cut)
    requires p > 0
  {
    match a
    case OfValue(v, nbits, masked) => IsCut(p, Value(p, v, w), nbits, c, masked)
    case OfBits(bits) => c.low == Number(p, bits, w, |bits|)
  }

  lemma InputComplete(p: int, a: Input, first: nat, w: Witness, c: Cut) returns (h: Witness)
    requires p > 1 && IsGiven(p, a, first, w) && IsSpelling(p, a, w, c)
    ensures AgreeBelow(w, h, first) && Satisfied(p, InputEmits(a, first), h)
    ensures AllBelow(InputEmits(a, first), InputNext(a, first)) && AllBelow(InputBits(a, first), InputNext(a, first))
    ensures Number(p, InputBits(a, first), h, |InputBits(a, first)|) == c.low
  {
    hide BitConstraints, Satisfied, Number, Pow2, Value, AreBits, IsCut;
    match a {
      case OfValue(v, nbits, masked) =>
        h := BitsComplete(p, v, first, nbits, masked, w, c);
        BitVarsBelow(first, nbits);
        AllBelowMore(BitVars(first, nbits), first + nbits, InputNext(a, first));
      case OfBits(bits) =>
        h := w;
        NothingEmitted(p, w);
    }
  }

  lemma NothingEmitted(p: int, w: Witness)
    requires p > 0
    ensures Satisfied(p, [], w)
  {
  }

  lemma OneComplete(hp: HashParams, key: PrfKey, a: Input, first: nat, basisi: nat, w: Witness, c: Cut)
    returns (h: Witness)
    requires hp.p > 1 && IsGiven(hp.p, a, first, w) && IsSpelling(hp.p, a, w, c)
    ensures AgreeBelow(w, h, first) && Satisfied(hp.p, OneEmits(hp, key, a, first, basisi), h)
    ensures AllBelow(OneEmits(hp, key, a, first, basisi), InputNext(a, first) + 2)
    ensures Number(hp.p, InputBits(a, first), h, |InputBits(a, first)|) == c.low
    ensures AllBelow(InputBits(a, first), InputNext(a, first))
  {
    hide Satisfied, Number, InputEmits, InputBits, InputNext, KnapsackConstraint, UsesBelow, IsGiven, IsSpelling;
    var p, bits, next := hp.p, InputBits(a, first), InputNext(a, first);
    NextIsLater(a, first);
    var k0 := KnapsackConstraint(hp, key, bits, basisi, true, Var(next));
    var b1 := basisi + NodeHash.Step(key, |bits|);
    var k1 := KnapsackConstraint(hp, key, bits, b1, false, Var(next + 1));
    var h0 := InputComplete(p, a, first, w, c);
    var h1 := KnapsackComplete(hp, key, bits, basisi, true, next, h0);
    AllBelowMore(bits, next, next + 1);
    h := KnapsackComplete(hp, key, bits, b1, false, next + 1, h1);
    AgreeTrans(h0, h1, h, next, next + 1);
    AgreeTrans(w, h0, h, first, next);
    NumberAgrees(p, bits, h0, h, next, |bits|);
    StaysSatisfied(p, InputEmits(a, first), h0, h, next);
    StaysSatisfied(p, [k0], h1, h, next + 1);
    SatisfiedConcat(p, InputEmits(a, first), [k0], h);
    SatisfiedConcat(p, InputEmits(a, first) + [k0], [k1], h);
    AllBelowMore(InputEmits(a, first), next, next + 2);
    BelowMore(k0, next + 1, next + 2);
  }

  lemma NextIsLater(a: Input, first: nat)
    ensures first <= InputNext(a, first)
  {
  }

  lemma {:induction false} FirstIsLater(a: seq<Input>, first: nat, i: nat)
    requires i <= |a|
    ensures first <= FirstOf(a, first, i)
  {
    if i > 0 {
      FirstIsLater(a, first, i - 1);
    }
  }

  ghost predicate AreGiven(p: int, a: seq<Input>, first: nat, w: Witness)
    requires p > 0
  {
    forall i :: 0 <= i < |a| ==> IsGiven(p, a[i], first, w)
  }

  /** Every input has such a number. */
  ghost predicate AreSpellings(p: int, a: seq<Input>, w: Witness, cuts: seq<Cut>)
    requires p > 0
  {
    |cuts| == |a| && forall i :: 0 <= i < |a| ==> IsSpelling(p, a[i], w, cuts[i])
  }

  /** The first i inputs as they are hashed then. */
  function Spelled(a: seq<Input>, cuts: seq<Cut>, i: nat): (r: seq<NodeHash.HashInput>)
    requires i <= |a| == |cuts|
    ensures |r| == i
  {
    if i == 0 then [] else Spelled(a, cuts, i - 1) + [NodeHash.HashInput(cuts[i - 1].low, Width(a[i - 1]))]
  }

  lemma GivenStays(p: int, a: Input, first: nat, w: Witness, h: Witness, n: nat, c: Cut)
    requires p > 0 && IsGiven(p, a, first, w) && AgreeBelow(w, h, first) && first <= n
    ensures IsGiven(p, a, n, h) && (IsSpelling(p, a, h, c) <==> IsSpelling(p, a, w, c))
  {
    hide UsesBelow, Value, Number, Pow2, IsCut;
    match a {
      case OfValue(v, _, _) =>
        ValueAgrees(p, v, w, h, first);
        BelowMore(v, first, n);
      case OfBits(bits) =>
        NumberAgrees(p, bits, w, h, first, |bits|);
        AllBelowMore(bits, first, n);
        BitsAgree(p, bits, w, h, first);
    }
  }

  lemma BitsAgree(p: int, bits: seq<Expr>, w: Witness, h: Witness, n: nat)
    requires p > 0 && AllBelow(bits, n) && AgreeBelow(w, h, n) && AreBits(p, bits, w)
    ensures AreBits(p, bits, h)
  {
    hide UsesBelow, Value;
    forall i | 0 <= i < |bits| ensures Value(p, bits[i], h) == 0 || Value(p, bits[i], h) == 1 {
      ValueAgrees(p, bits[i], w, h, n);
    }
  }

  /** The bits of the first i inputs are all below what follows them. */
  predicate BitsAreBelow(a: seq<Input>, first: nat, i: nat)
    requires i <= |a|
  {
    forall j :: 0 <= j < i ==> AllBelow(InputBits(a[j], FirstOf(a, first, j)), FirstOf(a, first, i))
  }

  lemma {:induction false} SeenAgrees(p: int, a: seq<Input>, first: nat, w: Witness, h: Witness, n: nat, i: nat)
    requires p > 0 && i <= |a| && AgreeBelow(w, h, n)
    requires forall j :: 0 <= j < i ==> AllBelow(InputBits(a[j], FirstOf(a, first, j)), n)
    ensures Seen(p, a, first, w, i) == Seen(p, a, first, h, i)
  {
    hide AllBelow, InputBits, FirstOf, Number;
    if i > 0 {
      SeenAgrees(p, a, first, w, h, n, i - 1);
      var bits := InputBits(a[i - 1], FirstOf(a, first, i - 1));
      NumberAgrees(p, bits, w, h, n, |bits|);
    }
  }

  lemma SeenKept(p: int, a: seq<Input>, first: nat, w: Witness, h: Witness, i: nat)
    requires p > 0 && i <= |a| && BitsAreBelow(a, first, i) && AgreeBelow(w, h, FirstOf(a, first, i))
    ensures Seen(p, a, first, w, i) == Seen(p, a, first, h, i)
  {
    hide AllBelow, AgreeBelow, Seen;
    SeenAgrees(p, a, first, w, h, FirstOf(a, first, i), i);
  }

  lemma NoBits(a: seq<Input>, first: nat)
    ensures BitsAreBelow(a, first, 0)
  {
  }

  lemma {:induction false} AbsorbComplete(hp: HashParams, key: PrfKey, a: seq<Input>, first: nat, w: Witness,
                                          cuts: seq<Cut>, i: nat)
    returns (h: Witness)
    requires hp.p > 1 && i <= |a| && AreGiven(hp.p, a, first, w) && AreSpellings(hp.p, a, w, cuts)
    ensures AgreeBelow(w, h, first) && Satisfied(hp.p, AbsorbEmits(hp, key, a, first, i), h)
    ensures AllBelow(AbsorbEmits(hp, key, a, first, i), FirstOf(a, first, i)) && BitsAreBelow(a, first, i)
    ensures |cuts| == |a| && Seen(hp.p, a, first, h, i) == Spelled(a, cuts, i)
  {
    hide Satisfied, Number, OneEmits, InputBits, InputNext, UsesBelow, IsGiven, IsSpelling, AllBelow, AgreeBelow,
         AreGiven, AreSpellings, BasisOf, BitsAreBelow, Width;
    GivenAt(hp.p, a, first, w, cuts, if i == 0 then 0 else i - 1);
    if i == 0 {
      h := w;
      AgreeSelf(w, first);
      NothingEmitted(hp.p, w);
      NoneBelow(FirstOf(a, first, 0));
      NoBits(a, first);
    } else {
      var p, f, b, x := hp.p, FirstOf(a, first, i - 1), BasisOf(key, a, i - 1), a[i - 1];
      var g := AbsorbComplete(hp, key, a, first, w, cuts, i - 1);
      FirstIsLater(a, first, i - 1);
      NextIsLater(x, f);
      GivenStays(p, x, first, w, g, f, cuts[i - 1]);
      h := OneComplete(hp, key, x, f, b, g, cuts[i - 1]);
      AgreeTrans(w, g, h, first, f);
      var before := AbsorbEmits(hp, key, a, first, i - 1);
      StaysSatisfied(p, before, g, h, f);
      SatisfiedConcat(p, before, OneEmits(hp, key, x, f, b), h);
      AllBelowMore(before, f, FirstOf(a, first, i));
      ConcatBelow(before, OneEmits(hp, key, x, f, b), FirstOf(a, first, i));
      SeenKept(p, a, first, g, h, i - 1);
      MoreBelow(a, first, i);
    }
  }

  lemma AgreeSelf(w: Witness, n: nat)
    ensures AgreeBelow(w, w, n)
  {
  }

  lemma GivenAt(p: int, a: seq<Input>, first: nat, w: Witness, cuts: seq<Cut>, i: nat)
    requires p > 0 && AreGiven(p, a, first, w) && AreSpellings(p, a, w, cuts)
    ensures |cuts| == |a| && (i < |a| ==> IsGiven(p, a[i], first, w) && IsSpelling(p, a[i], w, cuts[i]))
  {
    hide IsGiven, IsSpelling;
  }

  lemma NoneBelow(n: nat)
    ensures AllBelow([], n)
  {
  }

  lemma ConcatBelow(cs: seq<Expr>, ds: seq<Expr>, n: nat)
    requires AllBelow(cs, n) && AllBelow(ds, n)
    ensures AllBelow(cs + ds, n)
  {
  }

  lemma MoreBelow(a: seq<Input>, first: nat, i: nat)
    requires 0 < i <= |a| && BitsAreBelow(a, first, i - 1)
    requires var f := FirstOf(a, first, i - 1); AllBelow(InputBits(a[i - 1], f), InputNext(a[i - 1], f))
    ensures BitsAreBelow(a, first, i)
  {
    hide AllBelow, InputBits, InputNext;
    var f := FirstOf(a, first, i - 1);
    NextIsLater(a[i - 1], f);
    forall j | 0 <= j < i ensures AllBelow(InputBits(a[j], FirstOf(a, first, j)), FirstOf(a, first, i)) {
      AllBelowMore(InputBits(a[j], FirstOf(a, first, j)), if j == i - 1 then InputNext(a[j], f) else f,
                   FirstOf(a, first, i));
    }
  }

  // ---- The end ----

  lemma {:induction false} TotalsBelow(a: seq<Input>, first: nat, i: nat)
    requires 0 < i <= |a|
    ensures UsesBelow(Total(a, first, i, false), FirstOf(a, first, i))
    ensures UsesBelow(Total(a, first, i, true), FirstOf(a, first, i))
    ensures UsesBelow(Both(a, first, i), FirstOf(a, first, i))
  {
    hide InputNext;
    var n := FirstOf(a, first, i);
    var k0, k1 := KnapsackVar(a, first, i - 1, false), KnapsackVar(a, first, i - 1, true);
    assert UsesBelow(k0, n) && UsesBelow(k1, n);
    if i > 1 {
      TotalsBelow(a, first, i - 1);
      NextIsLater(a[i - 1], FirstOf(a, first, i - 1));
      BelowMore(Total(a, first, i - 1, false), FirstOf(a, first, i - 1), n);
      BelowMore(Total(a, first, i - 1, true), FirstOf(a, first, i - 1), n);
      BelowMore(Both(a, first, i - 1), FirstOf(a, first, i - 1), n);
      assert UsesBelow(Add(Both(a, first, i - 1), k0), n);
    }
  }

  lemma {:induction false} RoundsBelow(x: Expr, plus: bool, k: nat, n: nat)
    requires UsesBelow(x, n)
    ensures UsesBelow(Rounds(x, plus, k), n)
  {
    if k > 0 {
      RoundsBelow(x, plus, k - 1, n);
      var y := Rounds(x, plus, k - 1);
      assert UsesBelow(Mul(y, y), n);
      assert UsesBelow(if plus then Add(Mul(y, y), y) else Sub(Mul(y, y), y), n);
    }
  }

  lemma MixedBelow(acc: Expr, ks0: Expr, ks1: Expr, n: nat)
    requires UsesBelow(acc, n) && UsesBelow(ks0, n) && UsesBelow(ks1, n)
    ensures UsesBelow(Mixed(acc, ks0, ks1), n)
  {
    hide Rounds;
    RoundsBelow(ks0, true, 8, n);
    RoundsBelow(ks1, false, 8, n);
    assert UsesBelow(Add(acc, Rounds(ks0, true, 8)), n);
  }

  lemma FinalComplete(hp: HashParams, key: PrfKey, acc: Expr, first: nat, basisi: nat, outbits: nat, w: Witness, c: Cut)
    returns (h: Witness)
    requires IsPrime(hp.p) && UsesBelow(acc, first)
    requires var n := NodeHash.FinalWidth(outbits); IsCut(hp.p, Value(hp.p, acc, w), n, c, n < FIELD_BITS)
    ensures var f := FinalEmits(hp, key, acc, first, basisi, outbits);
      && AgreeBelow(w, h, first) && Satisfied(hp.p, f.constraints, h) && AllBelow(f.constraints, f.next)
      && UsesBelow(f.result, f.next) && first <= f.next
      && Value(hp.p, f.result, h) == NodeHash.FinalSum(hp, key, c.low, basisi, outbits)
  {
    hide Satisfied, BitConstraints, KnapsackConstraint, AreBits, NodeHash.BasisSum, NodeHash.Bits, Number, Pow2,
         Residue, Value, AllBelow, BitVars, IsCut;
    var p, n := hp.p, NodeHash.FinalWidth(outbits);
    var bits, next := BitVars(first, n), first + n + if n >= FIELD_BITS then 0 else 1;
    var g := BitsComplete(p, acc, first, n, n < FIELD_BITS, w, c);
    BitVarsBelow(first, n);
    AllBelowMore(bits, first + n, next);
    h := KnapsackComplete(hp, key, bits, basisi, true, next, g);
    AgreeTrans(w, g, h, first, next);
    var bc := BitConstraints(acc, first, n, n < FIELD_BITS);
    var k := KnapsackConstraint(hp, key, bits, basisi, true, Var(next));
    StaysSatisfied(p, bc, g, h, next);
    SatisfiedConcat(p, bc, [k], h);
    AllBelowMore(bc, next, next + 1);
    OneBelow(k, next + 1);
    ConcatBelow(bc, [k], next + 1);
    NumberAgrees(p, bits, g, h, next, n);
    BitsMeanValue(p, acc, first, n, n < FIELD_BITS, h);
    BitsOfNumber(p, bits, h, n);
    assert BitsOf(p, bits, h)[..n] == BitsOf(p, bits, h);
    SatisfiedOne(p, k, h);
    KnapsackSound(hp, key, bits, basisi, true, Var(next), h);
    SameIsValue(p, Var(next), NodeHash.BasisSum(hp, key, true, basisi, NodeHash.Bits(c.low, n), 0), h);
  }

  lemma OneBelow(c: Expr, n: nat)
    requires UsesBelow(c, n)
    ensures AllBelow([c], n)
  {
  }

  lemma CutComplete(p: int, acc: Expr, first: nat, outbits: nat, w: Witness, c: Cut) returns (h: Witness)
    requires p > 1 && UsesBelow(acc, first)
    requires outbits < FIELD_BITS ==> IsCut(p, Value(p, acc, w), outbits, c, true)
    ensures var e := CutEmits(acc, first, outbits);
      && AgreeBelow(w, h, first) && Satisfied(p, e.constraints, h)
      && Value(p, e.result, h) == if outbits >= FIELD_BITS then Value(p, acc, w) else Residue(c.low, p)
  {
    hide Satisfied, ExtractConstraints, Value, Pow2, IsCut;
    if outbits >= FIELD_BITS {
      h := w;
      NothingEmitted(p, w);
      AgreeSelf(w, first);
    } else {
      h := With(CutWitness(c, first, outbits, w), first + outbits + 1, c.low);
      CutSatisfied(p, acc, first, outbits, w, c, h);
      EvalVar(first + outbits + 1, h);
      ValueIsResidue(p, Var(first + outbits + 1), h);
    }
  }

  lemma CutSatisfied(p: int, v: Expr, first: nat, n: nat, w: Witness, c: Cut, h: Witness)
    requires p > 1 && UsesBelow(v, first) && IsCut(p, Value(p, v, w), n, c, true)
    requires h == With(CutWitness(c, first, n, w), first + n + 1, c.low)
    ensures AgreeBelow(w, h, first) && Satisfied(p, ExtractConstraints(v, first, n, true, true), h)
  {
    hide Satisfied, Value, Pow2, Booleans, BitVars, WeightedSum, UsesBelow, AllBelow, RemainderConstraint, CutWitness;
    var g, bits := CutWitness(c, first, n, w), BitVars(first, n);
    CutParts(p, v, first, n, w, c);
    WithAgrees(g, first + n + 1, c.low);
    AgreeTrans(w, g, h, first, first + n + 1);
    BitVarsBelow(first, n);
    AllBelowMore(Booleans(bits), first + n, first + n + 1);
    StaysSatisfied(p, Booleans(bits), g, h, first + n + 1);
    SumBelow(bits, POWERS, n, first + n);
    BelowMore(SumTo(bits, n), first + n, first + n + 1);
    EvalAgrees(SumTo(bits, n), g, h, first + n + 1);
    EvalAgrees(v, w, h, first);
    var b, rem := Var(first + n + 1), Var(first + n);
    EvalVar(first + n + 1, h);
    EvalVar(first + n, h);
    EvalDifference(SumTo(bits, n), b, h);
    EvalRemainder(v, b, Some(rem), Pow2(n), h);
    CutIsZero(p, v, n, w, c, true);
    TwoSatisfied(p, Sub(SumTo(bits, n), b), RemainderConstraint(v, b, Some(rem), Pow2(n)), h);
    SatisfiedConcat(p, Booleans(bits), [Sub(SumTo(bits, n), b), RemainderConstraint(v, b, Some(rem), Pow2(n))], h);
  }

  lemma TwoSatisfied(p: int, c: Expr, d: Expr, w: Witness)
    requires p > 0 && Eval(c, w) == 0 && IsZero(p, Eval(d, w))
    ensures Satisfied(p, [c, d], w)
  {
    MultipleIsZero(p, 0, 0);
  }

  lemma InputsAgree(p: int, a: seq<Input>, first: nat, w: Witness, h: Witness)
    requires p > 0 && AreGiven(p, a, first, w) && AgreeBelow(w, h, first)
    ensures InputsAreBits(p, a, h)
  {
    hide AreBits, AllBelow;
    forall i | 0 <= i < |a| && a[i].OfBits? ensures AreBits(p, a[i].bits, h) {
      assert IsGiven(p, a[i], first, w);
      BitsAgree(p, a[i].bits, w, h, first);
    }
  }

  /** The last steps, from the sum on. */
  lemma EndComplete(hp: HashParams, key: PrfKey, acc: Expr, first: nat, basisi: nat, outbits: nat, skipFinal: bool,
                    w: Witness, c: Cuts)
    returns (h: Witness)
    requires IsPrime(hp.p) && UsesBelow(acc, first)
    requires var x, n := Value(hp.p, acc, w), NodeHash.FinalWidth(outbits);
      var out := if skipFinal then x else NodeHash.FinalSum(hp, key, c.final.low, basisi, outbits);
      && (!skipFinal ==> IsCut(hp.p, x, n, c.final, n < FIELD_BITS))
      && (outbits < FIELD_BITS ==> IsCut(hp.p, out, outbits, c.last, true))
    ensures var f := FinishEmits(hp, key, acc, first, basisi, outbits, skipFinal);
      var x := Value(hp.p, acc, w);
      var out := if skipFinal then x else NodeHash.FinalSum(hp, key, c.final.low, basisi, outbits);
      && AgreeBelow(w, h, first) && Satisfied(hp.p, f.constraints, h)
      && Value(hp.p, f.result, h) == if outbits >= FIELD_BITS then out else Residue(c.last.low, hp.p)
  {
    hide Satisfied, FinalEmits, CutEmits, NodeHash.FinalSum, Value, UsesBelow, Pow2, AllBelow, IsCut, Residue;
    var p := hp.p;
    if skipFinal {
      h := CutComplete(p, acc, first, outbits, w, c.last);
      var e := CutEmits(acc, first, outbits);
      assert [] + e.constraints == e.constraints;
    } else {
      var f := FinalEmits(hp, key, acc, first, basisi, outbits);
      var g := FinalComplete(hp, key, acc, first, basisi, outbits, w, c.final);
      h := CutComplete(p, f.result, f.next, outbits, g, c.last);
      AgreeTrans(w, g, h, first, f.next);
      StaysSatisfied(p, f.constraints, g, h, f.next);
      SatisfiedConcat(p, f.constraints, CutEmits(f.result, f.next, outbits).constraints, h);
    }
  }

  /** Every result that the hash steps can have, with any spelling of the inputs and any
      cuts, is that of a satisfying witness. */
  lemma ResultComplete(hp: HashParams, key: PrfKey, a: seq<Input>, first: nat, outbits: nat, skipFinal: bool,
                       w: Witness,
                       cuts: seq<Cut>, c: Cuts, r: int)
    returns (h: Witness)
    requires IsPrime(hp.p) && a != [] && AreGiven(hp.p, a, first, w) && AreSpellings(hp.p, a, w, cuts)
    requires |cuts| == |a| && IsResult(hp, key, Spelled(a, cuts, |a|), outbits, skipFinal, c, r)
    ensures var e := HashEmits(hp, key, a, first, outbits, skipFinal);
      && AgreeBelow(w, h, first) && Satisfied(hp.p, e.constraints, h) && Value(hp.p, e.result, h) == r
      && Seen(hp.p, a, first, h, |a|) == Spelled(a, cuts, |a|)
  {
    hide Satisfied, AbsorbEmits, FinalEmits, CutEmits, Mixed, NodeHash.Mixed, NodeHash.FinalSum, NodeHash.Absorb,
         Value, Residue, AreGiven, AreSpellings, Total, Both, FirstOf, Seen, Spelled, UsesBelow, Pow2, AllBelow,
         AgreeBelow, IsCut, BitsAreBelow;
    var p, n := hp.p, |a|;
    var g := AbsorbComplete(hp, key, a, first, w, cuts, n);
    var next, b, mixed := FirstOf(a, first, n), BasisOf(key, a, n), MixedTotals(a, first);
    InputsAgree(p, a, first, w, g);
    TotalsSound(hp, key, a, first, g, n);
    var s := NodeHash.Absorb(hp, key, Spelled(a, cuts, n), 0);
    MixedSound(hp, Both(a, first, n), Total(a, first, n, false), Total(a, first, n, true), s.ks0, s.ks1, g);
    TotalsBelow(a, first, n);
    MixedBelow(Both(a, first, n), Total(a, first, n, false), Total(a, first, n, true), next);
    FirstIsLater(a, first, n);
    h := EndComplete(hp, key, mixed, next, b, outbits, skipFinal, g, c);
    AgreeTrans(w, g, h, first, next);
    var before := AbsorbEmits(hp, key, a, first, n);
    StaysSatisfied(p, before, g, h, next);
    SatisfiedConcat(p, before, FinishEmits(hp, key, mixed, next, b, outbits, skipFinal).constraints, h);
    SeenKept(p, a, first, g, h, n);
  }

  // ---- No variable is used before it is there ----

  predicate IsBelow(a: Input, first: nat) {
    match a case OfValue(v, _, _) => UsesBelow(v, first) case OfBits(bits) => AllBelow(bits, first)
  }

  predicate AreBelow(a: seq<Input>, first: nat) { forall i :: 0 <= i < |a| ==> IsBelow(a[i], first) }

  lemma KnapsackBelow(hp: HashParams, key: PrfKey, bits: seq<Expr>, basisi: nat, sequential: bool, next: nat)
    requires AllBelow(bits, next)
    ensures UsesBelow(KnapsackConstraint(hp, key, bits, basisi, sequential, Var(next)), next + 1)
  {
    hide WeightedSum, KnapsackBasis;
    var sum := WeightedSum(bits, KnapsackBasis(hp, key, sequential, basisi), |bits|);
    SumBelow(bits, KnapsackBasis(hp, key, sequential, basisi), |bits|, next);
    BelowMore(sum, next, next + 1);
  }

  lemma OneIsBelow(hp: HashParams, key: PrfKey, a: Input, first: nat, basisi: nat)
    requires IsBelow(a, first)
    ensures AllBelow(OneEmits(hp, key, a, first, basisi), InputNext(a, first) + 2)
  {
    hide UsesBelow, KnapsackConstraint, BitConstraints, AllBelow;
    var bits, next := InputBits(a, first), InputNext(a, first);
    var b1 := basisi + NodeHash.Step(key, |bits|);
    var k0 := KnapsackConstraint(hp, key, bits, basisi, true, Var(next));
    var k1 := KnapsackConstraint(hp, key, bits, b1, false, Var(next + 1));
    if a.OfValue? {
      BitsBelow(a.v, first, a.nbits, a.masked);
      BitVarsBelow(first, a.nbits);
      AllBelowMore(BitVars(first, a.nbits), first + a.nbits, next);
    } else {
      NoneBelow(next);
    }
    KnapsackBelow(hp, key, bits, basisi, true, next);
    AllBelowMore(bits, next, next + 1);
    KnapsackBelow(hp, key, bits, b1, false, next + 1);
    BelowMore(k0, next + 1, next + 2);
    OneBelow(k0, next + 2);
    OneBelow(k1, next + 2);
    AllBelowMore(InputEmits(a, first), next, next + 2);
    ConcatBelow(InputEmits(a, first), [k0], next + 2);
    ConcatBelow(InputEmits(a, first) + [k0], [k1], next + 2);
  }

  lemma InputBelowMore(a: Input, m: nat, n: nat)
    requires IsBelow(a, m) && m <= n
    ensures IsBelow(a, n)
  {
    hide UsesBelow, AllBelow;
    match a {
      case OfValue(v, _, _) => BelowMore(v, m, n);
      case OfBits(bits) => AllBelowMore(bits, m, n);
    }
  }

  lemma {:induction false} AbsorbBelow(hp: HashParams, key: PrfKey, a: seq<Input>, first: nat, i: nat)
    requires AreBelow(a, first) && i <= |a|
    ensures AllBelow(AbsorbEmits(hp, key, a, first, i), FirstOf(a, first, i))
  {
    hide AllBelow, OneEmits, InputNext, IsBelow, BasisOf;
    if i == 0 {
      NoneBelow(first);
    } else {
      var f, x, n := FirstOf(a, first, i - 1), a[i - 1], FirstOf(a, first, i);
      AbsorbBelow(hp, key, a, first, i - 1);
      FirstIsLater(a, first, i - 1);
      NextIsLater(x, f);
      InputBelowMore(x, first, f);
      OneIsBelow(hp, key, x, f, BasisOf(key, a, i - 1));
      AllBelowMore(AbsorbEmits(hp, key, a, first, i - 1), f, n);
      ConcatBelow(AbsorbEmits(hp, key, a, first, i - 1), OneEmits(hp, key, x, f, BasisOf(key, a, i - 1)), n);
    }
  }

  lemma FinalBelow(hp: HashParams, key: PrfKey, acc: Expr, first: nat, basisi: nat, outbits: nat)
    requires UsesBelow(acc, first)
    ensures var f := FinalEmits(hp, key, acc, first, basisi, outbits);
      AllBelow(f.constraints, f.next) && UsesBelow(f.result, f.next) && first <= f.next
  {
    hide BitConstraints, KnapsackConstraint, AllBelow;
    var n := NodeHash.FinalWidth(outbits);
    var bits, next := BitVars(first, n), first + n + if n >= FIELD_BITS then 0 else 1;
    var bc := BitConstraints(acc, first, n, n < FIELD_BITS);
    var k := KnapsackConstraint(hp, key, bits, basisi, true, Var(next));
    BitsBelow(acc, first, n, n < FIELD_BITS);
    BitVarsBelow(first, n);
    AllBelowMore(bits, first + n, next);
    KnapsackBelow(hp, key, bits, basisi, true, next);
    AllBelowMore(bc, next, next + 1);
    OneBelow(k, next + 1);
    ConcatBelow(bc, [k], next + 1);
  }

  lemma CutIsBelow(acc: Expr, first: nat, outbits: nat)
    requires UsesBelow(acc, first)
    ensures var e := CutEmits(acc, first, outbits);
      AllBelow(e.constraints, e.next) && UsesBelow(e.result, e.next) && first <= e.next
  {
    hide Booleans, WeightedSum, RemainderConstraint, AllBelow;
    if outbits < FIELD_BITS {
      var n, bits := first + outbits + 2, BitVars(first, outbits);
      var b, rem := Var(first + outbits + 1), Var(first + outbits);
      BitVarsBelow(first, outbits);
      AllBelowMore(bits, first + outbits, n);
      AllBelowMore(Booleans(bits), first + outbits, n);
      SumBelow(bits, POWERS, outbits, n);
      BelowMore(acc, first, n);
      RemainderBelow(acc, b, Some(rem), Pow2(outbits), n);
      var c, d := Sub(SumTo(bits, outbits), b), RemainderConstraint(acc, b, Some(rem), Pow2(outbits));
      TwoBelow(c, d, n);
      ConcatBelow(Booleans(bits), [c, d], n);
    } else {
      NoneBelow(first);
    }
  }

  lemma TwoBelow(c: Expr, d: Expr, n: nat)
    requires UsesBelow(c, n) && UsesBelow(d, n)
    ensures AllBelow([c, d], n)
  {
  }

  /** What a hash emits uses its inputs and its new variables only. */
  lemma HashBelow(hp: HashParams, key: PrfKey, a: seq<Input>, first: nat, outbits: nat, skipFinal: bool)
    requires a != [] && AreBelow(a, first)
    ensures var e := HashEmits(hp, key, a, first, outbits, skipFinal);
      AllBelow(e.constraints, e.next) && UsesBelow(e.result, e.next) && first <= e.next
  {
    hide AllBelow, UsesBelow, AbsorbEmits, FinalEmits, CutEmits, Mixed, Total, Both, FirstOf, AreBelow;
    var n, next, b, mixed := |a|, FirstOf(a, first, |a|), BasisOf(key, a, |a|), MixedTotals(a, first);
    AbsorbBelow(hp, key, a, first, n);
    FirstIsLater(a, first, n);
    TotalsBelow(a, first, n);
    MixedBelow(Both(a, first, n), Total(a, first, n, false), Total(a, first, n, true), next);
    var f := if skipFinal then Emitted([], next, mixed) else FinalEmits(hp, key, mixed, next, b, outbits);
    if skipFinal {
      NoneBelow(next);
    } else {
      FinalBelow(hp, key, mixed, next, b, outbits);
    }
    CutIsBelow(f.result, f.next, outbits);
    var e := CutEmits(f.result, f.next, outbits);
    AllBelowMore(f.constraints, f.next, e.next);
    ConcatBelow(f.constraints, e.constraints, e.next);
    AllBelowMore(AbsorbEmits(hp, key, a, first, n), next, e.next);
    ConcatBelow(AbsorbEmits(hp, key, a, first, n), f.constraints + e.constraints, e.next);
  }

  lemma GivenBelow(p: int, a: seq<Input>, first: nat, w: Witness)
    requires p > 0 && AreGiven(p, a, first, w)
    ensures AreBelow(a, first)
  {
    hide UsesBelow, AreBits, AllBelow;
    forall i | 0 <= i < |a| ensures IsBelow(a[i], first) {
      assert IsGiven(p, a[i], first, w);
    }
  }
}
