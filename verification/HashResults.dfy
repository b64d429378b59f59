/** Exactly which results a hash inside the circuit, source/cclib/src/zkhash.hpp, can
    have, and when it can only be the hash. */
module HashResults {
  import opened Arith
  import opened Field
  import opened Circuit
  import opened BitGadgets
  import opened HashCircuit
  import opened HashWitness
  import NodeHash

  /** Values for the new variables that satisfy what is emitted. */
  ghost predicate IsWitness(hp: HashParams, key: PrfKey, a: seq<Input>, first: nat, outbits: nat, skipFinal: bool,
                            w: Witness, h: Witness)
    requires hp.p > 1 && a != []
  {
    AgreeBelow(w, h, first) && Satisfied(hp.p, HashEmits(hp, key, a, first, outbits, skipFinal).constraints, h)
  }

  function ResultOf(hp: HashParams, key: PrfKey, a: seq<Input>, first: nat, outbits: nat, skipFinal: bool,
                    h: Witness): int
    requires hp.p > 1 && a != []
  {
    Value(hp.p, HashEmits(hp, key, a, first, outbits, skipFinal).result, h)
  }

  /** Some satisfying values make r the result. */
  ghost predicate IsAdmitted(hp: HashParams, key: PrfKey, a: seq<Input>, first: nat, outbits: nat, skipFinal: bool,
                             w: Witness, r: int)
    requires hp.p > 1 && a != []
  {
    exists h: Witness :: IsWitness(hp, key, a, first, outbits, skipFinal, w, h)
                         && ResultOf(hp, key, a, first, outbits, skipFinal, h) == r
  }

  /** The hash steps, on some spelling of the inputs and with some cuts, give r. */
  ghost predicate IsSteps(hp: HashParams, key: PrfKey, a: seq<Input>, outbits: nat, skipFinal: bool, w: Witness,
                          cuts: seq<Cut>, c: Cuts, r: int)
    requires hp.p > 1
  {
    AreSpellings(hp.p, a, w, cuts) && IsResult(hp, key, Spelled(a, cuts, |a|), outbits, skipFinal, c, r)
  }

  // ---- What a witness spells ----

  function SeenCut(p: int, a: Input, first: nat, h: Witness): Cut
    requires p > 0
  {
    var bits := InputBits(a, first);
    Cut(Number(p, bits, h, |bits|), if a.OfValue? && a.masked then h(first + a.nbits) else 0)
  }

  function SeenCuts(p: int, a: seq<Input>, first: nat, h: Witness): (cuts: seq<Cut>)
    requires p > 0
    ensures |cuts| == |a|
  {
    seq(|a|, i requires 0 <= i < |a| => SeenCut(p, a[i], FirstOf(a, first, i), h))
  }

  lemma {:induction false} AbsorbHas(hp: HashParams, key: PrfKey, a: seq<Input>, first: nat, h: Witness, n: nat, i: nat)
    requires hp.p > 0 && i < n <= |a| && Satisfied(hp.p, AbsorbEmits(hp, key, a, first, n), h)
    ensures Satisfied(hp.p, OneEmits(hp, key, a[i], FirstOf(a, first, i), BasisOf(key, a, i)), h)
  {
    hide Satisfied, OneEmits, FirstOf, BasisOf;
    SatisfiedConcat(hp.p, AbsorbEmits(hp, key, a, first, n - 1),
                    OneEmits(hp, key, a[n - 1], FirstOf(a, first, n - 1), BasisOf(key, a, n - 1)), h);
    if i < n - 1 {
      AbsorbHas(hp, key, a, first, h, n - 1, i);
    }
  }

  lemma SeenIsSpelling(hp: HashParams, key: PrfKey, a: Input, first: nat, basisi: nat, h: Witness)
    requires IsPrime(hp.p) && Satisfied(hp.p, OneEmits(hp, key, a, first, basisi), h)
    ensures IsSpelling(hp.p, a, h, SeenCut(hp.p, a, first, h))
  {
    hide Satisfied, OneEmits, Number, Value, Pow2, Same, BitConstraints, AreBits, BitVars;
    OneSplit(hp, key, a, first, basisi, h);
    if a.OfValue? {
      BitsMeanValue(hp.p, a.v, first, a.nbits, a.masked, h);
      var c := SeenCut(hp.p, a, first, h);
      var x := c.low + if a.masked then h(first + a.nbits) * Pow2(a.nbits) else 0;
      assert x == c.low + c.high * Pow2(a.nbits);
      ValueSame(hp.p, a.v, x, h);
    }
  }

  lemma {:induction false} SeenIsSpelled(p: int, a: seq<Input>, first: nat, h: Witness, i: nat)
    requires p > 0 && i <= |a|
    ensures Seen(p, a, first, h, i) == Spelled(a, SeenCuts(p, a, first, h), i)
  {
    hide Number, InputBits, FirstOf, Width;
    if i > 0 {
      SeenIsSpelled(p, a, first, h, i - 1);
    }
  }

  lemma SeenAreSpellings(hp: HashParams, key: PrfKey, a: seq<Input>, first: nat, w: Witness, h: Witness)
    requires IsPrime(hp.p) && AreGiven(hp.p, a, first, w) && AgreeBelow(w, h, first)
    requires Satisfied(hp.p, AbsorbEmits(hp, key, a, first, |a|), h)
    ensures AreSpellings(hp.p, a, w, SeenCuts(hp.p, a, first, h))
  {
    hide Satisfied, OneEmits, AbsorbEmits, IsSpelling, IsGiven, AgreeBelow, SeenCut, FirstOf, BasisOf;
    var cuts := SeenCuts(hp.p, a, first, h);
    forall i | 0 <= i < |a| ensures IsSpelling(hp.p, a[i], w, cuts[i]) {
      AbsorbHas(hp, key, a, first, h, |a|, i);
      SeenIsSpelling(hp, key, a[i], FirstOf(a, first, i), BasisOf(key, a, i), h);
      GivenStays(hp.p, a[i], first, w, h, first, cuts[i]);
    }
  }

  /** The constraints admit exactly the results that the hash steps can have. */
  lemma AdmittedIff(hp: HashParams, key: PrfKey, a: seq<Input>, first: nat, outbits: nat, skipFinal: bool, w: Witness,
                    r: int)
    requires IsPrime(hp.p) && a != [] && AreGiven(hp.p, a, first, w)
    ensures IsAdmitted(hp, key, a, first, outbits, skipFinal, w, r)
       <==> exists cuts: seq<Cut>, c: Cuts :: IsSteps(hp, key, a, outbits, skipFinal, w, cuts, c, r)
  {
    hide AreGiven, AreSpellings, IsResult, Satisfied, HashEmits, AgreeBelow, Value;
    forall h: Witness | IsWitness(hp, key, a, first, outbits, skipFinal, w, h)
                        && ResultOf(hp, key, a, first, outbits, skipFinal, h) == r
      ensures exists cuts: seq<Cut>, c: Cuts :: IsSteps(hp, key, a, outbits, skipFinal, w, cuts, c, r)
    {
      var c := WitnessSteps(hp, key, a, first, outbits, skipFinal, w, h);
      assert IsSteps(hp, key, a, outbits, skipFinal, w, SeenCuts(hp.p, a, first, h), c, r);
    }
    forall cuts: seq<Cut>, c: Cuts | IsSteps(hp, key, a, outbits, skipFinal, w, cuts, c, r)
      ensures IsAdmitted(hp, key, a, first, outbits, skipFinal, w, r)
    {
      SpellingsFit(hp.p, a, w, cuts);
      var h := ResultComplete(hp, key, a, first, outbits, skipFinal, w, cuts, c, r);
      assert IsWitness(hp, key, a, first, outbits, skipFinal, w, h);
    }
  }

  lemma SpellingsFit(p: int, a: seq<Input>, w: Witness, cuts: seq<Cut>)
    requires p > 0 && AreSpellings(p, a, w, cuts)
    ensures |cuts| == |a|
  {
    hide IsSpelling;
  }

  lemma WitnessSteps(hp: HashParams, key: PrfKey, a: seq<Input>, first: nat, outbits: nat, skipFinal: bool, w: Witness,
                     h: Witness)
    returns (c: Cuts)
    requires IsPrime(hp.p) && a != [] && AreGiven(hp.p, a, first, w)
    requires IsWitness(hp, key, a, first, outbits, skipFinal, w, h)
    ensures IsSteps(hp, key, a, outbits, skipFinal, w, SeenCuts(hp.p, a, first, h), c,
                    ResultOf(hp, key, a, first, outbits, skipFinal, h))
  {
    hide AreGiven, AreSpellings, IsResult, Satisfied, FinishEmits, AbsorbEmits, AgreeBelow, Value, Seen, Spelled;
    var f := FinishEmits(hp, key, MixedTotals(a, first), FirstOf(a, first, |a|), BasisOf(key, a, |a|), outbits,
                         skipFinal);
    SatisfiedConcat(hp.p, AbsorbEmits(hp, key, a, first, |a|), f.constraints, h);
    SeenAreSpellings(hp, key, a, first, w, h);
    SeenIsSpelled(hp.p, a, first, h, |a|);
    InputsAgree(hp.p, a, first, w, h);
    c := HashSound(hp, key, a, first, outbits, skipFinal, h);
  }

  // ---- The code's own values ----

  function HonestCut(x: nat, n: nat): Cut { Cut(x % Pow2(n), x / Pow2(n)) }

  lemma HonestIsCut(p: int, x: nat, n: nat, withRem: bool)
    requires p > 0 && (withRem || x < Pow2(n))
    ensures IsCut(p, x, n, HonestCut(x, n), withRem) && x == HonestCut(x, n).low + HonestCut(x, n).high * Pow2(n)
  {
    hide Pow2;
    var u := Pow2(n);
    assert x == x % u + x / u * u;
    if x < u {
      ModIs(x, 0, u, x);
    }
  }

  /** Values that are not masked have no more bits than they are hashed with. */
  ghost predicate AreInRange(p: int, a: seq<Input>, w: Witness)
    requires p > 0
  {
    forall i :: 0 <= i < |a| && a[i].OfValue? && !a[i].masked ==> Value(p, a[i].v, w) < Pow2(a[i].nbits)
  }

  /** What the code hashes for an input. */
  function GivenCut(p: int, a: Input, w: Witness): Cut
    requires p > 0
  {
    match a
    case OfValue(v, nbits, _) => HonestCut(Value(p, v, w), nbits)
    case OfBits(bits) => Cut(Number(p, bits, w, |bits|), 0)
  }

  function GivenCuts(p: int, a: seq<Input>, w: Witness): (cuts: seq<Cut>)
    requires p > 0
    ensures |cuts| == |a|
  {
    seq(|a|, i requires 0 <= i < |a| => GivenCut(p, a[i], w))
  }

  function Givens(p: int, a: seq<Input>, w: Witness): seq<NodeHash.HashInput>
    requires p > 0
  {
    Spelled(a, GivenCuts(p, a, w), |a|)
  }

  lemma GivensAreSpellings(p: int, a: seq<Input>, w: Witness)
    requires p > 0 && AreInRange(p, a, w)
    ensures AreSpellings(p, a, w, GivenCuts(p, a, w))
  {
    hide Value, Pow2, Number, IsCut, HonestCut;
    forall i | 0 <= i < |a| ensures IsSpelling(p, a[i], w, GivenCut(p, a[i], w)) {
      if a[i].OfValue? {
        HonestIsCut(p, Value(p, a[i].v, w), a[i].nbits, a[i].masked);
      }
    }
  }

  /** The sum before the last knapsack, and the next base. */
  function SumOf(hp: HashParams, key: PrfKey, seen: seq<NodeHash.HashInput>): (x: nat)
    requires hp.p > 1
  {
    var s := NodeHash.Absorb(hp, key, seen, 0);
    NodeHash.Mixed(hp, Residue(s.ks0, hp.p), Residue(s.ks1, hp.p))
  }

  function LastOf(hp: HashParams, key: PrfKey, seen: seq<NodeHash.HashInput>, x: nat, outbits: nat): nat
    requires hp.p > 1
  {
    NodeHash.FinalSum(hp, key, x, NodeHash.Absorb(hp, key, seen, 0).basisi, outbits)
  }

  /** IsResult in these terms. */
  lemma ResultIff(hp: HashParams, key: PrfKey, seen: seq<NodeHash.HashInput>, outbits: nat, skipFinal: bool, c: Cuts,
                  r: int)
    requires hp.p > 1
    ensures var x, n := SumOf(hp, key, seen), NodeHash.FinalWidth(outbits);
      var out := if skipFinal then x else LastOf(hp, key, seen, c.final.low, outbits);
      && x < hp.p && out < hp.p
      && (IsResult(hp, key, seen, outbits, skipFinal, c, r)
          <==> && (!skipFinal ==> IsCut(hp.p, x, n, c.final, n < FIELD_BITS))
               && (if outbits >= FIELD_BITS then r == out
                   else r == Residue(c.last.low, hp.p) && IsCut(hp.p, out, outbits, c.last, true)))
  {
    hide NodeHash.Absorb, NodeHash.Mixed, NodeHash.FinalSum, IsCut, Residue;
    var s := NodeHash.Absorb(hp, key, seen, 0);
    InField(hp, key, Residue(s.ks0, hp.p), Residue(s.ks1, hp.p), c.final.low, s.basisi, outbits);
  }

  /** The hash is one of the results. */
  lemma HonestSteps(hp: HashParams, key: PrfKey, seen: seq<NodeHash.HashInput>, outbits: nat, skipFinal: bool)
    returns (c: Cuts)
    requires 1 < hp.p <= Pow2(FIELD_BITS)
    ensures IsResult(hp, key, seen, outbits, skipFinal, c, NodeHash.HashOf(hp, key, seen, outbits, skipFinal))
    ensures c.final == HonestCut(SumOf(hp, key, seen), NodeHash.FinalWidth(outbits))
  {
    hide NodeHash.Absorb, NodeHash.Mixed, NodeHash.FinalSum, IsCut, Residue, Pow2, HonestCut, IsResult, NodeHash.HashOf;
    var x, n := SumOf(hp, key, seen), NodeHash.FinalWidth(outbits);
    var final := HonestCut(x, n);
    var out := if skipFinal then x else LastOf(hp, key, seen, final.low, outbits);
    c := Cuts(final, HonestCut(out, outbits));
    var r := if outbits >= FIELD_BITS then out else Residue(c.last.low, hp.p);
    ResultIff(hp, key, seen, outbits, skipFinal, c, r);
    HonestIsCut(hp.p, x, n, x >= Pow2(n));
    CutInField(hp.p, x, n, final);
    HonestIsCut(hp.p, out, outbits, true);
    ExactCuts(hp, key, seen, outbits, skipFinal, c, r);
  }

  /** A number of the field is in range of 254 bits. */
  lemma CutInField(p: int, x: nat, n: nat, c: Cut)
    requires p > 0 && IsCut(p, x, n, c, x >= Pow2(n)) && x < p <= Pow2(FIELD_BITS) && n <= FIELD_BITS
    ensures IsCut(p, x, n, c, n < FIELD_BITS)
  {
    hide Pow2, Same;
  }

  /** Whatever the values of the inputs, there are values for the new variables that
      satisfy what the hash emits, and the result is the hash of the inputs. */
  lemma HashComplete(hp: HashParams, key: PrfKey, a: seq<Input>, first: nat, outbits: nat, skipFinal: bool, w: Witness)
    returns (h: Witness)
    requires IsPrime(hp.p) && hp.p <= Pow2(FIELD_BITS) && a != []
    requires AreGiven(hp.p, a, first, w) && AreInRange(hp.p, a, w)
    ensures var e := HashEmits(hp, key, a, first, outbits, skipFinal);
      && AgreeBelow(w, h, first) && Satisfied(hp.p, e.constraints, h)
      && Value(hp.p, e.result, h) == NodeHash.HashOf(hp, key, Givens(hp.p, a, w), outbits, skipFinal)
  {
    hide AreGiven, AreSpellings, AreInRange, IsResult, Satisfied, HashEmits, AgreeBelow, Value, Spelled, Pow2,
         NodeHash.HashOf, SumOf;
    var cuts := GivenCuts(hp.p, a, w);
    GivensAreSpellings(hp.p, a, w);
    var c := HonestSteps(hp, key, Givens(hp.p, a, w), outbits, skipFinal);
    h := ResultComplete(hp, key, a, first, outbits, skipFinal, w, cuts, c,
                        NodeHash.HashOf(hp, key, Givens(hp.p, a, w), outbits, skipFinal));
  }

  // ---- Narrow results ----

  /** In the field of an odd prime, 2^n has an inverse. */
  lemma {:induction false} InverseOfPower(p: int, n: nat) returns (inv: int)
    requires p > 2 && p % 2 == 1
    ensures Same(p, Pow2(n) * inv, 1)
  {
    hide Same, Pow2;
    if n == 0 {
      Pow2Small();
      SameSelf(p, 1);
      inv := 1;
    } else {
      var i := InverseOfPower(p, n - 1);
      var half := (p + 1) / 2;
      inv := i * half;
      Pow2Double(n - 1);
      TwoHalves(p, half);
      SameMul(p, Pow2(n - 1) * i, 1, 2 * half, 1);
      assert Pow2(n) * inv == Pow2(n - 1) * i * (2 * half);
    }
  }

  lemma TwoHalves(p: int, half: int)
    requires p > 2 && 2 * half == p + 1
    ensures Same(p, 2 * half, 1)
  {
    ModIs(p + 1, 1, p, 1);
    ModIs(1, 0, p, 1);
  }

  /** Any low part can be cut off any number, if there is a remainder. */
  lemma AnyCut(p: int, x: int, n: nat, low: nat) returns (c: Cut)
    requires p > 2 && p % 2 == 1 && low < Pow2(n)
    ensures c.low == low && IsCut(p, x, n, c, true)
  {
    hide Same, Pow2;
    var inv := InverseOfPower(p, n);
    var high := (x - low) * inv;
    c := Cut(low, high);
    SameTimes(p, Pow2(n) * inv, 1, x - low);
    SameSelf(p, low);
    SameAdd(p, low, low, Pow2(n) * inv * (x - low), 1 * (x - low));
    assert high * Pow2(n) == Pow2(n) * inv * (x - low);
    assert low + 1 * (x - low) == x;
    SameSym(p, low + high * Pow2(n), x);
  }

  lemma OddPrime(p: int)
    requires IsPrime(p) && p > 2
    ensures p % 2 == 1
  {
    assert !Divides(2, p);
  }

  /** A result of fewer than 254 bits is not tied to the inputs: exactly the field
      elements of so many bits are admitted. */
  lemma NarrowIff(hp: HashParams, key: PrfKey, a: seq<Input>, first: nat, outbits: nat, skipFinal: bool, w: Witness,
                  r: int)
    requires IsPrime(hp.p) && 2 < hp.p <= Pow2(FIELD_BITS) && a != [] && outbits < FIELD_BITS
    requires AreGiven(hp.p, a, first, w) && AreInRange(hp.p, a, w)
    ensures IsAdmitted(hp, key, a, first, outbits, skipFinal, w, r) <==> 0 <= r < hp.p && r < Pow2(outbits)
  {
    hide AreGiven, AreInRange, IsAdmitted, IsSteps, Pow2, IsPrime;
    AdmittedIff(hp, key, a, first, outbits, skipFinal, w, r);
    if 0 <= r < hp.p && r < Pow2(outbits) {
      var cuts, c := NarrowSteps(hp, key, a, outbits, skipFinal, w, r);
    }
    forall cuts: seq<Cut>, c: Cuts | IsSteps(hp, key, a, outbits, skipFinal, w, cuts, c, r)
      ensures 0 <= r < hp.p && r < Pow2(outbits)
    {
      StepsAreNarrow(hp, key, a, outbits, skipFinal, w, cuts, c, r);
    }
  }

  lemma NarrowSteps(hp: HashParams, key: PrfKey, a: seq<Input>, outbits: nat, skipFinal: bool, w: Witness, r: nat)
    returns (cuts: seq<Cut>, c: Cuts)
    requires IsPrime(hp.p) && 2 < hp.p <= Pow2(FIELD_BITS) && outbits < FIELD_BITS && AreInRange(hp.p, a, w)
    requires r < hp.p && r < Pow2(outbits)
    ensures IsSteps(hp, key, a, outbits, skipFinal, w, cuts, c, r)
  {
    hide AreSpellings, AreInRange, IsResult, Spelled, Pow2, SumOf, LastOf, IsCut, Residue, HonestCut, NodeHash.HashOf;
    var seen := Givens(hp.p, a, w);
    cuts := GivenCuts(hp.p, a, w);
    GivensAreSpellings(hp.p, a, w);
    var honest := HonestSteps(hp, key, seen, outbits, skipFinal);
    var out := if skipFinal then SumOf(hp, key, seen) else LastOf(hp, key, seen, honest.final.low, outbits);
    OddPrime(hp.p);
    var last := AnyCut(hp.p, out, outbits, r);
    c := Cuts(honest.final, last);
    ResultIff(hp, key, seen, outbits, skipFinal, honest, NodeHash.HashOf(hp, key, seen, outbits, skipFinal));
    ResultIff(hp, key, seen, outbits, skipFinal, c, r);
    ResidueSmall(r, hp.p);
  }

  lemma StepsAreNarrow(hp: HashParams, key: PrfKey, a: seq<Input>, outbits: nat, skipFinal: bool, w: Witness,
                       cuts: seq<Cut>, c: Cuts, r: int)
    requires hp.p > 1 && outbits < FIELD_BITS && IsSteps(hp, key, a, outbits, skipFinal, w, cuts, c, r)
    ensures 0 <= r < hp.p && r < Pow2(outbits)
  {
    hide AreSpellings, IsResult, Spelled, Pow2, SumOf, LastOf, Residue, Same;
    SpellingsFit(hp.p, a, w, cuts);
    ResultIff(hp, key, Spelled(a, cuts, |a|), outbits, skipFinal, c, r);
    LowIsSmall(hp.p, outbits, c.last, r);
  }

  lemma LowIsSmall(p: int, n: nat, c: Cut, r: int)
    requires p > 1 && c.low < Pow2(n) && r == Residue(c.low, p)
    ensures 0 <= r < p && r < Pow2(n)
  {
    hide Pow2;
    FloorIff(c.low, p, 0);
    MulMono(0, c.low / p, p);
    assert c.low == c.low / p * p + c.low % p;
  }

  // ---- When the result is the hash ----

  /** The value has only one spelling. */
  ghost predicate AreFixed(p: int, a: seq<Input>, w: Witness)
    requires p > 0
  {
    forall i :: 0 <= i < |a| && a[i].OfValue? ==>
      !a[i].masked && Value(p, a[i].v, w) < Pow2(a[i].nbits) <= Value(p, a[i].v, w) + p
  }

  lemma {:induction false} FixedAreGivens(p: int, a: seq<Input>, w: Witness, cuts: seq<Cut>, i: nat)
    requires p > 0 && AreFixed(p, a, w) && AreSpellings(p, a, w, cuts) && i <= |a|
    ensures |cuts| == |a| && Spelled(a, cuts, i) == Spelled(a, GivenCuts(p, a, w), i)
  {
    hide Value, Pow2, Number, AreSpellings, AreFixed;
    SpellingsFit(p, a, w, cuts);
    if i > 0 {
      FixedAreGivens(p, a, w, cuts, i - 1);
      FixedCut(p, a, w, cuts, i - 1);
    }
  }

  lemma FixedCut(p: int, a: seq<Input>, w: Witness, cuts: seq<Cut>, i: nat)
    requires p > 0 && AreFixed(p, a, w) && AreSpellings(p, a, w, cuts) && i < |a|
    ensures cuts[i].low == GivenCut(p, a[i], w).low
  {
    hide Value, Pow2, Number, Residue;
    assert IsSpelling(p, a[i], w, cuts[i]);
    if a[i].OfValue? {
      var x, n, c := Value(p, a[i].v, w), a[i].nbits, cuts[i];
      assert Same(p, x, c.low + 0);
      OnlySpelling(p, x, c.low);
      ModIs(x, 0, Pow2(n), x);
    }
  }

  /** 254 bits, as the field of the circuit has. */
  predicate IsFieldPrime(p: int) { Pow2(253) <= p <= Pow2(254) }

  /** The result can only be the hash: it has all 254 bits, and either there is no last
      knapsack, or the sum before it has no second spelling in 254 bits, or one with the
      same last knapsack. */
  ghost predicate IsDetermined(hp: HashParams, key: PrfKey, seen: seq<NodeHash.HashInput>, outbits: nat,
                               skipFinal: bool)
    requires hp.p > 1
  {
    var x := SumOf(hp, key, seen);
    || outbits == 0
    || (outbits >= FIELD_BITS
        && (skipFinal || Pow2(FIELD_BITS) <= x + hp.p
            || LastOf(hp, key, seen, x + hp.p, outbits) == LastOf(hp, key, seen, x, outbits)))
  }

  /** A result of 254 bits on given inputs: the last knapsack of a spelling of the sum. */
  lemma WideIff(hp: HashParams, key: PrfKey, seen: seq<NodeHash.HashInput>, outbits: nat, skipFinal: bool, c: Cuts,
                r: int)
    requires 1 < hp.p && outbits >= FIELD_BITS
    ensures var x := SumOf(hp, key, seen);
      && x < hp.p && NodeHash.HashOf(hp, key, seen, outbits, skipFinal)
                     == (if skipFinal then x else LastOf(hp, key, seen, x, outbits))
      && (IsResult(hp, key, seen, outbits, skipFinal, c, r)
          <==> if skipFinal then r == x
               else c.final.low < Pow2(FIELD_BITS) && c.final.high == 0 && Same(hp.p, x, c.final.low)
                    && r == LastOf(hp, key, seen, c.final.low, outbits))
  {
    hide IsResult, NodeHash.Absorb, NodeHash.Mixed, NodeHash.FinalSum, Residue, Pow2, Same;
    ResultIff(hp, key, seen, outbits, skipFinal, c, r);
    assert NodeHash.FinalWidth(outbits) == FIELD_BITS;
  }

  lemma SecondSpelling(p: int, x: int, low: int, bound: int)
    requires 0 <= x < p && 0 <= low < bound <= 2 * p
    ensures Same(p, x, low) <==> low == x || low == x + p
  {
    hide Residue;
    if Same(p, x, low) {
      ResidueSmall(x, p);
      var k := MultiplesAbove(p, x, low);
      if k >= 2 {
        MulMono(2, k, p);
      }
    }
    if low == x {
      SameSelf(p, x);
    }
    if low == x + p {
      AddMultiple(x, 1, p);
      assert 1 * p + x == low;
    }
  }

  /** With inputs that have one spelling: every satisfying witness has the hash as its
      result if and only if the hash is determined. */
  lemma DeterminedHashIff(hp: HashParams, key: PrfKey, a: seq<Input>, first: nat, outbits: nat, skipFinal: bool,
                          w: Witness)
    requires IsPrime(hp.p) && IsFieldPrime(hp.p) && a != []
    requires AreGiven(hp.p, a, first, w) && AreFixed(hp.p, a, w)
    ensures (forall h: Witness :: IsWitness(hp, key, a, first, outbits, skipFinal, w, h) ==>
               ResultOf(hp, key, a, first, outbits, skipFinal, h)
               == NodeHash.HashOf(hp, key, Givens(hp.p, a, w), outbits, skipFinal))
       <==> IsDetermined(hp, key, Givens(hp.p, a, w), outbits, skipFinal)
  {
    hide AreGiven, AreFixed, IsDetermined, IsWitness, ResultOf, NodeHash.HashOf, Givens, IsPrime, IsFieldPrime, Pow2;
    FieldBounds(hp.p);
    var hash := NodeHash.HashOf(hp, key, Givens(hp.p, a, w), outbits, skipFinal);
    if IsDetermined(hp, key, Givens(hp.p, a, w), outbits, skipFinal) {
      forall h: Witness | IsWitness(hp, key, a, first, outbits, skipFinal, w, h)
        ensures ResultOf(hp, key, a, first, outbits, skipFinal, h) == hash
      {
        OnlyTheHash(hp, key, a, first, outbits, skipFinal, w, ResultOf(hp, key, a, first, outbits, skipFinal, h));
      }
    } else {
      var r := AnotherResult(hp, key, a, first, outbits, skipFinal, w);
      var h: Witness :| IsWitness(hp, key, a, first, outbits, skipFinal, w, h)
                        && ResultOf(hp, key, a, first, outbits, skipFinal, h) == r;
    }
  }

  lemma OnlyTheHash(hp: HashParams, key: PrfKey, a: seq<Input>, first: nat, outbits: nat, skipFinal: bool, w: Witness,
                    r: int)
    requires IsPrime(hp.p) && IsFieldPrime(hp.p) && a != []
    requires AreGiven(hp.p, a, first, w) && AreFixed(hp.p, a, w)
    requires IsDetermined(hp, key, Givens(hp.p, a, w), outbits, skipFinal)
    requires IsAdmitted(hp, key, a, first, outbits, skipFinal, w, r)
    ensures r == NodeHash.HashOf(hp, key, Givens(hp.p, a, w), outbits, skipFinal)
  {
    hide AreGiven, AreFixed, IsAdmitted, NodeHash.HashOf, IsPrime, IsResult, AreSpellings, SumOf, LastOf, Spelled,
         Pow2, Same;
    FieldBounds(hp.p);
    AdmittedIff(hp, key, a, first, outbits, skipFinal, w, r);
    var cuts: seq<Cut>, c: Cuts :| IsSteps(hp, key, a, outbits, skipFinal, w, cuts, c, r);
    FixedAreGivens(hp.p, a, w, cuts, |a|);
    var seen := Givens(hp.p, a, w);
    if outbits == 0 {
      StepsAreNarrow(hp, key, a, 0, skipFinal, w, cuts, c, r);
      NoBitsAtAll(hp, key, seen, skipFinal);
    } else {
      WideIff(hp, key, seen, outbits, skipFinal, c, r);
      if !skipFinal {
        SecondSpelling(hp.p, SumOf(hp, key, seen), c.final.low, Pow2(FIELD_BITS));
      }
    }
  }

  lemma FieldBounds(p: int)
    requires IsFieldPrime(p)
    ensures 2 < p <= Pow2(FIELD_BITS) <= 2 * p
  {
    hide Pow2;
    Pow2Double(253);
    Pow2Small();
    Pow2Double(1);
    Pow2Mono(2, 253);
  }

  lemma NoBitsAtAll(hp: HashParams, key: PrfKey, seen: seq<NodeHash.HashInput>, skipFinal: bool)
    requires hp.p > 1
    ensures NodeHash.HashOf(hp, key, seen, 0, skipFinal) == 0 && Pow2(0) == 1
  {
    hide NodeHash.Absorb, NodeHash.Mixed, NodeHash.FinalSum;
    Pow2Small();
  }

  /** If the hash is not determined, some satisfying witness has another result. */
  lemma AnotherResult(hp: HashParams, key: PrfKey, a: seq<Input>, first: nat, outbits: nat, skipFinal: bool, w: Witness)
    returns (r: int)
    requires IsPrime(hp.p) && IsFieldPrime(hp.p) && a != []
    requires AreGiven(hp.p, a, first, w) && AreFixed(hp.p, a, w)
    requires !IsDetermined(hp, key, Givens(hp.p, a, w), outbits, skipFinal)
    ensures IsAdmitted(hp, key, a, first, outbits, skipFinal, w, r)
    ensures r != NodeHash.HashOf(hp, key, Givens(hp.p, a, w), outbits, skipFinal)
  {
    hide AreGiven, IsAdmitted, NodeHash.HashOf, IsPrime, IsResult, AreSpellings, SumOf, LastOf, Spelled, Pow2, Same,
         AreInRange, AreFixed, IsFieldPrime;
    FieldBounds(hp.p);
    FixedAreInRange(hp.p, a, w);
    var seen := Givens(hp.p, a, w);
    var hash := NodeHash.HashOf(hp, key, seen, outbits, skipFinal);
    if outbits < FIELD_BITS {
      r := if hash == 0 then 1 else 0;
      Pow2Small();
      Pow2Mono(1, outbits);
      NarrowIff(hp, key, a, first, outbits, skipFinal, w, r);
    } else {
      var x := SumOf(hp, key, seen);
      var c := Cuts(Cut(x + hp.p, 0), Cut(0, 0));
      r := LastOf(hp, key, seen, x + hp.p, outbits);
      WideIff(hp, key, seen, outbits, skipFinal, c, r);
      SecondSpelling(hp.p, x, x + hp.p, Pow2(FIELD_BITS));
      GivensAreSpellings(hp.p, a, w);
      assert IsSteps(hp, key, a, outbits, skipFinal, w, GivenCuts(hp.p, a, w), c, r);
      AdmittedIff(hp, key, a, first, outbits, skipFinal, w, r);
    }
  }

  lemma FixedAreInRange(p: int, a: seq<Input>, w: Witness)
    requires p > 0 && AreFixed(p, a, w)
    ensures AreInRange(p, a, w)
  {
    hide Value, Pow2;
  }

  // ---- The results of a hash of 254 bits ----

  /** A number of 254 bits that is x in the field: x itself, or p more if that still
      fits. */
  predicate IsSpelt(p: int, x: int, s: nat) { (s == x || s == x + p) && s < Pow2(FIELD_BITS) }

  /** The sum of the hash of seen, or, unless it is skipped, the last knapsack of some
      spelling u of the sum. */
  ghost predicate IsSumOrLast(hp: HashParams, key: PrfKey, seen: seq<NodeHash.HashInput>, skipFinal: bool, u: nat,
                              r: int)
    requires hp.p > 1
  {
    var x := SumOf(hp, key, seen);
    if skipFinal then r == x else IsSpelt(hp.p, x, u) && r == LastOf(hp, key, seen, u, FIELD_BITS)
  }

  /** Cuts that leave nothing above 254 bits are spellings. */
  lemma CutIsSpelt(p: int, x: int, c: Cut)
    requires IsFieldPrime(p) && 0 <= x < p
    ensures IsCut(p, x, FIELD_BITS, c, false) <==> IsSpelt(p, x, c.low) && c.high == 0
  {
    hide Pow2, Same, IsFieldPrime;
    FieldBounds(p);
    if c.low < Pow2(FIELD_BITS) {
      SecondSpelling(p, x, c.low, Pow2(FIELD_BITS));
    }
  }

  /** The results of a hash of full width. */
  lemma FullResultIff(hp: HashParams, key: PrfKey, seen: seq<NodeHash.HashInput>, skipFinal: bool, r: int)
    requires IsFieldPrime(hp.p) && hp.p > 1
    ensures (exists c: Cuts :: IsResult(hp, key, seen, FIELD_BITS, skipFinal, c, r))
       <==> exists u: nat :: IsSumOrLast(hp, key, seen, skipFinal, u, r)
  {
    hide IsResult, SumOf, LastOf, Pow2, Same, IsFieldPrime;
    forall c: Cuts | IsResult(hp, key, seen, FIELD_BITS, skipFinal, c, r)
      ensures IsSumOrLast(hp, key, seen, skipFinal, c.final.low, r)
    {
      OneResultIff(hp, key, seen, skipFinal, c, r);
    }
    forall u: nat | IsSumOrLast(hp, key, seen, skipFinal, u, r)
      ensures IsResult(hp, key, seen, FIELD_BITS, skipFinal, Cuts(Cut(u, 0), Cut(0, 0)), r)
    {
      OneResultIff(hp, key, seen, skipFinal, Cuts(Cut(u, 0), Cut(0, 0)), r);
    }
  }

  lemma OneResultIff(hp: HashParams, key: PrfKey, seen: seq<NodeHash.HashInput>, skipFinal: bool, c: Cuts, r: int)
    requires IsFieldPrime(hp.p) && hp.p > 1
    ensures IsResult(hp, key, seen, FIELD_BITS, skipFinal, c, r)
       <==> IsSumOrLast(hp, key, seen, skipFinal, c.final.low, r) && (!skipFinal ==> c.final.high == 0)
  {
    hide IsResult, SumOf, LastOf, Pow2, Same, IsFieldPrime, NodeHash.HashOf;
    FieldBounds(hp.p);
    WideIff(hp, key, seen, FIELD_BITS, skipFinal, c, r);
    if c.final.low < Pow2(FIELD_BITS) {
      SecondSpelling(hp.p, SumOf(hp, key, seen), c.final.low, Pow2(FIELD_BITS));
    }
  }

  /** The hash of full width is the sum, or its last knapsack. */
  lemma HashIsSumOrLast(hp: HashParams, key: PrfKey, seen: seq<NodeHash.HashInput>, skipFinal: bool)
    requires IsFieldPrime(hp.p) && hp.p > 1
    ensures NodeHash.HashOf(hp, key, seen, FIELD_BITS, skipFinal) < hp.p
    ensures IsSumOrLast(hp, key, seen, skipFinal, SumOf(hp, key, seen),
                        NodeHash.HashOf(hp, key, seen, FIELD_BITS, skipFinal))
  {
    hide IsFieldPrime, Pow2, SumOf, LastOf, IsResult, NodeHash.HashOf;
    FieldBounds(hp.p);
    var x := SumOf(hp, key, seen);
    var c := Cuts(Cut(x, 0), Cut(0, 0));
    WideIff(hp, key, seen, FIELD_BITS, skipFinal, c, 0);
    ResultIff(hp, key, seen, FIELD_BITS, skipFinal, c, 0);
  }

  /** On inputs with one spelling, only the sum can have a second one. */
  lemma FullAdmittedIff(hp: HashParams, key: PrfKey, a: seq<Input>, first: nat, skipFinal: bool, w: Witness, r: int)
    requires IsPrime(hp.p) && IsFieldPrime(hp.p) && a != []
    requires AreGiven(hp.p, a, first, w) && AreFixed(hp.p, a, w)
    ensures IsAdmitted(hp, key, a, first, FIELD_BITS, skipFinal, w, r)
       <==> exists u: nat :: IsSumOrLast(hp, key, Givens(hp.p, a, w), skipFinal, u, r)
  {
    hide IsAdmitted, IsFieldPrime, IsSumOrLast, IsSpelt, Value, UsesBelow, AreGiven, Givens, IsResult, Pow2,
         AreSpellings, Spelled, AreFixed, AreInRange;
    AdmittedIff(hp, key, a, first, FIELD_BITS, skipFinal, w, r);
    FullResultIff(hp, key, Givens(hp.p, a, w), skipFinal, r);
    FixedAreInRange(hp.p, a, w);
    GivensAre(hp.p, a, w);
    forall cuts: seq<Cut>, c: Cuts | IsSteps(hp, key, a, FIELD_BITS, skipFinal, w, cuts, c, r)
      ensures IsResult(hp, key, Givens(hp.p, a, w), FIELD_BITS, skipFinal, c, r)
    {
      FixedAreGivens(hp.p, a, w, cuts, |a|);
    }
    forall c: Cuts | IsResult(hp, key, Givens(hp.p, a, w), FIELD_BITS, skipFinal, c, r)
      ensures IsSteps(hp, key, a, FIELD_BITS, skipFinal, w, GivenCuts(hp.p, a, w), c, r)
    {
      GivensAreSpellings(hp.p, a, w);
    }
  }

  lemma GivensAre(p: int, a: seq<Input>, w: Witness)
    requires p > 0
    ensures Givens(p, a, w) == Spelled(a, GivenCuts(p, a, w), |a|)
  {
    hide Spelled, GivenCuts;
  }

  lemma BitsOnly(p: int, a: seq<Input>, w: Witness)
    requires p > 0 && forall i :: 0 <= i < |a| ==> a[i].OfBits?
    ensures AreFixed(p, a, w) && AreInRange(p, a, w)
  {
  }
}
