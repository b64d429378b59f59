/** The hash of source/cclib/src/zkhash.hpp inside the circuit: what it emits, and
    what any satisfying witness makes of it. */
module HashCircuit {
  import opened Arith
  import opened Field
  import opened Circuit
  import opened BitGadgets
  import opened Options
  import NodeHash

  type HashParams = NodeHash.HashParams
  type PrfKey = NodeHash.PrfKey

  const FIELD_BITS: nat := NodeHash.TX_FIELD_BITS

  // ---- Knapsacks ----

  /** The base for bit i, as a number. */
  function KnapsackBasis(hp: HashParams, key: PrfKey, sequential: bool, basisi: nat): nat -> int {
    (i: nat) => hp.basis(NodeHash.BasisIndex(key, sequential, basisi, i))
  }

  /** The sum of the bases at the set bits is v. */
  function KnapsackConstraint(hp: HashParams, key: PrfKey, bits: seq<Expr>, basisi: nat, sequential: bool,
                              v: Expr): Expr {
    Sub(WeightedSum(bits, KnapsackBasis(hp, key, sequential, basisi), |bits|), v)
  }

  method Knapsack1(cs: ConstraintSystem, hp: HashParams, key: PrfKey, bits: seq<Expr>, basisi0: nat, sequential: bool)
    returns (v: Expr, basisi: nat)
    requires |bits| <= 256
    modifies cs
    ensures v == Var(old(cs.next)) && cs.next == old(cs.next) + 1
    ensures cs.constraints == old(cs.constraints) + [KnapsackConstraint(hp, key, bits, basisi0, sequential, v)]
    ensures basisi == basisi0 + NodeHash.Step(key, |bits|)
  {
    basisi := basisi0;
    var bases: seq<nat> := [];
    for i := 0 to |bits|
      invariant |bases| == i && cs.next == old(cs.next) && cs.constraints == old(cs.constraints)
      invariant basisi == basisi0 + (match key case NoKey => 0 case Key(_, _) => i)
      invariant forall j :: 0 <= j < i ==> bases[j] == NodeHash.BasisIndex(key, sequential, basisi0, j)
    {
      match key {
        case NoKey =>
          bases := bases + [i + NodeHash.HASHBASES_RANDOM_START];
        case Key(first, sip) =>
          var b := if sequential then first + basisi else sip(basisi);
          bases := bases + [b % NodeHash.HASHBASES_NRANDOM + NodeHash.HASHBASES_RANDOM_START];
          basisi := basisi + 1;
      }
    }
    v := Var(cs.next);
    cs.next := cs.next + 1;
    var basis: nat -> int := (i: nat) => if i < |bases| then hp.basis(bases[i]) else 0;
    cs.ConstrainValue(v, bits, basis, None, None);
    SameBases(bits, basis, KnapsackBasis(hp, key, sequential, basisi0), |bits|);
  }

  lemma {:induction false} SameBases(bits: seq<Expr>, f: nat -> int, g: nat -> int, k: nat)
    requires k <= |bits| && forall i: nat :: i < k ==> f(i) == g(i)
    ensures WeightedSum(bits, f, k) == WeightedSum(bits, g, k)
  {
    if k > 0 {
      SameBases(bits, f, g, k - 1);
    }
  }

  // ---- Inputs ----

  /** A value of which some low bits count, more of them allowed or not, or bits. */
  datatype Input = OfValue(v: Expr, nbits: nat, masked: bool) | OfBits(bits: seq<Expr>)

  function Width(a: Input): nat { match a case OfValue(_, n, _) => n case OfBits(bits) => |bits| }

  predicate AreInputs(a: seq<Input>) { forall i :: 0 <= i < |a| ==> Width(a[i]) <= 256 }

  /** The bits of an input whose new variables, if any, start at `first`. */
  function InputBits(a: Input, first: nat): (bits: seq<Expr>)
    ensures |bits| == Width(a)
  {
    match a case OfValue(_, n, _) => BitVars(first, n) case OfBits(bits) => bits
  }

  function InputEmits(a: Input, first: nat): seq<Expr> {
    match a case OfValue(v, n, masked) => BitConstraints(v, first, n, masked) case OfBits(_) => []
  }

  /** Behind the variables of the bits. */
  function InputNext(a: Input, first: nat): nat {
    match a case OfValue(_, n, masked) => first + n + (if masked then 1 else 0) case OfBits(_) => first
  }

  /** What one input emits: its bits and two knapsacks of them. */
  function OneEmits(hp: HashParams, key: PrfKey, a: Input, first: nat, basisi: nat): seq<Expr> {
    var bits, next := InputBits(a, first), InputNext(a, first);
    InputEmits(a, first)
    + [KnapsackConstraint(hp, key, bits, basisi, true, Var(next))]
    + [KnapsackConstraint(hp, key, bits, basisi + NodeHash.Step(key, |bits|), false, Var(next + 1))]
  }

  /** The next variable, and the next base, before input i. */
  function FirstOf(a: seq<Input>, first: nat, i: nat): nat
    requires i <= |a|
  {
    if i == 0 then first else InputNext(a[i - 1], FirstOf(a, first, i - 1)) + 2
  }

  function BasisOf(key: PrfKey, a: seq<Input>, i: nat): nat
    requires i <= |a|
  {
    if i == 0 then 0 else BasisOf(key, a, i - 1) + 2 * NodeHash.Step(key, Width(a[i - 1]))
  }

  function AbsorbEmits(hp: HashParams, key: PrfKey, a: seq<Input>, first: nat, i: nat): seq<Expr>
    requires i <= |a|
  {
    if i == 0 then []
    else AbsorbEmits(hp, key, a, first, i - 1)
         + OneEmits(hp, key, a[i - 1], FirstOf(a, first, i - 1), BasisOf(key, a, i - 1))
  }

  /** The variables of the two knapsacks of input i. */
  function KnapsackVar(a: seq<Input>, first: nat, i: nat, second: bool): Expr
    requires i < |a|
  {
    Var(InputNext(a[i], FirstOf(a, first, i)) + if second then 1 else 0)
  }

  /** The totals over the first i inputs. */
  function Total(a: seq<Input>, first: nat, i: nat, second: bool): Expr
    requires 0 < i <= |a|
  {
    var k := KnapsackVar(a, first, i - 1, second);
    if i == 1 then k else Add(Total(a, first, i - 1, second), k)
  }

  function Both(a: seq<Input>, first: nat, i: nat): Expr
    requires 0 < i <= |a|
  {
    var k0, k1 := KnapsackVar(a, first, i - 1, false), KnapsackVar(a, first, i - 1, true);
    if i == 1 then Add(k0, k1) else Add(Add(Both(a, first, i - 1), k0), k1)
  }

  // ---- The end of the hash ----

  function Round(x: Expr, plus: bool): Expr {
    Add(if plus then Add(Mul(x, x), x) else Sub(Mul(x, x), x), Const(1))
  }

  function Rounds(x: Expr, plus: bool, n: nat): Expr { if n == 0 then x else Round(Rounds(x, plus, n - 1), plus) }

  /** Emitted constraints, the next variable and the result. */
  datatype Emitted = Emitted(constraints: seq<Expr>, next: nat, result: Expr)

  function FinalEmits(hp: HashParams, key: PrfKey, acc: Expr, first: nat, basisi: nat, outbits: nat): Emitted {
    var n := NodeHash.FinalWidth(outbits);
    var next := first + n + if n >= FIELD_BITS then 0 else 1;
    Emitted(BitConstraints(acc, first, n, n < FIELD_BITS)
            + [KnapsackConstraint(hp, key, BitVars(first, n), basisi, true, Var(next))], next + 1, Var(next))
  }

  function CutEmits(acc: Expr, first: nat, outbits: nat): Emitted {
    if outbits >= FIELD_BITS then Emitted([], first, acc)
    else Emitted(ExtractConstraints(acc, first, outbits, true, true), first + outbits + 2, Var(first + outbits + 1))
  }

  function FinishEmits(hp: HashParams, key: PrfKey, acc: Expr, first: nat, basisi: nat, outbits: nat,
                       skipFinal: bool): Emitted {
    var f := if skipFinal then Emitted([], first, acc) else FinalEmits(hp, key, acc, first, basisi, outbits);
    var c := CutEmits(f.result, f.next, outbits);
    Emitted(f.constraints + c.constraints, c.next, c.result)
  }

  function Mixed(acc: Expr, ks0: Expr, ks1: Expr): Expr { Add(Add(acc, Rounds(ks0, true, 8)), Rounds(ks1, false, 8)) }

  /** The sum that goes into the last steps. */
  function MixedTotals(a: seq<Input>, first: nat): Expr
    requires a != []
  {
    Mixed(Both(a, first, |a|), Total(a, first, |a|, false), Total(a, first, |a|, true))
  }

  function HashEmits(hp: HashParams, key: PrfKey, a: seq<Input>, first: nat, outbits: nat, skipFinal: bool): Emitted
    requires a != []
  {
    var f := FinishEmits(hp, key, MixedTotals(a, first), FirstOf(a, first, |a|), BasisOf(key, a, |a|), outbits,
                         skipFinal);
    Emitted(AbsorbEmits(hp, key, a, first, |a|) + f.constraints, f.next, f.result)
  }

  method FinalKnapsack(cs: ConstraintSystem, hp: HashParams, key: PrfKey, acc: Expr, basisi: nat, outbits: nat)
    returns (r: Expr)
    modifies cs
    ensures var f := FinalEmits(hp, key, acc, old(cs.next), basisi, outbits);
      cs.constraints == old(cs.constraints) + f.constraints && cs.next == f.next && r == f.result
  {
    hide KnapsackConstraint, ExtractConstraints, BitConstraints;
    var inbits := outbits * 2;
    if inbits > FIELD_BITS {
      inbits := FIELD_BITS;
    }
    var accbits, rem, bitval := cs.ExtractBits(acc, inbits, inbits < FIELD_BITS, false);
    var unused;
    r, unused := Knapsack1(cs, hp, key, accbits, basisi, true);
  }

  /** Eight rounds of each total, added to the sum. */
  method Diophantine(acc0: Expr, ks0in: Expr, ks1in: Expr) returns (acc: Expr)
    ensures acc == Mixed(acc0, ks0in, ks1in)
  {
    var ks0, ks1 := ks0in, ks1in;
    for i := 0 to 8
      invariant ks0 == Rounds(ks0in, true, i) && ks1 == Rounds(ks1in, false, i)
    {
      ks0 := Add(Add(Mul(ks0, ks0), ks0), Const(1));
      ks1 := Add(Sub(Mul(ks1, ks1), ks1), Const(1));
    }
    return Add(Add(acc0, ks0), ks1);
  }

  method HashFinish(cs: ConstraintSystem, hp: HashParams, key: PrfKey, acc0: Expr, ks0: Expr, ks1: Expr, basisi: nat,
                    outbits: nat, skipFinal: bool)
    returns (r: Expr)
    modifies cs
    ensures var f := FinishEmits(hp, key, Mixed(acc0, ks0, ks1), old(cs.next), basisi, outbits, skipFinal);
      cs.constraints == old(cs.constraints) + f.constraints && cs.next == f.next && r == f.result
  {
    hide FinalEmits, ExtractConstraints, BitConstraints, Mixed;
    var acc := Diophantine(acc0, ks0, ks1);
    if !skipFinal {
      acc := FinalKnapsack(cs, hp, key, acc, basisi, outbits);
    }
    if outbits >= FIELD_BITS {
      return acc;
    }
    var accbits, rem, result := cs.ExtractBits(acc, outbits, true, true);
    return result.value;
  }

  /** The bits of one input and its two knapsacks. */
  method Knapsack2(cs: ConstraintSystem, hp: HashParams, key: PrfKey, a: Input, basisi0: nat)
    returns (k0: Expr, k1: Expr, basisi: nat)
    requires Width(a) <= 256
    modifies cs
    ensures var next := InputNext(a, old(cs.next)); k0 == Var(next) && k1 == Var(next + 1) && cs.next == next + 2
    ensures cs.constraints == old(cs.constraints) + OneEmits(hp, key, a, old(cs.next), basisi0)
    ensures basisi == basisi0 + 2 * NodeHash.Step(key, Width(a))
  {
    hide KnapsackConstraint, BitConstraints, ExtractConstraints;
    var abits;
    match a {
      case OfBits(bits) =>
        abits := bits;
      case OfValue(v, nbits, masked) =>
        var rem, bitval;
        abits, rem, bitval := cs.ExtractBits(v, nbits, masked, false);
    }
    k0, basisi := Knapsack1(cs, hp, key, abits, basisi0, true);
    k1, basisi := Knapsack1(cs, hp, key, abits, basisi, false);
  }

  method Hash(cs: ConstraintSystem, hp: HashParams, key: PrfKey, a: seq<Input>, outbits: nat, skipFinal: bool)
    returns (r: Expr)
    requires a != [] && AreInputs(a)
    modifies cs
    ensures var e := HashEmits(hp, key, a, old(cs.next), outbits, skipFinal);
      cs.constraints == old(cs.constraints) + e.constraints && cs.next == e.next && r == e.result
  {
    hide OneEmits, FinishEmits, InputNext, Width, Mixed;
    ghost var first, had := cs.next, cs.constraints;
    var acc, ks0, ks1, basisi := Const(0), Const(0), Const(0), 0;
    for i := 0 to |a|
      invariant cs.next == FirstOf(a, first, i) && basisi == BasisOf(key, a, i)
      invariant cs.constraints == had + AbsorbEmits(hp, key, a, first, i)
      invariant i > 0 ==> acc == Both(a, first, i)
      invariant i > 0 ==> ks0 == Total(a, first, i, false) && ks1 == Total(a, first, i, true)
    {
      var k0, k1;
      k0, k1, basisi := Knapsack2(cs, hp, key, a[i], basisi);
      if i == 0 {
        ks0, ks1 := k0, k1;
        acc := Add(ks0, ks1);
      } else {
        ks0, ks1 := Add(ks0, k0), Add(ks1, k1);
        acc := Add(Add(acc, k0), k1);
      }
    }
    r := HashFinish(cs, hp, key, acc, ks0, ks1, basisi, outbits, skipFinal);
  }

  // ---- Knapsacks of a witness ----

  /** The bits that the witness gives. */
  function BitsOf(p: int, bits: seq<Expr>, w: Witness): (r: seq<bool>)
    requires p > 0
    ensures |r| == |bits|
  {
    seq(|bits|, i requires 0 <= i < |bits| => Value(p, bits[i], w) == 1)
  }

  function SelectedSum(f: nat -> int, bits: seq<bool>, k: nat): int
    requires k <= |bits|
  {
    if k == 0 then 0 else SelectedSum(f, bits, k - 1) + if bits[k - 1] then f(k - 1) else 0
  }

  lemma {:induction false} WeightedMeans(p: int, bits: seq<Expr>, f: nat -> int, w: Witness, k: nat)
    requires p > 0 && k <= |bits| && AreBits(p, bits, w)
    ensures Same(p, Eval(WeightedSum(bits, f, k), w), SelectedSum(f, BitsOf(p, bits, w), k))
  {
    hide Residue, Same, Value;
    if k == 0 {
      SameSelf(p, 0);
    } else {
      WeightedMeans(p, bits, f, w, k - 1);
      var x, v := Eval(bits[k - 1], w), Value(p, bits[k - 1], w);
      ValueIsResidue(p, bits[k - 1], w);
      SameResidue(p, x);
      SameTimes(p, x, v, f(k - 1));
      assert v == 0 || v == 1;
      assert Eval(Mul(bits[k - 1], Const(f(k - 1))), w) == x * f(k - 1);
      SameAdd(p, Eval(WeightedSum(bits, f, k - 1), w), SelectedSum(f, BitsOf(p, bits, w), k - 1), x * f(k - 1),
              v * f(k - 1));
    }
  }

  lemma {:induction false} SelectedIsBasisSum(hp: HashParams, key: PrfKey, sequential: bool, basisi: nat,
                                              bits: seq<bool>, k: nat)
    requires k <= |bits|
    ensures SelectedSum(KnapsackBasis(hp, key, sequential, basisi), bits, k)
            + NodeHash.BasisSum(hp, key, sequential, basisi, bits, k)
         == NodeHash.BasisSum(hp, key, sequential, basisi, bits, 0)
  {
    if k > 0 {
      SelectedIsBasisSum(hp, key, sequential, basisi, bits, k - 1);
    }
  }

  /** A satisfied knapsack constraint: the variable is the sum of the bases at the
      witness's bits. */
  lemma KnapsackSound(hp: HashParams, key: PrfKey, bits: seq<Expr>, basisi: nat, sequential: bool, v: Expr, w: Witness)
    requires hp.p > 1 && AreBits(hp.p, bits, w)
    requires IsZero(hp.p, Eval(KnapsackConstraint(hp, key, bits, basisi, sequential, v), w))
    ensures Same(hp.p, Eval(v, w), NodeHash.BasisSum(hp, key, sequential, basisi, BitsOf(hp.p, bits, w), 0))
  {
    hide IsZero, Same, AreBits, WeightedSum, KnapsackBasis;
    var f := KnapsackBasis(hp, key, sequential, basisi);
    var sum := WeightedSum(bits, f, |bits|);
    WeightedMeans(hp.p, bits, f, w, |bits|);
    SelectedIsBasisSum(hp, key, sequential, basisi, BitsOf(hp.p, bits, w), |bits|);
    assert Eval(Sub(sum, v), w) == Eval(sum, w) - Eval(v, w);
    SumMeansValue(hp.p, Eval(sum, w), 0, Eval(v, w), SelectedSum(f, BitsOf(hp.p, bits, w), |bits|));
  }

  // ---- Bits of numbers ----

  lemma {:induction false} AppendBit(x: nat, b: int, k: nat, y: nat)
    requires x < Pow2(k) && 0 <= b <= 1 && y == x + b * Pow2(k)
    ensures NodeHash.Bits(y, k + 1) == NodeHash.Bits(x, k) + [b == 1]
  {
    if k > 0 {
      HalfOfSum(x, b, Pow2(k - 1), y);
      AppendBit(x / 2, b, k - 1, y / 2);
    }
  }

  lemma HalfOfSum(x: int, b: int, p: int, y: int)
    requires y == x + b * (2 * p)
    ensures y / 2 == x / 2 + b * p && y % 2 == x % 2
  {
    var h := b * p;
    assert y == x + 2 * h;
  }

  /** The bits of the number that a witness's bits spell are these bits. */
  lemma {:induction false} BitsOfNumber(p: int, bits: seq<Expr>, w: Witness, k: nat)
    requires p > 0 && k <= |bits| && AreBits(p, bits, w)
    ensures 0 <= Number(p, bits, w, k) < Pow2(k) && NodeHash.Bits(Number(p, bits, w, k), k) == BitsOf(p, bits, w)[..k]
  {
    hide Value, Pow2, Number;
    NumberInRange(p, bits, w, k);
    if k == 0 {
      assert BitsOf(p, bits, w)[..0] == [];
    } else {
      hide NodeHash.Bits;
      BitsOfNumber(p, bits, w, k - 1);
      NumberStep(p, bits, w, k);
      AppendBit(Number(p, bits, w, k - 1), Value(p, bits[k - 1], w), k - 1, Number(p, bits, w, k));
      assert BitsOf(p, bits, w)[..k] == BitsOf(p, bits, w)[..k - 1] + [Value(p, bits[k - 1], w) == 1];
    }
  }

  lemma {:induction false} LowBitsOnly(v: nat, n: nat)
    ensures NodeHash.Bits(v % Pow2(n), n) == NodeHash.Bits(v, n)
  {
    if n > 0 {
      LowBitsOnly(v / 2, n - 1);
      var p := Pow2(n - 1);
      var q, r := v / 2 / p, v / 2 % p;
      assert v / 2 == q * p + r;
      assert v == q * (2 * p) + (2 * r + v % 2) by {
        assert q * (2 * p) == 2 * (q * p);
      }
      ModIs(v, q, 2 * p, 2 * r + v % 2);
    }
  }

  // ---- The totals of a witness ----

  /** The inputs that a witness hashes: the numbers that the bits of the first i
      inputs spell. */
  function Seen(p: int, a: seq<Input>, first: nat, w: Witness, i: nat): (r: seq<NodeHash.HashInput>)
    requires p > 0 && i <= |a|
    ensures |r| == i
  {
    if i == 0 then []
    else
      var bits := InputBits(a[i - 1], FirstOf(a, first, i - 1));
      Seen(p, a, first, w, i - 1) + [NodeHash.HashInput(Number(p, bits, w, |bits|), |bits|)]
  }

  /** Bits that are inputs have to be 0 or 1 already. */
  ghost predicate InputsAreBits(p: int, a: seq<Input>, w: Witness)
    requires p > 0
  {
    forall i :: 0 <= i < |a| && a[i].OfBits? ==> AreBits(p, a[i].bits, w)
  }

  lemma {:induction false} AbsorbAppend(hp: HashParams, key: PrfKey, a: seq<NodeHash.HashInput>, x: NodeHash.HashInput,
                                        basisi: nat)
    ensures var s := NodeHash.Absorb(hp, key, a, basisi);
      var t := NodeHash.Absorb(hp, key, a + [x], basisi);
      var bits, next := NodeHash.Bits(x.value, x.nbits), s.basisi + NodeHash.Step(key, x.nbits);
      && t.ks0 == s.ks0 + NodeHash.BasisSum(hp, key, true, s.basisi, bits, 0)
      && t.ks1 == s.ks1 + NodeHash.BasisSum(hp, key, false, next, bits, 0)
      && t.basisi == next + NodeHash.Step(key, x.nbits)
  {
    hide NodeHash.BasisSum, NodeHash.Bits, NodeHash.Step;
    if a == [] {
      assert [x][1..] == [];
      assert [] + [x] == [x];
    } else {
      AbsorbAppend(hp, key, a[1..], x, basisi + NodeHash.Step(key, a[0].nbits) + NodeHash.Step(key, a[0].nbits));
      assert (a + [x])[1..] == a[1..] + [x];
    }
  }

  /** One input: both of its knapsack variables hold the sums over its bits. */
  lemma OneSound(hp: HashParams, key: PrfKey, a: Input, first: nat, basisi: nat, w: Witness)
    requires IsPrime(hp.p) && Satisfied(hp.p, OneEmits(hp, key, a, first, basisi), w)
    requires a.OfBits? ==> AreBits(hp.p, a.bits, w)
    ensures var bits, next := InputBits(a, first), InputNext(a, first);
      var b := NodeHash.Bits(Number(hp.p, bits, w, |bits|), |bits|);
      && Same(hp.p, w(next), NodeHash.BasisSum(hp, key, true, basisi, b, 0))
      && Same(hp.p, w(next + 1), NodeHash.BasisSum(hp, key, false, basisi + NodeHash.Step(key, |bits|), b, 0))
  {
    hide IsZero, Same, Satisfied, AreBits, KnapsackConstraint, NodeHash.BasisSum, NodeHash.Bits, Number;
    var p, bits, next := hp.p, InputBits(a, first), InputNext(a, first);
    OneSplit(hp, key, a, first, basisi, w);
    if a.OfValue? {
      hide BitConstraints;
      BitsMeanValue(p, a.v, first, a.nbits, a.masked, w);
    }
    assert AreBits(p, bits, w);
    BitsOfNumber(p, bits, w, |bits|);
    assert BitsOf(p, bits, w)[..|bits|] == BitsOf(p, bits, w);
    KnapsackSound(hp, key, bits, basisi, true, Var(next), w);
    KnapsackSound(hp, key, bits, basisi + NodeHash.Step(key, |bits|), false, Var(next + 1), w);
    EvalVar(next, w);
    EvalVar(next + 1, w);
  }

  lemma OneSplit(hp: HashParams, key: PrfKey, a: Input, first: nat, basisi: nat, w: Witness)
    requires hp.p > 0 && Satisfied(hp.p, OneEmits(hp, key, a, first, basisi), w)
    ensures var bits, next := InputBits(a, first), InputNext(a, first);
      && Satisfied(hp.p, InputEmits(a, first), w)
      && IsZero(hp.p, Eval(KnapsackConstraint(hp, key, bits, basisi, true, Var(next)), w))
      && IsZero(hp.p, Eval(KnapsackConstraint(hp, key, bits, basisi + NodeHash.Step(key, |bits|), false,
                                              Var(next + 1)), w))
  {
    hide IsZero, Eval, KnapsackConstraint, InputEmits, InputBits, InputNext;
    var bits, next := InputBits(a, first), InputNext(a, first);
    var k0 := KnapsackConstraint(hp, key, bits, basisi, true, Var(next));
    var k1 := KnapsackConstraint(hp, key, bits, basisi + NodeHash.Step(key, |bits|), false, Var(next + 1));
    SatisfiedConcat(hp.p, InputEmits(a, first) + [k0], [k1], w);
    SatisfiedConcat(hp.p, InputEmits(a, first), [k0], w);
    assert IsZero(hp.p, Eval([k0][0], w)) && IsZero(hp.p, Eval([k1][0], w));
  }

  lemma {:induction false} TotalsSound(hp: HashParams, key: PrfKey, a: seq<Input>, first: nat, w: Witness, i: nat)
    requires IsPrime(hp.p) && 0 < i <= |a| && Satisfied(hp.p, AbsorbEmits(hp, key, a, first, i), w)
    requires InputsAreBits(hp.p, a, w)
    ensures var s := NodeHash.Absorb(hp, key, Seen(hp.p, a, first, w, i), 0);
      && Same(hp.p, Eval(Total(a, first, i, false), w), s.ks0) && Same(hp.p, Eval(Total(a, first, i, true), w), s.ks1)
      && Same(hp.p, Eval(Both(a, first, i), w), s.ks0 + s.ks1) && s.basisi == BasisOf(key, a, i)
  {
    hide Same, Satisfied, OneEmits, InputNext, NodeHash.BasisSum, NodeHash.Bits, NodeHash.Absorb, Number,
         InputsAreBits, Total, Both, Eval;
    var p, f, b, seen := hp.p, FirstOf(a, first, i - 1), BasisOf(key, a, i - 1), Seen(hp.p, a, first, w, i - 1);
    SatisfiedConcat(p, AbsorbEmits(hp, key, a, first, i - 1), OneEmits(hp, key, a[i - 1], f, b), w);
    InputIsBits(p, a, w, i - 1);
    var bits := InputBits(a[i - 1], f);
    var x := NodeHash.HashInput(Number(p, bits, w, |bits|), |bits|);
    if i == 1 {
      NothingAbsorbed(hp, key);
    } else {
      TotalsSound(hp, key, a, first, w, i - 1);
    }
    var s := NodeHash.Absorb(hp, key, seen, 0);
    AbsorbAppend(hp, key, seen, x, 0);
    assert s.basisi == b;
    OneSound(hp, key, a[i - 1], f, b, w);
    var next := InputNext(a[i - 1], f);
    var n0 := NodeHash.BasisSum(hp, key, true, b, NodeHash.Bits(x.value, x.nbits), 0);
    var n1 := NodeHash.BasisSum(hp, key, false, b + NodeHash.Step(key, x.nbits), NodeHash.Bits(x.value, x.nbits), 0);
    EvalTotals(a, first, w, i);
    SameAdd(p, w(next), n0, w(next + 1), n1);
    if i > 1 {
      SameAdd(p, Eval(Total(a, first, i - 1, false), w), s.ks0, w(next), n0);
      SameAdd(p, Eval(Total(a, first, i - 1, true), w), s.ks1, w(next + 1), n1);
      SameAdd(p, Eval(Both(a, first, i - 1), w), s.ks0 + s.ks1, w(next) + w(next + 1), n0 + n1);
    }
  }

  lemma EvalTotals(a: seq<Input>, first: nat, w: Witness, i: nat)
    requires 0 < i <= |a|
    ensures var next := InputNext(a[i - 1], FirstOf(a, first, i - 1));
      && Eval(Total(a, first, i, false), w) == (if i == 1 then 0 else Eval(Total(a, first, i - 1, false), w)) + w(next)
      && Eval(Total(a, first, i, true), w)
         == (if i == 1 then 0 else Eval(Total(a, first, i - 1, true), w)) + w(next + 1)
      && Eval(Both(a, first, i), w)
         == (if i == 1 then 0 else Eval(Both(a, first, i - 1), w)) + (w(next) + w(next + 1))
  {
    hide InputNext;
    var k0, k1 := KnapsackVar(a, first, i - 1, false), KnapsackVar(a, first, i - 1, true);
    if i > 1 {
      var both := Both(a, first, i - 1);
      assert Eval(Add(Add(both, k0), k1), w) == Eval(Add(both, k0), w) + Eval(k1, w);
    }
  }

  lemma InputIsBits(p: int, a: seq<Input>, w: Witness, i: nat)
    requires p > 0 && i < |a| && InputsAreBits(p, a, w)
    ensures a[i].OfBits? ==> AreBits(p, a[i].bits, w)
  {
  }

  lemma NothingAbsorbed(hp: HashParams, key: PrfKey)
    ensures NodeHash.Absorb(hp, key, [], 0) == NodeHash.Absorbed(0, 0, 0)
  {
  }

  // ---- The end of the hash of a witness ----

  lemma RoundSame(p: int, y: int, z: int, sign: int)
    requires p > 1 && Same(p, y, z)
    ensures Same(p, y * y + sign * y + 1, Residue(z * z + sign * z + 1, p))
  {
    hide Residue, Same;
    SameTimes(p, y, z, y);
    SameTimes(p, y, z, z);
    SameTrans(p, y * y, y * z, z * z);
    SameTimes(p, y, z, sign);
    SameAdd(p, y * y, z * z, y * sign, z * sign);
    SameSelf(p, 1);
    SameAdd(p, y * y + y * sign, z * z + z * sign, 1, 1);
    SameResidue(p, z * z + sign * z + 1);
    SameTrans(p, y * y + sign * y + 1, z * z + sign * z + 1, Residue(z * z + sign * z + 1, p));
  }

  function Sign(plus: bool): int { if plus then 1 else -1 }

  lemma {:induction false} LastRound(p: int, sign: int, z: int, n: nat)
    requires p > 1 && n > 0
    ensures var y := NodeHash.Rounds(p, sign, z, n - 1);
      NodeHash.Rounds(p, sign, z, n) == Residue(y * y + sign * y + 1, p)
    decreases n
  {
    hide Residue;
    if n > 1 {
      LastRound(p, sign, Residue(z * z + sign * z + 1, p), n - 1);
    }
  }

  lemma {:induction false} RoundsSound(p: int, x: Expr, plus: bool, z: int, n: nat, w: Witness)
    requires p > 1 && Same(p, Eval(x, w), z)
    ensures Same(p, Eval(Rounds(x, plus, n), w), NodeHash.Rounds(p, Sign(plus), z, n))
  {
    hide Same, NodeHash.Rounds;
    if n == 0 {
      NoRounds(p, Sign(plus), z);
    } else {
      RoundsSound(p, x, plus, z, n - 1, w);
      LastRound(p, Sign(plus), z, n);
      var y := Eval(Rounds(x, plus, n - 1), w);
      RoundSame(p, y, NodeHash.Rounds(p, Sign(plus), z, n - 1), Sign(plus));
      EvalRound(Rounds(x, plus, n - 1), plus, w);
    }
  }

  lemma NoRounds(p: int, sign: int, z: int)
    requires p > 1
    ensures NodeHash.Rounds(p, sign, z, 0) == z
  {
  }

  lemma EvalRound(x: Expr, plus: bool, w: Witness)
    ensures var y := Eval(x, w); Eval(Round(x, plus), w) == y * y + Sign(plus) * y + 1
  {
    var xx := Mul(x, x);
    var e := if plus then Add(xx, x) else Sub(xx, x);
    assert Eval(xx, w) == Eval(x, w) * Eval(x, w);
    assert Eval(e, w) == Eval(xx, w) + Sign(plus) * Eval(x, w);
    assert Eval(Add(e, Const(1)), w) == Eval(e, w) + 1;
  }

  lemma MixedSound(hp: HashParams, acc: Expr, ks0: Expr, ks1: Expr, z0: int, z1: int, w: Witness)
    requires hp.p > 1 && Same(hp.p, Eval(ks0, w), z0) && Same(hp.p, Eval(ks1, w), z1)
    requires Same(hp.p, Eval(acc, w), z0 + z1)
    ensures Value(hp.p, Mixed(acc, ks0, ks1), w) == NodeHash.Mixed(hp, Residue(z0, hp.p), Residue(z1, hp.p))
  {
    hide Residue, Same, NodeHash.Rounds, Rounds, Mixed, Eval;
    var p, r0, r1 := hp.p, Residue(z0, hp.p), Residue(z1, hp.p);
    ReducedSame(p, Eval(ks0, w), z0);
    ReducedSame(p, Eval(ks1, w), z1);
    RoundsSound(p, ks0, true, r0, 8, w);
    RoundsSound(p, ks1, false, r1, 8, w);
    ReducedBoth(p, Eval(acc, w), z0, z1);
    var d0, d1 := NodeHash.Rounds(p, 1, r0, 8), NodeHash.Rounds(p, -1, r1, 8);
    var e0, e1 := Eval(Rounds(ks0, true, 8), w), Eval(Rounds(ks1, false, 8), w);
    SameAdd(p, e0, d0, e1, d1);
    SameAdd(p, Eval(acc, w), r0 + r1, e0 + e1, d0 + d1);
    EvalMixed(acc, ks0, ks1, w);
    SameIsValue(p, Mixed(acc, ks0, ks1), r0 + r1 + (d0 + d1), w);
  }

  lemma ReducedSame(p: int, x: int, z: int)
    requires p > 0 && Same(p, x, z)
    ensures Same(p, x, Residue(z, p))
  {
    SameResidue(p, z);
  }

  lemma ReducedBoth(p: int, x: int, y: int, z: int)
    requires p > 0 && Same(p, x, y + z)
    ensures Same(p, x, Residue(y, p) + Residue(z, p))
  {
    hide Residue;
    SameResidue(p, y);
    SameResidue(p, z);
    SameAdd(p, y, Residue(y, p), z, Residue(z, p));
  }

  lemma EvalMixed(acc: Expr, ks0: Expr, ks1: Expr, w: Witness)
    ensures Eval(Mixed(acc, ks0, ks1), w)
         == Eval(acc, w) + (Eval(Rounds(ks0, true, 8), w) + Eval(Rounds(ks1, false, 8), w))
  {
    hide Rounds;
    assert Eval(Add(acc, Rounds(ks0, true, 8)), w) == Eval(acc, w) + Eval(Rounds(ks0, true, 8), w);
  }

  lemma SameIsValue(p: int, e: Expr, z: int, w: Witness)
    requires p > 0 && Same(p, Eval(e, w), z)
    ensures Value(p, e, w) == Residue(z, p)
  {
  }

  /** What the bits spell, and what a witness says is above them. */
  datatype Cut = Cut(low: nat, high: int)

  /** In the field, x is low, of so many bits, and a multiple of the place above them:
      none if there is no remainder. */
  ghost predicate IsCut(p: int, x: int, bits: nat, c: Cut, withRem: bool)
    requires p > 0
  {
    c.low < Pow2(bits) && Same(p, x, c.low + c.high * Pow2(bits)) && (!withRem ==> c.high == 0)
  }

  /** The last knapsack is that of the bits into which acc has been cut. */
  lemma FinalSound(hp: HashParams, key: PrfKey, acc: Expr, first: nat, basisi: nat, outbits: nat, w: Witness)
    returns (c: Cut)
    requires IsPrime(hp.p) && Satisfied(hp.p, FinalEmits(hp, key, acc, first, basisi, outbits).constraints, w)
    ensures var n := NodeHash.FinalWidth(outbits);
      IsCut(hp.p, Value(hp.p, acc, w), n, c, n < FIELD_BITS)
    ensures Value(hp.p, FinalEmits(hp, key, acc, first, basisi, outbits).result, w)
         == NodeHash.FinalSum(hp, key, c.low, basisi, outbits)
  {
    hide Same, IsZero, Satisfied, BitConstraints, KnapsackConstraint, AreBits, NodeHash.BasisSum, NodeHash.Bits,
         Number, Pow2, Residue;
    var p, n := hp.p, NodeHash.FinalWidth(outbits);
    var bits, next := BitVars(first, n), first + n + if n >= FIELD_BITS then 0 else 1;
    var k := KnapsackConstraint(hp, key, bits, basisi, true, Var(next));
    SatisfiedConcat(p, BitConstraints(acc, first, n, n < FIELD_BITS), [k], w);
    SatisfiedOne(p, k, w);
    BitsMeanValue(p, acc, first, n, n < FIELD_BITS, w);
    var low: nat, high := Number(p, bits, w, n), if n < FIELD_BITS then w(first + n) else 0;
    c := Cut(low, high);
    ValueSame(p, acc, low + high * Pow2(n), w);
    BitsOfNumber(p, bits, w, n);
    assert BitsOf(p, bits, w)[..n] == BitsOf(p, bits, w);
    KnapsackSound(hp, key, bits, basisi, true, Var(next), w);
    SameIsValue(p, Var(next), NodeHash.BasisSum(hp, key, true, basisi, NodeHash.Bits(low, n), 0), w);
  }

  lemma SatisfiedOne(p: int, c: Expr, w: Witness)
    requires p > 0 && Satisfied(p, [c], w)
    ensures IsZero(p, Eval(c, w))
  {
    assert [c][0] == c;
  }

  lemma ValueSame(p: int, e: Expr, z: int, w: Witness)
    requires p > 0 && Same(p, Eval(e, w), z)
    ensures Same(p, Value(p, e, w), z)
  {
    SameResidue(p, Eval(e, w));
  }

  /** The result is what acc, of outbits bits or more, has been cut to. */
  lemma CutSound(p: int, acc: Expr, first: nat, outbits: nat, w: Witness) returns (c: Cut)
    requires IsPrime(p) && Satisfied(p, CutEmits(acc, first, outbits).constraints, w)
    ensures var r := Value(p, CutEmits(acc, first, outbits).result, w);
      if outbits >= FIELD_BITS then r == Value(p, acc, w)
      else r == Residue(c.low, p) && IsCut(p, Value(p, acc, w), outbits, c, true)
  {
    hide Same, Satisfied, ExtractConstraints, AreBits, Number, Pow2, Residue;
    c := Cut(0, 0);
    if outbits < FIELD_BITS {
      BitvalMeansBits(p, acc, first, outbits, true, w);
      var low: nat, high := Number(p, BitVars(first, outbits), w, outbits), w(first + outbits);
      c := Cut(low, high);
      var b := w(first + outbits + 1);
      EvalVar(first + outbits + 1, w);
      SameIsValue(p, Var(first + outbits + 1), low, w);
      SameSelf(p, high * Pow2(outbits));
      SameAdd(p, b, low, high * Pow2(outbits), high * Pow2(outbits));
      SameTrans(p, Eval(acc, w), b + high * Pow2(outbits), low + high * Pow2(outbits));
      ValueSame(p, acc, low + high * Pow2(outbits), w);
    }
  }

  /** The cut before the last knapsack, and that of the result. */
  datatype Cuts = Cuts(final: Cut, last: Cut)

  /** A result that the hash steps can have on what has been seen, if the two cuts are
      those of a witness. */
  ghost predicate IsResult(hp: HashParams, key: PrfKey, seen: seq<NodeHash.HashInput>, outbits: nat, skipFinal: bool,
                           c: Cuts, r: int)
    requires hp.p > 1
  {
    var s := NodeHash.Absorb(hp, key, seen, 0);
    var acc, n := NodeHash.Mixed(hp, Residue(s.ks0, hp.p), Residue(s.ks1, hp.p)), NodeHash.FinalWidth(outbits);
    var out := if skipFinal then acc else NodeHash.FinalSum(hp, key, c.final.low, s.basisi, outbits);
    && (!skipFinal ==> IsCut(hp.p, acc, n, c.final, n < FIELD_BITS))
    && (if outbits >= FIELD_BITS then r == out
        else r == Residue(c.last.low, hp.p) && IsCut(hp.p, out, outbits, c.last, true))
  }

  /** Any witness that satisfies what the hash emits has a result that the hash steps
      can have on what its bits spell, with the witness's own cuts. */
  lemma HashSound(hp: HashParams, key: PrfKey, a: seq<Input>, first: nat, outbits: nat, skipFinal: bool, w: Witness)
    returns (c: Cuts)
    requires IsPrime(hp.p) && a != [] && InputsAreBits(hp.p, a, w)
    requires Satisfied(hp.p, HashEmits(hp, key, a, first, outbits, skipFinal).constraints, w)
    ensures IsResult(hp, key, Seen(hp.p, a, first, w, |a|), outbits, skipFinal, c,
                     Value(hp.p, HashEmits(hp, key, a, first, outbits, skipFinal).result, w))
  {
    hide Satisfied, Same, AbsorbEmits, FinalEmits, CutEmits, Mixed, NodeHash.Mixed, NodeHash.FinalSum,
         NodeHash.Absorb, IsCut, Value, Residue, InputsAreBits, Total, Both;
    var p, seen := hp.p, Seen(hp.p, a, first, w, |a|);
    var s := NodeHash.Absorb(hp, key, seen, 0);
    var mixed, next, b := MixedTotals(a, first), FirstOf(a, first, |a|), BasisOf(key, a, |a|);
    var f := if skipFinal then Emitted([], next, mixed) else FinalEmits(hp, key, mixed, next, b, outbits);
    var e := CutEmits(f.result, f.next, outbits);
    SatisfiedConcat(p, AbsorbEmits(hp, key, a, first, |a|), f.constraints + e.constraints, w);
    SatisfiedConcat(p, f.constraints, e.constraints, w);
    TotalsSound(hp, key, a, first, w, |a|);
    MixedSound(hp, Both(a, first, |a|), Total(a, first, |a|, false), Total(a, first, |a|, true), s.ks0, s.ks1, w);
    var final := Cut(0, 0);
    if !skipFinal {
      final := FinalSound(hp, key, mixed, next, b, outbits, w);
    }
    var last := CutSound(p, f.result, f.next, outbits, w);
    c := Cuts(final, last);
  }

  /** If what is said to be above the bits is what is above them, the result is the
      hash. */
  lemma ExactCuts(hp: HashParams, key: PrfKey, seen: seq<NodeHash.HashInput>, outbits: nat, skipFinal: bool, c: Cuts,
                  r: int)
    requires hp.p > 1 && IsResult(hp, key, seen, outbits, skipFinal, c, r)
    requires var s := NodeHash.Absorb(hp, key, seen, 0);
      var acc, n := NodeHash.Mixed(hp, Residue(s.ks0, hp.p), Residue(s.ks1, hp.p)), NodeHash.FinalWidth(outbits);
      var out := if skipFinal then acc else NodeHash.FinalSum(hp, key, c.final.low, s.basisi, outbits);
      && (!skipFinal ==> acc == c.final.low + c.final.high * Pow2(n))
      && (outbits < FIELD_BITS ==> out == c.last.low + c.last.high * Pow2(outbits))
    ensures r == NodeHash.HashOf(hp, key, seen, outbits, skipFinal)
  {
    hide NodeHash.Absorb, Residue, NodeHash.Mixed, NodeHash.FinalSum, Pow2, IsCut;
    var s := NodeHash.Absorb(hp, key, seen, 0);
    var acc, n := NodeHash.Mixed(hp, Residue(s.ks0, hp.p), Residue(s.ks1, hp.p)), NodeHash.FinalWidth(outbits);
    var out := if skipFinal then acc else NodeHash.FinalSum(hp, key, c.final.low, s.basisi, outbits);
    InField(hp, key, Residue(s.ks0, hp.p), Residue(s.ks1, hp.p), c.final.low, s.basisi, outbits);
    if !skipFinal {
      ExactCut(hp.p, acc, n, c.final, n < FIELD_BITS);
      FinalOfLow(hp, key, acc, c.final.low, s.basisi, outbits);
    }
    if outbits < FIELD_BITS {
      ExactCut(hp.p, out, outbits, c.last, true);
    }
  }

  lemma InField(hp: HashParams, key: PrfKey, ks0: int, ks1: int, low: nat, basisi: nat, outbits: nat)
    requires hp.p > 1
    ensures NodeHash.Mixed(hp, ks0, ks1) < hp.p && NodeHash.FinalSum(hp, key, low, basisi, outbits) < hp.p
  {
    hide NodeHash.Rounds, NodeHash.BasisSum;
  }

  lemma ExactCut(p: int, x: int, bits: nat, c: Cut, withRem: bool)
    requires 0 <= x < p && IsCut(p, x, bits, c, withRem) && x == c.low + c.high * Pow2(bits)
    ensures c.low == x % Pow2(bits) && Residue(c.low, p) == c.low
  {
    hide Pow2, Residue;
    var unit := Pow2(bits);
    ModIs(x, c.high, unit, c.low);
    FloorIff(x, unit, 0);
    MulMono(0, c.high, unit);
    ResidueSmall(c.low, p);
  }

  lemma FinalOfLow(hp: HashParams, key: PrfKey, acc: nat, low: nat, basisi: nat, outbits: nat)
    requires hp.p > 1 && low == acc % Pow2(NodeHash.FinalWidth(outbits))
    ensures NodeHash.FinalSum(hp, key, low, basisi, outbits) == NodeHash.FinalSum(hp, key, acc, basisi, outbits)
  {
    LowBitsOnly(acc, NodeHash.FinalWidth(outbits));
  }

  /** A hash of full width leaves nothing above the bits. It is determined unless the
      sum before the last knapsack has a second spelling of 254 bits. */
  lemma FullWidth(hp: HashParams, key: PrfKey, seen: seq<NodeHash.HashInput>, outbits: nat, skipFinal: bool, c: Cuts,
                  r: int)
    requires hp.p > 1 && IsResult(hp, key, seen, outbits, skipFinal, c, r) && outbits >= FIELD_BITS
    requires var s := NodeHash.Absorb(hp, key, seen, 0);
      skipFinal || Pow2(FIELD_BITS) <= NodeHash.Mixed(hp, Residue(s.ks0, hp.p), Residue(s.ks1, hp.p)) + hp.p
    ensures r == NodeHash.HashOf(hp, key, seen, outbits, skipFinal)
  {
    hide NodeHash.Absorb, Residue, NodeHash.Mixed, NodeHash.FinalSum, Pow2, Same;
    var s := NodeHash.Absorb(hp, key, seen, 0);
    var acc := NodeHash.Mixed(hp, Residue(s.ks0, hp.p), Residue(s.ks1, hp.p));
    InField(hp, key, Residue(s.ks0, hp.p), Residue(s.ks1, hp.p), c.final.low, s.basisi, outbits);
    if !skipFinal {
      assert Same(hp.p, acc, c.final.low);
      OnlySpelling(hp.p, acc, c.final.low);
    }
  }

  lemma OnlySpelling(p: int, x: int, n: int)
    requires 0 <= x < p && 0 <= n < x + p && Same(p, x, n)
    ensures n == x
  {
    hide Residue;
    ResidueSmall(x, p);
    var k := MultiplesAbove(p, x, n);
    if k > 0 {
      MulMono(1, k, p);
    }
  }
}
