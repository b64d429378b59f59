/** The knapsack hash of source/cclib/src/zkhash.hpp as it computes values, for
    any prime and any table of bases. */
module NodeHash {
  import opened Arith

  const TX_FIELD_BITS: nat := 254
  const HASHBASES_RANDOM_START: nat := 256
  const HASHBASES_NRANDOM: nat := 2048

  /** The field, and the hash bases as numbers. */
  datatype HashParams = HashParams(p: int, basis: nat -> int)

  /** How the bases of a knapsack are picked: in order when there is no prfkey;
      otherwise from its first two bytes and its siphash. */
  datatype PrfKey = NoKey | Key(first: nat, sip: nat -> nat)

  predicate IsField(hp: HashParams) { hp.p > 1 }

  // ---- Bits ----

  /** The n lowest bits of v, lowest first. */
  function Bits(v: nat, n: nat): (bits: seq<bool>)
    ensures |bits| == n
  {
    if n == 0 then [] else [v % 2 == 1] + Bits(v / 2, n - 1)
  }

  method ExtractBits(v: nat, nbits: nat) returns (bits: seq<bool>, rest: nat)
    ensures bits == Bits(v, nbits)
    ensures rest == v / Pow2(nbits)
  {
    var val: nat := v;
    bits := [];
    for i := 0 to nbits
      invariant |bits| == i
      invariant Bits(v, nbits) == bits + Bits(val, nbits - i)
      invariant v / Pow2(nbits) == val / Pow2(nbits - i)
    {
      HalveThenDivide(val, nbits - i - 1);
      bits := bits + [val % 2 == 1];
      val := val / 2;
    }
    rest := val;
  }

  // ---- Knapsacks ----

  /** The base for bit i of a knapsack that starts at counter basisi. */
  function BasisIndex(key: PrfKey, sequential: bool, basisi: nat, i: nat): nat {
    match key
    case NoKey => i + HASHBASES_RANDOM_START
    case Key(first, sip) =>
      (if sequential then first + basisi + i else sip(basisi + i)) % HASHBASES_NRANDOM + HASHBASES_RANDOM_START
  }

  /** The sum of the bases at the set bits, from bit i on. */
  function BasisSum(hp: HashParams, key: PrfKey, sequential: bool, basisi: nat, bits: seq<bool>, i: nat): int
    requires i <= |bits|
    decreases |bits| - i
  {
    if i == |bits| then 0
    else (if bits[i] then hp.basis(BasisIndex(key, sequential, basisi, i)) else 0)
         + BasisSum(hp, key, sequential, basisi, bits, i + 1)
  }

  method Knapsack1(hp: HashParams, key: PrfKey, bits: seq<bool>, basisi0: nat, sequential: bool)
    returns (v: int, basisi: nat)
    requires IsField(hp) && |bits| <= 256
    ensures v == Residue(BasisSum(hp, key, sequential, basisi0, bits, 0), hp.p)
    ensures basisi == basisi0 + Step(key, |bits|)
  {
    hide Residue;
    basisi := basisi0;
    var bases: seq<nat> := [];
    for i := 0 to |bits|
      invariant |bases| == i
      invariant basisi == basisi0 + (match key case NoKey => 0 case Key(_, _) => i)
      invariant forall j :: 0 <= j < i ==> bases[j] == BasisIndex(key, sequential, basisi0, j)
    {
      match key {
        case NoKey =>
          bases := bases + [i + HASHBASES_RANDOM_START];
        case Key(first, sip) =>
          var b := if sequential then first + basisi else sip(basisi);
          bases := bases + [b % HASHBASES_NRANDOM + HASHBASES_RANDOM_START];
          basisi := basisi + 1;
      }
    }
    v := 0;
    ghost var total := BasisSum(hp, key, sequential, basisi0, bits, 0);
    for i := 0 to |bits|
      invariant 0 <= v < hp.p
      invariant Residue(v + BasisSum(hp, key, sequential, basisi0, bits, i), hp.p) == Residue(total, hp.p)
    {
      if bits[i] {
        ResidueAdd(v + hp.basis(bases[i]), BasisSum(hp, key, sequential, basisi0, bits, i + 1), hp.p);
        v := Residue(v + hp.basis(bases[i]), hp.p);
      }
    }
    ResidueSmall(v, hp.p);
  }

  // ---- The hash ----

  /** One value to be hashed, and how many of its low bits count. */
  datatype HashInput = HashInput(value: nat, nbits: nat)

  predicate AreInputs(a: seq<HashInput>) { forall i :: 0 <= i < |a| ==> a[i].nbits <= 256 }

  /** The two knapsack totals over all inputs, not reduced, and the counter. */
  datatype Absorbed = Absorbed(ks0: int, ks1: int, basisi: nat)

  function Step(key: PrfKey, nbits: nat): nat { match key case NoKey => 0 case Key(_, _) => nbits }

  function Absorb(hp: HashParams, key: PrfKey, a: seq<HashInput>, basisi: nat): Absorbed {
    if a == [] then Absorbed(0, 0, basisi)
    else
      var bits := Bits(a[0].value, a[0].nbits);
      var next := basisi + Step(key, a[0].nbits);
      var rest := Absorb(hp, key, a[1..], next + Step(key, a[0].nbits));
      Absorbed(BasisSum(hp, key, true, basisi, bits, 0) + rest.ks0,
               BasisSum(hp, key, false, next, bits, 0) + rest.ks1, rest.basisi)
  }

  /** n rounds of x*x + x + 1 (sign 1) or x*x - x + 1 (sign -1). */
  function Rounds(p: int, sign: int, x: int, n: nat): int
    requires p > 1
    decreases n
  {
    if n == 0 then x else Rounds(p, sign, Residue(x * x + sign * x + 1, p), n - 1)
  }

  /** The two totals and their Diophantine rounds. */
  function Mixed(hp: HashParams, ks0: int, ks1: int): nat
    requires IsField(hp)
  {
    Residue(ks0 + ks1 + (Rounds(hp.p, 1, ks0, 8) + Rounds(hp.p, -1, ks1, 8)), hp.p)
  }

  function FinalWidth(outbits: nat): nat { if outbits * 2 > TX_FIELD_BITS then TX_FIELD_BITS else outbits * 2 }

  /** The last knapsack, of the low bits of acc. */
  function FinalSum(hp: HashParams, key: PrfKey, acc: nat, basisi: nat, outbits: nat): nat
    requires IsField(hp)
  {
    Residue(BasisSum(hp, key, true, basisi, Bits(acc, FinalWidth(outbits)), 0), hp.p)
  }

  function Finish(hp: HashParams, key: PrfKey, ks0: int, ks1: int, basisi: nat, outbits: nat, skipFinal: bool): (r: nat)
    requires IsField(hp)
  {
    var acc := Mixed(hp, ks0, ks1);
    var out := if skipFinal then acc else FinalSum(hp, key, acc, basisi, outbits);
    if outbits >= TX_FIELD_BITS then out else out % Pow2(outbits)
  }

  function HashOf(hp: HashParams, key: PrfKey, a: seq<HashInput>, outbits: nat, skipFinal: bool): nat
    requires IsField(hp)
  {
    var s := Absorb(hp, key, a, 0);
    Finish(hp, key, Residue(s.ks0, hp.p), Residue(s.ks1, hp.p), s.basisi, outbits, skipFinal)
  }

  method HashFinish(hp: HashParams, key: PrfKey, acc0: int, ks0in: int, ks1in: int, basisi: nat, outbits: nat,
                    skipFinal: bool)
    returns (r: nat)
    requires IsField(hp) && acc0 == Residue(ks0in + ks1in, hp.p)
    ensures r == Finish(hp, key, ks0in, ks1in, basisi, outbits, skipFinal)
  {
    hide Residue, BasisSum, Bits, Pow2;
    var ks0, ks1 := ks0in, ks1in;
    for i := 0 to 8
      invariant Rounds(hp.p, 1, ks0in, 8) == Rounds(hp.p, 1, ks0, 8 - i)
      invariant Rounds(hp.p, -1, ks1in, 8) == Rounds(hp.p, -1, ks1, 8 - i)
    {
      ks0 := Residue(ks0 * ks0 + ks0 + 1, hp.p);
      ks1 := Residue(ks1 * ks1 - ks1 + 1, hp.p);
    }
    var acc: nat := Residue(acc0 + (ks0 + ks1), hp.p);
    ResidueAdd(ks0in + ks1in, ks0 + ks1, hp.p);
    if !skipFinal {
      var inbits := outbits * 2;
      if inbits > TX_FIELD_BITS {
        inbits := TX_FIELD_BITS;
      }
      var accbits, rem := ExtractBits(acc, inbits);
      var unused;
      acc, unused := Knapsack1(hp, key, accbits, basisi, true);
    }
    if outbits >= TX_FIELD_BITS {
      return acc;
    }
    return acc % Pow2(outbits);
  }

  method Hash(hp: HashParams, key: PrfKey, a: seq<HashInput>, outbits: nat, skipFinal: bool) returns (r: nat)
    requires IsField(hp) && AreInputs(a)
    ensures r == HashOf(hp, key, a, outbits, skipFinal)
  {
    hide Residue, BasisSum, Bits, Finish;
    var acc, ks0, ks1, basisi := 0, 0, 0, 0;
    ResidueSmall(0, hp.p);
    ghost var total := Absorb(hp, key, a, 0);
    for i := 0 to |a|
      invariant 0 <= ks0 < hp.p && 0 <= ks1 < hp.p && acc == Residue(ks0 + ks1, hp.p)
      invariant Residue(ks0 + Absorb(hp, key, a[i..], basisi).ks0, hp.p) == Residue(total.ks0, hp.p)
      invariant Residue(ks1 + Absorb(hp, key, a[i..], basisi).ks1, hp.p) == Residue(total.ks1, hp.p)
      invariant Absorb(hp, key, a[i..], basisi).basisi == total.basisi
    {
      assert a[i..][1..] == a[i + 1..];
      var bits, rem := ExtractBits(a[i].value, a[i].nbits);
      var k0, k1;
      ghost var b0 := basisi;
      k0, basisi := Knapsack1(hp, key, bits, basisi, true);
      ghost var b1 := basisi;
      k1, basisi := Knapsack1(hp, key, bits, basisi, false);
      ghost var rest := Absorb(hp, key, a[i + 1..], basisi);
      AddReduced(ks0, BasisSum(hp, key, true, b0, bits, 0), rest.ks0, hp.p);
      AddReduced(ks1, BasisSum(hp, key, false, b1, bits, 0), rest.ks1, hp.p);
      acc := Residue(acc + k0 + k1, hp.p);
      AddBoth(ks0, ks1, k0, k1, hp.p);
      ks0 := Residue(ks0 + k0, hp.p);
      ks1 := Residue(ks1 + k1, hp.p);
    }
    assert a[|a|..] == [];
    ResidueSmall(ks0, hp.p);
    ResidueSmall(ks1, hp.p);
    r := HashFinish(hp, key, acc, ks0, ks1, basisi, outbits, skipFinal);
  }

  lemma AddReduced(k: int, x: int, rest: int, p: int)
    requires p > 0
    ensures Residue(Residue(k + Residue(x, p), p) + rest, p) == Residue(k + (x + rest), p)
  {
    hide Residue;
    var r := Residue(x, p);
    ResidueAdd(k + r, rest, p);
    ResidueAdd(x, k + rest, p);
    assert k + r + rest == r + (k + rest) && x + (k + rest) == k + (x + rest);
  }

  lemma AddBoth(ks0: int, ks1: int, k0: int, k1: int, p: int)
    requires p > 0
    ensures Residue(Residue(ks0 + ks1, p) + k0 + k1, p) == Residue(Residue(ks0 + k0, p) + Residue(ks1 + k1, p), p)
  {
    hide Residue;
    ResidueAdd(ks0 + ks1, k0 + k1, p);
    ResidueAddBoth(ks0 + k0, ks1 + k1, p);
    assert Residue(ks0 + ks1, p) + k0 + k1 == Residue(ks0 + ks1, p) + (k0 + k1);
    assert ks0 + ks1 + (k0 + k1) == ks0 + k0 + (ks1 + k1);
  }

  // ---- Without a key the order of the inputs does not matter ----

  function InputSum(hp: HashParams, a: seq<HashInput>): int {
    if a == [] then 0
    else BasisSum(hp, NoKey, true, 0, Bits(a[0].value, a[0].nbits), 0) + InputSum(hp, a[1..])
  }

  lemma {:induction false} KeylessIgnoresCounter(hp: HashParams, bits: seq<bool>, sequential: bool, basisi: nat, i: nat)
    requires i <= |bits|
    ensures BasisSum(hp, NoKey, sequential, basisi, bits, i) == BasisSum(hp, NoKey, true, 0, bits, i)
    decreases |bits| - i
  {
    if i < |bits| {
      KeylessIgnoresCounter(hp, bits, sequential, basisi, i + 1);
    }
  }

  lemma {:induction false} AbsorbKeyless(hp: HashParams, a: seq<HashInput>, basisi: nat)
    ensures Absorb(hp, NoKey, a, basisi) == Absorbed(InputSum(hp, a), InputSum(hp, a), basisi)
  {
    if a != [] {
      var bits := Bits(a[0].value, a[0].nbits);
      KeylessIgnoresCounter(hp, bits, true, basisi, 0);
      KeylessIgnoresCounter(hp, bits, false, basisi, 0);
      AbsorbKeyless(hp, a[1..], basisi);
    }
  }

  lemma {:induction false} InputSumSplit(hp: HashParams, a: seq<HashInput>, b: seq<HashInput>)
    ensures InputSum(hp, a + b) == InputSum(hp, a) + InputSum(hp, b)
  {
    if a == [] {
      assert a + b == b;
    } else {
      InputSumSplit(hp, a[1..], b);
      assert (a + b)[1..] == a[1..] + b;
    }
  }

  lemma DropOne(a: seq<HashInput>, b: seq<HashInput>) returns (k: nat)
    requires multiset(a) == multiset(b) && a != []
    ensures k < |b| && b[k] == a[0] && multiset(b[..k] + b[k + 1..]) == multiset(a[1..])
  {
    assert a[0] in multiset(b);
    k :| 0 <= k < |b| && b[k] == a[0];
    var ma, mb := multiset(a[1..]), multiset(b[..k] + b[k + 1..]);
    assert a == [a[0]] + a[1..];
    assert ma + multiset{a[0]} == multiset(a);
    assert b == b[..k] + [b[k]] + b[k + 1..];
    assert mb + multiset{b[k]} == multiset(b);
    forall x: HashInput
      ensures ma[x] == mb[x]
    {
      assert (ma + multiset{a[0]})[x] == (mb + multiset{b[k]})[x];
    }
  }

  lemma {:induction false} InputSumOrder(hp: HashParams, a: seq<HashInput>, b: seq<HashInput>)
    requires multiset(a) == multiset(b)
    ensures InputSum(hp, a) == InputSum(hp, b)
    decreases |a|
  {
    if a == [] {
      assert |multiset(b)| == 0;
    } else {
      var k := DropOne(a, b);
      var rest := b[..k] + b[k + 1..];
      assert b == b[..k] + ([b[k]] + b[k + 1..]);
      InputSumOrder(hp, a[1..], rest);
      InputSumSplit(hp, b[..k], b[k + 1..]);
      InputSumSplit(hp, b[..k], [b[k]] + b[k + 1..]);
    }
  }

  /** Without a prfkey, any order of the same inputs gives the same hash. */
  lemma KeylessHashIgnoresOrder(hp: HashParams, a: seq<HashInput>, b: seq<HashInput>, outbits: nat, skipFinal: bool)
    requires IsField(hp) && multiset(a) == multiset(b)
    ensures HashOf(hp, NoKey, a, outbits, skipFinal) == HashOf(hp, NoKey, b, outbits, skipFinal)
  {
    hide Finish;
    AbsorbKeyless(hp, a, 0);
    AbsorbKeyless(hp, b, 0);
    InputSumOrder(hp, a, b);
  }
}
