/** The knapsack hash of source/cclib/src/zkhash.hpp as a formula: which bits select
    which bases, the eight rounds and the cut; and the values of a folded path. */
module HashFormula {
  import opened Arith
  import opened Field
  import opened NodeHash
  import BitGadgets
  import HashCircuit
  import MerklePath

  /** Bit i of v. */
  function BitAt(v: nat, i: nat): int { v / Pow2(i) % 2 }

  /** The table entry for the i-th bit of a knapsack that starts at counter c. */
  function EntryAt(key: PrfKey, sequential: bool, c: nat, i: nat): nat {
    if key.NoKey? then 256 + i else 256 + (if sequential then key.first + c + i else key.sip(c + i)) % 2048
  }

  /** The sum of the bases that the n low bits of v select. */
  function Selected(hp: HashParams, key: PrfKey, sequential: bool, c: nat, v: nat, n: nat): int {
    if n == 0 then 0
    else Selected(hp, key, sequential, c, v, n - 1) + BitAt(v, n - 1) * hp.basis(EntryAt(key, sequential, c, n - 1))
  }

  /** The counter behind the first j inputs: two for each of their bits. */
  function Used(a: seq<HashInput>, j: nat): nat
    requires j <= |a|
  {
    if j == 0 then 0 else Used(a, j - 1) + 2 * a[j - 1].nbits
  }

  /** What the first j inputs select: in their first knapsacks, or in their second ones,
      which are not sequential. */
  function Chosen(hp: HashParams, key: PrfKey, second: bool, a: seq<HashInput>, j: nat): int
    requires j <= |a|
  {
    if j == 0 then 0
    else
      var x := a[j - 1];
      Chosen(hp, key, second, a, j - 1)
      + Selected(hp, key, !second, Used(a, j - 1) + if second then x.nbits else 0, x.value, x.nbits)
  }

  // ---- One knapsack ----

  lemma {:induction false} BitsAre(v: nat, n: nat, i: nat)
    requires i < n
    ensures Bits(v, n)[i] <==> BitAt(v, i) == 1
  {
    if i > 0 {
      BitsAre(v / 2, n - 1, i - 1);
      HalveThenDivide(v, i - 1);
    }
  }

  lemma EntryIs(key: PrfKey, sequential: bool, c: nat, i: nat)
    ensures BasisIndex(key, sequential, c, i) == EntryAt(key, sequential, c, i)
  {
  }

  lemma OneBit(b: int, base: int)
    requires b == 0 || b == 1
    ensures b * base == if b == 1 then base else 0
  {
  }

  lemma {:induction false} SumIsSelected(hp: HashParams, key: PrfKey, sequential: bool, c: nat, v: nat, n: nat, k: nat)
    requires k <= n
    ensures HashCircuit.SelectedSum(HashCircuit.KnapsackBasis(hp, key, sequential, c), Bits(v, n), k)
         == Selected(hp, key, sequential, c, v, k)
  {
    hide Bits, BasisIndex, EntryAt, Pow2;
    if k > 0 {
      SumIsSelected(hp, key, sequential, c, v, n, k - 1);
      BitsAre(v, n, k - 1);
      EntryIs(key, sequential, c, k - 1);
      OneBit(BitAt(v, k - 1), hp.basis(EntryAt(key, sequential, c, k - 1)));
    }
  }

  lemma KnapsackIs(hp: HashParams, key: PrfKey, sequential: bool, c: nat, v: nat, n: nat)
    ensures BasisSum(hp, key, sequential, c, Bits(v, n), 0) == Selected(hp, key, sequential, c, v, n)
  {
    hide Bits, Selected, HashCircuit.KnapsackBasis;
    SumIsSelected(hp, key, sequential, c, v, n, n);
    HashCircuit.SelectedIsBasisSum(hp, key, sequential, c, Bits(v, n), n);
  }

  lemma {:induction false} NoCounter(hp: HashParams, sequential: bool, c: nat, v: nat, n: nat)
    ensures Selected(hp, NoKey, sequential, c, v, n) == Selected(hp, NoKey, true, 0, v, n)
  {
    if n > 0 {
      NoCounter(hp, sequential, c, v, n - 1);
    }
  }

  lemma SelectedFrom(hp: HashParams, key: PrfKey, sequential: bool, c: nat, d: nat, v: nat, n: nat)
    requires key.Key? ==> c == d
    ensures Selected(hp, key, sequential, c, v, n) == Selected(hp, key, sequential, d, v, n)
  {
    if key.NoKey? {
      NoCounter(hp, sequential, c, v, n);
      NoCounter(hp, sequential, d, v, n);
    }
  }

  // ---- All inputs ----

  lemma {:induction false} AbsorbIs(hp: HashParams, key: PrfKey, a: seq<HashInput>, j: nat)
    requires j <= |a|
    ensures var s := Absorb(hp, key, a[..j], 0);
      && s.ks0 == Chosen(hp, key, false, a, j) && s.ks1 == Chosen(hp, key, true, a, j)
      && (key.Key? ==> s.basisi == Used(a, j))
  {
    if j > 0 {
      AbsorbIs(hp, key, a, j - 1);
      hide BasisSum, Bits, Selected;
      var x, s := a[j - 1], Absorb(hp, key, a[..j - 1], 0);
      assert a[..j] == a[..j - 1] + [x];
      HashCircuit.AbsorbAppend(hp, key, a[..j - 1], x, 0);
      var next := s.basisi + Step(key, x.nbits);
      KnapsackIs(hp, key, true, s.basisi, x.value, x.nbits);
      KnapsackIs(hp, key, false, next, x.value, x.nbits);
      SelectedFrom(hp, key, true, s.basisi, Used(a, j - 1), x.value, x.nbits);
      SelectedFrom(hp, key, false, next, Used(a, j - 1) + x.nbits, x.value, x.nbits);
    }
  }

  // ---- The rounds ----

  /** Eight rounds of x*x + x + 1, or of x*x - x + 1. */
  predicate IsChain(p: int, sign: int, xs: seq<int>)
    requires p > 0
  {
    |xs| == 9 && forall k :: 0 <= k < 8 ==> Same(p, xs[k + 1], xs[k] * xs[k] + sign * xs[k] + 1)
  }

  lemma RoundsAre(p: int, sign: int, x: int) returns (xs: seq<int>)
    requires p > 1
    ensures |xs| == 9 && IsChain(p, sign, xs) && xs[0] == x && xs[8] == Rounds(p, sign, x, 8)
  {
    hide Residue, Same;
    xs := seq(9, k requires 0 <= k < 9 => Rounds(p, sign, x, k));
    forall k | 0 <= k < 8 ensures Same(p, xs[k + 1], xs[k] * xs[k] + sign * xs[k] + 1) {
      HashCircuit.LastRound(p, sign, x, k + 1);
      var y := xs[k] * xs[k] + sign * xs[k] + 1;
      SameResidue(p, y);
      SameSym(p, y, Residue(y, p));
    }
  }

  // ---- The hash ----

  /** m is the sum of both totals and of what eight rounds make of them. */
  predicate IsMix(p: int, xs: seq<int>, ys: seq<int>, m: nat)
    requires p > 0
  {
    IsChain(p, 1, xs) && IsChain(p, -1, ys) && m < p && Same(p, m, xs[0] + ys[0] + xs[8] + ys[8])
  }

  /** The hash of any inputs: both totals are mixed, the low bits of the mixture are
      hashed once more unless this is skipped, and the result is cut. */
  lemma HashIs(hp: HashParams, key: PrfKey, a: seq<HashInput>, outbits: nat, skipFinal: bool)
    returns (xs: seq<int>, ys: seq<int>, m: nat, r: nat)
    requires IsField(hp)
    ensures IsMix(hp.p, xs, ys, m)
    ensures Same(hp.p, xs[0], Chosen(hp, key, false, a, |a|)) && Same(hp.p, ys[0], Chosen(hp, key, true, a, |a|))
    ensures r < hp.p
    ensures Same(hp.p, r, if skipFinal then m
                          else Selected(hp, key, true, Used(a, |a|), m, if outbits < 127 then 2 * outbits else 254))
    ensures HashOf(hp, key, a, outbits, skipFinal) == if outbits < 254 then r % Pow2(outbits) else r
  {
    hide Residue, Same, Chosen, Selected, BasisSum, Bits, Absorb, Rounds, Used, IsChain;
    AbsorbIs(hp, key, a, |a|);
    assert a[..|a|] == a;
    var s, p := Absorb(hp, key, a, 0), hp.p;
    xs := RoundsAre(p, 1, Residue(s.ks0, p));
    ys := RoundsAre(p, -1, Residue(s.ks1, p));
    ReducedSame(p, s.ks0);
    ReducedSame(p, s.ks1);
    m := Mixed(hp, xs[0], ys[0]);
    assert xs[0] + ys[0] + (xs[8] + ys[8]) == xs[0] + ys[0] + xs[8] + ys[8];
    ReducedSame(p, xs[0] + ys[0] + (xs[8] + ys[8]));
    var n := FinalWidth(outbits);
    KnapsackIs(hp, key, true, s.basisi, m, n);
    SelectedFrom(hp, key, true, s.basisi, Used(a, |a|), m, n);
    var last := BasisSum(hp, key, true, s.basisi, Bits(m, n), 0);
    ReducedSame(p, last);
    ReducedSame(p, m);
    BitGadgets.SameSelf(p, m);
    r := if skipFinal then m else Residue(last, p);
  }

  lemma ReducedSame(p: int, x: int)
    requires p > 0
    ensures Same(p, Residue(x, p), x) && 0 <= Residue(x, p) < p
  {
    SameResidue(p, x);
  }

  // ---- A path ----

  /** Folding a path: at each level the keyless hash of 254 bits of the value so far and
      of the path's value, without the last step except at the top. */
  lemma {:induction false} FoldIs(hp: HashParams, leaf: nat, path: seq<nat>, l: nat) returns (hs: seq<nat>)
    requires IsField(hp) && l <= |path|
    ensures |hs| == |path| - l + 1 && hs[0] == leaf && hs[|path| - l] == MerklePath.FoldFrom(hp, leaf, path, l)
    ensures forall i :: l <= i < |path| ==>
      hs[i - l + 1] == HashOf(hp, NoKey, [HashInput(hs[i - l], 254), HashInput(path[i], 254)], 254, i + 1 < |path|)
    decreases |path| - l
  {
    hide HashOf;
    hs := [leaf];
    if l < |path| {
      var rest := FoldIs(hp, MerklePath.Node(hp, leaf, path[l], l < |path| - 1), path, l + 1);
      hs := [leaf] + rest;
    }
  }

  /** A leaf's path holds, at each level, the other child of its ancestor's parent, or the
      random value beside the only node there. */
  lemma PathIs(hp: HashParams, leaves: seq<nat>, k: nat, depth: nat, random: nat -> nat, i: nat, l: nat)
    returns (sibling: nat)
    requires IsField(hp) && |leaves| == Pow2(k) && i < |leaves| && l < depth
    ensures l < k ==> sibling / 2 == i / Pow2(l) / 2 && sibling != i / Pow2(l) && sibling < MerklePath.Width(k, l)
    ensures MerklePath.TreePath(hp, leaves, k, depth, random, i)[l]
         == if l < k then MerklePath.TreeNode(hp, leaves, k, depth, random, sibling, l) else random(l)
  {
    hide MerklePath.TreeNode;
    MerklePath.UpInWidth(k, i, l);
    MerklePath.UpIsShift(i, l);
    sibling := if l < k then MerklePath.Sibling(MerklePath.Up(i, l)) else 0;
  }

  /** Every inner node is the hash of its children, the root with the last step. */
  lemma NodeIs(hp: HashParams, leaves: seq<nat>, k: nat, depth: nat, random: nat -> nat, i: nat, j: nat)
    requires IsField(hp) && |leaves| == Pow2(k) && j < depth && i < Pow2(if j < k then k - j - 1 else 0)
    ensures i < MerklePath.Width(k, j + 1) && 2 * i < MerklePath.Width(k, j)
    ensures j < k ==> 2 * i + 1 < MerklePath.Width(k, j)
    ensures MerklePath.TreeNode(hp, leaves, k, depth, random, i, j + 1)
         == HashOf(hp, NoKey, [HashInput(MerklePath.TreeNode(hp, leaves, k, depth, random, 2 * i, j), 254),
                               HashInput(if j < k then MerklePath.TreeNode(hp, leaves, k, depth, random, 2 * i + 1, j)
                                         else random(j), 254)], 254, j + 1 < depth)
  {
    hide HashOf;
    MerklePath.WidthStep(k, j);
  }
}
