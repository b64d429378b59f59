/** The Merkle path check of source/cclib/src/CCproof.cpp inside the circuit: what it
    emits, and exactly which roots it admits. */
module MerkleCircuit {
  import opened Arith
  import opened Field
  import opened Circuit
  import opened BitGadgets
  import opened HashCircuit
  import opened HashWitness
  import opened HashResults
  import opened Options
  import NodeHash
  import MerklePath

  const MERKLE_BITS: nat := MerklePath.TX_MERKLE_BITS

  // ---- What is emitted ----

  /** Both values with all their bits, no more allowed. */
  function NodeInputs(x: Expr, y: Expr): (a: seq<Input>)
    ensures |a| == 2
  {
    [OfValue(x, MERKLE_BITS, false), OfValue(y, MERKLE_BITS, false)]
  }

  function NodeEmits(hp: HashParams, x: Expr, y: Expr, first: nat, skipFinal: bool): Emitted {
    HashEmits(hp, NodeHash.NoKey, NodeInputs(x, y), first, MERKLE_BITS, skipFinal)
  }

  /** From level l on, where the value so far is hash. */
  function MerkleEmits(hp: HashParams, hash: Expr, path: seq<Expr>, l: nat, first: nat): Emitted
    requires l <= |path|
    decreases |path| - l
  {
    if l == |path| then Emitted([], first, hash)
    else
      var e := NodeEmits(hp, hash, path[l], first, l < |path| - 1);
      var r := MerkleEmits(hp, e.result, path, l + 1, e.next);
      Emitted(e.constraints + r.constraints, r.next, r.result)
  }

  method Merkle(cs: ConstraintSystem, hp: HashParams, leaf: Expr, path: seq<Expr>) returns (hash: Expr)
    requires |path| >= 1
    modifies cs
    ensures var e := MerkleEmits(hp, leaf, path, 0, old(cs.next));
      cs.constraints == old(cs.constraints) + e.constraints && cs.next == e.next && hash == e.result
  {
    hide HashEmits;
    hash := leaf;
    ghost var all, done := MerkleEmits(hp, leaf, path, 0, cs.next), [];
    for i := 0 to |path|
      invariant cs.constraints == old(cs.constraints) + done
      invariant var rest := MerkleEmits(hp, hash, path, i, cs.next);
        all == Emitted(done + rest.constraints, rest.next, rest.result)
    {
      ghost var e := NodeEmits(hp, hash, path[i], cs.next, i < |path| - 1);
      ghost var rest := MerkleEmits(hp, e.result, path, i + 1, e.next);
      assert done + (e.constraints + rest.constraints) == done + e.constraints + rest.constraints;
      hash := Hash(cs, hp, NodeHash.NoKey, NodeInputs(hash, path[i]), MERKLE_BITS, i < |path| - 1);
      done := done + e.constraints;
    }
  }

  /** The bits of the commitment and of its number, which the leaf hashes. */
  function LeafInputs(commitment: seq<Expr>, commitnum: seq<Expr>): (a: seq<Input>)
    ensures |a| == 2
  {
    [OfBits(commitment), OfBits(commitnum)]
  }

  function LeafEmits(hp: HashParams, key: PrfKey, commitment: seq<Expr>, commitnum: seq<Expr>, first: nat): Emitted {
    HashEmits(hp, key, LeafInputs(commitment, commitnum), first, MERKLE_BITS, false)
  }

  /** The leaf, the path, and (result - root) * enforce = 0. */
  function CheckEmits(hp: HashParams, key: PrfKey, commitment: seq<Expr>, commitnum: seq<Expr>, path: seq<Expr>,
                      root: Expr, enforce: Expr, first: nat): seq<Expr> {
    var leaf := LeafEmits(hp, key, commitment, commitnum, first);
    var m := MerkleEmits(hp, leaf.result, path, 0, leaf.next);
    leaf.constraints + m.constraints + [Mul(Sub(m.result, root), enforce)]
  }

  method CheckMerkle(cs: ConstraintSystem, hp: HashParams, key: PrfKey, commitment: seq<Expr>, commitnum: seq<Expr>,
                     path: seq<Expr>, root: Expr, enforce: Expr)
    requires |path| >= 1 && |commitment| <= 256 && |commitnum| <= 256
    modifies cs
    ensures cs.constraints
         == old(cs.constraints) + CheckEmits(hp, key, commitment, commitnum, path, root, enforce, old(cs.next))
  {
    hide HashEmits, MerkleEmits;
    var hash := Hash(cs, hp, key, LeafInputs(commitment, commitnum), MERKLE_BITS, false);
    var check := Merkle(cs, hp, hash, path);
    check := Sub(check, root);
    check := Mul(check, enforce);
    cs.ConstrainZero(check);
  }

  // ---- What is admitted ----

  function Pair(s: nat, t: nat): seq<NodeHash.HashInput> {
    [NodeHash.HashInput(s, MERKLE_BITS), NodeHash.HashInput(t, MERKLE_BITS)]
  }

  /** r is the hash of some spellings of x and y. */
  ghost predicate IsNode(hp: HashParams, x: int, y: int, skipFinal: bool, r: int)
    requires hp.p > 1
  {
    exists s: nat, t: nat, u: nat ::
      IsSpelt(hp.p, x, s) && IsSpelt(hp.p, y, t) && IsSumOrLast(hp, NodeHash.NoKey, Pair(s, t), skipFinal, u, r)
  }

  ghost predicate IsStep(hp: HashParams, x: int, path: seq<nat>, l: nat, r: int)
    requires hp.p > 1 && l < |path|
  {
    IsNode(hp, x, path[l], l < |path| - 1, r)
  }

  /** r is at the top of the path, from x at level l, if at every level the hash is of
      some spellings. */
  ghost predicate IsFold(hp: HashParams, x: int, path: seq<nat>, l: nat, r: int)
    requires hp.p > 1 && l <= |path|
    decreases |path| - l
  {
    if l == |path| then r == x
    else exists m: int :: IsStep(hp, x, path, l, m) && IsFold(hp, m, path, l + 1, r)
  }

  function Values(p: int, es: seq<Expr>, w: Witness): (vs: seq<nat>)
    requires p > 0
    ensures |vs| == |es|
  {
    seq(|es|, i requires 0 <= i < |es| => Value(p, es[i], w))
  }

  // ---- One node ----

  lemma SpelledTwo(a: seq<Input>, cuts: seq<Cut>)
    requires |a| == |cuts| == 2
    ensures Spelled(a, cuts, 2)
         == [NodeHash.HashInput(cuts[0].low, Width(a[0])), NodeHash.HashInput(cuts[1].low, Width(a[1]))]
  {
    hide Width;
    assert Spelled(a, cuts, 0) == [];
    assert Spelled(a, cuts, 1) == [NodeHash.HashInput(cuts[0].low, Width(a[0]))];
  }

  /** A keyless hash of two values admits the hashes of their spellings. */
  lemma NodeIff(hp: HashParams, x: Expr, y: Expr, first: nat, skipFinal: bool, w: Witness, r: int)
    requires IsPrime(hp.p) && IsFieldPrime(hp.p) && UsesBelow(x, first) && UsesBelow(y, first)
    ensures IsAdmitted(hp, NodeHash.NoKey, NodeInputs(x, y), first, MERKLE_BITS, skipFinal, w, r)
       <==> IsNode(hp, Value(hp.p, x, w), Value(hp.p, y, w), skipFinal, r)
  {
    hide IsAdmitted, IsFieldPrime, IsSteps, IsSumOrLast, IsSpelt, Value, UsesBelow;
    var a := NodeInputs(x, y);
    AdmittedIff(hp, NodeHash.NoKey, a, first, MERKLE_BITS, skipFinal, w, r);
    forall cuts: seq<Cut>, c: Cuts | IsSteps(hp, NodeHash.NoKey, a, MERKLE_BITS, skipFinal, w, cuts, c, r)
      ensures IsNode(hp, Value(hp.p, x, w), Value(hp.p, y, w), skipFinal, r)
    {
      StepsAreNode(hp, x, y, skipFinal, w, cuts, c, r);
    }
    forall s: nat, t: nat, u: nat | IsSpelt(hp.p, Value(hp.p, x, w), s) && IsSpelt(hp.p, Value(hp.p, y, w), t)
                                    && IsSumOrLast(hp, NodeHash.NoKey, Pair(s, t), skipFinal, u, r)
      ensures IsAdmitted(hp, NodeHash.NoKey, a, first, MERKLE_BITS, skipFinal, w, r)
    {
      var c := NodeSteps(hp, x, y, skipFinal, w, s, t, u, r);
    }
  }

  lemma StepsAreNode(hp: HashParams, x: Expr, y: Expr, skipFinal: bool, w: Witness, cuts: seq<Cut>, c: Cuts, r: int)
    requires IsPrime(hp.p) && IsFieldPrime(hp.p)
    requires IsSteps(hp, NodeHash.NoKey, NodeInputs(x, y), MERKLE_BITS, skipFinal, w, cuts, c, r)
    ensures IsNode(hp, Value(hp.p, x, w), Value(hp.p, y, w), skipFinal, r)
  {
    hide IsFieldPrime, IsSumOrLast, IsSpelt, Value, UsesBelow, IsResult, IsCut, Spelled;
    var a := NodeInputs(x, y);
    SpellingsFit(hp.p, a, w, cuts);
    SpelledTwo(a, cuts);
    assert IsSpelling(hp.p, a[0], w, cuts[0]) && IsSpelling(hp.p, a[1], w, cuts[1]);
    CutIsSpelt(hp.p, Value(hp.p, x, w), cuts[0]);
    CutIsSpelt(hp.p, Value(hp.p, y, w), cuts[1]);
    OneResultIff(hp, NodeHash.NoKey, Pair(cuts[0].low, cuts[1].low), skipFinal, c, r);
    assert IsSumOrLast(hp, NodeHash.NoKey, Pair(cuts[0].low, cuts[1].low), skipFinal, c.final.low, r);
  }

  lemma NodeSteps(hp: HashParams, x: Expr, y: Expr, skipFinal: bool, w: Witness, s: nat, t: nat, u: nat, r: int)
    returns (c: Cuts)
    requires IsPrime(hp.p) && IsFieldPrime(hp.p)
    requires IsSpelt(hp.p, Value(hp.p, x, w), s) && IsSpelt(hp.p, Value(hp.p, y, w), t)
    requires IsSumOrLast(hp, NodeHash.NoKey, Pair(s, t), skipFinal, u, r)
    ensures IsSteps(hp, NodeHash.NoKey, NodeInputs(x, y), MERKLE_BITS, skipFinal, w, [Cut(s, 0), Cut(t, 0)], c, r)
  {
    hide IsFieldPrime, IsSumOrLast, IsSpelt, Value, UsesBelow, IsResult, IsCut, Spelled;
    var a, cuts := NodeInputs(x, y), [Cut(s, 0), Cut(t, 0)];
    SpelledTwo(a, cuts);
    CutIsSpelt(hp.p, Value(hp.p, x, w), cuts[0]);
    CutIsSpelt(hp.p, Value(hp.p, y, w), cuts[1]);
    assert IsSpelling(hp.p, a[0], w, cuts[0]) && IsSpelling(hp.p, a[1], w, cuts[1]);
    c := Cuts(Cut(u, 0), Cut(0, 0));
    OneResultIff(hp, NodeHash.NoKey, Pair(s, t), skipFinal, c, r);
  }

  /** Bits have one spelling: only the sum can have a second one. */
  lemma LeafIff(hp: HashParams, key: PrfKey, commitment: seq<Expr>, commitnum: seq<Expr>, first: nat, w: Witness,
                r: int)
    requires IsPrime(hp.p) && IsFieldPrime(hp.p)
    requires AreGiven(hp.p, LeafInputs(commitment, commitnum), first, w)
    ensures IsAdmitted(hp, key, LeafInputs(commitment, commitnum), first, MERKLE_BITS, false, w, r)
       <==> exists u: nat :: IsSumOrLast(hp, key, Givens(hp.p, LeafInputs(commitment, commitnum), w), false, u, r)
  {
    hide IsAdmitted, IsSumOrLast, AreGiven, Givens, AreFixed, AreInRange, IsFieldPrime;
    BitsOnly(hp.p, LeafInputs(commitment, commitnum), w);
    FullAdmittedIff(hp, key, LeafInputs(commitment, commitnum), first, false, w, r);
  }

  // ---- The whole path ----

  ghost predicate IsPathWitness(hp: HashParams, hash: Expr, path: seq<Expr>, l: nat, first: nat, w: Witness, h: Witness)
    requires hp.p > 1 && l <= |path|
  {
    AgreeBelow(w, h, first) && Satisfied(hp.p, MerkleEmits(hp, hash, path, l, first).constraints, h)
  }

  function TopOf(hp: HashParams, hash: Expr, path: seq<Expr>, l: nat, first: nat, h: Witness): int
    requires hp.p > 1 && l <= |path|
  {
    Value(hp.p, MerkleEmits(hp, hash, path, l, first).result, h)
  }

  predicate PathBelow(path: seq<Expr>, n: nat) { forall i :: 0 <= i < |path| ==> UsesBelow(path[i], n) }

  lemma PathBelowMore(path: seq<Expr>, m: nat, n: nat)
    requires PathBelow(path, m) && m <= n
    ensures PathBelow(path, n)
  {
    hide UsesBelow;
    forall i | 0 <= i < |path| ensures UsesBelow(path[i], n) {
      BelowMore(path[i], m, n);
    }
  }

  lemma ValuesAgree(p: int, es: seq<Expr>, w: Witness, h: Witness, n: nat)
    requires p > 0 && PathBelow(es, n) && AgreeBelow(w, h, n)
    ensures Values(p, es, w) == Values(p, es, h)
  {
    hide UsesBelow, Value;
    forall i | 0 <= i < |es| ensures Value(p, es[i], w) == Value(p, es[i], h) {
      ValueAgrees(p, es[i], w, h, n);
    }
  }

  /** What one level emits uses what is there. */
  lemma NodeBelow(hp: HashParams, x: Expr, y: Expr, first: nat, skipFinal: bool)
    requires UsesBelow(x, first) && UsesBelow(y, first)
    ensures var e := NodeEmits(hp, x, y, first, skipFinal);
      AllBelow(e.constraints, e.next) && UsesBelow(e.result, e.next) && first <= e.next
  {
    hide UsesBelow, HashEmits, AllBelow;
    HashBelow(hp, NodeHash.NoKey, NodeInputs(x, y), first, MERKLE_BITS, skipFinal);
  }

  /** Whatever satisfies the path is a fold of it. */
  lemma {:induction false} PathSound(hp: HashParams, hash: Expr, path: seq<Expr>, l: nat, first: nat, w: Witness,
                                     h: Witness)
    requires IsPrime(hp.p) && IsFieldPrime(hp.p) && l <= |path| && UsesBelow(hash, first) && PathBelow(path, first)
    requires IsPathWitness(hp, hash, path, l, first, w, h)
    ensures IsFold(hp, Value(hp.p, hash, w), Values(hp.p, path, w), l, TopOf(hp, hash, path, l, first, h))
    decreases |path| - l
  {
    hide IsFieldPrime, Satisfied, AgreeBelow, UsesBelow, PathBelow, HashEmits, Value, IsNode, AllBelow;
    if l == |path| {
      ValueAgrees(hp.p, hash, w, h, first);
    } else {
      PathBelowAt(path, first, l);
      var skip := l < |path| - 1;
      var e := NodeEmits(hp, hash, path[l], first, skip);
      var rest := MerkleEmits(hp, e.result, path, l + 1, e.next);
      SatisfiedConcat(hp.p, e.constraints, rest.constraints, h);
      var m := Value(hp.p, e.result, h);
      assert IsWitness(hp, NodeHash.NoKey, NodeInputs(hash, path[l]), first, MERKLE_BITS, skip, w, h);
      NodeIff(hp, hash, path[l], first, skip, w, m);
      NodeBelow(hp, hash, path[l], first, skip);
      PathBelowMore(path, first, e.next);
      AgreeSelf(h, e.next);
      ValuesAgree(hp.p, path, w, h, first);
      PathSound(hp, e.result, path, l + 1, e.next, h, h);
      assert IsStep(hp, Value(hp.p, hash, w), Values(hp.p, path, w), l, m);
    }
  }

  lemma PathBelowAt(path: seq<Expr>, n: nat, i: nat)
    requires PathBelow(path, n) && i < |path|
    ensures UsesBelow(path[i], n)
  {
    hide UsesBelow;
  }

  /** Every fold of the path is at the top for some satisfying values. */
  lemma {:induction false} PathComplete(hp: HashParams, hash: Expr, path: seq<Expr>, l: nat, first: nat, w: Witness,
                                        r: int)
    returns (h: Witness)
    requires IsPrime(hp.p) && IsFieldPrime(hp.p) && l <= |path| && UsesBelow(hash, first) && PathBelow(path, first)
    requires IsFold(hp, Value(hp.p, hash, w), Values(hp.p, path, w), l, r)
    ensures IsPathWitness(hp, hash, path, l, first, w, h) && TopOf(hp, hash, path, l, first, h) == r
    decreases |path| - l
  {
    hide IsFieldPrime, Satisfied, AgreeBelow, UsesBelow, PathBelow, HashEmits, Value, IsNode, AllBelow;
    if l == |path| {
      h := w;
      AgreeSelf(w, first);
      NothingEmitted(hp.p, w);
    } else {
      PathBelowAt(path, first, l);
      var skip := l < |path| - 1;
      var e := NodeEmits(hp, hash, path[l], first, skip);
      var rest := MerkleEmits(hp, e.result, path, l + 1, e.next);
      var vs := Values(hp.p, path, w);
      var m: int :| IsStep(hp, Value(hp.p, hash, w), vs, l, m) && IsFold(hp, m, vs, l + 1, r);
      NodeIff(hp, hash, path[l], first, skip, w, m);
      var g: Witness :| IsWitness(hp, NodeHash.NoKey, NodeInputs(hash, path[l]), first, MERKLE_BITS, skip, w, g)
                        && ResultOf(hp, NodeHash.NoKey, NodeInputs(hash, path[l]), first, MERKLE_BITS, skip, g) == m;
      NodeBelow(hp, hash, path[l], first, skip);
      PathBelowMore(path, first, e.next);
      ValuesAgree(hp.p, path, w, g, first);
      h := PathComplete(hp, e.result, path, l + 1, e.next, g, r);
      AgreeTrans(w, g, h, first, e.next);
      StaysSatisfied(hp.p, e.constraints, g, h, e.next);
      SatisfiedConcat(hp.p, e.constraints, rest.constraints, h);
    }
  }

  /** The path admits exactly the folds of its values. */
  lemma MerkleIff(hp: HashParams, leaf: Expr, path: seq<Expr>, first: nat, w: Witness, r: int)
    requires IsPrime(hp.p) && IsFieldPrime(hp.p) && UsesBelow(leaf, first) && PathBelow(path, first)
    ensures (exists h: Witness ::
               IsPathWitness(hp, leaf, path, 0, first, w, h) && TopOf(hp, leaf, path, 0, first, h) == r)
       <==> IsFold(hp, Value(hp.p, leaf, w), Values(hp.p, path, w), 0, r)
  {
    hide IsFieldPrime, UsesBelow, PathBelow, Value, IsFold, TopOf, IsPathWitness;
    forall h: Witness | IsPathWitness(hp, leaf, path, 0, first, w, h) && TopOf(hp, leaf, path, 0, first, h) == r
      ensures IsFold(hp, Value(hp.p, leaf, w), Values(hp.p, path, w), 0, r)
    {
      PathSound(hp, leaf, path, 0, first, w, h);
    }
    if IsFold(hp, Value(hp.p, leaf, w), Values(hp.p, path, w), 0, r) {
      var h := PathComplete(hp, leaf, path, 0, first, w, r);
    }
  }

  // ---- The fold of the values themselves ----

  predicate AreElements(p: int, vs: seq<nat>) { forall i :: 0 <= i < |vs| ==> vs[i] < p }

  lemma ValuesAreElements(p: int, es: seq<Expr>, w: Witness)
    requires p > 0
    ensures AreElements(p, Values(p, es, w))
  {
    hide Value;
  }

  /** The hash of two field elements, in terms of their sum. */
  lemma NodeOfSum(hp: HashParams, x: nat, y: nat, skipFinal: bool)
    requires IsFieldPrime(hp.p) && x < hp.p && y < hp.p
    ensures hp.p > 1 && MerklePath.Node(hp, x, y, skipFinal) < hp.p
    ensures IsNode(hp, x, y, skipFinal, MerklePath.Node(hp, x, y, skipFinal))
    ensures IsSumOrLast(hp, NodeHash.NoKey, Pair(x, y), skipFinal, SumOf(hp, NodeHash.NoKey, Pair(x, y)),
                        MerklePath.Node(hp, x, y, skipFinal))
  {
    hide IsFieldPrime, Pow2, SumOf, LastOf, IsResult, NodeHash.HashOf;
    FieldBounds(hp.p);
    var seen := Pair(x, y);
    HashIsSumOrLast(hp, NodeHash.NoKey, seen, skipFinal);
    assert IsSpelt(hp.p, x, x) && IsSpelt(hp.p, y, y);
  }

  lemma {:induction false} HonestFold(hp: HashParams, x: nat, path: seq<nat>, l: nat)
    requires IsFieldPrime(hp.p) && x < hp.p && AreElements(hp.p, path) && l <= |path|
    ensures hp.p > 1 && IsFold(hp, x, path, l, MerklePath.FoldFrom(hp, x, path, l))
    decreases |path| - l
  {
    hide IsFieldPrime, IsNode, MerklePath.Node;
    FieldBounds(hp.p);
    if l < |path| {
      var skip := l < |path| - 1;
      NodeOfSum(hp, x, path[l], skip);
      var m := MerklePath.Node(hp, x, path[l], skip);
      HonestFold(hp, m, path, l + 1);
      assert IsStep(hp, x, path, l, m);
    }
  }

  /** x has no second spelling. */
  predicate IsSingle(p: int, x: int) { Pow2(MERKLE_BITS) <= x + p }

  /** On the way up the path nothing has a second spelling. */
  ghost predicate AreSingle(hp: HashParams, x: nat, path: seq<nat>, l: nat)
    requires hp.p > 1 && l <= |path|
    decreases |path| - l
  {
    l < |path| ==>
      && IsSingle(hp.p, x) && IsSingle(hp.p, path[l])
      && (l == |path| - 1 ==> IsSingle(hp.p, SumOf(hp, NodeHash.NoKey, Pair(x, path[l]))))
      && AreSingle(hp, MerklePath.Node(hp, x, path[l], l < |path| - 1), path, l + 1)
  }

  /** Then there is no other fold. */
  lemma {:induction false} OnlyFold(hp: HashParams, x: nat, path: seq<nat>, l: nat, r: int)
    requires IsFieldPrime(hp.p) && x < hp.p && AreElements(hp.p, path) && l <= |path|
    requires hp.p > 1 && AreSingle(hp, x, path, l) && IsFold(hp, x, path, l, r)
    ensures r == MerklePath.FoldFrom(hp, x, path, l)
    decreases |path| - l
  {
    hide IsFieldPrime, IsNode, MerklePath.Node, Pow2, SumOf, LastOf;
    if l < |path| {
      var skip := l < |path| - 1;
      var m: int :| IsStep(hp, x, path, l, m) && IsFold(hp, m, path, l + 1, r);
      NodeOfSum(hp, x, path[l], skip);
      OnlyNode(hp, x, path[l], skip, m);
      OnlyFold(hp, m, path, l + 1, r);
    }
  }

  lemma OnlyNode(hp: HashParams, x: nat, y: nat, skipFinal: bool, r: int)
    requires IsFieldPrime(hp.p) && x < hp.p && y < hp.p && hp.p > 1
    requires IsSingle(hp.p, x) && IsSingle(hp.p, y)
    requires skipFinal || IsSingle(hp.p, SumOf(hp, NodeHash.NoKey, Pair(x, y)))
    requires IsNode(hp, x, y, skipFinal, r)
    ensures r == MerklePath.Node(hp, x, y, skipFinal)
  {
    hide IsFieldPrime, MerklePath.Node, Pow2, SumOf, LastOf;
    NodeOfSum(hp, x, y, skipFinal);
  }

  /** The sum at the top of the path has a second spelling, with another last knapsack. */
  ghost predicate HasSecondTop(hp: HashParams, x: nat, path: seq<nat>, l: nat)
    requires hp.p > 1 && l < |path|
    decreases |path| - l
  {
    if l < |path| - 1 then HasSecondTop(hp, MerklePath.Node(hp, x, path[l], true), path, l + 1)
    else
      var seen := Pair(x, path[l]);
      var sum := SumOf(hp, NodeHash.NoKey, seen);
      && sum + hp.p < Pow2(MERKLE_BITS)
      && LastOf(hp, NodeHash.NoKey, seen, sum + hp.p, MERKLE_BITS) != LastOf(hp, NodeHash.NoKey, seen, sum, MERKLE_BITS)
  }

  /** Then there is another fold. */
  lemma {:induction false} SecondFold(hp: HashParams, x: nat, path: seq<nat>, l: nat) returns (r: nat)
    requires IsFieldPrime(hp.p) && x < hp.p && AreElements(hp.p, path) && l < |path|
    requires hp.p > 1 && HasSecondTop(hp, x, path, l)
    ensures IsFold(hp, x, path, l, r) && r != MerklePath.FoldFrom(hp, x, path, l)
    decreases |path| - l
  {
    hide IsFieldPrime, MerklePath.Node, Pow2, SumOf, LastOf;
    var skip := l < |path| - 1;
    NodeOfSum(hp, x, path[l], skip);
    if skip {
      var m := MerklePath.Node(hp, x, path[l], true);
      r := SecondFold(hp, m, path, l + 1);
      assert IsStep(hp, x, path, l, m);
    } else {
      var seen := Pair(x, path[l]);
      var u := SumOf(hp, NodeHash.NoKey, seen) + hp.p;
      r := LastOf(hp, NodeHash.NoKey, seen, u, MERKLE_BITS);
      ElementIsSpelt(hp.p, x);
      ElementIsSpelt(hp.p, path[l]);
      assert IsSumOrLast(hp, NodeHash.NoKey, seen, false, u, r);
      assert IsStep(hp, x, path, l, r);
    }
  }

  lemma ElementIsSpelt(p: int, x: nat)
    requires IsFieldPrime(p) && x < p
    ensures IsSpelt(p, x, x)
  {
    hide Pow2, IsFieldPrime;
    FieldBounds(p);
  }

  // ---- The check ----

  /** A root that some spelling of the leaf's sum, and of the values on the way up, lead
      to. */
  ghost predicate IsAdmittedRoot(hp: HashParams, key: PrfKey, seen: seq<NodeHash.HashInput>, path: seq<nat>, root: int)
    requires hp.p > 1
  {
    exists u: nat, leaf: int :: IsSumOrLast(hp, key, seen, false, u, leaf) && IsFold(hp, leaf, path, 0, root)
  }

  /** Values for the new variables of the check. */
  ghost predicate Passes(hp: HashParams, key: PrfKey, commitment: seq<Expr>, commitnum: seq<Expr>, path: seq<Expr>,
                         root: Expr, enforce: Expr, first: nat, w: Witness, h: Witness)
    requires hp.p > 1
  {
    AgreeBelow(w, h, first)
    && Satisfied(hp.p, CheckEmits(hp, key, commitment, commitnum, path, root, enforce, first), h)
  }

  lemma CheckSound(hp: HashParams, key: PrfKey, commitment: seq<Expr>, commitnum: seq<Expr>, path: seq<Expr>,
                   root: Expr, enforce: Expr, first: nat, w: Witness, h: Witness)
    requires IsPrime(hp.p) && IsFieldPrime(hp.p)
    requires AreGiven(hp.p, LeafInputs(commitment, commitnum), first, w)
    requires PathBelow(path, first) && UsesBelow(root, first) && UsesBelow(enforce, first)
    requires Passes(hp, key, commitment, commitnum, path, root, enforce, first, w, h)
    ensures Value(hp.p, enforce, w) == 0
            || IsAdmittedRoot(hp, key, Givens(hp.p, LeafInputs(commitment, commitnum), w), Values(hp.p, path, w),
                              Value(hp.p, root, w))
  {
    hide IsFieldPrime, Satisfied, AgreeBelow, UsesBelow, PathBelow, HashEmits, Value, IsFold, AllBelow, AreGiven,
         MerkleEmits, IsSumOrLast, Givens, IsZero, Eval;
    var p, a := hp.p, LeafInputs(commitment, commitnum);
    var leaf := LeafEmits(hp, key, commitment, commitnum, first);
    var m := MerkleEmits(hp, leaf.result, path, 0, leaf.next);
    var check := Mul(Sub(m.result, root), enforce);
    SatisfiedConcat(p, leaf.constraints + m.constraints, [check], h);
    SatisfiedConcat(p, leaf.constraints, m.constraints, h);
    SatisfiedOne(p, check, h);
    EnforcedIff(p, m.result, root, enforce, h);
    ValueAgrees(p, root, w, h, first);
    ValueAgrees(p, enforce, w, h, first);
    ValuesAgree(p, path, w, h, first);
    var x := Value(p, leaf.result, h);
    assert IsWitness(hp, key, a, first, MERKLE_BITS, false, w, h);
    LeafIff(hp, key, commitment, commitnum, first, w, x);
    LeafBelow(hp, key, commitment, commitnum, first, w);
    PathBelowMore(path, first, leaf.next);
    AgreeSelf(h, leaf.next);
    PathSound(hp, leaf.result, path, 0, leaf.next, h, h);
    var u: nat :| IsSumOrLast(hp, key, Givens(p, a, w), false, u, x);
    if Value(p, enforce, w) != 0 {
      assert IsFold(hp, x, Values(p, path, w), 0, Value(p, root, w));
    }
  }

  lemma LeafBelow(hp: HashParams, key: PrfKey, commitment: seq<Expr>, commitnum: seq<Expr>, first: nat, w: Witness)
    requires hp.p > 0 && AreGiven(hp.p, LeafInputs(commitment, commitnum), first, w)
    ensures var e := LeafEmits(hp, key, commitment, commitnum, first);
      AllBelow(e.constraints, e.next) && UsesBelow(e.result, e.next) && first <= e.next
  {
    hide UsesBelow, HashEmits, AreGiven, AreBelow, AllBelow;
    GivenBelow(hp.p, LeafInputs(commitment, commitnum), first, w);
    HashBelow(hp, key, LeafInputs(commitment, commitnum), first, MERKLE_BITS, false);
  }

  /** An admitted leaf and a fold of it give values that pass, if the fold is the root or
      the root is not enforced. */
  lemma CheckComplete(hp: HashParams, key: PrfKey, commitment: seq<Expr>, commitnum: seq<Expr>, path: seq<Expr>,
                      root: Expr, enforce: Expr, first: nat, w: Witness, u: nat, x: int, r: int)
    returns (h: Witness)
    requires IsPrime(hp.p) && IsFieldPrime(hp.p)
    requires AreGiven(hp.p, LeafInputs(commitment, commitnum), first, w)
    requires PathBelow(path, first) && UsesBelow(root, first) && UsesBelow(enforce, first)
    requires IsSumOrLast(hp, key, Givens(hp.p, LeafInputs(commitment, commitnum), w), false, u, x)
    requires IsFold(hp, x, Values(hp.p, path, w), 0, r)
    requires Value(hp.p, enforce, w) == 0 || r == Value(hp.p, root, w)
    ensures Passes(hp, key, commitment, commitnum, path, root, enforce, first, w, h)
  {
    hide IsFieldPrime, Satisfied, AgreeBelow, UsesBelow, PathBelow, HashEmits, Value, IsFold, AllBelow, AreGiven,
         MerkleEmits, IsSumOrLast, Givens, IsZero, Eval;
    var p, a := hp.p, LeafInputs(commitment, commitnum);
    var leaf := LeafEmits(hp, key, commitment, commitnum, first);
    var m := MerkleEmits(hp, leaf.result, path, 0, leaf.next);
    var check := Mul(Sub(m.result, root), enforce);
    LeafIff(hp, key, commitment, commitnum, first, w, x);
    var g: Witness :| IsWitness(hp, key, a, first, MERKLE_BITS, false, w, g)
                      && ResultOf(hp, key, a, first, MERKLE_BITS, false, g) == x;
    LeafBelow(hp, key, commitment, commitnum, first, w);
    PathBelowMore(path, first, leaf.next);
    ValuesAgree(p, path, w, g, first);
    h := PathComplete(hp, leaf.result, path, 0, leaf.next, g, r);
    AgreeTrans(w, g, h, first, leaf.next);
    StaysSatisfied(p, leaf.constraints, g, h, leaf.next);
    ValueAgrees(p, root, w, h, first);
    ValueAgrees(p, enforce, w, h, first);
    EnforcedIff(p, m.result, root, enforce, h);
    OneSatisfied(p, check, h);
    SatisfiedConcat(p, leaf.constraints, m.constraints, h);
    SatisfiedConcat(p, leaf.constraints + m.constraints, [check], h);
  }

  /** The check can be satisfied exactly when the path is not enforced or the root is an
      admitted one. */
  lemma CheckIff(hp: HashParams, key: PrfKey, commitment: seq<Expr>, commitnum: seq<Expr>, path: seq<Expr>,
                 root: Expr, enforce: Expr, first: nat, w: Witness)
    requires IsPrime(hp.p) && IsFieldPrime(hp.p)
    requires AreGiven(hp.p, LeafInputs(commitment, commitnum), first, w)
    requires PathBelow(path, first) && UsesBelow(root, first) && UsesBelow(enforce, first)
    ensures (exists h: Witness :: Passes(hp, key, commitment, commitnum, path, root, enforce, first, w, h))
       <==> Value(hp.p, enforce, w) == 0
            || IsAdmittedRoot(hp, key, Givens(hp.p, LeafInputs(commitment, commitnum), w), Values(hp.p, path, w),
                              Value(hp.p, root, w))
  {
    hide IsFieldPrime, UsesBelow, PathBelow, Value, IsFold, AreGiven, IsSumOrLast, Givens, Passes, NodeHash.HashOf;
    var p, seen, vs := hp.p, Givens(hp.p, LeafInputs(commitment, commitnum), w), Values(hp.p, path, w);
    forall h: Witness | Passes(hp, key, commitment, commitnum, path, root, enforce, first, w, h)
      ensures Value(p, enforce, w) == 0 || IsAdmittedRoot(hp, key, seen, vs, Value(p, root, w))
    {
      CheckSound(hp, key, commitment, commitnum, path, root, enforce, first, w, h);
    }
    if IsAdmittedRoot(hp, key, seen, vs, Value(p, root, w)) {
      var u: nat, x: int :| IsSumOrLast(hp, key, seen, false, u, x) && IsFold(hp, x, vs, 0, Value(p, root, w));
      var h := CheckComplete(hp, key, commitment, commitnum, path, root, enforce, first, w, u, x, Value(p, root, w));
    } else if Value(p, enforce, w) == 0 {
      var x := NodeHash.HashOf(hp, key, seen, MERKLE_BITS, false);
      HashIsSumOrLast(hp, key, seen, false);
      ValuesAreElements(p, path, w);
      HonestFold(hp, x, vs, 0);
      var h := CheckComplete(hp, key, commitment, commitnum, path, root, enforce, first, w, SumOf(hp, key, seen), x,
                             MerklePath.FoldFrom(hp, x, vs, 0));
    }
  }

  /** A root that is not what the leaf and the path lead to, and is admitted. */
  lemma OtherRoot(hp: HashParams, key: PrfKey, seen: seq<NodeHash.HashInput>, path: seq<nat>) returns (root: nat)
    requires IsFieldPrime(hp.p) && hp.p > 1 && AreElements(hp.p, path) && |path| >= 1
    requires HasSecondTop(hp, NodeHash.HashOf(hp, key, seen, MERKLE_BITS, false), path, 0)
    ensures IsAdmittedRoot(hp, key, seen, path, root)
    ensures root != MerklePath.FoldFrom(hp, NodeHash.HashOf(hp, key, seen, MERKLE_BITS, false), path, 0)
  {
    hide IsFieldPrime, IsFold, HasSecondTop, NodeHash.HashOf, IsSumOrLast, SumOf, Pow2;
    HashIsSumOrLast(hp, key, seen, false);
    root := SecondFold(hp, NodeHash.HashOf(hp, key, seen, MERKLE_BITS, false), path, 0);
  }

  /** The rule for inputs with a path: from the leaf of the commitment the path leads to
      the root, if nothing on the way has a second spelling. */
  lemma EnforcedPath(hp: HashParams, key: PrfKey, commitment: seq<Expr>, commitnum: seq<Expr>, path: seq<Expr>,
                     root: Expr, enforce: Expr, first: nat, w: Witness, h: Witness)
    requires IsPrime(hp.p) && IsFieldPrime(hp.p)
    requires AreGiven(hp.p, LeafInputs(commitment, commitnum), first, w)
    requires PathBelow(path, first) && UsesBelow(root, first) && UsesBelow(enforce, first)
    requires Passes(hp, key, commitment, commitnum, path, root, enforce, first, w, h) && Value(hp.p, enforce, w) != 0
    requires var seen := Givens(hp.p, LeafInputs(commitment, commitnum), w);
      && IsSingle(hp.p, SumOf(hp, key, seen))
      && AreSingle(hp, NodeHash.HashOf(hp, key, seen, MERKLE_BITS, false), Values(hp.p, path, w), 0)
    ensures var seen := Givens(hp.p, LeafInputs(commitment, commitnum), w);
      var leaf := NodeHash.HashOf(hp, key, seen, MERKLE_BITS, false);
      Value(hp.p, root, w) == MerklePath.FoldFrom(hp, leaf, Values(hp.p, path, w), 0)
  {
    hide IsFieldPrime, UsesBelow, PathBelow, Value, IsFold, AreGiven, Givens, Passes, NodeHash.HashOf, AreSingle,
         Pow2, SumOf, LastOf;
    var seen, vs := Givens(hp.p, LeafInputs(commitment, commitnum), w), Values(hp.p, path, w);
    CheckSound(hp, key, commitment, commitnum, path, root, enforce, first, w, h);
    var u: nat, x: int :| IsSumOrLast(hp, key, seen, false, u, x) && IsFold(hp, x, vs, 0, Value(hp.p, root, w));
    HashIsSumOrLast(hp, key, seen, false);
    ValuesAreElements(hp.p, path, w);
    OnlyFold(hp, x, vs, 0, Value(hp.p, root, w));
  }

  /** Whatever is enforced, every leaf of a generated tree passes with its recorded path. */
  lemma TreeLeafPasses(hp: HashParams, key: PrfKey, commitment: seq<Expr>, commitnum: seq<Expr>, path: seq<Expr>,
                       root: Expr, enforce: Expr, first: nat, w: Witness, leaves: seq<nat>, k: nat,
                       random: nat -> nat, i: nat)
    returns (h: Witness)
    requires IsPrime(hp.p) && IsFieldPrime(hp.p)
    requires AreGiven(hp.p, LeafInputs(commitment, commitnum), first, w)
    requires PathBelow(path, first) && UsesBelow(root, first) && UsesBelow(enforce, first)
    requires |leaves| == Pow2(k) && i < |leaves| && k <= |path|
    requires var seen := Givens(hp.p, LeafInputs(commitment, commitnum), w);
      leaves[i] == NodeHash.HashOf(hp, key, seen, MERKLE_BITS, false)
    requires Values(hp.p, path, w) == MerklePath.TreePath(hp, leaves, k, |path|, random, i)
    requires Value(hp.p, root, w) == MerklePath.TreeNode(hp, leaves, k, |path|, random, 0, |path|)
    ensures Passes(hp, key, commitment, commitnum, path, root, enforce, first, w, h)
  {
    hide IsFieldPrime, UsesBelow, PathBelow, Value, IsFold, AreGiven, Givens, Passes, NodeHash.HashOf, Pow2, SumOf,
         LastOf, MerklePath.TreePath, MerklePath.TreeNode, MerklePath.FoldFrom, IsSumOrLast;
    var seen, vs := Givens(hp.p, LeafInputs(commitment, commitnum), w), Values(hp.p, path, w);
    var x := leaves[i];
    HashIsSumOrLast(hp, key, seen, false);
    ValuesAreElements(hp.p, path, w);
    HonestFold(hp, x, vs, 0);
    MerklePath.LeafIs(hp, leaves, k, |path|, random, i);
    MerklePath.FoldReachesRoot(hp, leaves, k, |path|, random, i, 0);
    h := CheckComplete(hp, key, commitment, commitnum, path, root, enforce, first, w, SumOf(hp, key, seen), x,
                       MerklePath.FoldFrom(hp, x, vs, 0));
  }
}
