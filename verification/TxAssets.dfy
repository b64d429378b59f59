/** The asset selector and balance constraints that source/cclib/src/CCproof.cpp
    emits for a whole transaction, and the conservation they enforce. */
module TxAssets {
  import opened Arith
  import opened Field
  import opened Circuit
  import opened AssetBalance

  /** The variables of an output, of an input, and of a transaction. The asset
      list starts, implicitly, with asset 0. */
  datatype TxOut = TxOut(asset: Expr, isAsset: seq<Expr>, amount: Expr, multiplier: Expr)
  datatype TxIn = TxIn(asset: Expr, isAsset: seq<Expr>, amount: Expr)
  datatype Tx = Tx(outs: seq<TxOut>, ins: seq<TxIn>, txAsset: seq<Expr>, donation: Expr)

  /** Every input and output has one selector for each entry of the asset list. */
  predicate IsTx(tx: Tx) {
    && (forall i :: 0 <= i < |tx.outs| ==> |tx.outs[i].isAsset| == |tx.txAsset| + 1)
    && (forall i :: 0 <= i < |tx.ins| ==> |tx.ins[i].isAsset| == |tx.txAsset| + 1)
  }

  // ---- What is emitted ----

  function OneMinus(es: seq<Expr>, k: nat): Expr
    requires k <= |es|
  {
    if k == 0 then Const(1) else Sub(OneMinus(es, k - 1), es[k - 1])
  }

  function EntryConstraint(asset: Expr, isAsset: seq<Expr>, txAsset: seq<Expr>, i: nat): Expr
    requires |isAsset| == |txAsset| + 1 && i < |isAsset|
  {
    Mul(if i == 0 then asset else Sub(asset, txAsset[i - 1]), isAsset[i])
  }

  function EntryConstraints(asset: Expr, isAsset: seq<Expr>, txAsset: seq<Expr>): (cs: seq<Expr>)
    requires |isAsset| == |txAsset| + 1
    ensures |cs| == |isAsset|
  {
    seq(|isAsset|, i requires 0 <= i < |isAsset| => EntryConstraint(asset, isAsset, txAsset, i))
  }

  /** The selectors add up to 1, and a set selector's entry is the asset. */
  function SelectorConstraints(asset: Expr, isAsset: seq<Expr>, txAsset: seq<Expr>): seq<Expr>
    requires |isAsset| == |txAsset| + 1
  {
    [OneMinus(isAsset, |isAsset|)] + EntryConstraints(asset, isAsset, txAsset)
  }

  function OutSelectors(tx: Tx, k: nat): seq<Expr>
    requires IsTx(tx) && k <= |tx.outs|
  {
    if k == 0 then []
    else OutSelectors(tx, k - 1) + SelectorConstraints(tx.outs[k - 1].asset, tx.outs[k - 1].isAsset, tx.txAsset)
  }

  function InSelectors(tx: Tx, k: nat): seq<Expr>
    requires IsTx(tx) && k <= |tx.ins|
  {
    if k == 0 then []
    else InSelectors(tx, k - 1) + SelectorConstraints(tx.ins[k - 1].asset, tx.ins[k - 1].isAsset, tx.txAsset)
  }

  function PlusOuts(tx: Tx, j: nat, k: nat): Expr
    requires IsTx(tx) && j <= |tx.txAsset| && k <= |tx.outs|
  {
    if k == 0 then (if j == 0 then tx.donation else Const(0))
    else Add(PlusOuts(tx, j, k - 1),
             Mul(Mul(tx.outs[k - 1].isAsset[j], tx.outs[k - 1].amount), tx.outs[k - 1].multiplier))
  }

  function MinusIns(tx: Tx, j: nat, k: nat): Expr
    requires IsTx(tx) && j <= |tx.txAsset| && k <= |tx.ins|
  {
    if k == 0 then PlusOuts(tx, j, |tx.outs|)
    else Sub(MinusIns(tx, j, k - 1), Mul(tx.ins[k - 1].isAsset[j], tx.ins[k - 1].amount))
  }

  function Balances(tx: Tx): (cs: seq<Expr>)
    requires IsTx(tx)
    ensures |cs| == |tx.txAsset| + 1
  {
    seq(|tx.txAsset| + 1, j requires 0 <= j <= |tx.txAsset| => MinusIns(tx, j, |tx.ins|))
  }

  function TxConstraints(tx: Tx): seq<Expr>
    requires IsTx(tx)
  {
    OutSelectors(tx, |tx.outs|) + InSelectors(tx, |tx.ins|) + Balances(tx)
  }

  method CheckSelectors(cs: ConstraintSystem, asset: Expr, isAsset: seq<Expr>, txAsset: seq<Expr>)
    requires |isAsset| == |txAsset| + 1
    modifies cs
    ensures cs.next == old(cs.next)
    ensures cs.constraints == old(cs.constraints) + SelectorConstraints(asset, isAsset, txAsset)
  {
    var check := Const(1);
    for i := 0 to |isAsset|
      invariant check == OneMinus(isAsset, i) && cs.next == old(cs.next) && cs.constraints == old(cs.constraints)
    {
      check := Sub(check, isAsset[i]);
    }
    cs.ConstrainZero(check);
    ghost var sum := check;
    for i := 0 to |isAsset|
      invariant cs.next == old(cs.next)
      invariant cs.constraints == old(cs.constraints) + [sum] + EntryConstraints(asset, isAsset, txAsset)[..i]
    {
      check := asset;
      if i > 0 {
        check := Sub(check, txAsset[i - 1]);
      }
      check := Mul(check, isAsset[i]);
      cs.ConstrainZero(check);
    }
  }

  method CheckBalance(cs: ConstraintSystem, tx: Tx, j: nat)
    requires IsTx(tx) && j <= |tx.txAsset|
    modifies cs
    ensures cs.next == old(cs.next) && cs.constraints == old(cs.constraints) + [MinusIns(tx, j, |tx.ins|)]
  {
    var check := if j == 0 then tx.donation else Const(0);
    for i := 0 to |tx.outs|
      invariant check == PlusOuts(tx, j, i) && cs.next == old(cs.next) && cs.constraints == old(cs.constraints)
    {
      check := Add(check, Mul(Mul(tx.outs[i].isAsset[j], tx.outs[i].amount), tx.outs[i].multiplier));
    }
    for i := 0 to |tx.ins|
      invariant check == MinusIns(tx, j, i) && cs.next == old(cs.next) && cs.constraints == old(cs.constraints)
    {
      check := Sub(check, Mul(tx.ins[i].isAsset[j], tx.ins[i].amount));
    }
    cs.ConstrainZero(check);
  }

  method ComputeTx(cs: ConstraintSystem, tx: Tx)
    requires IsTx(tx)
    modifies cs
    ensures cs.next == old(cs.next) && cs.constraints == old(cs.constraints) + TxConstraints(tx)
  {
    hide SelectorConstraints, MinusIns;
    for i := 0 to |tx.outs|
      invariant cs.next == old(cs.next) && cs.constraints == old(cs.constraints) + OutSelectors(tx, i)
    {
      CheckSelectors(cs, tx.outs[i].asset, tx.outs[i].isAsset, tx.txAsset);
    }
    for i := 0 to |tx.ins|
      invariant cs.next == old(cs.next)
      invariant cs.constraints == old(cs.constraints) + OutSelectors(tx, |tx.outs|) + InSelectors(tx, i)
    {
      CheckSelectors(cs, tx.ins[i].asset, tx.ins[i].isAsset, tx.txAsset);
    }
    ghost var base := cs.constraints;
    for j := 0 to |tx.txAsset| + 1
      invariant cs.next == old(cs.next) && cs.constraints == base + Balances(tx)[..j]
    {
      CheckBalance(cs, tx, j);
    }
  }

  // ---- What a witness makes of it ----

  function Evals(es: seq<Expr>, w: Witness): (vs: seq<int>)
    ensures |vs| == |es|
  {
    seq(|es|, i requires 0 <= i < |es| => Eval(es[i], w))
  }

  /** An output counts for amount times multiplier, an input for its amount. */
  function OutCoin(o: TxOut, w: Witness): Coin {
    Coin(Eval(o.asset, w), Evals(o.isAsset, w), Eval(o.amount, w) * Eval(o.multiplier, w))
  }

  function InCoin(i: TxIn, w: Witness): Coin { Coin(Eval(i.asset, w), Evals(i.isAsset, w), Eval(i.amount, w)) }

  function OutCoins(tx: Tx, w: Witness): (coins: seq<Coin>)
    requires IsTx(tx)
    ensures |coins| == |tx.outs| && FitList(coins, |tx.txAsset| + 1)
  {
    seq(|tx.outs|, i requires 0 <= i < |tx.outs| => OutCoin(tx.outs[i], w))
  }

  function InCoins(tx: Tx, w: Witness): (coins: seq<Coin>)
    requires IsTx(tx)
    ensures |coins| == |tx.ins| && FitList(coins, |tx.txAsset| + 1)
  {
    seq(|tx.ins|, i requires 0 <= i < |tx.ins| => InCoin(tx.ins[i], w))
  }

  function AssetList(tx: Tx, w: Witness): seq<int> { [0] + Evals(tx.txAsset, w) }

  lemma {:induction false} EvalOneMinus(es: seq<Expr>, k: nat, w: Witness)
    requires k <= |es|
    ensures Eval(OneMinus(es, k), w) == 1 - Sum(Evals(es, w), k)
  {
    if k > 0 {
      EvalOneMinus(es, k - 1, w);
    }
  }

  /** What is emitted for one coin says that it is selected, no more and no less. */
  lemma SelectorsIff(p: int, c: Coin, asset: Expr, isAsset: seq<Expr>, txAsset: seq<Expr>, w: Witness)
    requires p > 0 && |isAsset| == |txAsset| + 1
    requires c.asset == Eval(asset, w) && c.selectors == Evals(isAsset, w)
    ensures Satisfied(p, SelectorConstraints(asset, isAsset, txAsset), w)
       <==> IsSelected(p, c, [0] + Evals(txAsset, w))
  {
    hide IsZero, EntryConstraint, Sum;
    var entries, list := EntryConstraints(asset, isAsset, txAsset), [0] + Evals(txAsset, w);
    var one := OneMinus(isAsset, |isAsset|);
    EvalOneMinus(isAsset, |isAsset|, w);
    SatisfiedConcat(p, [one], entries, w);
    assert Satisfied(p, [one], w) <==> IsZero(p, Eval(one, w)) by { assert [one][0] == one; }
    forall j | 0 <= j < |list|
      ensures Eval(entries[j], w) == (c.asset - list[j]) * c.selectors[j]
    {
      EvalEntry(asset, isAsset, txAsset, j, w);
    }
    if IsSelected(p, c, list) {
      forall j | 0 <= j < |entries| ensures IsZero(p, Eval(entries[j], w)) {
        assert IsZero(p, (c.asset - list[j]) * c.selectors[j]);
      }
    }
    if Satisfied(p, entries, w) {
      forall j | 0 <= j < |list| ensures IsZero(p, (c.asset - list[j]) * c.selectors[j]) {
        assert IsZero(p, Eval(entries[j], w));
      }
    }
  }

  lemma EvalEntry(asset: Expr, isAsset: seq<Expr>, txAsset: seq<Expr>, j: nat, w: Witness)
    requires |isAsset| == |txAsset| + 1 && j < |isAsset|
    ensures Eval(EntryConstraint(asset, isAsset, txAsset, j), w)
         == (Eval(asset, w) - ([0] + Evals(txAsset, w))[j]) * Eval(isAsset[j], w)
  {
    var d := if j == 0 then asset else Sub(asset, txAsset[j - 1]);
    assert Eval(d, w) == Eval(asset, w) - ([0] + Evals(txAsset, w))[j];
    assert Eval(Mul(d, isAsset[j]), w) == Eval(d, w) * Eval(isAsset[j], w);
  }

  lemma {:induction false} OutsIff(p: int, tx: Tx, w: Witness, k: nat)
    requires p > 0 && IsTx(tx) && k <= |tx.outs|
    ensures Satisfied(p, OutSelectors(tx, k), w) <==> AreSelected(p, OutCoins(tx, w)[..k], AssetList(tx, w))
  {
    hide IsSelected, SelectorConstraints, IsZero;
    if k > 0 {
      var o := tx.outs[k - 1];
      var cs := SelectorConstraints(o.asset, o.isAsset, tx.txAsset);
      SatisfiedConcat(p, OutSelectors(tx, k - 1), cs, w);
      OutsIff(p, tx, w, k - 1);
      SelectorsIff(p, OutCoin(o, w), o.asset, o.isAsset, tx.txAsset, w);
      assert OutCoins(tx, w)[..k] == OutCoins(tx, w)[..k - 1] + [OutCoin(o, w)];
      LastSelected(p, OutCoins(tx, w)[..k - 1], OutCoin(o, w), AssetList(tx, w));
    }
  }

  lemma LastSelected(p: int, coins: seq<Coin>, c: Coin, list: seq<int>)
    requires p > 0
    ensures AreSelected(p, coins + [c], list) <==> AreSelected(p, coins, list) && IsSelected(p, c, list)
  {
    hide IsSelected;
    if AreSelected(p, coins + [c], list) {
      assert (coins + [c])[|coins|] == c;
      forall i | 0 <= i < |coins| ensures IsSelected(p, coins[i], list) {
        assert (coins + [c])[i] == coins[i];
      }
    }
  }

  lemma {:induction false} InsIff(p: int, tx: Tx, w: Witness, k: nat)
    requires p > 0 && IsTx(tx) && k <= |tx.ins|
    ensures Satisfied(p, InSelectors(tx, k), w) <==> AreSelected(p, InCoins(tx, w)[..k], AssetList(tx, w))
  {
    hide IsSelected, SelectorConstraints, IsZero;
    if k > 0 {
      var i := tx.ins[k - 1];
      var cs := SelectorConstraints(i.asset, i.isAsset, tx.txAsset);
      SatisfiedConcat(p, InSelectors(tx, k - 1), cs, w);
      InsIff(p, tx, w, k - 1);
      SelectorsIff(p, InCoin(i, w), i.asset, i.isAsset, tx.txAsset, w);
      assert InCoins(tx, w)[..k] == InCoins(tx, w)[..k - 1] + [InCoin(i, w)];
      LastSelected(p, InCoins(tx, w)[..k - 1], InCoin(i, w), AssetList(tx, w));
    }
  }

  lemma {:induction false} EvalPlusOuts(tx: Tx, j: nat, k: nat, w: Witness)
    requires IsTx(tx) && j <= |tx.txAsset| && k <= |tx.outs|
    ensures Eval(PlusOuts(tx, j, k), w)
         == (if j == 0 then Eval(tx.donation, w) else 0) + Through(OutCoins(tx, w), |tx.txAsset| + 1, j, k)
  {
    if k > 0 {
      EvalPlusOuts(tx, j, k - 1, w);
      var o := tx.outs[k - 1];
      var x := Mul(o.isAsset[j], o.amount);
      var s, a, m := Eval(o.isAsset[j], w), Eval(o.amount, w), Eval(o.multiplier, w);
      assert Eval(x, w) == s * a;
      assert Eval(Mul(x, o.multiplier), w) == s * a * m == s * (a * m);
    }
  }

  lemma {:induction false} EvalMinusIns(tx: Tx, j: nat, k: nat, w: Witness)
    requires IsTx(tx) && j <= |tx.txAsset| && k <= |tx.ins|
    ensures Eval(MinusIns(tx, j, k), w)
         == Eval(PlusOuts(tx, j, |tx.outs|), w) - Through(InCoins(tx, w), |tx.txAsset| + 1, j, k)
  {
    if k > 0 {
      EvalMinusIns(tx, j, k - 1, w);
      var i := tx.ins[k - 1];
      assert Eval(Mul(i.isAsset[j], i.amount), w) == Eval(i.isAsset[j], w) * Eval(i.amount, w);
    }
  }

  lemma BalancesIff(p: int, tx: Tx, w: Witness)
    requires p > 0 && IsTx(tx)
    ensures Satisfied(p, Balances(tx), w)
       <==> AreBalanced(p, OutCoins(tx, w), InCoins(tx, w), |tx.txAsset| + 1, Eval(tx.donation, w))
  {
    hide IsZero;
    var outs, ins, n := OutCoins(tx, w), InCoins(tx, w), |tx.txAsset| + 1;
    forall j | 0 <= j < n
      ensures Eval(Balances(tx)[j], w) == Imbalance(outs, ins, n, Eval(tx.donation, w), j)
    {
      assert Balances(tx)[j] == MinusIns(tx, j, |tx.ins|);
      EvalMinusIns(tx, j, |tx.ins|, w);
      EvalPlusOuts(tx, j, |tx.outs|, w);
    }
  }

  /** The constraints say that the coins are selected and balanced, no more and no less. */
  lemma TxConstraintsIff(p: int, tx: Tx, w: Witness)
    requires p > 0 && IsTx(tx)
    ensures Satisfied(p, TxConstraints(tx), w)
       <==> && AreSelected(p, OutCoins(tx, w), AssetList(tx, w)) && AreSelected(p, InCoins(tx, w), AssetList(tx, w))
            && AreBalanced(p, OutCoins(tx, w), InCoins(tx, w), |tx.txAsset| + 1, Eval(tx.donation, w))
  {
    hide IsZero, Satisfied, AreSelected, Imbalance, AreBalanced;
    var co, ci := OutSelectors(tx, |tx.outs|), InSelectors(tx, |tx.ins|);
    SatisfiedConcat(p, co + ci, Balances(tx), w);
    SatisfiedConcat(p, co, ci, w);
    OutsIff(p, tx, w, |tx.outs|);
    InsIff(p, tx, w, |tx.ins|);
    assert OutCoins(tx, w)[..|tx.outs|] == OutCoins(tx, w) && InCoins(tx, w)[..|tx.ins|] == InCoins(tx, w);
    BalancesIff(p, tx, w);
  }

  /** The conservation rule of a whole transaction: any witness that satisfies
      what compute_tx emits balances every asset. */
  lemma TxBalances(p: int, tx: Tx, w: Witness, v: int)
    requires IsPrime(p) && IsTx(tx) && Satisfied(p, TxConstraints(tx), w)
    ensures Same(p, Total(p, InCoins(tx, w), v, |tx.ins|),
                 Total(p, OutCoins(tx, w), v, |tx.outs|) + if v == 0 then Eval(tx.donation, w) else 0)
  {
    TxObeysRules(p, tx, w);
    AssetsBalance(p, OutCoins(tx, w), InCoins(tx, w), AssetList(tx, w), Eval(tx.donation, w), v);
  }

  /** With totals below the prime, the amounts themselves balance. */
  lemma TxBalancesExactly(p: int, tx: Tx, w: Witness, v: int)
    requires IsPrime(p) && IsTx(tx) && Satisfied(p, TxConstraints(tx), w)
    requires 0 <= Total(p, InCoins(tx, w), v, |tx.ins|) < p
    requires 0 <= Total(p, OutCoins(tx, w), v, |tx.outs|) + (if v == 0 then Eval(tx.donation, w) else 0) < p
    ensures Total(p, InCoins(tx, w), v, |tx.ins|)
         == Total(p, OutCoins(tx, w), v, |tx.outs|) + if v == 0 then Eval(tx.donation, w) else 0
  {
    TxObeysRules(p, tx, w);
    AssetsBalanceExactly(p, OutCoins(tx, w), InCoins(tx, w), AssetList(tx, w), Eval(tx.donation, w), v);
  }

  lemma TxObeysRules(p: int, tx: Tx, w: Witness)
    requires p > 0 && IsTx(tx) && Satisfied(p, TxConstraints(tx), w)
    ensures AreSelected(p, OutCoins(tx, w), AssetList(tx, w)) && AreSelected(p, InCoins(tx, w), AssetList(tx, w))
    ensures |AssetList(tx, w)| == |tx.txAsset| + 1 && Residue(AssetList(tx, w)[0], p) == 0
    ensures AreBalanced(p, OutCoins(tx, w), InCoins(tx, w), |tx.txAsset| + 1, Eval(tx.donation, w))
  {
    hide IsZero, Satisfied, AreSelected, AreBalanced;
    TxConstraintsIff(p, tx, w);
    ResidueSmall(0, p);
  }
}
