/** The other half of the conservation rule of source/cclib/src/CCproof.cpp: every
    transaction that conserves its assets can be proved. */
module TxComplete {
  import opened Arith
  import opened Field
  import opened Circuit
  import opened BitGadgets
  import opened AssetBalance
  import opened AmountCircuit
  import opened TxAssets
  import opened TxAmounts
  import HashCircuit
  import opened HashWitness

  // ---- Selectors ----

  ghost predicate IsListed(p: int, list: seq<int>, asset: int)
    requires p > 0
  {
    exists j :: 0 <= j < |list| && Same(p, list[j], asset)
  }

  /** The first entry, from j on, that is the asset. */
  function EntryOf(p: int, list: seq<int>, asset: int, j: nat): (r: nat)
    requires p > 0 && j <= |list|
    ensures j <= r <= |list| && (r < |list| ==> Same(p, list[r], asset))
    ensures forall i :: j <= i < r ==> !Same(p, list[i], asset)
    decreases |list| - j
  {
    if j == |list| || Same(p, list[j], asset) then j else EntryOf(p, list, asset, j + 1)
  }

  function OneHot(n: nat, k: nat): (s: seq<int>)
    ensures |s| == n
  {
    seq(n, i => if i == k then 1 else 0)
  }

  /** The coin selects the first entry that is its asset, and no other. */
  predicate IsOneHot(p: int, c: Coin, list: seq<int>)
    requires p > 0
  {
    c.selectors == OneHot(|list|, EntryOf(p, list, c.asset, 0))
  }

  lemma {:induction false} OneHotSum(n: nat, k: nat, m: nat)
    requires m <= n
    ensures Sum(OneHot(n, k), m) == if k < m then 1 else 0
  {
    if m > 0 {
      OneHotSum(n, k, m - 1);
    }
  }

  lemma OneHotSelected(p: int, c: Coin, list: seq<int>)
    requires p > 0 && IsListed(p, list, c.asset) && IsOneHot(p, c, list)
    ensures IsSelected(p, c, list)
  {
    hide Same, IsZero;
    var k := EntryOf(p, list, c.asset, 0);
    OneHotSum(|list|, k, |list|);
    MultipleIsZero(p, 0, 0);
    forall j | 0 <= j < |list| ensures IsZero(p, (c.asset - list[j]) * c.selectors[j]) {
      if j == k {
        SameSym(p, list[j], c.asset);
        SameIffZero(p, c.asset, list[j]);
        assert (c.asset - list[j]) * 1 == c.asset - list[j];
      } else {
        assert (c.asset - list[j]) * 0 == 0;
      }
    }
  }

  predicate AreOneHot(p: int, coins: seq<Coin>, list: seq<int>)
    requires p > 0
  {
    forall i :: 0 <= i < |coins| ==> IsOneHot(p, coins[i], list)
  }

  lemma EntryIff(p: int, list: seq<int>, a: int, j: nat)
    requires p > 0 && j < |list|
    ensures EntryOf(p, list, a, 0) == j <==> EntryOf(p, list, list[j], 0) == j && Residue(a, p) == Residue(list[j], p)
  {
  }

  /** All that goes through an entry is the total of its asset, if it is the first of that
      asset, and nothing if it is not. */
  lemma {:induction false} OneHotThrough(p: int, coins: seq<Coin>, list: seq<int>, j: nat, k: nat)
    requires p > 0 && j < |list| && FitList(coins, |list|) && AreOneHot(p, coins, list) && k <= |coins|
    ensures Through(coins, |list|, j, k)
         == if EntryOf(p, list, list[j], 0) == j then Total(p, coins, Residue(list[j], p), k) else 0
  {
    hide Residue, EntryOf;
    if k > 0 {
      OneHotThrough(p, coins, list, j, k - 1);
      var c := coins[k - 1];
      assert IsOneHot(p, c, list);
      EntryIff(p, list, c.asset, j);
      assert 1 * c.amount == c.amount && 0 * c.amount == 0;
    }
  }

  ghost predicate AreListed(p: int, coins: seq<Coin>, list: seq<int>)
    requires p > 0
  {
    forall i :: 0 <= i < |coins| ==> IsListed(p, list, coins[i].asset)
  }

  /** What the inputs bring of every asset is what the outputs and the donation take. */
  ghost predicate IsConserving(p: int, outs: seq<Coin>, ins: seq<Coin>, donation: int)
    requires p > 0
  {
    forall v: int :: Same(p, Total(p, ins, v, |ins|), Total(p, outs, v, |outs|) + if v == 0 then donation else 0)
  }

  lemma OneHotBalanced(p: int, outs: seq<Coin>, ins: seq<Coin>, list: seq<int>, donation: int)
    requires p > 0 && |list| > 0 && list[0] == 0 && FitList(outs, |list|) && FitList(ins, |list|)
    requires AreOneHot(p, outs, list) && AreOneHot(p, ins, list) && IsConserving(p, outs, ins, donation)
    ensures AreBalanced(p, outs, ins, |list|, donation)
  {
    hide Residue, EntryOf, IsZero, Same, Total, Through;
    forall j | 0 <= j < |list| ensures IsZero(p, Imbalance(outs, ins, |list|, donation, j)) {
      OneHotThrough(p, outs, list, j, |outs|);
      OneHotThrough(p, ins, list, j, |ins|);
      ZeroEntry(p, list, j);
      var v := Residue(list[j], p);
      var ti, to := Total(p, ins, v, |ins|), Total(p, outs, v, |outs|) + if v == 0 then donation else 0;
      if EntryOf(p, list, list[j], 0) == j {
        assert Same(p, ti, to);
        SameSym(p, ti, to);
        SameIffZero(p, to, ti);
      } else {
        MultipleIsZero(p, 0, 0);
      }
    }
  }

  /** Asset 0 has its first entry at place 0. */
  lemma ZeroEntry(p: int, list: seq<int>, j: nat)
    requires p > 0 && j < |list| && list[0] == 0
    ensures EntryOf(p, list, list[j], 0) == j ==> (j == 0 <==> Residue(list[j], p) == 0)
    ensures j == 0 ==> EntryOf(p, list, list[j], 0) == j
  {
    ResidueSmall(0, p);
  }

  /** A selected coin's asset is in the list. */
  lemma SelectedIsListed(p: int, c: Coin, list: seq<int>)
    requires IsPrime(p) && IsSelected(p, c, list)
    ensures IsListed(p, list, c.asset)
  {
    hide Residue, IsZero, Same;
    if forall j :: 0 <= j < |list| ==> !Same(p, list[j], c.asset) {
      NothingSelected(p, c, list, |list|);
      ZeroAdd(p, 1 - Sum(c.selectors, |list|), Sum(c.selectors, |list|));
      SmallZero(p, 1);
      assert false;
    }
  }

  lemma {:induction false} NothingSelected(p: int, c: Coin, list: seq<int>, k: nat)
    requires IsPrime(p) && IsSelected(p, c, list) && k <= |list|
    requires forall j :: 0 <= j < |list| ==> !Same(p, list[j], c.asset)
    ensures IsZero(p, Sum(c.selectors, k))
  {
    hide IsZero;
    if k == 0 {
      MultipleIsZero(p, 0, 0);
    } else {
      NothingSelected(p, c, list, k - 1);
      assert !Same(p, list[k - 1], c.asset);
      OtherEntry(p, c, list, k - 1);
      ZeroAdd(p, Sum(c.selectors, k - 1), c.selectors[k - 1]);
    }
  }

  /** Coins for which selectors exist are those that are listed and conserve. */
  lemma SelectableIff(p: int, outs: seq<Coin>, ins: seq<Coin>, list: seq<int>, donation: int)
    requires IsPrime(p) && |list| > 0 && list[0] == 0 && FitList(outs, |list|) && FitList(ins, |list|)
    ensures AreSelected(p, outs, list) && AreSelected(p, ins, list) && AreBalanced(p, outs, ins, |list|, donation) ==>
              AreListed(p, outs, list) && AreListed(p, ins, list) && IsConserving(p, outs, ins, donation)
    ensures AreOneHot(p, outs, list) && AreOneHot(p, ins, list)
            && AreListed(p, outs, list) && AreListed(p, ins, list) && IsConserving(p, outs, ins, donation) ==>
              AreSelected(p, outs, list) && AreSelected(p, ins, list) && AreBalanced(p, outs, ins, |list|, donation)
  {
    hide IsZero, Same, IsSelected, IsListed, IsOneHot, Imbalance, Total;
    if AreSelected(p, outs, list) && AreSelected(p, ins, list) && AreBalanced(p, outs, ins, |list|, donation) {
      SelectedAreListed(p, outs, list);
      SelectedAreListed(p, ins, list);
      ResidueSmall(0, p);
      forall v: int
        ensures Same(p, Total(p, ins, v, |ins|), Total(p, outs, v, |outs|) + if v == 0 then donation else 0)
      {
        AssetsBalance(p, outs, ins, list, donation, v);
      }
    }
    if AreOneHot(p, outs, list) && AreOneHot(p, ins, list)
       && AreListed(p, outs, list) && AreListed(p, ins, list) && IsConserving(p, outs, ins, donation) {
      OneHotBalanced(p, outs, ins, list, donation);
      OneHotsSelected(p, outs, list);
      OneHotsSelected(p, ins, list);
    }
  }

  lemma SelectedAreListed(p: int, coins: seq<Coin>, list: seq<int>)
    requires IsPrime(p) && AreSelected(p, coins, list)
    ensures AreListed(p, coins, list)
  {
    hide IsSelected, IsListed;
    forall i | 0 <= i < |coins| ensures IsListed(p, list, coins[i].asset) {
      SelectedIsListed(p, coins[i], list);
    }
  }

  lemma OneHotsSelected(p: int, coins: seq<Coin>, list: seq<int>)
    requires p > 0 && AreListed(p, coins, list) && AreOneHot(p, coins, list)
    ensures AreSelected(p, coins, list)
  {
    hide IsSelected, IsListed, IsOneHot;
    forall i | 0 <= i < |coins| ensures IsSelected(p, coins[i], list) {
      OneHotSelected(p, coins[i], list);
    }
  }

  // ---- Selector variables ----

  function Entries(tx: Tx): (n: nat)
    ensures n > 0
  {
    |tx.txAsset| + 1
  }

  /** The assets of the outputs and then of the inputs. */
  function Assets(tx: Tx): (es: seq<Expr>)
    ensures |es| == |tx.outs| + |tx.ins|
  {
    seq(|tx.outs|, i requires 0 <= i < |tx.outs| => tx.outs[i].asset)
    + seq(|tx.ins|, i requires 0 <= i < |tx.ins| => tx.ins[i].asset)
  }

  /** The selectors of the coin in row i of these start here. */
  function RowFirst(tx: Tx, sel: nat, i: nat): nat {
    NotNegative(i, Entries(tx));
    sel + i * Entries(tx)
  }

  lemma NotNegative(a: nat, b: nat)
    ensures a * b >= 0
  {
  }

  /** The selectors are variables of their own, row by row from sel on, and nothing else
      uses them. */
  ghost predicate IsPlaced(tx: Tx, sel: nat) {
    && (forall i :: 0 <= i < |tx.outs| ==> tx.outs[i].isAsset == BitVars(RowFirst(tx, sel, i), Entries(tx)))
    && (forall i :: 0 <= i < |tx.ins| ==> tx.ins[i].isAsset == BitVars(RowFirst(tx, sel, |tx.outs| + i), Entries(tx)))
    && (forall i :: 0 <= i < |tx.outs| ==> && UsesBelow(tx.outs[i].asset, sel) && UsesBelow(tx.outs[i].amount, sel)
                                           && UsesBelow(tx.outs[i].multiplier, sel))
    && (forall i :: 0 <= i < |tx.ins| ==> UsesBelow(tx.ins[i].asset, sel) && UsesBelow(tx.ins[i].amount, sel))
    && (forall i :: 0 <= i < |tx.txAsset| ==> UsesBelow(tx.txAsset[i], sel)) && UsesBelow(tx.donation, sel)
  }

  function RowsEnd(tx: Tx, sel: nat): nat { RowFirst(tx, sel, |tx.outs| + |tx.ins|) }

  /** The value of the selector in this row and column. */
  function SelectorValue(p: int, tx: Tx, w: Witness, row: nat, col: nat): int
    requires p > 0 && row < |Assets(tx)|
  {
    if col == EntryOf(p, AssetList(tx, w), Eval(Assets(tx)[row], w), 0) then 1 else 0
  }

  /** w with such selectors. */
  function Select(p: int, tx: Tx, sel: nat, w: Witness): Witness
    requires p > 0
  {
    (id: nat) =>
      if id < sel || (id - sel) / Entries(tx) >= |Assets(tx)| then w(id)
      else SelectorValue(p, tx, w, RowOf(tx, sel, id), (id - sel) % Entries(tx))
  }

  function RowOf(tx: Tx, sel: nat, id: nat): nat
    requires sel <= id
  {
    FloorIff(id - sel, Entries(tx), 0);
    (id - sel) / Entries(tx)
  }

  lemma SelectAt(p: int, tx: Tx, sel: nat, w: Witness, row: nat, col: nat)
    requires p > 0 && row < |Assets(tx)| && col < Entries(tx)
    ensures Select(p, tx, sel, w)(RowFirst(tx, sel, row) + col) == SelectorValue(p, tx, w, row, col)
    ensures RowFirst(tx, sel, row) + col < RowsEnd(tx, sel)
  {
    hide SelectorValue;
    var n := Entries(tx);
    NotNegative(row, n);
    ModIs(row * n + col, row, n, col);
    var id: nat := RowFirst(tx, sel, row) + col;
    assert id - sel == row * n + col && RowOf(tx, sel, id) == row;
    MulMono(row + 1, |Assets(tx)|, n);
    assert (row + 1) * n == row * n + n;
  }

  lemma SelectAgrees(p: int, tx: Tx, sel: nat, w: Witness)
    requires p > 0
    ensures AgreeBelow(w, Select(p, tx, sel, w), sel)
  {
    hide SelectorValue;
  }

  /** A row of selectors, in any witness that has them. */
  lemma RowIsOneHot(p: int, tx: Tx, sel: nat, w: Witness, h: Witness, row: nat, c: Coin)
    requires p > 0 && row < |Assets(tx)| && AgreeBelow(Select(p, tx, sel, w), h, RowsEnd(tx, sel))
    requires c.asset == Eval(Assets(tx)[row], w)
    requires c.selectors == Evals(BitVars(RowFirst(tx, sel, row), Entries(tx)), h)
    ensures IsOneHot(p, c, AssetList(tx, w))
  {
    hide Select, EntryOf, RowsEnd, RowFirst, Eval;
    var n, list := Entries(tx), AssetList(tx, w);
    assert |list| == n;
    forall j | 0 <= j < n ensures c.selectors[j] == SelectorValue(p, tx, w, row, j) {
      SelectAt(p, tx, sel, w, row, j);
      EvalVar(RowFirst(tx, sel, row) + j, h);
    }
    assert c.selectors == OneHot(|list|, EntryOf(p, list, c.asset, 0));
  }

  // ---- Transactions ----

  /** The coins of what is decoded have the assets, and one-hot selectors. */
  lemma CoinsAreOneHot(p: int, tx: Tx, sel: nat, first: nat, w: Witness, h: Witness)
    requires p > 0 && IsTx(tx) && IsPlaced(tx, sel) && RowsEnd(tx, sel) <= first
    requires AgreeBelow(Select(p, tx, sel, w), h, first)
    ensures var r := DecodedTx(tx, first); var list := AssetList(tx, w);
      && AssetList(r, h) == list && AreOneHot(p, OutCoins(r, h), list) && AreOneHot(p, InCoins(r, h), list)
  {
    hide Select, EntryOf, RowsEnd, RowFirst, Eval, IsOneHot, UsesBelow, NewAmount;
    var r := DecodedTx(tx, first);
    SelBelowEnd(tx, sel);
    SelectAgrees(p, tx, sel, w);
    AgreeTrans(w, Select(p, tx, sel, w), h, sel, first);
    forall i | 0 <= i < |tx.txAsset| ensures Eval(tx.txAsset[i], h) == Eval(tx.txAsset[i], w) {
      EvalAgrees(tx.txAsset[i], w, h, sel);
    }
    assert Evals(tx.txAsset, h) == Evals(tx.txAsset, w);
    forall i | 0 <= i < |tx.outs| ensures IsOneHot(p, OutCoins(r, h)[i], AssetList(tx, w)) {
      EvalAgrees(tx.outs[i].asset, w, h, sel);
      assert Assets(tx)[i] == tx.outs[i].asset;
      RowIsOneHot(p, tx, sel, w, h, i, OutCoins(r, h)[i]);
    }
    forall i | 0 <= i < |tx.ins| ensures IsOneHot(p, InCoins(r, h)[i], AssetList(tx, w)) {
      EvalAgrees(tx.ins[i].asset, w, h, sel);
      assert Assets(tx)[|tx.outs| + i] == tx.ins[i].asset;
      RowIsOneHot(p, tx, sel, w, h, |tx.outs| + i, InCoins(r, h)[i]);
    }
  }

  lemma SelBelowEnd(tx: Tx, sel: nat)
    ensures sel <= RowsEnd(tx, sel)
  {
    NotNegative(|tx.outs| + |tx.ins|, Entries(tx));
  }

  ghost predicate AreAmounts(p: int, es: seq<Expr>, w: Witness)
    requires p > 0
  {
    forall i :: 0 <= i < |es| ==> Value(p, es[i], w) < Pow2(TX_AMOUNT_BITS)
  }

  predicate AllUseBelow(es: seq<Expr>, n: nat) { forall i :: 0 <= i < |es| ==> UsesBelow(es[i], n) }

  /** The bits of amounts of 40 bits satisfy their constraints. */
  lemma {:induction false} BitsExist(p: int, es: seq<Expr>, first: nat, w: Witness, k: nat) returns (h: Witness)
    requires IsPrime(p) && k <= |es| && AllUseBelow(es, first) && AreAmounts(p, es, w)
    ensures AgreeBelow(w, h, first) && Satisfied(p, BitsEmit(es, first, k), h)
    ensures AllBelow(BitsEmit(es, first, k), first + TX_AMOUNT_BITS * k)
  {
    hide Satisfied, BitConstraints, Value, Pow2, UsesBelow, AllBelow, AgreeBelow, HashCircuit.IsCut;
    if k == 0 {
      h := w;
      AgreeSelf(w, first);
      NothingEmitted(p, w);
      NoneBelow(first);
    } else {
      var g := BitsExist(p, es, first, w, k - 1);
      var e, f, n := es[k - 1], first + TX_AMOUNT_BITS * (k - 1), first + TX_AMOUNT_BITS * k;
      var before, bits := BitsEmit(es, first, k - 1), BitConstraints(es[k - 1], f, TX_AMOUNT_BITS, false);
      ValueAgrees(p, e, w, g, first);
      BelowMore(e, first, f);
      AllOfIt(p, Value(p, e, g));
      h := BitsComplete(p, e, f, TX_AMOUNT_BITS, false, g, HashCircuit.Cut(Value(p, e, g), 0));
      AgreeTrans(w, g, h, first, f);
      StaysSatisfied(p, before, g, h, f);
      SatisfiedConcat(p, before, bits, h);
      AllBelowMore(before, f, n);
      ConcatBelow(before, bits, n);
    }
  }

  lemma AllOfIt(p: int, v: nat)
    requires p > 0 && v < Pow2(TX_AMOUNT_BITS)
    ensures HashCircuit.IsCut(p, v, TX_AMOUNT_BITS, HashCircuit.Cut(v, 0), false)
  {
    hide Pow2;
    SameSelf(p, v);
  }

  /** For every asset, what the inputs bring is what the outputs and the donation take. */
  ghost predicate IsBalanced(p: int, tx: Tx, w: Witness, donation: int)
    requires p > 0
  {
    forall v: int ::
      Brought(p, tx, w, v, |tx.ins|) == Taken(p, tx, w, v, |tx.outs|) + if v == 0 then donation else 0
  }

  ghost predicate AllListed(p: int, tx: Tx, w: Witness)
    requires p > 0
  {
    forall i :: 0 <= i < |Assets(tx)| ==> IsListed(p, AssetList(tx, w), Eval(Assets(tx)[i], w))
  }

  // ---- New variables change no totals ----

  lemma {:induction false} TakenAgrees(p: int, tx: Tx, sel: nat, w: Witness, h: Witness, v: int, k: nat)
    requires p > 0 && k <= |tx.outs| && IsPlaced(tx, sel) && AgreeBelow(w, h, sel)
    ensures Taken(p, tx, w, v, k) == Taken(p, tx, h, v, k)
  {
    hide UsesBelow, Value, TxAmountDecode, RowFirst;
    if k > 0 {
      TakenAgrees(p, tx, sel, w, h, v, k - 1);
      ValueAgrees(p, tx.outs[k - 1].asset, w, h, sel);
      ValueAgrees(p, tx.outs[k - 1].amount, w, h, sel);
      ValueAgrees(p, tx.outs[k - 1].multiplier, w, h, sel);
    }
  }

  lemma {:induction false} BroughtAgrees(p: int, tx: Tx, sel: nat, w: Witness, h: Witness, v: int, k: nat)
    requires p > 0 && k <= |tx.ins| && IsPlaced(tx, sel) && AgreeBelow(w, h, sel)
    ensures Brought(p, tx, w, v, k) == Brought(p, tx, h, v, k)
  {
    hide UsesBelow, Value, TxAmountDecode, RowFirst;
    if k > 0 {
      BroughtAgrees(p, tx, sel, w, h, v, k - 1);
      ValueAgrees(p, tx.ins[k - 1].asset, w, h, sel);
      ValueAgrees(p, tx.ins[k - 1].amount, w, h, sel);
    }
  }

  lemma MultipliersAgree(p: int, tx: Tx, sel: nat, w: Witness, h: Witness)
    requires p > 0 && IsPlaced(tx, sel) && AgreeBelow(w, h, sel) && AreMultipliers(p, tx, w)
    ensures AreMultipliers(p, tx, h) && Eval(tx.donation, h) == Eval(tx.donation, w)
  {
    hide UsesBelow, Value, RowFirst;
    EvalAgrees(tx.donation, w, h, sel);
    forall i | 0 <= i < |tx.outs| ensures Value(p, tx.outs[i].multiplier, h) < 0x1_0000_0000 {
      ValueAgrees(p, tx.outs[i].multiplier, w, h, sel);
    }
  }

  lemma AssetsPlaced(tx: Tx, sel: nat, i: nat)
    requires IsPlaced(tx, sel) && i < |Assets(tx)|
    ensures UsesBelow(Assets(tx)[i], sel)
  {
    hide UsesBelow, RowFirst;
  }

  lemma ListAgrees(p: int, tx: Tx, sel: nat, w: Witness, h: Witness)
    requires p > 0 && IsPlaced(tx, sel) && AgreeBelow(w, h, sel)
    ensures AssetList(tx, h) == AssetList(tx, w)
    ensures forall i :: 0 <= i < |Assets(tx)| ==> Eval(Assets(tx)[i], h) == Eval(Assets(tx)[i], w)
  {
    hide UsesBelow, RowFirst, Eval, Assets;
    forall i | 0 <= i < |tx.txAsset| ensures Eval(tx.txAsset[i], h) == Eval(tx.txAsset[i], w) {
      EvalAgrees(tx.txAsset[i], w, h, sel);
    }
    assert Evals(tx.txAsset, h) == Evals(tx.txAsset, w);
    forall i | 0 <= i < |Assets(tx)| ensures Eval(Assets(tx)[i], h) == Eval(Assets(tx)[i], w) {
      AssetsPlaced(tx, sel, i);
      EvalAgrees(Assets(tx)[i], w, h, sel);
    }
  }

  // ---- Both directions ----

  /** The integers' balance is the field's. */
  lemma ConservingInField(p: int, tx: Tx, first: nat, h: Witness, donation: int)
    requires p > 0 && IsTx(tx) && AllSpelled(p, tx, first, h) && AreMultipliers(p, tx, h)
    requires IsBalanced(p, tx, h, donation) && Same(p, Eval(tx.donation, h), donation)
    ensures IsConserving(p, OutCoins(DecodedTx(tx, first), h), InCoins(DecodedTx(tx, first), h), Eval(tx.donation, h))
  {
    hide AllSpelled, UsesDecoder, AreAllBits, OutTotal, InTotal, Taken, Brought, Eval, Same, Total, IsBalanced,
         AreMultipliers, IsTx, OutCoins, InCoins, DecodedTx;
    var r, bits := DecodedTx(tx, first), AllNewBits(tx, first);
    NewAmountsFit(p, tx, first, h);
    forall v: int
      ensures Same(p, Total(p, InCoins(r, h), v, |InCoins(r, h)|),
                   Total(p, OutCoins(r, h), v, |OutCoins(r, h)|) + if v == 0 then Eval(tx.donation, h) else 0)
    {
      TakenIs(p, tx, first, h, v, |tx.outs|);
      BroughtIs(p, tx, first, h, v, |tx.ins|);
      DecodedMultipliers(p, tx, first, h);
      InTotalSame(p, r, bits, h, v, |tx.ins|);
      OutTotalSame(p, r, bits, h, v, |tx.outs|);
      BalancedAt(p, tx, h, donation, v);
      var ti, to := Total(p, InCoins(r, h), v, |tx.ins|), Total(p, OutCoins(r, h), v, |tx.outs|);
      var d, e := if v == 0 then Eval(tx.donation, h) else 0, if v == 0 then donation else 0;
      SameSelf(p, 0);
      SameAdd(p, to, Taken(p, tx, h, v, |tx.outs|), d, e);
      SameSym(p, to + d, Taken(p, tx, h, v, |tx.outs|) + e);
      SameTrans(p, ti, Brought(p, tx, h, v, |tx.ins|), to + d);
    }
  }

  lemma DecodedMultipliers(p: int, tx: Tx, first: nat, h: Witness)
    requires p > 0 && AreMultipliers(p, tx, h)
    ensures AreMultipliers(p, DecodedTx(tx, first), h)
  {
    hide Value, NewAmount;
  }

  lemma BalancedAt(p: int, tx: Tx, w: Witness, donation: int, v: int)
    requires p > 0 && IsBalanced(p, tx, w, donation)
    ensures Brought(p, tx, w, v, |tx.ins|) == Taken(p, tx, w, v, |tx.outs|) + if v == 0 then donation else 0
  {
  }

  /** What a transaction has to be for its constraints to be satisfied: amounts of 40
      bits, assets that are in the list, and balances. */
  ghost predicate IsProvable(p: int, tx: Tx, w: Witness, donation: int)
    requires p > 0
  {
    && AreAmounts(p, OutAmounts(tx), w) && AreAmounts(p, InAmounts(tx), w)
    && AllListed(p, tx, w) && IsBalanced(p, tx, w, donation)
  }

  lemma ListedCoins(p: int, tx: Tx, sel: nat, first: nat, w: Witness, h: Witness)
    requires p > 0 && IsTx(tx) && IsPlaced(tx, sel) && AgreeBelow(w, h, sel)
    ensures var r := DecodedTx(tx, first);
      && AssetList(r, h) == AssetList(tx, w)
      && (AllListed(p, tx, w)
          <==> AreListed(p, OutCoins(r, h), AssetList(r, h)) && AreListed(p, InCoins(r, h), AssetList(r, h)))
  {
    hide IsListed, Eval, NewAmount, IsPlaced;
    var r, list := DecodedTx(tx, first), AssetList(tx, w);
    ListAgrees(p, tx, sel, w, h);
    assert forall i :: 0 <= i < |tx.outs| ==> OutCoins(r, h)[i].asset == Eval(Assets(tx)[i], h);
    assert forall i :: 0 <= i < |tx.ins| ==> InCoins(r, h)[i].asset == Eval(Assets(tx)[|tx.outs| + i], h);
    if AreListed(p, OutCoins(r, h), list) && AreListed(p, InCoins(r, h), list) {
      forall i | 0 <= i < |Assets(tx)| ensures IsListed(p, list, Eval(Assets(tx)[i], w)) {
        if i < |tx.outs| {
          assert IsListed(p, list, OutCoins(r, h)[i].asset);
        } else {
          assert IsListed(p, list, InCoins(r, h)[i - |tx.outs|].asset);
        }
      }
    }
  }

  /** Values for the selectors and the bits of a transaction that conserves its assets. */
  lemma WholeComplete(p: int, tx: Tx, sel: nat, w: Witness, donation: int) returns (h: Witness)
    requires IsPrime(p) && IsLarge(p) && IsTx(tx) && IsPlaced(tx, sel) && AreMultipliers(p, tx, w)
    requires Same(p, Eval(tx.donation, w), donation) && IsProvable(p, tx, w, donation)
    ensures AgreeBelow(w, h, sel) && Satisfied(p, WholeEmits(tx, RowsEnd(tx, sel)), h)
  {
    hide Satisfied, WholeEmits, AllSpelled, IsLarge, TxConstraints, Taken, Brought, Eval, IsTx, IsPlaced, RowsEnd,
         AgreeBelow, AreAmounts, AllListed, IsBalanced, AllBelow, AllUseBelow, BitsEmit, Select, Same, AreMultipliers,
         OutCoins, InCoins, DecodedTx, AreOneHot, AreListed, IsConserving, AreSelected, AreBalanced, AssetList;
    var first := RowsEnd(tx, sel);
    SelBelowEnd(tx, sel);
    var g := Select(p, tx, sel, w);
    SelectAgrees(p, tx, sel, w);
    h := AllBitsExist(p, tx, sel, first, w, g);
    AgreeTrans(w, g, h, sel, first);
    BitsSpell(p, tx, first, h);
    CoinsAreOneHot(p, tx, sel, first, w, h);
    ListedCoins(p, tx, sel, first, w, h);
    BalanceAgrees(p, tx, sel, w, h, donation);
    MultipliersAgree(p, tx, sel, w, h);
    ConservingInField(p, tx, first, h, donation);
    var r := DecodedTx(tx, first);
    DecodedFits(tx, first, h);
    SelectableIff(p, OutCoins(r, h), InCoins(r, h), AssetList(r, h), Eval(tx.donation, h));
    TxConstraintsIff(p, r, h);
    WholeSplit(p, tx, first, h);
  }

  lemma DecodedFits(tx: Tx, first: nat, h: Witness)
    requires IsTx(tx)
    ensures var r := DecodedTx(tx, first); var list := AssetList(r, h);
      && IsTx(r) && r.donation == tx.donation && |list| == |r.txAsset| + 1 && list[0] == 0
      && FitList(OutCoins(r, h), |list|) && FitList(InCoins(r, h), |list|)
  {
    hide NewAmount, Eval;
  }

  lemma BalanceAgrees(p: int, tx: Tx, sel: nat, w: Witness, h: Witness, donation: int)
    requires p > 0 && IsPlaced(tx, sel) && AgreeBelow(w, h, sel)
    ensures IsBalanced(p, tx, w, donation) <==> IsBalanced(p, tx, h, donation)
  {
    hide IsPlaced, AgreeBelow, Taken, Brought;
    forall v: int
      ensures Brought(p, tx, w, v, |tx.ins|) == Brought(p, tx, h, v, |tx.ins|)
      ensures Taken(p, tx, w, v, |tx.outs|) == Taken(p, tx, h, v, |tx.outs|)
    {
      TakenAgrees(p, tx, sel, w, h, v, |tx.outs|);
      BroughtAgrees(p, tx, sel, w, h, v, |tx.ins|);
    }
  }

  lemma AmountsAgree(p: int, es: seq<Expr>, sel: nat, w: Witness, h: Witness)
    requires p > 0 && AllUseBelow(es, sel) && AgreeBelow(w, h, sel)
    ensures AreAmounts(p, es, w) <==> AreAmounts(p, es, h)
  {
    hide UsesBelow, Value, Pow2;
    forall i | 0 <= i < |es| ensures Value(p, es[i], w) == Value(p, es[i], h) {
      ValueAgrees(p, es[i], w, h, sel);
    }
  }

  lemma AmountsPlaced(tx: Tx, sel: nat, n: nat)
    requires IsPlaced(tx, sel) && sel <= n
    ensures AllUseBelow(OutAmounts(tx), n) && AllUseBelow(InAmounts(tx), n)
  {
    hide UsesBelow, RowFirst;
    forall i | 0 <= i < |tx.outs| ensures UsesBelow(OutAmounts(tx)[i], n) {
      BelowMore(tx.outs[i].amount, sel, n);
    }
    forall i | 0 <= i < |tx.ins| ensures UsesBelow(InAmounts(tx)[i], n) {
      BelowMore(tx.ins[i].amount, sel, n);
    }
  }

  lemma AllBitsExist(p: int, tx: Tx, sel: nat, first: nat, w: Witness, g: Witness) returns (h: Witness)
    requires IsPrime(p) && IsPlaced(tx, sel) && sel <= first && AgreeBelow(w, g, sel)
    requires AreAmounts(p, OutAmounts(tx), w) && AreAmounts(p, InAmounts(tx), w)
    ensures AgreeBelow(g, h, first)
    ensures Satisfied(p, BitsEmit(OutAmounts(tx), first, |tx.outs|), h)
    ensures Satisfied(p, BitsEmit(InAmounts(tx), InsFirst(tx, first), |tx.ins|), h)
  {
    hide Satisfied, BitsEmit, UsesBelow, Value, Pow2, AgreeBelow, AllBelow, AreAmounts, AllUseBelow, IsPlaced;
    var mid := InsFirst(tx, first);
    AmountsPlaced(tx, sel, sel);
    AmountsPlaced(tx, sel, first);
    AmountsPlaced(tx, sel, mid);
    AmountsAgree(p, OutAmounts(tx), sel, w, g);
    var h0 := BitsExist(p, OutAmounts(tx), first, g, |tx.outs|);
    AgreeMore(w, g, h0, sel, first);
    AmountsAgree(p, InAmounts(tx), sel, w, h0);
    h := BitsExist(p, InAmounts(tx), mid, h0, |tx.ins|);
    AgreeTrans(g, h0, h, first, mid);
    StaysSatisfied(p, BitsEmit(OutAmounts(tx), first, |tx.outs|), h0, h, mid);
  }

  lemma AgreeMore(u: Witness, v: Witness, w: Witness, m: nat, n: nat)
    requires AgreeBelow(u, v, m) && AgreeBelow(v, w, n) && m <= n
    ensures AgreeBelow(u, w, m)
  {
    AgreeTrans(u, v, w, m, n);
  }

  /** Only such a transaction has satisfying values. */
  lemma WholeSound(p: int, tx: Tx, sel: nat, w: Witness, h: Witness, donation: int)
    requires IsPrime(p) && IsLarge(p) && IsTx(tx) && IsPlaced(tx, sel) && AreMultipliers(p, tx, w)
    requires |tx.outs| <= MAX_COINS && |tx.ins| <= MAX_COINS && IsDonation(donation)
    requires Same(p, Eval(tx.donation, w), donation)
    requires AgreeBelow(w, h, sel) && Satisfied(p, WholeEmits(tx, RowsEnd(tx, sel)), h)
    ensures IsProvable(p, tx, w, donation)
  {
    hide Satisfied, WholeEmits, AllSpelled, IsLarge, TxConstraints, Taken, Brought, Eval, IsTx, IsPlaced, RowsEnd,
         AgreeBelow, AreAmounts, AllListed, AllUseBelow, BitsEmit, Same, AreMultipliers, OutCoins, InCoins, DecodedTx,
         AreListed, IsConserving, AreSelected, AreBalanced, AssetList, AreOneHot, IsDonation;
    var first := RowsEnd(tx, sel);
    WholeSplit(p, tx, first, h);
    BitsSpell(p, tx, first, h);
    SpelledAmounts(p, tx, first, h);
    AmountsPlaced(tx, sel, sel);
    AmountsAgree(p, OutAmounts(tx), sel, w, h);
    AmountsAgree(p, InAmounts(tx), sel, w, h);
    MultipliersAgree(p, tx, sel, w, h);
    forall v: int
      ensures Brought(p, tx, h, v, |tx.ins|) == Taken(p, tx, h, v, |tx.outs|) + if v == 0 then donation else 0
    {
      AmountsBalance(p, tx, first, h, v, donation);
    }
    BalanceAgrees(p, tx, sel, w, h, donation);
    var r := DecodedTx(tx, first);
    DecodedFits(tx, first, h);
    TxConstraintsIff(p, r, h);
    SelectableIff(p, OutCoins(r, h), InCoins(r, h), AssetList(r, h), Eval(tx.donation, h));
    ListedCoins(p, tx, sel, first, w, h);
  }

  lemma SpelledAmounts(p: int, tx: Tx, first: nat, h: Witness)
    requires p > 0 && AllSpelled(p, tx, first, h)
    ensures AreAmounts(p, OutAmounts(tx), h) && AreAmounts(p, InAmounts(tx), h)
  {
    hide Value, Pow2, Number, AreBits, NewBits;
    var bits := AllNewBits(tx, first);
    forall i | 0 <= i < |tx.outs| ensures Value(p, OutAmounts(tx)[i], h) < Pow2(TX_AMOUNT_BITS) {
      assert SpellsAmount(p, tx.outs[i].amount, bits.outs[i], h);
      NumberInRange(p, bits.outs[i], h, TX_AMOUNT_BITS);
    }
    forall i | 0 <= i < |tx.ins| ensures Value(p, InAmounts(tx)[i], h) < Pow2(TX_AMOUNT_BITS) {
      assert SpellsAmount(p, tx.ins[i].amount, bits.ins[i], h);
      NumberInRange(p, bits.ins[i], h, TX_AMOUNT_BITS);
    }
  }

  /** In a field of 254 bits: the constraints can be satisfied if and only if the encoded
      amounts have 40 bits, every asset is in the list, and the integers that the amounts
      stand for balance, for every asset. */
  lemma WholeIff(p: int, tx: Tx, sel: nat, w: Witness, donation: int)
    requires IsPrime(p) && IsLarge(p) && IsTx(tx) && IsPlaced(tx, sel) && AreMultipliers(p, tx, w)
    requires |tx.outs| <= MAX_COINS && |tx.ins| <= MAX_COINS && IsDonation(donation)
    requires Same(p, Eval(tx.donation, w), donation)
    ensures (exists h: Witness :: AgreeBelow(w, h, sel) && Satisfied(p, WholeEmits(tx, RowsEnd(tx, sel)), h))
       <==> IsProvable(p, tx, w, donation)
  {
    hide Satisfied, WholeEmits, AgreeBelow, IsLarge, IsTx, IsPlaced, RowsEnd, AreMultipliers, Same, IsProvable, Eval,
         IsDonation;
    forall h: Witness | AgreeBelow(w, h, sel) && Satisfied(p, WholeEmits(tx, RowsEnd(tx, sel)), h)
      ensures IsProvable(p, tx, w, donation)
    {
      WholeSound(p, tx, sel, w, h, donation);
    }
    if IsProvable(p, tx, w, donation) {
      var h := WholeComplete(p, tx, sel, w, donation);
    }
  }
}
