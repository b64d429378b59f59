/** Conservation of every asset, as arithmetic in the field: what the selector
    and balance constraints of source/cclib/src/CCproof.cpp mean for the values
    of the inputs and outputs of a transaction. */
module AssetBalance {
  import opened Arith
  import opened Field

  /** An input or output: its asset, one selector for each entry of the asset
      list, and what it counts for (amount, or amount times multiplier). */
  datatype Coin = Coin(asset: int, selectors: seq<int>, amount: int)

  function Sum(xs: seq<int>, k: nat): int
    requires k <= |xs|
  {
    if k == 0 then 0 else Sum(xs, k - 1) + xs[k - 1]
  }

  /** The selectors add up to 1, and a selector that is not zero belongs to the
      list entry that is the coin's asset. */
  ghost predicate IsSelected(p: int, c: Coin, list: seq<int>)
    requires p > 0
  {
    && |c.selectors| == |list|
    && IsZero(p, 1 - Sum(c.selectors, |list|))
    && forall j :: 0 <= j < |list| ==> IsZero(p, (c.asset - list[j]) * c.selectors[j])
  }

  ghost predicate AreSelected(p: int, coins: seq<Coin>, list: seq<int>)
    requires p > 0
  {
    forall i :: 0 <= i < |coins| ==> IsSelected(p, coins[i], list)
  }

  predicate FitList(coins: seq<Coin>, n: nat) { forall i :: 0 <= i < |coins| ==> |coins[i].selectors| == n }

  /** The amounts that go through list entry j. */
  function Through(coins: seq<Coin>, n: nat, j: nat, k: nat): int
    requires FitList(coins, n) && j < n && k <= |coins|
  {
    if k == 0 then 0 else Through(coins, n, j, k - 1) + coins[k - 1].selectors[j] * coins[k - 1].amount
  }

  /** What the balance constraint of list entry j makes zero. */
  function Imbalance(outs: seq<Coin>, ins: seq<Coin>, n: nat, donation: int, j: nat): int
    requires FitList(outs, n) && FitList(ins, n) && j < n
  {
    (if j == 0 then donation else 0) + Through(outs, n, j, |outs|) - Through(ins, n, j, |ins|)
  }

  /** All balance constraints hold. */
  ghost predicate AreBalanced(p: int, outs: seq<Coin>, ins: seq<Coin>, n: nat, donation: int)
    requires p > 0 && FitList(outs, n) && FitList(ins, n)
  {
    forall j :: 0 <= j < n ==> IsZero(p, Imbalance(outs, ins, n, donation, j))
  }

  /** The total of the coins whose asset is v. */
  function Total(p: int, coins: seq<Coin>, v: int, k: nat): int
    requires p > 0 && k <= |coins|
  {
    if k == 0 then 0
    else Total(p, coins, v, k - 1) + if Residue(coins[k - 1].asset, p) == v then coins[k - 1].amount else 0
  }

  // ---- Selectors of one asset ----

  /** The selectors of c at the list entries, among the first k, that are v. */
  function Selected(p: int, c: Coin, list: seq<int>, v: int, k: nat): int
    requires p > 0 && |c.selectors| == |list| && k <= |list|
  {
    if k == 0 then 0
    else Selected(p, c, list, v, k - 1) + if Residue(list[k - 1], p) == v then c.selectors[k - 1] else 0
  }

  /** A selector at an entry that is not the coin's asset is zero. */
  lemma OtherEntry(p: int, c: Coin, list: seq<int>, j: nat)
    requires IsPrime(p) && IsSelected(p, c, list) && j < |list|
    requires Residue(list[j], p) != Residue(c.asset, p)
    ensures IsZero(p, c.selectors[j])
  {
    NoZeroDivisors(p, c.asset - list[j], c.selectors[j]);
    SameIffZero(p, c.asset, list[j]);
  }

  lemma {:induction false} SelectedIfAsset(p: int, c: Coin, list: seq<int>, v: int, k: nat)
    requires IsPrime(p) && IsSelected(p, c, list) && k <= |list| && Residue(c.asset, p) == v
    ensures IsZero(p, Sum(c.selectors, k) - Selected(p, c, list, v, k))
  {
    hide Residue, IsZero;
    if k == 0 {
      MultipleIsZero(p, 0, 0);
    } else {
      SelectedIfAsset(p, c, list, v, k - 1);
      if Residue(list[k - 1], p) != v {
        OtherEntry(p, c, list, k - 1);
        ZeroAdd(p, Sum(c.selectors, k - 1) - Selected(p, c, list, v, k - 1), c.selectors[k - 1]);
      }
    }
  }

  lemma {:induction false} SelectedIfOther(p: int, c: Coin, list: seq<int>, v: int, k: nat)
    requires IsPrime(p) && IsSelected(p, c, list) && k <= |list| && Residue(c.asset, p) != v
    ensures IsZero(p, Selected(p, c, list, v, k))
  {
    hide Residue, IsZero;
    if k == 0 {
      MultipleIsZero(p, 0, 0);
    } else {
      SelectedIfOther(p, c, list, v, k - 1);
      if Residue(list[k - 1], p) == v {
        OtherEntry(p, c, list, k - 1);
        ZeroAdd(p, Selected(p, c, list, v, k - 1), c.selectors[k - 1]);
      }
    }
  }

  /** Over the entries that are v, a coin is selected once if v is its asset, and
      not at all otherwise, however often v occurs in the list. */
  lemma SelectedOnce(p: int, c: Coin, list: seq<int>, v: int)
    requires IsPrime(p) && IsSelected(p, c, list)
    ensures IsZero(p, Selected(p, c, list, v, |list|) - if Residue(c.asset, p) == v then 1 else 0)
  {
    hide Residue, IsZero;
    var s := Selected(p, c, list, v, |list|);
    if Residue(c.asset, p) == v {
      SelectedIfAsset(p, c, list, v, |list|);
      ZeroAdd(p, 1 - Sum(c.selectors, |list|), Sum(c.selectors, |list|) - s);
      ZeroNegate(p, 1 - s);
      assert -(1 - s) == s - 1;
    } else {
      SelectedIfOther(p, c, list, v, |list|);
    }
  }

  // ---- Adding up ----

  /** The amounts of the first m coins through the entries, among the first k, that are v. */
  function Routed(p: int, coins: seq<Coin>, list: seq<int>, v: int, k: nat, m: nat): int
    requires p > 0 && FitList(coins, |list|) && k <= |list| && m <= |coins|
  {
    if m == 0 then 0
    else Routed(p, coins, list, v, k, m - 1) + Selected(p, coins[m - 1], list, v, k) * coins[m - 1].amount
  }

  /** One more entry that is v adds what goes through it. */
  lemma {:induction false} RoutedStep(p: int, coins: seq<Coin>, list: seq<int>, v: int, k: nat, m: nat)
    requires p > 0 && FitList(coins, |list|) && k < |list| && m <= |coins|
    ensures Routed(p, coins, list, v, k + 1, m)
         == Routed(p, coins, list, v, k, m) + if Residue(list[k], p) == v then Through(coins, |list|, k, m) else 0
  {
    hide Residue;
    if m > 0 {
      RoutedStep(p, coins, list, v, k, m - 1);
      var c := coins[m - 1];
      var s := Selected(p, c, list, v, k);
      if Residue(list[k], p) == v {
        assert (s + c.selectors[k]) * c.amount == s * c.amount + c.selectors[k] * c.amount;
      }
    }
  }

  lemma {:induction false} RoutedNothing(p: int, coins: seq<Coin>, list: seq<int>, v: int, m: nat)
    requires p > 0 && FitList(coins, |list|) && m <= |coins|
    ensures Routed(p, coins, list, v, 0, m) == 0
  {
    if m > 0 {
      RoutedNothing(p, coins, list, v, m - 1);
    }
  }

  /** What the first m coins route through the entries that are v is their total
      of asset v. */
  lemma {:induction false} RoutedIsTotal(p: int, coins: seq<Coin>, list: seq<int>, v: int, m: nat)
    requires IsPrime(p) && AreSelected(p, coins, list) && FitList(coins, |list|) && m <= |coins|
    ensures IsZero(p, Routed(p, coins, list, v, |list|, m) - Total(p, coins, v, m))
  {
    hide Residue, IsZero;
    if m == 0 {
      MultipleIsZero(p, 0, 0);
    } else {
      RoutedIsTotal(p, coins, list, v, m - 1);
      var c := coins[m - 1];
      SelectedOnce(p, c, list, v);
      var s, one := Selected(p, c, list, v, |list|), if Residue(c.asset, p) == v then 1 else 0;
      ZeroTimes(p, s - one, c.amount);
      assert (s - one) * c.amount == s * c.amount - one * c.amount;
      var r, t := Routed(p, coins, list, v, |list|, m - 1), Total(p, coins, v, m - 1);
      ZeroAdd(p, r - t, s * c.amount - one * c.amount);
      assert Routed(p, coins, list, v, |list|, m) == r + s * c.amount;
      assert Total(p, coins, v, m) == t + one * c.amount;
    }
  }

  /** The balances of the entries, among the first k, that are v add up to zero. */
  lemma {:induction false} RoutedBalance(p: int, outs: seq<Coin>, ins: seq<Coin>, list: seq<int>, donation: int, v: int,
                                         k: nat)
    requires p > 0 && FitList(outs, |list|) && FitList(ins, |list|) && 0 < k <= |list| && Residue(list[0], p) == 0
    requires AreBalanced(p, outs, ins, |list|, donation)
    ensures IsZero(p, (if v == 0 then donation else 0)
                      + Routed(p, outs, list, v, k, |outs|) - Routed(p, ins, list, v, k, |ins|))
  {
    hide Residue, IsZero, Routed, Through;
    RoutedStep(p, outs, list, v, k - 1, |outs|);
    RoutedStep(p, ins, list, v, k - 1, |ins|);
    var bal := Imbalance(outs, ins, |list|, donation, k - 1);
    if k == 1 {
      RoutedNothing(p, outs, list, v, |outs|);
      RoutedNothing(p, ins, list, v, |ins|);
      if v != 0 {
        MultipleIsZero(p, 0, 0);
      }
    } else {
      RoutedBalance(p, outs, ins, list, donation, v, k - 1);
      if Residue(list[k - 1], p) == v {
        ZeroAdd(p, (if v == 0 then donation else 0) + Routed(p, outs, list, v, k - 1, |outs|)
                   - Routed(p, ins, list, v, k - 1, |ins|), bal);
      }
    }
  }

  /** Conservation: for every asset v, what the inputs bring is what the outputs
      and, for asset 0, the donation take, whether or not v is in the list and
      however often. */
  lemma {:induction false} AssetsBalance(p: int, outs: seq<Coin>, ins: seq<Coin>, list: seq<int>, donation: int, v: int)
    requires IsPrime(p) && |list| > 0 && Residue(list[0], p) == 0
    requires AreSelected(p, outs, list) && AreSelected(p, ins, list)
    requires FitList(outs, |list|) && FitList(ins, |list|)
    requires AreBalanced(p, outs, ins, |list|, donation)
    ensures Same(p, Total(p, ins, v, |ins|), Total(p, outs, v, |outs|) + if v == 0 then donation else 0)
  {
    hide Residue, IsZero, Imbalance, Same, Routed, Total, AreSelected, FitList;
    RoutedBalance(p, outs, ins, list, donation, v, |list|);
    RoutedIsTotal(p, outs, list, v, |outs|);
    RoutedIsTotal(p, ins, list, v, |ins|);
    Eliminate(p, if v == 0 then donation else 0,
              Routed(p, outs, list, v, |list|, |outs|), Routed(p, ins, list, v, |list|, |ins|),
              Total(p, outs, v, |outs|), Total(p, ins, v, |ins|));
  }

  lemma Eliminate(p: int, d: int, ro: int, ri: int, to: int, ti: int)
    requires p > 0 && IsZero(p, d + ro - ri) && IsZero(p, ro - to) && IsZero(p, ri - ti)
    ensures Same(p, ti, to + d)
  {
    hide Residue, IsZero, Same;
    ZeroNegate(p, d + ro - ri);
    ZeroNegate(p, ri - ti);
    ZeroAdd(p, -(d + ro - ri), -(ri - ti));
    ZeroAdd(p, -(d + ro - ri) + -(ri - ti), ro - to);
    assert -(d + ro - ri) + -(ri - ti) + (ro - to) == ti - (to + d);
    SameIffZero(p, ti, to + d);
  }

  /** With totals below the prime, the numbers themselves are equal. */
  lemma {:induction false} AssetsBalanceExactly(p: int, outs: seq<Coin>, ins: seq<Coin>, list: seq<int>, donation: int,
                                                v: int)
    requires IsPrime(p) && |list| > 0 && Residue(list[0], p) == 0
    requires AreSelected(p, outs, list) && AreSelected(p, ins, list)
    requires FitList(outs, |list|) && FitList(ins, |list|)
    requires AreBalanced(p, outs, ins, |list|, donation)
    requires 0 <= Total(p, ins, v, |ins|) < p
    requires 0 <= Total(p, outs, v, |outs|) + (if v == 0 then donation else 0) < p
    ensures Total(p, ins, v, |ins|) == Total(p, outs, v, |outs|) + if v == 0 then donation else 0
  {
    hide Residue, IsZero, Imbalance, Same, Total, AreSelected, FitList;
    AssetsBalance(p, outs, ins, list, donation, v);
    SameSmall(p, Total(p, ins, v, |ins|), Total(p, outs, v, |outs|) + if v == 0 then donation else 0);
  }

  lemma SameSmall(p: int, x: int, y: int)
    requires 0 <= x < p && 0 <= y < p && Same(p, x, y)
    ensures x == y
  {
    ResidueSmall(x, p);
    ResidueSmall(y, p);
  }
}
