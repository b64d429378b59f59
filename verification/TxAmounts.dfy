/** The conservation rule of a transaction, source/cclib/src/CCproof.cpp, from the
    bits of the encoded amounts to the integers that they stand for. */
module TxAmounts {
  import opened Arith
  import opened Field
  import opened Circuit
  import opened BitGadgets
  import opened AssetBalance
  import opened AmountCircuit
  import opened TxAssets

  /** The bits of every encoded amount. */
  datatype AmountBits = AmountBits(outs: seq<seq<Expr>>, ins: seq<seq<Expr>>)

  /** The amount is what compute_integer_amount makes of the bits. */
  predicate Decodes(amount: Expr, bits: seq<Expr>) {
    |bits| == TX_AMOUNT_BITS && amount == WithFactors(bits, TX_AMOUNT_EXPONENT_BITS)
  }

  predicate UsesDecoder(tx: Tx, bits: AmountBits) {
    && |bits.outs| == |tx.outs| && |bits.ins| == |tx.ins|
    && (forall i :: 0 <= i < |tx.outs| ==> Decodes(tx.outs[i].amount, bits.outs[i]))
    && (forall i :: 0 <= i < |tx.ins| ==> Decodes(tx.ins[i].amount, bits.ins[i]))
  }

  /** extractBits has made the bits 0 or 1. */
  ghost predicate AreAllBits(p: int, bits: AmountBits, w: Witness)
    requires p > 0
  {
    && (forall i :: 0 <= i < |bits.outs| ==> AreBits(p, bits.outs[i], w))
    && (forall i :: 0 <= i < |bits.ins| ==> AreBits(p, bits.ins[i], w))
  }

  /** The integer that the bits stand for. */
  function Decoded(p: int, bits: seq<Expr>, w: Witness): nat
    requires p > 0 && |bits| == TX_AMOUNT_BITS
  {
    TxAmountDecode(Number(p, bits, w, TX_AMOUNT_BITS))
  }

  /** What the first k outputs of asset v take: amounts times multipliers. */
  function OutTotal(p: int, tx: Tx, bits: AmountBits, w: Witness, v: int, k: nat): int
    requires p > 0 && UsesDecoder(tx, bits) && k <= |tx.outs|
  {
    if k == 0 then 0
    else OutTotal(p, tx, bits, w, v, k - 1)
         + if Value(p, tx.outs[k - 1].asset, w) == v
           then Decoded(p, bits.outs[k - 1], w) * Value(p, tx.outs[k - 1].multiplier, w) else 0
  }

  /** What the first k inputs of asset v bring. */
  function InTotal(p: int, tx: Tx, bits: AmountBits, w: Witness, v: int, k: nat): int
    requires p > 0 && UsesDecoder(tx, bits) && k <= |tx.ins|
  {
    if k == 0 then 0
    else InTotal(p, tx, bits, w, v, k - 1)
         + if Value(p, tx.ins[k - 1].asset, w) == v then Decoded(p, bits.ins[k - 1], w) else 0
  }

  lemma AmountSame(p: int, amount: Expr, bits: seq<Expr>, w: Witness)
    requires p > 0 && |bits| == TX_AMOUNT_BITS && AreBits(p, bits, w)
    requires amount == WithFactors(bits, TX_AMOUNT_EXPONENT_BITS)
    ensures Same(p, Eval(amount, w), Decoded(p, bits, w)) && Decoded(p, bits, w) < Pow2(144)
  {
    hide Same, WithFactors, Number, TxAmountDecode, Pow2, AreBits;
    CircuitDecodes(p, bits, w);
    DecodedIsSmall(Number(p, bits, w, TX_AMOUNT_BITS));
  }

  lemma {:induction false} InTotalSame(p: int, tx: Tx, bits: AmountBits, w: Witness, v: int, k: nat)
    requires p > 0 && IsTx(tx) && UsesDecoder(tx, bits) && AreAllBits(p, bits, w) && k <= |tx.ins|
    ensures Same(p, Total(p, InCoins(tx, w), v, k), InTotal(p, tx, bits, w, v, k))
    ensures 0 <= InTotal(p, tx, bits, w, v, k) <= k * Pow2(144)
  {
    hide Same, Residue, Decoded, Pow2, AreBits, WithFactors;
    if k == 0 {
      SameSelf(p, 0);
    } else {
      InTotalSame(p, tx, bits, w, v, k - 1);
      var i := tx.ins[k - 1];
      AmountSame(p, i.amount, bits.ins[k - 1], w);
      ValueIsResidue(p, i.asset, w);
      assert InCoins(tx, w)[k - 1] == InCoin(i, w);
      if Value(p, i.asset, w) == v {
        SameAdd(p, Total(p, InCoins(tx, w), v, k - 1), InTotal(p, tx, bits, w, v, k - 1),
                Eval(i.amount, w), Decoded(p, bits.ins[k - 1], w));
      }
      assert k * Pow2(144) == (k - 1) * Pow2(144) + Pow2(144);
    }
  }

  /** An output's multiplier is an unsigned 32-bit number. */
  ghost predicate AreMultipliers(p: int, tx: Tx, w: Witness)
    requires p > 0
  {
    forall i :: 0 <= i < |tx.outs| ==> Value(p, tx.outs[i].multiplier, w) < 0x1_0000_0000
  }

  lemma {:induction false} OutTotalSame(p: int, tx: Tx, bits: AmountBits, w: Witness, v: int, k: nat)
    requires p > 0 && IsTx(tx) && UsesDecoder(tx, bits) && AreAllBits(p, bits, w) && AreMultipliers(p, tx, w)
    requires k <= |tx.outs|
    ensures Same(p, Total(p, OutCoins(tx, w), v, k), OutTotal(p, tx, bits, w, v, k))
    ensures 0 <= OutTotal(p, tx, bits, w, v, k) <= k * (0x1_0000_0000 * Pow2(144))
  {
    hide Same, Residue, Decoded, Pow2, AreBits, WithFactors;
    if k == 0 {
      SameSelf(p, 0);
    } else {
      OutTotalSame(p, tx, bits, w, v, k - 1);
      var o := tx.outs[k - 1];
      ScaledAmount(p, o, bits.outs[k - 1], w);
      ValueIsResidue(p, o.asset, w);
      assert OutCoins(tx, w)[k - 1] == OutCoin(o, w);
      if Value(p, o.asset, w) == v {
        SameAdd(p, Total(p, OutCoins(tx, w), v, k - 1), OutTotal(p, tx, bits, w, v, k - 1),
                Eval(o.amount, w) * Eval(o.multiplier, w),
                Decoded(p, bits.outs[k - 1], w) * Value(p, o.multiplier, w));
      }
      var unit := 0x1_0000_0000 * Pow2(144);
      assert k * unit == (k - 1) * unit + unit;
    }
  }

  lemma ScaledAmount(p: int, o: TxOut, bits: seq<Expr>, w: Witness)
    requires p > 0 && |bits| == TX_AMOUNT_BITS && AreBits(p, bits, w) && Value(p, o.multiplier, w) < 0x1_0000_0000
    requires o.amount == WithFactors(bits, TX_AMOUNT_EXPONENT_BITS)
    ensures var d := Decoded(p, bits, w) * Value(p, o.multiplier, w);
      Same(p, Eval(o.amount, w) * Eval(o.multiplier, w), d) && 0 <= d <= 0x1_0000_0000 * Pow2(144)
  {
    hide Same, Residue, Decoded, Pow2, AreBits, WithFactors;
    AmountSame(p, o.amount, bits, w);
    BitSame(p, o.multiplier, w);
    var d, m := Decoded(p, bits, w), Value(p, o.multiplier, w);
    SameMul(p, Eval(o.amount, w), d, Eval(o.multiplier, w), m);
    MulMono(d, Pow2(144), m);
    MulMono(m, 0x1_0000_0000, Pow2(144));
    MulMono(0, d, m);
    assert m * Pow2(144) == Pow2(144) * m;
  }

  /** Numbers that are the same in the field and less than p apart are equal. */
  lemma SameNear(p: int, x: int, y: int)
    requires p > 0 && Same(p, x, y) && -p < x - y < p
    ensures x == y
  {
    SameIffZero(p, x, y);
    var k := ZeroIsMultiple(p, x - y);
    if k >= 1 {
      MulMono(1, k, p);
    } else if k <= -1 {
      MulMono(k, -1, p);
    }
  }

  /** At least 254 bits. */
  predicate IsLarge(p: int) { Pow2(253) <= p }

  /** At most 192 bits, and a sign. */
  predicate IsDonation(d: int) { d <= Pow2(192) && -d <= Pow2(192) }

  const MAX_COINS: nat := 0x1_0000

  /** In a field of 254 bits the integers that the bits of the amounts stand for balance,
      for every asset. */
  lemma BitsBalance(p: int, tx: Tx, bits: AmountBits, w: Witness, v: int, donation: int)
    requires IsPrime(p) && IsLarge(p) && IsTx(tx) && Satisfied(p, TxConstraints(tx), w)
    requires UsesDecoder(tx, bits) && AreAllBits(p, bits, w) && AreMultipliers(p, tx, w)
    requires |tx.outs| <= MAX_COINS && |tx.ins| <= MAX_COINS
    requires Same(p, Eval(tx.donation, w), donation) && IsDonation(donation)
    ensures InTotal(p, tx, bits, w, v, |tx.ins|)
         == OutTotal(p, tx, bits, w, v, |tx.outs|) + if v == 0 then donation else 0
  {
    hide Same, Satisfied, Pow2, TxConstraints, InTotal, OutTotal, UsesDecoder, AreAllBits, AreMultipliers, IsTx,
         IsPrime, Eval;
    IntegersSame(p, tx, bits, w, v, donation);
    TotalsBelow(|tx.ins|, |tx.outs|, InTotal(p, tx, bits, w, v, |tx.ins|), OutTotal(p, tx, bits, w, v, |tx.outs|));
    Powers();
    SameNear(p, InTotal(p, tx, bits, w, v, |tx.ins|),
             OutTotal(p, tx, bits, w, v, |tx.outs|) + if v == 0 then donation else 0);
  }

  lemma IntegersSame(p: int, tx: Tx, bits: AmountBits, w: Witness, v: int, donation: int)
    requires IsPrime(p) && IsTx(tx) && Satisfied(p, TxConstraints(tx), w)
    requires UsesDecoder(tx, bits) && AreAllBits(p, bits, w) && AreMultipliers(p, tx, w)
    requires Same(p, Eval(tx.donation, w), donation)
    ensures Same(p, InTotal(p, tx, bits, w, v, |tx.ins|),
                 OutTotal(p, tx, bits, w, v, |tx.outs|) + if v == 0 then donation else 0)
    ensures 0 <= InTotal(p, tx, bits, w, v, |tx.ins|) <= |tx.ins| * Pow2(144)
    ensures 0 <= OutTotal(p, tx, bits, w, v, |tx.outs|) <= |tx.outs| * (0x1_0000_0000 * Pow2(144))
  {
    hide Same, Satisfied, Pow2, TxConstraints, Total, InTotal, OutTotal, UsesDecoder, AreAllBits, AreMultipliers, Eval;
    var ti, to := Total(p, InCoins(tx, w), v, |tx.ins|), Total(p, OutCoins(tx, w), v, |tx.outs|);
    var i, o := InTotal(p, tx, bits, w, v, |tx.ins|), OutTotal(p, tx, bits, w, v, |tx.outs|);
    TxBalances(p, tx, w, v);
    InTotalSame(p, tx, bits, w, v, |tx.ins|);
    OutTotalSame(p, tx, bits, w, v, |tx.outs|);
    if v == 0 {
      SameAdd(p, to, o, Eval(tx.donation, w), donation);
      Chain(p, ti, to + Eval(tx.donation, w), i, o + donation);
    } else {
      assert to + 0 == to && o + 0 == o;
      Chain(p, ti, to, i, o);
    }
  }

  lemma Chain(p: int, x: int, y: int, i: int, j: int)
    requires p > 0 && Same(p, x, y) && Same(p, x, i) && Same(p, y, j)
    ensures Same(p, i, j)
  {
  }

  lemma TotalsBelow(ins: nat, outs: nat, i: int, o: int)
    requires ins <= MAX_COINS && outs <= MAX_COINS
    requires 0 <= i <= ins * Pow2(144) && 0 <= o <= outs * (0x1_0000_0000 * Pow2(144))
    ensures i <= Pow2(192) && o <= Pow2(192)
  {
    hide Pow2;
    var unit := Pow2(144);
    MulMono(ins, MAX_COINS, unit);
    MulMono(outs, MAX_COINS, 0x1_0000_0000 * unit);
    Pow2Literals();
    Pow2Add(4, 4);
    Pow2Add(8, 8);
    Pow2Add(16, 16);
    Pow2Add(32, 16);
    Pow2Add(48, 144);
  }

  lemma Powers()
    ensures 3 * Pow2(192) < Pow2(253)
  {
    hide Pow2;
    Pow2Double(192);
    Pow2Double(193);
    Pow2Mono(194, 253);
  }

  // ---- From the encoded amounts on ----

  /** The amounts of a transaction, here still encoded, are replaced by what the circuit
      decodes: 40 new bits for every output and then for every input. */
  function NewBits(first: nat, i: nat): (bits: seq<Expr>)
    ensures |bits| == TX_AMOUNT_BITS
  {
    BitVars(first + TX_AMOUNT_BITS * i, TX_AMOUNT_BITS)
  }

  function NewAmount(first: nat, i: nat): Expr { WithFactors(NewBits(first, i), TX_AMOUNT_EXPONENT_BITS) }

  function InsFirst(tx: Tx, first: nat): nat { first + TX_AMOUNT_BITS * |tx.outs| }

  function DecodedTx(tx: Tx, first: nat): (r: Tx)
    ensures |r.outs| == |tx.outs| && |r.ins| == |tx.ins| && (IsTx(tx) ==> IsTx(r))
  {
    Tx(seq(|tx.outs|, i requires 0 <= i < |tx.outs| => tx.outs[i].(amount := NewAmount(first, i))),
       seq(|tx.ins|, i requires 0 <= i < |tx.ins| => tx.ins[i].(amount := NewAmount(InsFirst(tx, first), i))),
       tx.txAsset, tx.donation)
  }

  function OutAmounts(tx: Tx): (es: seq<Expr>)
    ensures |es| == |tx.outs|
  {
    seq(|tx.outs|, i requires 0 <= i < |tx.outs| => tx.outs[i].amount)
  }

  function InAmounts(tx: Tx): (es: seq<Expr>)
    ensures |es| == |tx.ins|
  {
    seq(|tx.ins|, i requires 0 <= i < |tx.ins| => tx.ins[i].amount)
  }

  /** The bits of the first k encoded amounts. */
  function BitsEmit(es: seq<Expr>, first: nat, k: nat): seq<Expr>
    requires k <= |es|
  {
    if k == 0 then []
    else BitsEmit(es, first, k - 1)
         + BitConstraints(es[k - 1], first + TX_AMOUNT_BITS * (k - 1), TX_AMOUNT_BITS, false)
  }

  function WholeEmits(tx: Tx, first: nat): seq<Expr>
    requires IsTx(tx)
  {
    BitsEmit(OutAmounts(tx), first, |tx.outs|) + BitsEmit(InAmounts(tx), InsFirst(tx, first), |tx.ins|)
    + TxConstraints(DecodedTx(tx, first))
  }

  /** The integers in the place of the encoded amounts. */
  method DecodeAmounts(tx: Tx, outBits: seq<seq<Expr>>, inBits: seq<seq<Expr>>, ghost first: nat) returns (r: Tx)
    requires |outBits| == |tx.outs| && forall j :: 0 <= j < |tx.outs| ==> outBits[j] == NewBits(first, j)
    requires |inBits| == |tx.ins| && forall j :: 0 <= j < |tx.ins| ==> inBits[j] == NewBits(InsFirst(tx, first), j)
    ensures r == DecodedTx(tx, first)
  {
    hide WithFactors, NewBits;
    var outs, ins := tx.outs, tx.ins;
    for i := 0 to |outs|
      invariant |outs| == |tx.outs|
      invariant forall j :: 0 <= j < |outs| ==>
        outs[j] == if j < i then DecodedTx(tx, first).outs[j] else tx.outs[j]
    {
      var amount := ComputeIntegerAmount(outBits[i]);
      outs := outs[i := outs[i].(amount := amount)];
    }
    for i := 0 to |ins|
      invariant |ins| == |tx.ins|
      invariant forall j :: 0 <= j < |ins| ==> ins[j] == if j < i then DecodedTx(tx, first).ins[j] else tx.ins[j]
    {
      var amount := ComputeIntegerAmount(inBits[i]);
      ins := ins[i := ins[i].(amount := amount)];
    }
    assert outs == DecodedTx(tx, first).outs && ins == DecodedTx(tx, first).ins;
    r := Tx(outs, ins, tx.txAsset, tx.donation);
  }

  /** The bits of all encoded amounts, then the integers, then the rule. */
  method ComputeWhole(cs: ConstraintSystem, tx: Tx)
    requires IsTx(tx)
    modifies cs
    ensures cs.next == InsFirst(tx, old(cs.next)) + TX_AMOUNT_BITS * |tx.ins|
    ensures cs.constraints == old(cs.constraints) + WholeEmits(tx, old(cs.next))
  {
    hide BitConstraints, ExtractConstraints, WithFactors, TxConstraints, IsTx;
    ghost var first := cs.next;
    var outBits, inBits: seq<seq<Expr>> := [], [];
    for i := 0 to |tx.outs|
      invariant cs.next == first + TX_AMOUNT_BITS * i
      invariant cs.constraints == old(cs.constraints) + BitsEmit(OutAmounts(tx), first, i)
      invariant |outBits| == i && forall j :: 0 <= j < i ==> outBits[j] == NewBits(first, j)
    {
      var bits, rem, bitval := cs.ExtractBits(tx.outs[i].amount, TX_AMOUNT_BITS, false, false);
      outBits := outBits + [bits];
    }
    for i := 0 to |tx.ins|
      invariant cs.next == InsFirst(tx, first) + TX_AMOUNT_BITS * i
      invariant cs.constraints == old(cs.constraints) + BitsEmit(OutAmounts(tx), first, |tx.outs|)
                                  + BitsEmit(InAmounts(tx), InsFirst(tx, first), i)
      invariant |inBits| == i && forall j :: 0 <= j < i ==> inBits[j] == NewBits(InsFirst(tx, first), j)
    {
      var bits, rem, bitval := cs.ExtractBits(tx.ins[i].amount, TX_AMOUNT_BITS, false, false);
      inBits := inBits + [bits];
    }
    var decoded := DecodeAmounts(tx, outBits, inBits, first);
    ComputeTx(cs, decoded);
  }

  /** What the first k outputs of asset v take: decoded amounts times multipliers. */
  function Taken(p: int, tx: Tx, w: Witness, v: int, k: nat): int
    requires p > 0 && k <= |tx.outs|
  {
    if k == 0 then 0
    else Taken(p, tx, w, v, k - 1)
         + if Value(p, tx.outs[k - 1].asset, w) == v
           then TxAmountDecode(Value(p, tx.outs[k - 1].amount, w)) * Value(p, tx.outs[k - 1].multiplier, w) else 0
  }

  /** What the first k inputs of asset v bring. */
  function Brought(p: int, tx: Tx, w: Witness, v: int, k: nat): int
    requires p > 0 && k <= |tx.ins|
  {
    if k == 0 then 0
    else Brought(p, tx, w, v, k - 1)
         + if Value(p, tx.ins[k - 1].asset, w) == v then TxAmountDecode(Value(p, tx.ins[k - 1].amount, w)) else 0
  }

  function AllNewBits(tx: Tx, first: nat): AmountBits {
    AmountBits(seq(|tx.outs|, i requires 0 <= i < |tx.outs| => NewBits(first, i)),
               seq(|tx.ins|, i requires 0 <= i < |tx.ins| => NewBits(InsFirst(tx, first), i)))
  }

  /** The new bits are those of an encoded amount of 40 bits. */
  ghost predicate SpellsAmount(p: int, amount: Expr, bits: seq<Expr>, w: Witness)
    requires p > 0 && |bits| == TX_AMOUNT_BITS
  {
    AreBits(p, bits, w) && Number(p, bits, w, TX_AMOUNT_BITS) == Value(p, amount, w)
  }

  lemma {:induction false} AmountSpelled(p: int, es: seq<Expr>, first: nat, w: Witness, k: nat, i: nat)
    requires IsPrime(p) && IsLarge(p) && i < k <= |es| && Satisfied(p, BitsEmit(es, first, k), w)
    ensures SpellsAmount(p, es[i], NewBits(first, i), w)
  {
    hide Satisfied, BitConstraints, AreBits, Number, Value, IsLarge;
    var f := first + TX_AMOUNT_BITS * (k - 1);
    SatisfiedConcat(p, BitsEmit(es, first, k - 1), BitConstraints(es[k - 1], f, TX_AMOUNT_BITS, false), w);
    if i < k - 1 {
      AmountSpelled(p, es, first, w, k - 1, i);
    } else {
      OneSpells(p, es[k - 1], f, w);
    }
  }

  lemma OneSpells(p: int, amount: Expr, first: nat, w: Witness)
    requires IsPrime(p) && IsLarge(p) && Satisfied(p, BitConstraints(amount, first, TX_AMOUNT_BITS, false), w)
    ensures SpellsAmount(p, amount, BitVars(first, TX_AMOUNT_BITS), w)
  {
    hide Satisfied, BitConstraints, AreBits, Number, Value, Pow2;
    Pow2Mono(TX_AMOUNT_BITS, 253);
    BitsMeanValue(p, amount, first, TX_AMOUNT_BITS, false, w);
    BitsBoundValue(p, amount, first, TX_AMOUNT_BITS, w);
  }

  /** Every amount is spelled by its new bits. */
  ghost predicate AllSpelled(p: int, tx: Tx, first: nat, w: Witness)
    requires p > 0
  {
    && (forall i :: 0 <= i < |tx.outs| ==> SpellsAmount(p, tx.outs[i].amount, AllNewBits(tx, first).outs[i], w))
    && (forall i :: 0 <= i < |tx.ins| ==> SpellsAmount(p, tx.ins[i].amount, AllNewBits(tx, first).ins[i], w))
  }

  lemma BitsSpell(p: int, tx: Tx, first: nat, w: Witness)
    requires IsPrime(p) && IsLarge(p) && Satisfied(p, BitsEmit(OutAmounts(tx), first, |tx.outs|), w)
    requires Satisfied(p, BitsEmit(InAmounts(tx), InsFirst(tx, first), |tx.ins|), w)
    ensures AllSpelled(p, tx, first, w)
  {
    hide Satisfied, SpellsAmount, IsLarge, BitsEmit, NewBits;
    forall i | 0 <= i < |tx.outs| ensures SpellsAmount(p, tx.outs[i].amount, NewBits(first, i), w) {
      AmountSpelled(p, OutAmounts(tx), first, w, |tx.outs|, i);
    }
    forall i | 0 <= i < |tx.ins| ensures SpellsAmount(p, tx.ins[i].amount, NewBits(InsFirst(tx, first), i), w) {
      AmountSpelled(p, InAmounts(tx), InsFirst(tx, first), w, |tx.ins|, i);
    }
  }

  lemma WholeSplit(p: int, tx: Tx, first: nat, w: Witness)
    requires p > 0 && IsTx(tx)
    ensures Satisfied(p, WholeEmits(tx, first), w)
       <==> && Satisfied(p, BitsEmit(OutAmounts(tx), first, |tx.outs|), w)
            && Satisfied(p, BitsEmit(InAmounts(tx), InsFirst(tx, first), |tx.ins|), w)
            && Satisfied(p, TxConstraints(DecodedTx(tx, first)), w)
  {
    hide Satisfied, TxConstraints, DecodedTx, BitsEmit, NewBits;
    var co := BitsEmit(OutAmounts(tx), first, |tx.outs|);
    var ci := BitsEmit(InAmounts(tx), InsFirst(tx, first), |tx.ins|);
    SatisfiedConcat(p, co + ci, TxConstraints(DecodedTx(tx, first)), w);
    SatisfiedConcat(p, co, ci, w);
  }

  lemma NewAmountsFit(p: int, tx: Tx, first: nat, w: Witness)
    requires p > 0 && AllSpelled(p, tx, first, w)
    ensures UsesDecoder(DecodedTx(tx, first), AllNewBits(tx, first)) && AreAllBits(p, AllNewBits(tx, first), w)
  {
    hide AreBits, Number, Value, WithFactors, NewBits;
    var bits := AllNewBits(tx, first);
    forall i | 0 <= i < |bits.outs| ensures AreBits(p, bits.outs[i], w) {
      assert SpellsAmount(p, tx.outs[i].amount, bits.outs[i], w);
    }
    forall i | 0 <= i < |bits.ins| ensures AreBits(p, bits.ins[i], w) {
      assert SpellsAmount(p, tx.ins[i].amount, bits.ins[i], w);
    }
  }

  lemma {:induction false} TakenIs(p: int, tx: Tx, first: nat, w: Witness, v: int, k: nat)
    requires p > 0 && k <= |tx.outs| && AllSpelled(p, tx, first, w)
    requires UsesDecoder(DecodedTx(tx, first), AllNewBits(tx, first))
    ensures Taken(p, tx, w, v, k) == OutTotal(p, DecodedTx(tx, first), AllNewBits(tx, first), w, v, k)
  {
    hide AreBits, Number, Value, WithFactors, NewBits, TxAmountDecode;
    if k > 0 {
      TakenIs(p, tx, first, w, v, k - 1);
      assert SpellsAmount(p, tx.outs[k - 1].amount, AllNewBits(tx, first).outs[k - 1], w);
    }
  }

  lemma {:induction false} BroughtIs(p: int, tx: Tx, first: nat, w: Witness, v: int, k: nat)
    requires p > 0 && k <= |tx.ins| && AllSpelled(p, tx, first, w)
    requires UsesDecoder(DecodedTx(tx, first), AllNewBits(tx, first))
    ensures Brought(p, tx, w, v, k) == InTotal(p, DecodedTx(tx, first), AllNewBits(tx, first), w, v, k)
  {
    hide AreBits, Number, Value, WithFactors, NewBits, TxAmountDecode;
    if k > 0 {
      BroughtIs(p, tx, first, w, v, k - 1);
      assert SpellsAmount(p, tx.ins[k - 1].amount, AllNewBits(tx, first).ins[k - 1], w);
    }
  }

  /** The whole rule, from the encoded amounts on: in a field of 254 bits, any witness
      that satisfies what is emitted makes the integers that the encoded amounts stand
      for balance, for every asset: nothing is created, lost or reduced. The donation, a
      number of asset 0, can be negative. */
  lemma AmountsBalance(p: int, tx: Tx, first: nat, w: Witness, v: int, donation: int)
    requires IsPrime(p) && IsLarge(p) && IsTx(tx) && Satisfied(p, WholeEmits(tx, first), w)
    requires AreMultipliers(p, tx, w) && |tx.outs| <= MAX_COINS && |tx.ins| <= MAX_COINS
    requires Same(p, Eval(tx.donation, w), donation) && IsDonation(donation)
    ensures Brought(p, tx, w, v, |tx.ins|) == Taken(p, tx, w, v, |tx.outs|) + if v == 0 then donation else 0
  {
    hide Satisfied, WholeEmits, AllSpelled, UsesDecoder, AreAllBits, IsLarge, IsDonation, OutTotal, InTotal,
         TxConstraints, Taken, Brought, Eval, IsTx;
    WholeSplit(p, tx, first, w);
    BitsSpell(p, tx, first, w);
    NewAmountsFit(p, tx, first, w);
    TakenIs(p, tx, first, w, v, |tx.outs|);
    BroughtIs(p, tx, first, w, v, |tx.ins|);
    BitsBalance(p, DecodedTx(tx, first), AllNewBits(tx, first), w, v, donation);
  }
}
