/** The pad of the masked outputs in source/cclib/src/CCproof.cpp, hashed inside the
    circuit, together with the two fields that it encrypts: exactly what they can
    publish. */
module OutputPad {
  import opened Arith
  import opened Field
  import opened Circuit
  import opened BitGadgets
  import opened HashCircuit
  import opened HashWitness
  import opened HashResults
  import opened MaskedOutput
  import opened Options
  import NodeHash

  const ASSET_BITS: nat := 64
  const AMOUNT_BITS: nat := 40

  // ---- What is emitted ----

  /** The two parts of the pad. */
  datatype Pads = Pads(constraints: seq<Expr>, next: nat, low: Expr, high: Expr)

  /** The hash, of as many bits as both fields have, cut behind those of the asset. */
  function PadEmits(hp: HashParams, key: PrfKey, a: seq<Input>, first: nat): Pads
    requires a != []
  {
    var e := HashEmits(hp, key, a, first, ASSET_BITS + AMOUNT_BITS, false);
    Pads(e.constraints + ExtractConstraints(e.result, e.next, ASSET_BITS, true, true), e.next + ASSET_BITS + 2,
         Var(e.next + ASSET_BITS + 1), Var(e.next + ASSET_BITS))
  }

  method OneTimePad(cs: ConstraintSystem, hp: HashParams, key: PrfKey, a: seq<Input>) returns (low: Expr, high: Expr)
    requires a != [] && AreInputs(a)
    modifies cs
    ensures var e := PadEmits(hp, key, a, old(cs.next));
      cs.constraints == old(cs.constraints) + e.constraints && cs.next == e.next && low == e.low && high == e.high
  {
    hide HashEmits, ExtractConstraints, BitConstraints;
    var pad := Hash(cs, hp, key, a, ASSET_BITS + AMOUNT_BITS, false);
    var bits, hiPad, lowPad := cs.ExtractBits(pad, ASSET_BITS, true, true);
    return lowPad.value, hiPad.value;
  }

  /** A field as it is published, its bits, the bits that encrypt it and their mask; and
      whether the encryption is enforced. */
  datatype Output = Output(enc: seq<Expr>, bits: seq<Expr>, xor: seq<Expr>, mask: seq<Expr>, enforce: Expr, value: Expr)

  predicate HasWidth(f: Output, n: nat) { |f.enc| == |f.bits| == |f.xor| == |f.mask| == n }

  function OutputEmits(f: Output, n: nat, pad: Expr, first: nat): seq<Expr>
    requires HasWidth(f, n)
  {
    EncryptConstraints(f.enc, f.bits, f.xor, f.mask, ChosenPad(pad, f.enforce, f.value), first)
  }

  function BothEmit(hp: HashParams, key: PrfKey, a: seq<Input>, asset: Output, amount: Output, first: nat): seq<Expr>
    requires a != [] && HasWidth(asset, ASSET_BITS) && HasWidth(amount, AMOUNT_BITS)
  {
    var e := PadEmits(hp, key, a, first);
    e.constraints + OutputEmits(asset, ASSET_BITS, e.low, e.next)
    + OutputEmits(amount, AMOUNT_BITS, e.high, e.next + ASSET_BITS)
  }

  method CheckOutput(cs: ConstraintSystem, hp: HashParams, key: PrfKey, a: seq<Input>, asset: Output, amount: Output)
    requires a != [] && AreInputs(a) && HasWidth(asset, ASSET_BITS) && HasWidth(amount, AMOUNT_BITS)
    modifies cs
    ensures cs.constraints == old(cs.constraints) + BothEmit(hp, key, a, asset, amount, old(cs.next))
  {
    hide PadEmits, EncryptConstraints, ChosenPad;
    var low, high := OneTimePad(cs, hp, key, a);
    CheckEncrypted(cs, asset.enc, asset.bits, asset.xor, asset.mask, low, asset.enforce, asset.value);
    CheckEncrypted(cs, amount.enc, amount.bits, amount.xor, amount.mask, high, amount.enforce, amount.value);
  }

  // ---- What can be published ----

  /** The field's bits and its mask are bits, the bits spell the value, and the flag is 0
      or 1; nothing is a new variable. */
  ghost predicate IsReady(p: int, f: Output, n: nat, first: nat, w: Witness)
    requires p > 0
  {
    && HasWidth(f, n)
    && AllBelow(f.enc, first) && AllBelow(f.bits, first) && AllBelow(f.xor, first) && AllBelow(f.mask, first)
    && UsesBelow(f.enforce, first) && UsesBelow(f.value, first)
    && AreBits(p, f.bits, w) && AreBits(p, f.mask, w) && Number(p, f.bits, w, n) == Value(p, f.value, w)
    && Value(p, f.enforce, w) in {0, 1}
  }

  /** What is published is the value, encrypted with xor: any bits under the mask if the
      field is enforced, the masked bits of the value itself if it is not. */
  ghost predicate IsPublished(p: int, f: Output, n: nat, w: Witness)
    requires p > 0 && HasWidth(f, n)
  {
    forall i :: 0 <= i < n ==> IsBitPublished(p, f, n, w, i)
  }

  predicate IsBitPublished(p: int, f: Output, n: nat, w: Witness, i: nat)
    requires p > 0 && HasWidth(f, n) && i < n
  {
    var x, m := Value(p, f.xor[i], w), Value(p, f.mask[i], w);
    && Value(p, f.enc[i], w) == XorBit(Value(p, f.bits[i], w), x)
    && if Value(p, f.enforce, w) == 1 then x == 0 || x == m else x == m * Value(p, f.bits[i], w)
  }

  // ---- One field ----

  lemma OutputSound(p: int, f: Output, n: nat, pad: Expr, first: nat, w: Witness)
    requires IsPrime(p) && IsReady(p, f, n, first, w) && Pow2(n) <= p
    requires Satisfied(p, OutputEmits(f, n, pad, first), w)
    ensures IsPublished(p, f, n, w)
  {
    hide IsZero, Value, Eval, BitConstraints, EncryptConstraints, Satisfied, Number, Pow2, UsesBelow, AllBelow,
         ChosenPad;
    var chosen, padBits := ChosenPad(pad, f.enforce, f.value), BitVars(first, n);
    EncryptSplit(p, f.enc, f.bits, f.xor, f.mask, chosen, first, w);
    BitsMeanValue(p, chosen, first, n, false, w);
    BitsBoundValue(p, chosen, first, n, w);
    ChosenPadIs(p, pad, f.enforce, f.value, w);
    if Value(p, f.enforce, w) == 0 {
      BitsUnique(p, f.bits, padBits, w, n);
    }
    forall i | 0 <= i < n ensures IsBitPublished(p, f, n, w, i) {
      AndIff(p, f.xor[i], f.mask[i], padBits[i], w);
      XorIff(p, f.enc[i], f.bits[i], f.xor[i], w);
    }
  }

  /** The bits of the pad that encrypt the field that way. */
  function PadBits(p: int, f: Output, w: Witness): seq<Expr>
    requires p > 0
  {
    if Value(p, f.enforce, w) == 1 then f.xor else f.bits
  }

  lemma PadBitsFit(p: int, f: Output, n: nat, first: nat, w: Witness)
    requires p > 0 && IsReady(p, f, n, first, w) && IsPublished(p, f, n, w)
    ensures AreBits(p, PadBits(p, f, w), w) && |PadBits(p, f, w)| == n && AllBelow(PadBits(p, f, w), first)
  {
    hide Value, Number, UsesBelow, AllBelow;
    forall i | 0 <= i < n ensures Value(p, PadBits(p, f, w)[i], w) in {0, 1} {
      assert IsBitPublished(p, f, n, w, i);
    }
  }

  /** Values of the pad's bits that satisfy the field's constraints, from what it is
      published as; an enforced field needs a pad that is what encrypts it. */
  lemma OutputComplete(p: int, f: Output, n: nat, pad: Expr, first: nat, w: Witness) returns (h: Witness)
    requires IsPrime(p) && IsReady(p, f, n, first, w) && Pow2(n) <= p && UsesBelow(pad, first)
    requires IsPublished(p, f, n, w)
    requires Value(p, f.enforce, w) == 1 ==> Value(p, pad, w) == Number(p, f.xor, w, n)
    ensures AgreeBelow(w, h, first) && Satisfied(p, OutputEmits(f, n, pad, first), h)
  {
    hide IsZero, Value, Eval, BitConstraints, EncryptConstraints, Satisfied, Number, Pow2, UsesBelow, AllBelow,
         ChosenPad, AgreeBelow, IsCut, IsPublished, BitVars;
    var chosen, want := ChosenPad(pad, f.enforce, f.value), PadBits(p, f, w);
    PadBitsFit(p, f, n, first, w);
    ChosenPadIs(p, pad, f.enforce, f.value, w);
    var v := Value(p, chosen, w);
    assert v == Number(p, want, w, n);
    NumberInRange(p, want, w, n);
    WholeCut(p, v, n);
    ChosenBelow(pad, f.enforce, f.value, first);
    h := BitsComplete(p, chosen, first, n, false, w, Cut(v, 0));
    PadIsWanted(p, chosen, want, first, n, w, h);
    forall i | 0 <= i < n
      ensures IsZero(p, Eval(AndConstraints(f.xor, f.mask, BitVars(first, n))[i], h))
      ensures IsZero(p, Eval(XorConstraints(f.enc, f.bits, f.xor)[i], h))
    {
      BitComplete(p, f, n, first, w, h, i);
    }
    EncryptJoin(p, f, n, chosen, first, h);
  }

  lemma WholeCut(p: int, v: nat, n: nat)
    requires p > 0 && v < Pow2(n)
    ensures IsCut(p, v, n, Cut(v, 0), false)
  {
    hide Pow2;
    SameSelf(p, v);
  }

  lemma ChosenBelow(pad: Expr, enforce: Expr, value: Expr, n: nat)
    requires UsesBelow(pad, n) && UsesBelow(enforce, n) && UsesBelow(value, n)
    ensures UsesBelow(ChosenPad(pad, enforce, value), n)
  {
    assert UsesBelow(Mul(pad, enforce), n);
    assert UsesBelow(Sub(Const(1), enforce), n);
    assert UsesBelow(Mul(Sub(Const(1), enforce), value), n);
  }

  /** The bits of the chosen pad are those that spell it already. */
  lemma PadIsWanted(p: int, chosen: Expr, want: seq<Expr>, first: nat, n: nat, w: Witness, h: Witness)
    requires IsPrime(p) && |want| == n && AreBits(p, want, w) && AllBelow(want, first) && AgreeBelow(w, h, first)
    requires Satisfied(p, BitConstraints(chosen, first, n, false), h)
    requires Number(p, BitVars(first, n), h, n) == Number(p, want, w, n)
    ensures AreBits(p, BitVars(first, n), h)
    ensures forall i :: 0 <= i < n ==> Value(p, BitVars(first, n)[i], h) == Value(p, want[i], w)
  {
    hide Value, BitConstraints, Satisfied, Number, UsesBelow, BitVars;
    BitsMeanValue(p, chosen, first, n, false, h);
    NumberAgrees(p, want, w, h, first, n);
    BitsAgree(p, want, w, h, first);
    BitsUnique(p, BitVars(first, n), want, h, n);
    forall i | 0 <= i < n ensures Value(p, BitVars(first, n)[i], h) == Value(p, want[i], w) {
      ValueAgrees(p, want[i], w, h, first);
    }
  }

  lemma BitComplete(p: int, f: Output, n: nat, first: nat, w: Witness, h: Witness, i: nat)
    requires IsPrime(p) && IsReady(p, f, n, first, w) && IsPublished(p, f, n, w) && AgreeBelow(w, h, first) && i < n
    requires AreBits(p, BitVars(first, n), h)
    requires Value(p, BitVars(first, n)[i], h) == Value(p, PadBits(p, f, w)[i], w)
    ensures IsZero(p, Eval(AndConstraints(f.xor, f.mask, BitVars(first, n))[i], h))
    ensures IsZero(p, Eval(XorConstraints(f.enc, f.bits, f.xor)[i], h))
  {
    hide IsZero, Value, Eval, Number, UsesBelow, BitVars, AgreeBelow;
    var padBit := BitVars(first, n)[i];
    assert IsBitPublished(p, f, n, w, i);
    ValueAgrees(p, f.xor[i], w, h, first);
    ValueAgrees(p, f.mask[i], w, h, first);
    ValueAgrees(p, f.enc[i], w, h, first);
    ValueAgrees(p, f.bits[i], w, h, first);
    AndIff(p, f.xor[i], f.mask[i], padBit, h);
    XorIff(p, f.enc[i], f.bits[i], f.xor[i], h);
  }

  lemma EncryptJoin(p: int, f: Output, n: nat, chosen: Expr, first: nat, w: Witness)
    requires p > 0 && HasWidth(f, n) && Satisfied(p, BitConstraints(chosen, first, n, false), w)
    requires forall i :: 0 <= i < n ==>
      && IsZero(p, Eval(AndConstraints(f.xor, f.mask, BitVars(first, n))[i], w))
      && IsZero(p, Eval(XorConstraints(f.enc, f.bits, f.xor)[i], w))
    ensures Satisfied(p, EncryptConstraints(f.enc, f.bits, f.xor, f.mask, chosen, first), w)
  {
    hide IsZero, Eval, BitConstraints, AndConstraints, XorConstraints, BitVars;
    var cb := BitConstraints(chosen, first, n, false);
    var ca, cx := AndConstraints(f.xor, f.mask, BitVars(first, n)), XorConstraints(f.enc, f.bits, f.xor);
    AndXorWidths(f, n, first);
    SatisfiedConcat(p, cb, ca, w);
    SatisfiedConcat(p, cb + ca, cx, w);
  }

  lemma AndXorWidths(f: Output, n: nat, first: nat)
    requires HasWidth(f, n)
    ensures |AndConstraints(f.xor, f.mask, BitVars(first, n))| == n && |XorConstraints(f.enc, f.bits, f.xor)| == n
  {
  }

  lemma OutputBelow(f: Output, n: nat, pad: Expr, first: nat)
    requires HasWidth(f, n) && AllBelow(f.enc, first) && AllBelow(f.bits, first) && AllBelow(f.xor, first)
    requires AllBelow(f.mask, first)
    requires UsesBelow(pad, first) && UsesBelow(f.enforce, first) && UsesBelow(f.value, first)
    ensures AllBelow(OutputEmits(f, n, pad, first), first + n)
  {
    hide UsesBelow, AllBelow, ChosenPad, BitConstraints, AndConstraints, XorConstraints, BitVars;
    var chosen, padBits, m := ChosenPad(pad, f.enforce, f.value), BitVars(first, n), first + n;
    ChosenBelow(pad, f.enforce, f.value, first);
    BitsBelow(chosen, first, n, false);
    BitVarsBelow(first, n);
    AllBelowMore(f.enc, first, m);
    AllBelowMore(f.bits, first, m);
    AllBelowMore(f.xor, first, m);
    AllBelowMore(f.mask, first, m);
    AndXorBelow(f, n, padBits, m);
    ConcatBelow(BitConstraints(chosen, first, n, false), AndConstraints(f.xor, f.mask, padBits), m);
    ConcatBelow(BitConstraints(chosen, first, n, false) + AndConstraints(f.xor, f.mask, padBits),
                XorConstraints(f.enc, f.bits, f.xor), m);
  }

  lemma AndXorBelow(f: Output, n: nat, padBits: seq<Expr>, m: nat)
    requires HasWidth(f, n) && |padBits| == n && AllBelow(padBits, m)
    requires AllBelow(f.enc, m) && AllBelow(f.bits, m) && AllBelow(f.xor, m) && AllBelow(f.mask, m)
    ensures AllBelow(AndConstraints(f.xor, f.mask, padBits), m) && AllBelow(XorConstraints(f.enc, f.bits, f.xor), m)
  {
    forall i | 0 <= i < n
      ensures UsesBelow(AndConstraints(f.xor, f.mask, padBits)[i], m)
      ensures UsesBelow(XorConstraints(f.enc, f.bits, f.xor)[i], m)
    {
      AndXorUse(f.enc[i], f.bits[i], f.xor[i], f.mask[i], padBits[i], m);
    }
  }

  lemma AndXorUse(enc: Expr, bit: Expr, xor: Expr, mask: Expr, pad: Expr, m: nat)
    requires UsesBelow(enc, m) && UsesBelow(bit, m) && UsesBelow(xor, m) && UsesBelow(mask, m) && UsesBelow(pad, m)
    ensures UsesBelow(Sub(Mul(mask, pad), xor), m)
    ensures UsesBelow(Sub(Sub(Add(bit, xor), Mul(Mul(bit, xor), Const(2))), enc), m)
  {
    assert UsesBelow(Mul(mask, pad), m);
    assert UsesBelow(Mul(bit, xor), m);
    assert UsesBelow(Mul(Mul(bit, xor), Const(2)), m);
    assert UsesBelow(Add(bit, xor), m);
    assert UsesBelow(Sub(Add(bit, xor), Mul(Mul(bit, xor), Const(2))), m);
  }

  /** New variables change nothing about a field. */
  lemma ReadyStays(p: int, f: Output, n: nat, first: nat, next: nat, w: Witness, h: Witness)
    requires p > 0 && IsReady(p, f, n, first, w) && AgreeBelow(w, h, first) && first <= next
    ensures IsReady(p, f, n, next, h) && (IsPublished(p, f, n, h) <==> IsPublished(p, f, n, w))
    ensures Value(p, f.enforce, h) == Value(p, f.enforce, w) && Number(p, f.xor, h, n) == Number(p, f.xor, w, n)
  {
    hide UsesBelow, Value, Number, AllBelow, AreBits, AgreeBelow, IsPublished;
    AllBelowMore(f.enc, first, next);
    AllBelowMore(f.bits, first, next);
    AllBelowMore(f.xor, first, next);
    AllBelowMore(f.mask, first, next);
    BelowMore(f.enforce, first, next);
    BelowMore(f.value, first, next);
    BitsAgree(p, f.bits, w, h, first);
    BitsAgree(p, f.mask, w, h, first);
    ValueAgrees(p, f.enforce, w, h, first);
    ValueAgrees(p, f.value, w, h, first);
    NumberAgrees(p, f.bits, w, h, first, n);
    NumberAgrees(p, f.xor, w, h, first, n);
    PublishedStays(p, f, n, first, w, h);
  }

  lemma PublishedStays(p: int, f: Output, n: nat, first: nat, w: Witness, h: Witness)
    requires p > 0 && IsReady(p, f, n, first, w) && AgreeBelow(w, h, first)
    ensures IsPublished(p, f, n, h) <==> IsPublished(p, f, n, w)
  {
    hide UsesBelow, Value, Number, AreBits, AgreeBelow;
    ValueAgrees(p, f.enforce, w, h, first);
    forall i | 0 <= i < n ensures IsBitPublished(p, f, n, h, i) <==> IsBitPublished(p, f, n, w, i) {
      ValueAgrees(p, f.xor[i], w, h, first);
      ValueAgrees(p, f.mask[i], w, h, first);
      ValueAgrees(p, f.enc[i], w, h, first);
      ValueAgrees(p, f.bits[i], w, h, first);
    }
  }

  // ---- The pad ----

  /** The two parts that some satisfying values have. */
  ghost predicate ArePads(hp: HashParams, key: PrfKey, a: seq<Input>, first: nat, w: Witness, h: Witness, low: int,
                          high: int)
    requires hp.p > 1 && a != []
  {
    var e := PadEmits(hp, key, a, first);
    AgreeBelow(w, h, first) && Satisfied(hp.p, e.constraints, h)
    && Value(hp.p, e.low, h) == low && Value(hp.p, e.high, h) == high
  }

  lemma PadBelow(hp: HashParams, key: PrfKey, a: seq<Input>, first: nat)
    requires a != [] && AreBelow(a, first)
    ensures var e := PadEmits(hp, key, a, first);
      AllBelow(e.constraints, e.next) && UsesBelow(e.low, e.next) && UsesBelow(e.high, e.next) && first <= e.next
  {
    hide HashEmits, ExtractConstraints, AllBelow, AreBelow;
    var e := HashEmits(hp, key, a, first, ASSET_BITS + AMOUNT_BITS, false);
    var next := e.next + ASSET_BITS + 2;
    HashBelow(hp, key, a, first, ASSET_BITS + AMOUNT_BITS, false);
    CutIsBelow(e.result, e.next, ASSET_BITS);
    AllBelowMore(e.constraints, e.next, next);
    ConcatBelow(e.constraints, ExtractConstraints(e.result, e.next, ASSET_BITS, true, true), next);
  }

  lemma PadComplete(hp: HashParams, key: PrfKey, a: seq<Input>, first: nat, w: Witness, low: nat, high: nat)
    returns (h: Witness)
    requires IsPrime(hp.p) && IsFieldPrime(hp.p) && a != []
    requires AreGiven(hp.p, a, first, w) && AreInRange(hp.p, a, w)
    requires low < Pow2(ASSET_BITS) && high < hp.p
    requires Residue(low + high * Pow2(ASSET_BITS), hp.p) < Pow2(ASSET_BITS + AMOUNT_BITS)
    ensures ArePads(hp, key, a, first, w, h, low, high)
  {
    hide IsFieldPrime, AreGiven, AreInRange, HashEmits, ExtractConstraints, Pow2, Satisfied, Residue, AgreeBelow,
         AllBelow, AreBelow, UsesBelow, CutWitness;
    var p, bits := hp.p, ASSET_BITS + AMOUNT_BITS;
    FieldBounds(p);
    AssetFits(p);
    var e := HashEmits(hp, key, a, first, bits, false);
    var r, c := Residue(low + high * Pow2(ASSET_BITS), p), Cut(low, high);
    NarrowIff(hp, key, a, first, bits, false, w, r);
    var g: Witness :| IsWitness(hp, key, a, first, bits, false, w, g)
                      && ResultOf(hp, key, a, first, bits, false, g) == r;
    GivenBelow(p, a, first, w);
    HashBelow(hp, key, a, first, bits, false);
    SameResidue(p, low + high * Pow2(ASSET_BITS));
    SameSym(p, low + high * Pow2(ASSET_BITS), r);
    h := With(CutWitness(c, e.next, ASSET_BITS, g), e.next + ASSET_BITS + 1, low);
    CutSatisfied(p, e.result, e.next, ASSET_BITS, g, c, h);
    CutHolds(p, c, e.next, ASSET_BITS, g, h);
    AgreeTrans(w, g, h, first, e.next);
    StaysSatisfied(p, e.constraints, g, h, e.next);
    SatisfiedConcat(p, e.constraints, ExtractConstraints(e.result, e.next, ASSET_BITS, true, true), h);
  }

  lemma AssetFits(p: int)
    requires IsFieldPrime(p)
    ensures Pow2(AMOUNT_BITS) <= Pow2(ASSET_BITS) <= Pow2(ASSET_BITS + AMOUNT_BITS) <= p
  {
    hide Pow2;
    Pow2Mono(AMOUNT_BITS, ASSET_BITS);
    Pow2Mono(ASSET_BITS, ASSET_BITS + AMOUNT_BITS);
    Pow2Mono(ASSET_BITS + AMOUNT_BITS, 253);
  }

  lemma CutHolds(p: int, c: Cut, first: nat, n: nat, g: Witness, h: Witness)
    requires p > 0 && h == With(CutWitness(c, first, n, g), first + n + 1, c.low) && c.low < p && 0 <= c.high < p
    ensures Value(p, Var(first + n + 1), h) == c.low && Value(p, Var(first + n), h) == c.high
  {
    hide Spelling;
    EvalVar(first + n + 1, h);
    EvalVar(first + n, h);
    ResidueSmall(c.low, p);
    ResidueSmall(c.high, p);
  }

  lemma PadSound(hp: HashParams, key: PrfKey, a: seq<Input>, first: nat, w: Witness, h: Witness, low: int, high: int)
    requires IsPrime(hp.p) && IsFieldPrime(hp.p) && a != []
    requires AreGiven(hp.p, a, first, w) && AreInRange(hp.p, a, w)
    requires ArePads(hp, key, a, first, w, h, low, high)
    ensures 0 <= low < Pow2(ASSET_BITS) && 0 <= high < hp.p
    ensures Residue(low + high * Pow2(ASSET_BITS), hp.p) < Pow2(ASSET_BITS + AMOUNT_BITS)
  {
    hide IsFieldPrime, AreGiven, AreInRange, HashEmits, ExtractConstraints, Pow2, Satisfied, Residue, AgreeBelow,
         Number, Same, AreBits;
    var p, bits := hp.p, ASSET_BITS + AMOUNT_BITS;
    FieldBounds(p);
    AssetFits(p);
    var e := HashEmits(hp, key, a, first, bits, false);
    SatisfiedConcat(p, e.constraints, ExtractConstraints(e.result, e.next, ASSET_BITS, true, true), h);
    var r := ResultOf(hp, key, a, first, bits, false, h);
    assert IsWitness(hp, key, a, first, bits, false, w, h);
    NarrowIff(hp, key, a, first, bits, false, w, r);
    BitvalMeansBits(p, e.result, e.next, ASSET_BITS, true, h);
    NumberInRange(p, BitVars(e.next, ASSET_BITS), h, ASSET_BITS);
    PartsMeanValue(p, e.result, e.next, ASSET_BITS, h, low, high);
  }

  lemma PartsMeanValue(p: int, v: Expr, first: nat, n: nat, h: Witness, low: int, high: int)
    requires p > 1 && low == Value(p, Var(first + n + 1), h) && high == Value(p, Var(first + n), h)
    requires Same(p, h(first + n + 1), Number(p, BitVars(first, n), h, n))
    requires 0 <= Number(p, BitVars(first, n), h, n) < Pow2(n) <= p
    requires Same(p, Eval(v, h), h(first + n + 1) + h(first + n) * Pow2(n))
    ensures low < Pow2(n) && Residue(low + high * Pow2(n), p) == Value(p, v, h)
  {
    hide Pow2, Number, Residue, BitVars;
    var x, y, u := h(first + n + 1), h(first + n), Pow2(n);
    EvalVar(first + n + 1, h);
    EvalVar(first + n, h);
    SameIsValue(p, Var(first + n + 1), Number(p, BitVars(first, n), h, n), h);
    ResidueSmall(Number(p, BitVars(first, n), h, n), p);
    SameResidue(p, x);
    SameResidue(p, y);
    SameTimes(p, y, high, u);
    SameAdd(p, x, low, y * u, high * u);
    SameTrans(p, Eval(v, h), x + y * u, low + high * u);
    SameIsValue(p, v, low + high * u, h);
  }

  /** The hash ties the pad to nothing: the two parts can be any that together are of 104
      bits, so any 64 bits and any 40 bits. */
  lemma PadsIff(hp: HashParams, key: PrfKey, a: seq<Input>, first: nat, w: Witness, low: int, high: int)
    requires IsPrime(hp.p) && IsFieldPrime(hp.p) && a != []
    requires AreGiven(hp.p, a, first, w) && AreInRange(hp.p, a, w)
    ensures (exists h: Witness :: ArePads(hp, key, a, first, w, h, low, high))
       <==> 0 <= low < Pow2(ASSET_BITS) && 0 <= high < hp.p
            && Residue(low + high * Pow2(ASSET_BITS), hp.p) < Pow2(ASSET_BITS + AMOUNT_BITS)
    ensures 0 <= low < Pow2(ASSET_BITS) && 0 <= high < Pow2(AMOUNT_BITS) ==>
              exists h: Witness :: ArePads(hp, key, a, first, w, h, low, high)
  {
    hide IsFieldPrime, AreGiven, AreInRange, Pow2, Residue, ArePads;
    AssetFits(hp.p);
    forall h: Witness | ArePads(hp, key, a, first, w, h, low, high)
      ensures 0 <= low < Pow2(ASSET_BITS) && 0 <= high < hp.p
      ensures Residue(low + high * Pow2(ASSET_BITS), hp.p) < Pow2(ASSET_BITS + AMOUNT_BITS)
    {
      PadSound(hp, key, a, first, w, h, low, high);
    }
    if 0 <= low < Pow2(ASSET_BITS) && 0 <= high < Pow2(AMOUNT_BITS) {
      TogetherFit(hp.p, low, high);
    }
    if 0 <= low < Pow2(ASSET_BITS) && 0 <= high < hp.p
       && Residue(low + high * Pow2(ASSET_BITS), hp.p) < Pow2(ASSET_BITS + AMOUNT_BITS) {
      var h := PadComplete(hp, key, a, first, w, low, high);
    }
  }

  lemma TogetherFit(p: int, low: nat, high: nat)
    requires IsFieldPrime(p) && low < Pow2(ASSET_BITS) && high < Pow2(AMOUNT_BITS)
    ensures p > 0 && high < p && Residue(low + high * Pow2(ASSET_BITS), p) < Pow2(ASSET_BITS + AMOUNT_BITS)
  {
    hide Pow2, IsFieldPrime;
    AssetFits(p);
    var x, y := Pow2(ASSET_BITS), Pow2(AMOUNT_BITS);
    Pow2Add(ASSET_BITS, AMOUNT_BITS);
    MulMono(high + 1, y, x);
    assert (high + 1) * x == high * x + x && y * x == x * y;
    MulMono(0, high, x);
    ResidueSmall(low + high * x, p);
  }

  // ---- Both fields ----

  ghost predicate Passes(hp: HashParams, key: PrfKey, a: seq<Input>, asset: Output, amount: Output, first: nat,
                         w: Witness, h: Witness)
    requires hp.p > 1 && a != [] && HasWidth(asset, ASSET_BITS) && HasWidth(amount, AMOUNT_BITS)
  {
    AgreeBelow(w, h, first) && Satisfied(hp.p, BothEmit(hp, key, a, asset, amount, first), h)
  }

  lemma BothSplit(hp: HashParams, key: PrfKey, a: seq<Input>, asset: Output, amount: Output, first: nat, h: Witness)
    requires hp.p > 1 && a != [] && HasWidth(asset, ASSET_BITS) && HasWidth(amount, AMOUNT_BITS)
    ensures var e := PadEmits(hp, key, a, first);
      Satisfied(hp.p, BothEmit(hp, key, a, asset, amount, first), h)
      <==> && Satisfied(hp.p, e.constraints, h)
           && Satisfied(hp.p, OutputEmits(asset, ASSET_BITS, e.low, e.next), h)
           && Satisfied(hp.p, OutputEmits(amount, AMOUNT_BITS, e.high, e.next + ASSET_BITS), h)
  {
    hide Satisfied, PadEmits, OutputEmits;
    var e := PadEmits(hp, key, a, first);
    var x := OutputEmits(asset, ASSET_BITS, e.low, e.next);
    SatisfiedConcat(hp.p, e.constraints + x, OutputEmits(amount, AMOUNT_BITS, e.high, e.next + ASSET_BITS), h);
    SatisfiedConcat(hp.p, e.constraints, x, h);
  }

  lemma BothSound(hp: HashParams, key: PrfKey, a: seq<Input>, asset: Output, amount: Output, first: nat, w: Witness,
                  h: Witness)
    requires IsPrime(hp.p) && IsFieldPrime(hp.p) && a != [] && AreGiven(hp.p, a, first, w)
    requires IsReady(hp.p, asset, ASSET_BITS, first, w) && IsReady(hp.p, amount, AMOUNT_BITS, first, w)
    requires Passes(hp, key, a, asset, amount, first, w, h)
    ensures IsPublished(hp.p, asset, ASSET_BITS, w) && IsPublished(hp.p, amount, AMOUNT_BITS, w)
  {
    hide IsFieldPrime, AreGiven, Pow2, PadEmits, OutputEmits, IsPublished, Satisfied, AgreeBelow, AllBelow, UsesBelow,
         AreBits, Value, Number, AreBelow;
    var e := PadEmits(hp, key, a, first);
    AssetFits(hp.p);
    BothSplit(hp, key, a, asset, amount, first, h);
    GivenBelow(hp.p, a, first, w);
    PadBelow(hp, key, a, first);
    ReadyStays(hp.p, asset, ASSET_BITS, first, e.next, w, h);
    ReadyStays(hp.p, amount, AMOUNT_BITS, first, e.next + ASSET_BITS, w, h);
    OutputSound(hp.p, asset, ASSET_BITS, e.low, e.next, h);
    OutputSound(hp.p, amount, AMOUNT_BITS, e.high, e.next + ASSET_BITS, h);
  }

  /** The part of the pad that encrypts the field that way. */
  function NeededPad(p: int, f: Output, n: nat, w: Witness): int
    requires p > 0 && HasWidth(f, n)
  {
    if Value(p, f.enforce, w) == 1 then Number(p, f.xor, w, n) else 0
  }

  lemma NeededFits(p: int, f: Output, n: nat, first: nat, w: Witness)
    requires p > 0 && IsReady(p, f, n, first, w) && IsPublished(p, f, n, w)
    ensures HasWidth(f, n) && 0 <= NeededPad(p, f, n, w) < Pow2(n)
  {
    hide Value, Number, Pow2, AllBelow, UsesBelow, AreBits, IsPublished;
    PadBitsFit(p, f, n, first, w);
    NumberInRange(p, PadBits(p, f, w), w, n);
  }

  lemma BothComplete(hp: HashParams, key: PrfKey, a: seq<Input>, asset: Output, amount: Output, first: nat, w: Witness)
    returns (h: Witness)
    requires IsPrime(hp.p) && IsFieldPrime(hp.p) && a != []
    requires AreGiven(hp.p, a, first, w) && AreInRange(hp.p, a, w)
    requires IsReady(hp.p, asset, ASSET_BITS, first, w) && IsReady(hp.p, amount, AMOUNT_BITS, first, w)
    requires IsPublished(hp.p, asset, ASSET_BITS, w) && IsPublished(hp.p, amount, AMOUNT_BITS, w)
    ensures Passes(hp, key, a, asset, amount, first, w, h)
  {
    hide IsFieldPrime, AreGiven, AreInRange, Pow2, PadEmits, OutputEmits, IsPublished, Satisfied, AgreeBelow,
         AllBelow, UsesBelow, AreBits, Value, Number, AreBelow, Residue, IsReady;
    var p, e := hp.p, PadEmits(hp, key, a, first);
    AssetFits(p);
    NeededFits(p, asset, ASSET_BITS, first, w);
    NeededFits(p, amount, AMOUNT_BITS, first, w);
    var low, high := NeededPad(p, asset, ASSET_BITS, w), NeededPad(p, amount, AMOUNT_BITS, w);
    TogetherFit(p, low, high);
    var g := PadComplete(hp, key, a, first, w, low, high);
    GivenBelow(p, a, first, w);
    PadBelow(hp, key, a, first);
    h := FieldsComplete(p, asset, amount, e, first, w, g);
    BothSplit(hp, key, a, asset, amount, first, h);
  }

  /** From a pad that encrypts both fields that way. */
  lemma FieldsComplete(p: int, asset: Output, amount: Output, e: Pads, first: nat, w: Witness, g: Witness)
    returns (h: Witness)
    requires IsPrime(p) && IsFieldPrime(p) && AgreeBelow(w, g, first) && Satisfied(p, e.constraints, g)
    requires first <= e.next && AllBelow(e.constraints, e.next) && UsesBelow(e.low, e.next) && UsesBelow(e.high, e.next)
    requires IsReady(p, asset, ASSET_BITS, first, w) && IsReady(p, amount, AMOUNT_BITS, first, w)
    requires IsPublished(p, asset, ASSET_BITS, w) && IsPublished(p, amount, AMOUNT_BITS, w)
    requires Value(p, e.low, g) == NeededPad(p, asset, ASSET_BITS, w)
    requires Value(p, e.high, g) == NeededPad(p, amount, AMOUNT_BITS, w)
    ensures AgreeBelow(w, h, first) && Satisfied(p, e.constraints, h)
    ensures Satisfied(p, OutputEmits(asset, ASSET_BITS, e.low, e.next), h)
    ensures Satisfied(p, OutputEmits(amount, AMOUNT_BITS, e.high, e.next + ASSET_BITS), h)
  {
    hide IsFieldPrime, Pow2, OutputEmits, IsPublished, Satisfied, AgreeBelow, AllBelow, UsesBelow, AreBits, Value,
         Number;
    AssetFits(p);
    var next := e.next + ASSET_BITS;
    ReadyStays(p, asset, ASSET_BITS, first, e.next, w, g);
    var g1 := OutputComplete(p, asset, ASSET_BITS, e.low, e.next, g);
    AgreeTrans(w, g, g1, first, e.next);
    ReadyStays(p, amount, AMOUNT_BITS, first, next, w, g1);
    ValueAgrees(p, e.high, g, g1, e.next);
    BelowMore(e.high, e.next, next);
    h := OutputComplete(p, amount, AMOUNT_BITS, e.high, next, g1);
    AgreeTrans(w, g1, h, first, next);
    AgreeTrans(g, g1, h, e.next, next);
    StaysSatisfied(p, e.constraints, g, h, e.next);
    OutputBelow(asset, ASSET_BITS, e.low, e.next);
    StaysSatisfied(p, OutputEmits(asset, ASSET_BITS, e.low, e.next), g1, h, next);
  }

  /** The constraints of the pad and of both fields can be satisfied exactly when each
      field is the value, encrypted with any bits under the mask if it is enforced: the
      inputs of the hash have no part in it. */
  lemma PublishedIff(hp: HashParams, key: PrfKey, a: seq<Input>, asset: Output, amount: Output, first: nat, w: Witness)
    requires IsPrime(hp.p) && IsFieldPrime(hp.p) && a != []
    requires AreGiven(hp.p, a, first, w) && AreInRange(hp.p, a, w)
    requires IsReady(hp.p, asset, ASSET_BITS, first, w) && IsReady(hp.p, amount, AMOUNT_BITS, first, w)
    ensures (exists h: Witness :: Passes(hp, key, a, asset, amount, first, w, h))
       <==> IsPublished(hp.p, asset, ASSET_BITS, w) && IsPublished(hp.p, amount, AMOUNT_BITS, w)
  {
    hide IsFieldPrime, AreGiven, AreInRange, Passes, IsPublished, Number, AreBits, AllBelow, UsesBelow;
    forall h: Witness | Passes(hp, key, a, asset, amount, first, w, h)
      ensures IsPublished(hp.p, asset, ASSET_BITS, w) && IsPublished(hp.p, amount, AMOUNT_BITS, w)
    {
      BothSound(hp, key, a, asset, amount, first, w, h);
    }
    if IsPublished(hp.p, asset, ASSET_BITS, w) && IsPublished(hp.p, amount, AMOUNT_BITS, w) {
      var h := BothComplete(hp, key, a, asset, amount, first, w);
    }
  }
}
