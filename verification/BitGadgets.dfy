/** What the bit gadgets of the circuit mean: any witness that satisfies their
    constraints obeys the rule, and a witness exists whenever the rule holds. */
module BitGadgets {
  import opened Arith
  import opened Field
  import opened Circuit
  import opened Options

  lemma EvalBooleanity(e: Expr, w: Witness)
    ensures Eval(Booleanity(e), w) == Eval(e, w) * (Eval(e, w) - 1)
  {
    assert Eval(Sub(e, Const(1)), w) == Eval(e, w) - 1;
  }

  lemma EvalSum(bits: seq<Expr>, k: nat, w: Witness)
    requires 0 < k <= |bits|
    ensures Eval(SumTo(bits, k), w) == Eval(SumTo(bits, k - 1), w) + Eval(bits[k - 1], w) * Pow2(k - 1)
  {
    assert Eval(Mul(bits[k - 1], Const(Pow2(k - 1))), w) == Eval(bits[k - 1], w) * Pow2(k - 1);
  }

  /** A bit constrained by Booleanity is 0 or 1 in the field. */
  lemma BooleanIsBit(p: int, e: Expr, w: Witness)
    requires IsPrime(p) && IsZero(p, Eval(Booleanity(e), w))
    ensures Value(p, e, w) == 0 || Value(p, e, w) == 1
  {
    var x := Eval(e, w);
    EvalBooleanity(e, w);
    NoZeroDivisors(p, x, x - 1);
    if IsZero(p, x - 1) {
      SameIffZero(p, x, 1);
      ResidueSmall(1, p);
    }
  }

  ghost predicate AreBits(p: int, bits: seq<Expr>, w: Witness)
    requires p > 0
  {
    forall i :: 0 <= i < |bits| ==> Value(p, bits[i], w) == 0 || Value(p, bits[i], w) == 1
  }

  lemma BooleansAreBits(p: int, bits: seq<Expr>, w: Witness)
    requires IsPrime(p) && Satisfied(p, Booleans(bits), w)
    ensures AreBits(p, bits, w)
  {
    forall i | 0 <= i < |bits|
      ensures Value(p, bits[i], w) == 0 || Value(p, bits[i], w) == 1
    {
      assert Booleans(bits)[i] == Booleanity(bits[i]);
      BooleanIsBit(p, bits[i], w);
    }
  }

  /** The number that the first k bits spell. */
  function Number(p: int, bits: seq<Expr>, w: Witness, k: nat): (n: int)
    requires p > 0 && k <= |bits|
    ensures n >= 0
  {
    if k == 0 then 0 else Number(p, bits, w, k - 1) + Value(p, bits[k - 1], w) * Pow2(k - 1)
  }

  lemma NumberStep(p: int, bits: seq<Expr>, w: Witness, k: nat)
    requires p > 0 && 0 < k <= |bits|
    ensures Number(p, bits, w, k) == Number(p, bits, w, k - 1) + Value(p, bits[k - 1], w) * Pow2(k - 1)
  {
  }

  lemma {:induction false} NumberInRange(p: int, bits: seq<Expr>, w: Witness, k: nat)
    requires p > 0 && k <= |bits| && AreBits(p, bits, w)
    ensures 0 <= Number(p, bits, w, k) < Pow2(k)
  {
    hide Value;
    if k > 0 {
      NumberInRange(p, bits, w, k - 1);
      assert Value(p, bits[k - 1], w) == 0 || Value(p, bits[k - 1], w) == 1;
    }
  }

  lemma SameAdd(p: int, a: int, b: int, c: int, d: int)
    requires p > 0 && Same(p, a, b) && Same(p, c, d)
    ensures Same(p, a + c, b + d)
  {
    hide Residue;
    ResidueAddBoth(a, c, p);
    ResidueAddBoth(b, d, p);
  }

  lemma SameTimes(p: int, a: int, b: int, k: int)
    requires p > 0 && Same(p, a, b)
    ensures Same(p, a * k, b * k)
  {
    hide Residue;
    ResidueMul(a, k, p);
    ResidueMul(b, k, p);
  }

  lemma SameMul(p: int, a: int, b: int, c: int, d: int)
    requires p > 0 && Same(p, a, b) && Same(p, c, d)
    ensures Same(p, a * c, b * d)
  {
    hide Residue;
    SameTimes(p, a, b, c);
    SameTimes(p, c, d, b);
    assert b * c == c * b && d * b == b * d;
  }

  lemma {:induction false} SumIsNumber(p: int, bits: seq<Expr>, w: Witness, k: nat)
    requires p > 0 && k <= |bits|
    ensures Same(p, Eval(SumTo(bits, k), w), Number(p, bits, w, k))
  {
    hide Residue, Same, Value;
    if k == 0 {
      SameSelf(p, 0);
    } else {
      SumIsNumber(p, bits, w, k - 1);
      EvalSum(bits, k, w);
      var x, v := Eval(bits[k - 1], w), Value(p, bits[k - 1], w);
      ValueIsResidue(p, bits[k - 1], w);
      SameResidue(p, x);
      SameTimes(p, x, v, Pow2(k - 1));
      SameAdd(p, Eval(SumTo(bits, k - 1), w), Number(p, bits, w, k - 1), x * Pow2(k - 1), v * Pow2(k - 1));
    }
  }

  lemma SameSelf(p: int, x: int)
    requires p > 0
    ensures Same(p, x, x)
  {
  }

  /** The constraints of extractBits: v is the number spelled by nbits bits, plus
      2^nbits times the remainder variable if there is one. */
  lemma {:induction false} BitsMeanValue(p: int, v: Expr, first: nat, nbits: nat, withRem: bool, w: Witness)
    requires IsPrime(p) && Satisfied(p, BitConstraints(v, first, nbits, withRem), w)
    ensures AreBits(p, BitVars(first, nbits), w)
    ensures 0 <= Number(p, BitVars(first, nbits), w, nbits) < Pow2(nbits)
    ensures Same(p, Eval(v, w),
                 Number(p, BitVars(first, nbits), w, nbits) + if withRem then w(first + nbits) * Pow2(nbits) else 0)
  {
    hide IsZero, Same, Value, Number, SumTo, BitVars, Booleans, ValueConstraint, AreBits, Satisfied, BitConstraints,
         Residue, Pow2;
    var bits := BitVars(first, nbits);
    var r := RemVar(first, nbits, withRem);
    BitConstraintsSplit(p, v, first, nbits, withRem, w);
    BooleansAreBits(p, bits, w);
    NumberInRange(p, bits, w, nbits);
    SumIsNumber(p, bits, w, nbits);
    EvalValueConstraint(v, bits, r, w);
    var rem := if withRem then w(first + nbits) * Pow2(nbits) else 0;
    SumMeansValue(p, Eval(SumTo(bits, nbits), w), rem, Eval(v, w), Number(p, bits, w, nbits));
  }

  lemma BitConstraintsSplit(p: int, v: Expr, first: nat, nbits: nat, withRem: bool, w: Witness)
    requires p > 0 && Satisfied(p, BitConstraints(v, first, nbits, withRem), w)
    ensures var bits := BitVars(first, nbits);
      var r := RemVar(first, nbits, withRem);
      Satisfied(p, Booleans(bits), w) && IsZero(p, Eval(ValueConstraint(v, bits, r), w))
  {
    hide IsZero, Eval, BitVars, Booleans, ValueConstraint;
    var bits := BitVars(first, nbits);
    var c := ValueConstraint(v, bits, RemVar(first, nbits, withRem));
    SatisfiedConcat(p, Booleans(bits), [c], w);
    assert IsZero(p, Eval([c][0], w));
  }

  lemma EvalValueConstraint(v: Expr, bits: seq<Expr>, r: Option<Expr>, w: Witness)
    ensures Eval(ValueConstraint(v, bits, r), w)
         == Eval(SumTo(bits, |bits|), w) + (match r case None => 0 case Some(e) => Eval(e, w) * Pow2(|bits|))
            - Eval(v, w)
  {
    EvalRemainder(v, SumTo(bits, |bits|), r, Pow2(|bits|), w);
  }

  lemma EvalRemainder(v: Expr, low: Expr, r: Option<Expr>, unit: int, w: Witness)
    ensures Eval(RemainderConstraint(v, low, r, unit), w)
         == Eval(low, w) + (match r case None => 0 case Some(e) => Eval(e, w) * unit) - Eval(v, w)
  {
    if r.Some? {
      var t := Mul(r.value, Const(unit));
      assert Eval(t, w) == Eval(r.value, w) * unit;
      assert Eval(Add(low, t), w) == Eval(low, w) + Eval(t, w);
    }
  }

  lemma SumMeansValue(p: int, sum: int, rem: int, v: int, n: int)
    requires p > 0 && Same(p, sum, n) && IsZero(p, sum + rem - v)
    ensures Same(p, v, n + rem)
  {
    hide Residue;
    SameIffZero(p, sum + rem, v);
    SameAdd(p, sum, n, rem, rem);
  }

  /** With a variable for the number that the bits spell: it equals that number in
      the field, and makes up v with the remainder. */
  lemma {:induction false} BitvalMeansBits(p: int, v: Expr, first: nat, nbits: nat, withRem: bool, w: Witness)
    requires IsPrime(p) && Satisfied(p, ExtractConstraints(v, first, nbits, withRem, true), w)
    ensures AreBits(p, BitVars(first, nbits), w)
    ensures 0 <= Number(p, BitVars(first, nbits), w, nbits) < Pow2(nbits)
    ensures var b := w(first + nbits + if withRem then 1 else 0);
      && Same(p, b, Number(p, BitVars(first, nbits), w, nbits))
      && Same(p, Eval(v, w), b + if withRem then w(first + nbits) * Pow2(nbits) else 0)
  {
    hide IsZero, Same, Value, Number, BitVars, Booleans, AreBits, Satisfied, Residue, Pow2, SumTo, Eval;
    var bits := BitVars(first, nbits);
    var r, b := RemVar(first, nbits, withRem), BitvalVar(first, nbits, withRem, true).value;
    var n, x := Number(p, bits, w, nbits), w(first + nbits + if withRem then 1 else 0);
    var rem := if withRem then w(first + nbits) * Pow2(nbits) else 0;
    SplitExtract(p, v, first, nbits, withRem, w);
    BooleansAreBits(p, bits, w);
    NumberInRange(p, bits, w, nbits);
    SumIsNumber(p, bits, w, nbits);
    EvalRemainder(v, b, r, Pow2(nbits), w);
    EvalDifference(SumTo(bits, nbits), b, w);
    EvalVar(first + nbits + if withRem then 1 else 0, w);
    EvalVar(first + nbits, w);
    SumMeansValue(p, Eval(SumTo(bits, nbits), w), 0, x, n);
    SameSelf(p, x);
    SumMeansValue(p, x, rem, Eval(v, w), x);
  }

  lemma SplitExtract(p: int, v: Expr, first: nat, nbits: nat, withRem: bool, w: Witness)
    requires p > 0 && Satisfied(p, ExtractConstraints(v, first, nbits, withRem, true), w)
    ensures var bits := BitVars(first, nbits);
      var r := RemVar(first, nbits, withRem);
      var b := BitvalVar(first, nbits, withRem, true).value;
      && Satisfied(p, Booleans(bits), w)
      && IsZero(p, Eval(Sub(SumTo(bits, nbits), b), w))
      && IsZero(p, Eval(RemainderConstraint(v, b, r, Pow2(nbits)), w))
  {
    hide IsZero, Eval, BitVars, Booleans, WeightedSum, RemainderConstraint;
    var bits, r := BitVars(first, nbits), RemVar(first, nbits, withRem);
    var b := BitvalVar(first, nbits, withRem, true).value;
    var cs := [Sub(SumTo(bits, nbits), b), RemainderConstraint(v, b, r, Pow2(nbits))];
    assert ValueConstraints(v, bits, POWERS, r, Some(b)) == cs;
    SatisfiedConcat(p, Booleans(bits), cs, w);
    assert IsZero(p, Eval(cs[0], w)) && IsZero(p, Eval(cs[1], w));
  }

  lemma EvalVar(id: nat, w: Witness)
    ensures Eval(Var(id), w) == w(id)
  {
  }

  lemma EvalDifference(a: Expr, b: Expr, w: Witness)
    ensures Eval(Sub(a, b), w) == Eval(a, w) + 0 - Eval(b, w)
  {
  }

  // ---- Which numbers the bits can spell ----

  /** Without a remainder the bits spell the value plus some multiple of p. */
  lemma {:induction false} BitsSpellValue(p: int, v: Expr, first: nat, nbits: nat, w: Witness) returns (k: nat)
    requires IsPrime(p) && Satisfied(p, BitConstraints(v, first, nbits, false), w)
    ensures Number(p, BitVars(first, nbits), w, nbits) == Value(p, v, w) + k * p < Pow2(nbits)
  {
    hide BitConstraints, Satisfied, Number, AreBits, Residue;
    BitsMeanValue(p, v, first, nbits, false, w);
    k := MultiplesAbove(p, Eval(v, w), Number(p, BitVars(first, nbits), w, nbits));
  }

  lemma MultiplesAbove(p: int, x: int, n: int) returns (k: nat)
    requires p > 0 && n >= 0 && Same(p, x, n)
    ensures n == Residue(x, p) + k * p
  {
    k := n / p;
    assert n == k * p + n % p;
  }

  /** A range check: if 2^nbits is at most p more than the value, the value is below
      2^nbits and is spelled by the bits. */
  lemma {:induction false} BitsBoundValue(p: int, v: Expr, first: nat, nbits: nat, w: Witness)
    requires IsPrime(p) && Satisfied(p, BitConstraints(v, first, nbits, false), w)
    requires Pow2(nbits) <= Value(p, v, w) + p
    ensures Value(p, v, w) == Number(p, BitVars(first, nbits), w, nbits) < Pow2(nbits)
  {
    hide BitConstraints, Satisfied, Number, Value, Pow2;
    var k := BitsSpellValue(p, v, first, nbits, w);
    if k > 0 {
      MulMono(1, k, p);
    }
  }

  /** Extensions of w by new variables that satisfy the constraints. */
  ghost predicate IsExtension(p: int, v: Expr, first: nat, nbits: nat, w: Witness, h: Witness)
    requires p > 0
  {
    AgreeBelow(w, h, first) && Satisfied(p, BitConstraints(v, first, nbits, false), h)
  }

  /** The bits can spell exactly the numbers below 2^nbits that equal the value in
      the field. */
  lemma SpelledIff(p: int, v: Expr, first: nat, nbits: nat, w: Witness, n: nat)
    requires IsPrime(p) && UsesBelow(v, first) && n < Pow2(nbits)
    ensures (exists h: Witness :: IsExtension(p, v, first, nbits, w, h)
                                  && Number(p, BitVars(first, nbits), h, nbits) == n)
       <==> n % p == Value(p, v, w)
  {
    hide Number, BitConstraints, Satisfied, Pow2, Spelling, BitVars, Eval;
    if n % p == Value(p, v, w) {
      SpellingExtends(p, v, first, nbits, w, n);
      assert IsExtension(p, v, first, nbits, w, Spelling(n, first, nbits, w));
    }
    forall h: Witness | IsExtension(p, v, first, nbits, w, h) && Number(p, BitVars(first, nbits), h, nbits) == n
      ensures n % p == Value(p, v, w)
    {
      ValueAgrees(p, v, w, h, first);
      BitsMeanValue(p, v, first, nbits, false, h);
    }
  }

  /** The bits are determined if and only if 2^nbits is at most p more than the value. */
  lemma DeterminedIff(p: int, v: Expr, first: nat, nbits: nat, w: Witness)
    requires IsPrime(p) && UsesBelow(v, first)
    ensures (forall h: Witness :: IsExtension(p, v, first, nbits, w, h) ==>
               Number(p, BitVars(first, nbits), h, nbits) == Value(p, v, w))
       <==> Pow2(nbits) <= Value(p, v, w) + p
  {
    hide Number, BitConstraints, Satisfied, Pow2, BitVars, Eval, Value, AgreeBelow;
    if Pow2(nbits) <= Value(p, v, w) + p {
      forall h: Witness | IsExtension(p, v, first, nbits, w, h)
        ensures Number(p, BitVars(first, nbits), h, nbits) == Value(p, v, w)
      {
        ValueAgrees(p, v, w, h, first);
        BitsBoundValue(p, v, first, nbits, h);
      }
    } else {
      var n: nat := Value(p, v, w) + p;
      ModIs(n, 1, p, Value(p, v, w));
      SpelledIff(p, v, first, nbits, w, n);
      var h: Witness :| IsExtension(p, v, first, nbits, w, h) && Number(p, BitVars(first, nbits), h, nbits) == n;
    }
  }

  // ---- check_greaterequal ----

  /** Sound: satisfied constraints mean a >= b, unless the or_zero value is 0. */
  lemma GreaterEqualSound(p: int, a: Expr, b: Expr, first: nat, nbits: nat, orZero: Option<Expr>, w: Witness)
    requires IsPrime(p) && Pow2(nbits + 1) <= p
    requires Value(p, a, w) < Pow2(nbits) && Value(p, b, w) < Pow2(nbits)
    requires Satisfied(p, GreaterEqualConstraints(a, b, first, nbits, orZero), w)
    ensures Value(p, a, w) >= Value(p, b, w) || (orZero.Some? && Value(p, orZero.value, w) == 0)
  {
    hide IsZero, Value, Number, BitConstraints;
    var rem := Var(first + nbits);
    var last := match orZero case None => rem case Some(z) => Mul(rem, z);
    SatisfiedConcat(p, BitConstraints(Sub(a, b), first, nbits, true), [last], w);
    assert IsZero(p, Eval([last][0], w));
    BitsMeanValue(p, Sub(a, b), first, nbits, true, w);
    if orZero.Some? {
      assert Eval(Mul(rem, orZero.value), w) == w(first + nbits) * Eval(orZero.value, w);
      NoZeroDivisors(p, w(first + nbits), Eval(orZero.value, w));
      ZeroValue(p, orZero.value, w);
    }
    if IsZero(p, w(first + nbits)) {
      var n := Number(p, BitVars(first, nbits), w, nbits);
      ZeroTimes(p, w(first + nbits), Pow2(nbits));
      DropZero(p, Eval(Sub(a, b), w), n, w(first + nbits) * Pow2(nbits));
      ValueIsResidue(p, a, w);
      ValueIsResidue(p, b, w);
      NoBorrow(p, Eval(a, w), Eval(b, w), n, Pow2(nbits));
    }
  }

  lemma ValueIsResidue(p: int, e: Expr, w: Witness)
    requires p > 0
    ensures Value(p, e, w) == Residue(Eval(e, w), p)
  {
  }

  lemma ZeroValue(p: int, e: Expr, w: Witness)
    requires p > 0
    ensures IsZero(p, Eval(e, w)) <==> Value(p, e, w) == 0
  {
  }

  lemma DropZero(p: int, x: int, n: int, z: int)
    requires p > 0 && Same(p, x, n + z) && IsZero(p, z)
    ensures Same(p, x, n)
  {
    hide Residue;
    SameIffZero(p, n + z, n);
    assert n + z - n == z;
  }

  /** If the difference of two numbers below the bound is, in the field, a number
      below the bound, then there was no borrow. */
  lemma NoBorrow(p: int, a: int, b: int, n: int, bound: int)
    requires p > 0 && Same(p, a - b, n) && 0 <= n < bound && 2 * bound <= p
    requires Residue(a, p) < bound && Residue(b, p) < bound
    ensures Residue(a, p) >= Residue(b, p)
  {
    hide IsZero;
    var ra, rb := Residue(a, p), Residue(b, p);
    SameResidue(p, a);
    SameResidue(p, b);
    SameIffZero(p, a, ra);
    SameIffZero(p, b, rb);
    SameIffZero(p, a - b, n);
    ZeroNegate(p, a - ra);
    ZeroAdd(p, -(a - ra), b - rb);
    ZeroAdd(p, -(a - ra) + (b - rb), a - b - n);
    SmallZero(p, ra - rb - n);
  }

  /** The new variables spell val: its bits, and what is above them. */
  function Spelling(val: int, first: nat, nbits: nat, w: Witness): Witness {
    (i: nat) => if i < first then w(i)
         else if i < first + nbits then val / Pow2(i - first) % 2
         else val / Pow2(nbits)
  }

  /** The values the code gives to the new variables. */
  function HonestWitness(p: int, v: Expr, first: nat, nbits: nat, w: Witness): Witness
    requires p > 0
  {
    Spelling(Value(p, v, w), first, nbits, w)
  }

  lemma {:induction false} SpellingSum(val: nat, first: nat, nbits: nat, w: Witness, k: nat)
    requires k <= nbits
    ensures Eval(SumTo(BitVars(first, nbits), k), Spelling(val, first, nbits, w)) == val % Pow2(k)
  {
    hide Pow2, SumTo;
    var bits, h := BitVars(first, nbits), Spelling(val, first, nbits, w);
    if k == 0 {
      assert Eval(SumTo(bits, 0), h) == 0 by { EvalEmptySum(bits, h); }
      assert Pow2(0) == 1 by { Pow2Small(); }
      assert val % 1 == 0;
    } else {
      SpellingSum(val, first, nbits, w, k - 1);
      LowBitsStep(val, k - 1);
      EvalSum(bits, k, h);
      assert Eval(bits[k - 1], h) == val / Pow2(k - 1) % 2;
    }
  }

  lemma EvalEmptySum(bits: seq<Expr>, w: Witness)
    ensures Eval(SumTo(bits, 0), w) == 0
  {
  }

  /** Complete: the honest witness satisfies the constraints of extractBits. */
  lemma {:induction false} HonestBits(p: int, v: Expr, first: nat, nbits: nat, w: Witness)
    requires p > 1 && UsesBelow(v, first)
    ensures Satisfied(p, BitConstraints(v, first, nbits, true), HonestWitness(p, v, first, nbits, w))
  {
    hide IsZero, Value, SumTo, ValueConstraint, Pow2;
    var bits, h := BitVars(first, nbits), HonestWitness(p, v, first, nbits, w);
    SpellingBooleans(p, Value(p, v, w), first, nbits, w);
    var c := ValueConstraint(v, bits, Some(Var(first + nbits)));
    SpellingSum(Value(p, v, w), first, nbits, w, nbits);
    EvalAgrees(v, w, h, first);
    var val := Value(p, v, w);
    EvalValueConstraint(v, bits, Some(Var(first + nbits)), h);
    assert val == val / Pow2(nbits) * Pow2(nbits) + val % Pow2(nbits);
    assert Eval(c, h) == val - Eval(v, w);
    ValueIsSame(p, v, w);
    SatisfiedConcat(p, Booleans(bits), [c], h);
  }

  lemma ValueIsSame(p: int, e: Expr, w: Witness)
    requires p > 0
    ensures IsZero(p, Value(p, e, w) - Eval(e, w))
  {
    SameResidue(p, Eval(e, w));
    SameIffZero(p, Value(p, e, w), Eval(e, w));
  }

  lemma SpellingBooleans(p: int, val: nat, first: nat, nbits: nat, w: Witness)
    requires p > 1
    ensures Satisfied(p, Booleans(BitVars(first, nbits)), Spelling(val, first, nbits, w))
  {
    hide IsZero, Pow2;
    var bits, h := BitVars(first, nbits), Spelling(val, first, nbits, w);
    forall i | 0 <= i < nbits
      ensures IsZero(p, Eval(Booleans(bits)[i], h))
    {
      var x := h(first + i);
      assert x == 0 || x == 1;
      assert Eval(bits[i], h) == x;
      EvalBooleanity(bits[i], h);
      MultipleIsZero(p, x * (x - 1), 0);
    }
  }

  /** Any number that equals the value in the field can be spelled. */
  lemma SpellingExtends(p: int, v: Expr, first: nat, nbits: nat, w: Witness, n: nat)
    requires p > 1 && UsesBelow(v, first) && n < Pow2(nbits) && n % p == Value(p, v, w)
    ensures IsExtension(p, v, first, nbits, w, Spelling(n, first, nbits, w))
    ensures Number(p, BitVars(first, nbits), Spelling(n, first, nbits, w), nbits) == n
  {
    hide IsZero, SumTo, ValueConstraint, Pow2, Number, Value;
    var bits, h := BitVars(first, nbits), Spelling(n, first, nbits, w);
    SpellingBooleans(p, n, first, nbits, w);
    SpellingSum(n, first, nbits, w, nbits);
    SmallRemainder(n, Pow2(nbits));
    EvalAgrees(v, w, h, first);
    EvalValueConstraint(v, bits, None, h);
    var c := ValueConstraint(v, bits, None);
    assert Eval(c, h) == n - Eval(v, w);
    EqualInField(p, v, w, n);
    SatisfiedConcat(p, Booleans(bits), [c], h);
    SpellingNumber(p, n, first, nbits, w, nbits);
  }

  lemma SmallRemainder(n: int, d: int)
    requires 0 <= n < d
    ensures n % d == n
  {
    ModIs(n, 0, d, n);
  }

  lemma EqualInField(p: int, v: Expr, w: Witness, n: int)
    requires p > 0 && n % p == Value(p, v, w)
    ensures IsZero(p, n - Eval(v, w))
  {
    SameIffZero(p, n, Eval(v, w));
  }

  lemma {:induction false} SpellingNumber(p: int, val: nat, first: nat, nbits: nat, w: Witness, k: nat)
    requires p > 1 && k <= nbits
    ensures Number(p, BitVars(first, nbits), Spelling(val, first, nbits, w), k) == val % Pow2(k)
  {
    hide Pow2;
    var bits, h := BitVars(first, nbits), Spelling(val, first, nbits, w);
    if k == 0 {
      Pow2Small();
      assert val % 1 == 0;
    } else {
      SpellingNumber(p, val, first, nbits, w, k - 1);
      LowBitsStep(val, k - 1);
      var x := val / Pow2(k - 1) % 2;
      assert Eval(bits[k - 1], h) == x;
      ResidueSmall(x, p);
    }
  }

  /** Complete: whenever a >= b, or the or_zero value is 0, there are values for
      the new variables that satisfy the constraints. */
  lemma GreaterEqualComplete(p: int, a: Expr, b: Expr, first: nat, nbits: nat, orZero: Option<Expr>, w: Witness)
    returns (h: Witness)
    requires p > 1 && UsesBelow(a, first) && UsesBelow(b, first) && (orZero.Some? ==> UsesBelow(orZero.value, first))
    requires Value(p, a, w) < Pow2(nbits) && Value(p, b, w) < Pow2(nbits)
    requires Value(p, a, w) >= Value(p, b, w) || (orZero.Some? && Value(p, orZero.value, w) == 0)
    ensures AgreeBelow(w, h, first)
    ensures Satisfied(p, GreaterEqualConstraints(a, b, first, nbits, orZero), h)
  {
    hide IsZero, Value, BitConstraints, Pow2, HonestWitness;
    var diff := Sub(a, b);
    h := HonestWitness(p, diff, first, nbits, w);
    HonestBits(p, diff, first, nbits, w);
    HonestIs(p, diff, first, nbits, w);
    var rem := Var(first + nbits);
    var last := match orZero case None => rem case Some(z) => Mul(rem, z);
    if Value(p, a, w) >= Value(p, b, w) {
      DifferenceValue(p, a, b, w);
      SmallQuotient(Value(p, diff, w), Pow2(nbits));
      assert Eval(last, h) == 0;
      MultipleIsZero(p, 0, 0);
    } else {
      EvalAgrees(orZero.value, w, h, first);
      ZeroValue(p, orZero.value, w);
      ZeroTimes(p, Eval(orZero.value, w), h(first + nbits));
      assert Eval(last, h) == h(first + nbits) * Eval(orZero.value, w);
    }
    assert IsZero(p, Eval(last, h));
    SatisfiedConcat(p, BitConstraints(diff, first, nbits, true), [last], h);
  }

  lemma HonestIs(p: int, v: Expr, first: nat, nbits: nat, w: Witness)
    requires p > 0
    ensures AgreeBelow(w, HonestWitness(p, v, first, nbits, w), first)
    ensures HonestWitness(p, v, first, nbits, w)(first + nbits) == Value(p, v, w) / Pow2(nbits)
  {
  }

  lemma SmallQuotient(v: int, d: int)
    requires 0 <= v < d
    ensures v / d == 0
  {
  }

  lemma DifferenceValue(p: int, a: Expr, b: Expr, w: Witness)
    requires p > 1 && Value(p, a, w) >= Value(p, b, w)
    ensures Value(p, Sub(a, b), w) == Value(p, a, w) - Value(p, b, w)
  {
    var x, y := Eval(a, w), Eval(b, w);
    var ra, rb := Residue(x, p), Residue(y, p);
    SameResidue(p, x);
    SameResidue(p, y);
    SameTimes(p, y, rb, -1);
    SameAdd(p, x, ra, y * -1, rb * -1);
    ResidueSmall(ra - rb, p);
  }

  /** check_greaterequal can be satisfied exactly when a >= b or the or_zero value
      is 0. */
  lemma GreaterEqualIff(p: int, a: Expr, b: Expr, first: nat, nbits: nat, orZero: Option<Expr>, w: Witness)
    requires IsPrime(p) && Pow2(nbits + 1) <= p
    requires UsesBelow(a, first) && UsesBelow(b, first) && (orZero.Some? ==> UsesBelow(orZero.value, first))
    requires Value(p, a, w) < Pow2(nbits) && Value(p, b, w) < Pow2(nbits)
    ensures (exists h: Witness :: AgreeBelow(w, h, first) &&
               Satisfied(p, GreaterEqualConstraints(a, b, first, nbits, orZero), h))
       <==> (Value(p, a, w) >= Value(p, b, w) || (orZero.Some? && Value(p, orZero.value, w) == 0))
  {
    hide Satisfied, Value, GreaterEqualConstraints;
    if Value(p, a, w) >= Value(p, b, w) || (orZero.Some? && Value(p, orZero.value, w) == 0) {
      var h := GreaterEqualComplete(p, a, b, first, nbits, orZero, w);
    }
    forall h: Witness | AgreeBelow(w, h, first) && Satisfied(p, GreaterEqualConstraints(a, b, first, nbits, orZero), h)
      ensures Value(p, a, w) >= Value(p, b, w) || (orZero.Some? && Value(p, orZero.value, w) == 0)
    {
      ValueAgrees(p, a, w, h, first);
      ValueAgrees(p, b, w, h, first);
      if orZero.Some? {
        ValueAgrees(p, orZero.value, w, h, first);
      }
      GreaterEqualSound(p, a, b, first, nbits, orZero, h);
    }
  }

  lemma ValueAgrees(p: int, e: Expr, w: Witness, h: Witness, n: nat)
    requires p > 0 && UsesBelow(e, n) && AgreeBelow(w, h, n)
    ensures Value(p, e, w) == Value(p, e, h)
  {
    EvalAgrees(e, w, h, n);
  }

  /** x - y times z is zero just when z is, or x and y are the same value. */
  lemma EnforcedIff(p: int, x: Expr, y: Expr, z: Expr, w: Witness)
    requires IsPrime(p)
    ensures IsZero(p, Eval(Mul(Sub(x, y), z), w)) <==> Value(p, z, w) == 0 || Value(p, x, w) == Value(p, y, w)
  {
    var d, e := Eval(x, w) - Eval(y, w), Eval(z, w);
    assert Eval(Mul(Sub(x, y), z), w) == d * e by { assert Eval(Sub(x, y), w) == d; }
    SameIffZero(p, Eval(x, w), Eval(y, w));
    hide Residue;
    if IsZero(p, d * e) {
      NoZeroDivisors(p, d, e);
    }
    if IsZero(p, d) {
      ZeroTimes(p, d, e);
    }
    if IsZero(p, e) {
      ZeroTimes(p, e, d);
    }
  }
}
