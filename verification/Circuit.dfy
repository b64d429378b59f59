/** The constraint system that source/cclib/src/CCproof.cpp and the bit
    gadgets of source/cclib/src/zkhash.hpp fill: every constraint is an
    expression over witness variables that has to be zero in the field. */
module Circuit {
  import opened Arith
  import opened Field
  import opened Options

  datatype Expr =
    | Const(c: int)
    | Var(id: nat)
    | Add(l: Expr, r: Expr)
    | Sub(l: Expr, r: Expr)
    | Mul(l: Expr, r: Expr)

  /** A value for every variable. */
  type Witness = nat -> int

  function Eval(e: Expr, w: Witness): int {
    match e
    case Const(c) => c
    case Var(id) => w(id)
    case Add(l, r) => Eval(l, w) + Eval(r, w)
    case Sub(l, r) => Eval(l, w) - Eval(r, w)
    case Mul(l, r) => Eval(l, w) * Eval(r, w)
  }

  /** The value of e as a field element between 0 and p - 1. */
  function Value(p: int, e: Expr, w: Witness): (v: int)
    requires p > 0
    ensures 0 <= v < p
  {
    Residue(Eval(e, w), p)
  }

  predicate Satisfied(p: int, cs: seq<Expr>, w: Witness)
    requires p > 0
  {
    forall i :: 0 <= i < |cs| ==> IsZero(p, Eval(cs[i], w))
  }

  lemma SatisfiedConcat(p: int, cs: seq<Expr>, ds: seq<Expr>, w: Witness)
    requires p > 0
    ensures Satisfied(p, cs + ds, w) <==> Satisfied(p, cs, w) && Satisfied(p, ds, w)
  {
    hide IsZero;
    if Satisfied(p, cs + ds, w) {
      forall i | 0 <= i < |cs| ensures IsZero(p, Eval(cs[i], w)) {
        assert (cs + ds)[i] == cs[i];
      }
      forall i | 0 <= i < |ds| ensures IsZero(p, Eval(ds[i], w)) {
        assert (cs + ds)[|cs| + i] == ds[i];
      }
    }
  }

  /** All variables of e are below n. */
  predicate UsesBelow(e: Expr, n: nat) {
    match e
    case Const(_) => true
    case Var(id) => id < n
    case Add(l, r) => UsesBelow(l, n) && UsesBelow(r, n)
    case Sub(l, r) => UsesBelow(l, n) && UsesBelow(r, n)
    case Mul(l, r) => UsesBelow(l, n) && UsesBelow(r, n)
  }

  ghost predicate AgreeBelow(w: Witness, v: Witness, n: nat) { forall i: nat :: i < n ==> w(i) == v(i) }

  lemma {:induction false} EvalAgrees(e: Expr, w: Witness, v: Witness, n: nat)
    requires UsesBelow(e, n) && AgreeBelow(w, v, n)
    ensures Eval(e, w) == Eval(e, v)
  {
    match e
    case Const(_) =>
    case Var(_) =>
    case Add(l, r) => EvalAgrees(l, w, v, n); EvalAgrees(r, w, v, n);
    case Sub(l, r) => EvalAgrees(l, w, v, n); EvalAgrees(r, w, v, n);
    case Mul(l, r) => EvalAgrees(l, w, v, n); EvalAgrees(r, w, v, n);
  }

  // ---- What the gadgets emit ----

  function Booleanity(e: Expr): Expr { Mul(e, Sub(e, Const(1))) }

  function Booleans(bits: seq<Expr>): (cs: seq<Expr>)
    ensures |cs| == |bits|
  {
    seq(|bits|, i requires 0 <= i < |bits| => Booleanity(bits[i]))
  }

  function BitVars(first: nat, nbits: nat): (bits: seq<Expr>)
    ensures |bits| == nbits
  {
    seq(nbits, i requires 0 <= i < nbits => Var(first + i))
  }

  /** The sum of the first k bits, each times the base of its place. */
  function WeightedSum(bits: seq<Expr>, basis: nat -> int, k: nat): Expr
    requires k <= |bits|
  {
    if k == 0 then Const(0) else Add(WeightedSum(bits, basis, k - 1), Mul(bits[k - 1], Const(basis(k - 1))))
  }

  /** The bases that break a value into bits: the powers of 2. */
  const POWERS: nat -> int := (i: nat) => Pow2(i)

  function SumTo(bits: seq<Expr>, k: nat): Expr
    requires k <= |bits|
  {
    WeightedSum(bits, POWERS, k)
  }

  /** low + rem * unit = v, or low = v without a remainder. */
  function RemainderConstraint(v: Expr, low: Expr, rem: Option<Expr>, unit: int): Expr {
    match rem
    case None => Sub(low, v)
    case Some(r) => Sub(Add(low, Mul(r, Const(unit))), v)
  }

  /** The sum of the weighted bits, plus the remainder, is v; through the variable
      bitval, if there is one, which then is the sum of the bits. */
  function ValueConstraints(v: Expr, bits: seq<Expr>, basis: nat -> int, rem: Option<Expr>,
                            bitval: Option<Expr>): seq<Expr> {
    var sum := WeightedSum(bits, basis, |bits|);
    match bitval
    case None => [RemainderConstraint(v, sum, rem, basis(|bits|))]
    case Some(b) => [Sub(sum, b), RemainderConstraint(v, b, rem, basis(|bits|))]
  }

  /** sum(bits) + rem * 2^nbits = v, or sum(bits) = v without a remainder. */
  function ValueConstraint(v: Expr, bits: seq<Expr>, rem: Option<Expr>): Expr {
    RemainderConstraint(v, SumTo(bits, |bits|), rem, Pow2(|bits|))
  }

  /** The variables of extractBits, from `first` on: the bits, the remainder, the
      number that the bits spell. */
  function RemVar(first: nat, nbits: nat, withRem: bool): Option<Expr> {
    if withRem then Some(Var(first + nbits)) else None
  }

  function BitvalVar(first: nat, nbits: nat, withRem: bool, withBitval: bool): Option<Expr> {
    if withBitval then Some(Var(first + nbits + if withRem then 1 else 0)) else None
  }

  /** The constraints of extractBits. */
  function ExtractConstraints(v: Expr, first: nat, nbits: nat, withRem: bool, withBitval: bool): seq<Expr> {
    Booleans(BitVars(first, nbits))
    + ValueConstraints(v, BitVars(first, nbits), POWERS, RemVar(first, nbits, withRem),
                       BitvalVar(first, nbits, withRem, withBitval))
  }

  /** Without a variable for the number that the bits spell. */
  function BitConstraints(v: Expr, first: nat, nbits: nat, withRem: bool): seq<Expr> {
    Booleans(BitVars(first, nbits)) + [ValueConstraint(v, BitVars(first, nbits), RemVar(first, nbits, withRem))]
  }

  /** The constraints of check_greaterequal. */
  function GreaterEqualConstraints(a: Expr, b: Expr, first: nat, nbits: nat, orZero: Option<Expr>): seq<Expr> {
    BitConstraints(Sub(a, b), first, nbits, true)
    + [match orZero case None => Var(first + nbits) case Some(z) => Mul(Var(first + nbits), z)]
  }

  lemma OnlyValueConstraint(v: Expr, bits: seq<Expr>, rem: Option<Expr>)
    ensures ValueConstraints(v, bits, POWERS, rem, None) == [ValueConstraint(v, bits, rem)]
  {
  }

  function XorConstraints(val: seq<Expr>, a: seq<Expr>, b: seq<Expr>): seq<Expr>
    requires |val| == |a| == |b|
  {
    seq(|val|, i requires 0 <= i < |val| => Sub(Sub(Add(a[i], b[i]), Mul(Mul(a[i], b[i]), Const(2))), val[i]))
  }

  function AndConstraints(val: seq<Expr>, a: seq<Expr>, b: seq<Expr>): seq<Expr>
    requires |val| == |a| == |b|
  {
    seq(|val|, i requires 0 <= i < |val| => Sub(Mul(a[i], b[i]), val[i]))
  }

  /** The system under construction: the next unused variable and the constraints
      added so far. */
  class ConstraintSystem {
    var next: nat
    var constraints: seq<Expr>

    constructor (inputs: nat)
      ensures next == inputs && constraints == []
    {
      next, constraints := inputs, [];
    }

    method AddBooleanity(e: Expr)
      modifies this
      ensures next == old(next) && constraints == old(constraints) + [Booleanity(e)]
    {
      constraints := constraints + [Booleanity(e)];
    }

    method ConstrainZero(e: Expr)
      modifies this
      ensures next == old(next) && constraints == old(constraints) + [e]
    {
      constraints := constraints + [e];
    }

    /** The linear combination of bits and remainder has to equal v; the bits alone
        have to equal bitval. */
    method ConstrainValue(v: Expr, bits: seq<Expr>, basis: nat -> int, rem: Option<Expr>, bitval: Option<Expr>)
      modifies this
      ensures next == old(next) && constraints == old(constraints) + ValueConstraints(v, bits, basis, rem, bitval)
    {
      var lc := Const(0);
      for i := 0 to |bits|
        invariant lc == WeightedSum(bits, basis, i) && next == old(next) && constraints == old(constraints)
      {
        lc := Add(lc, Mul(bits[i], Const(basis(i))));
      }
      if bitval.Some? {
        constraints := constraints + [Sub(lc, bitval.value)];
        lc := bitval.value;
      }
      if rem.Some? {
        lc := Add(lc, Mul(rem.value, Const(basis(|bits|))));
      }
      constraints := constraints + [Sub(lc, v)];
    }

    /** Breaks v into nbits new bits, a new remainder and a new variable for the
        number that the bits spell, each if asked for. */
    method ExtractBits(v: Expr, nbits: nat, withRem: bool, withBitval: bool)
      returns (bits: seq<Expr>, rem: Option<Expr>, bitval: Option<Expr>)
      modifies this
      ensures bits == BitVars(old(next), nbits)
      ensures rem == RemVar(old(next), nbits, withRem)
      ensures bitval == BitvalVar(old(next), nbits, withRem, withBitval)
      ensures next == old(next) + nbits + (if withRem then 1 else 0) + if withBitval then 1 else 0
      ensures constraints == old(constraints) + ExtractConstraints(v, old(next), nbits, withRem, withBitval)
      ensures !withBitval ==> constraints == old(constraints) + BitConstraints(v, old(next), nbits, withRem)
    {
      hide ValueConstraints, WeightedSum;
      bits, rem, bitval := [], None, None;
      ghost var want := BitVars(next, nbits);
      for i := 0 to nbits
        invariant next == old(next) + i && bits == want[..i]
        invariant constraints == old(constraints) + Booleans(want)[..i]
      {
        var bit := Var(next);
        next := next + 1;
        bits := bits + [bit];
        AddBooleanity(bit);
      }
      assert Booleans(want)[..nbits] == Booleans(want);
      if withRem {
        rem := Some(Var(next));
        next := next + 1;
      }
      if withBitval {
        bitval := Some(Var(next));
        next := next + 1;
      }
      ConstrainValue(v, bits, POWERS, rem, bitval);
      OnlyValueConstraint(v, bits, rem);
    }

    method CheckGreaterEqual(a: Expr, b: Expr, nbits: nat, orZero: Option<Expr>)
      modifies this
      ensures next == old(next) + nbits + 1
      ensures constraints == old(constraints) + GreaterEqualConstraints(a, b, old(next), nbits, orZero)
    {
      var diff := Sub(a, b);
      var diffBits, rem, bitval := ExtractBits(diff, nbits, true, false);
      var check := rem.value;
      if orZero.Some? {
        check := Mul(check, orZero.value);
      }
      ConstrainZero(check);
    }

    method CheckXor(val: seq<Expr>, a: seq<Expr>, b: seq<Expr>)
      requires |val| == |a| == |b|
      modifies this
      ensures next == old(next) && constraints == old(constraints) + XorConstraints(val, a, b)
    {
      for i := 0 to |val|
        invariant next == old(next) && constraints == old(constraints) + XorConstraints(val, a, b)[..i]
      {
        ConstrainZero(Sub(Sub(Add(a[i], b[i]), Mul(Mul(a[i], b[i]), Const(2))), val[i]));
      }
    }

    method CheckAnd(val: seq<Expr>, a: seq<Expr>, b: seq<Expr>)
      requires |val| == |a| == |b|
      modifies this
      ensures next == old(next) && constraints == old(constraints) + AndConstraints(val, a, b)
    {
      for i := 0 to |val|
        invariant next == old(next) && constraints == old(constraints) + AndConstraints(val, a, b)[..i]
      {
        ConstrainZero(Sub(Mul(a[i], b[i]), val[i]));
      }
    }
  }
}
