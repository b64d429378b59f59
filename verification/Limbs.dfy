/** The limb shifts and masks of source/cclib/src/CCbigint.cpp: numbers as
    arrays of 64-bit limbs, lowest first, changed in place. Where the code ors
    two words with no bit in common, the model adds them. */
module Limbs {
  import opened Arith

  /** The weight of one limb, and its number of bits. */
  const WORD: int := 0x1_0000_0000_0000_0000
  const BITS_PER_LIMB: nat := 64

  predicate AreLimbs(s: seq<int>) { forall i :: 0 <= i < |s| ==> 0 <= s[i] < WORD }

  /** The number that the limbs spell. */
  function Number(s: seq<int>): int { if s == [] then 0 else s[0] + WORD * Number(s[1..]) }

  /** The smallest number that does not fit in n limbs. */
  function Capacity(n: nat): (c: int)
    ensures c >= 1
  {
    if n == 0 then 1 else WORD * Capacity(n - 1)
  }

  lemma {:induction false} NumberFits(s: seq<int>)
    requires AreLimbs(s)
    ensures 0 <= Number(s) < Capacity(|s|)
  {
    if s != [] {
      NumberFits(s[1..]);
    }
  }

  lemma WordIsPow2()
    ensures Pow2(64) == WORD
  {
    hide Pow2;
    Pow2Small();
    Pow2Add(1, 1);
    Pow2Add(2, 2);
    Pow2Add(4, 4);
    Pow2Add(8, 8);
    Pow2Add(16, 16);
    Pow2Add(32, 32);
  }

  /** What is left of a word split below bit n, in the word above. */
  lemma SplitWord(x: int, n: nat)
    requires 0 <= x < WORD && n <= 64
    ensures x * Pow2(n) % WORD == x % Pow2(64 - n) * Pow2(n)
    ensures x * Pow2(n) / WORD == x / Pow2(64 - n)
    ensures 0 <= x / Pow2(64 - n) < Pow2(n)
  {
    hide Pow2;
    WordIsPow2();
    Pow2Add(64 - n, n);
    SplitProduct(x, Pow2(64 - n), Pow2(n), WORD);
  }

  lemma SplitProduct(x: int, low: int, high: int, w: int)
    requires 0 <= x < w && 0 < low && 0 < high && w == low * high
    ensures x * high % w == x % low * high
    ensures x * high / w == x / low
    ensures 0 <= x / low < high
  {
    var q, r := x / low, x % low;
    assert x == q * low + r;
    assert x * high == q * w + r * high by {
      assert (q * low + r) * high == q * (low * high) + r * high;
    }
    MulMono(r + 1, low, high);
    MulMono(0, r, high);
    assert (r + 1) * high == r * high + high;
    ModIs(x * high, q, w, r * high);
    FloorIff(x, low, high);
    FloorIff(x, low, 0);
    assert high * low == low * high;
  }

  // ---- Up ----

  /** The limbs of s shifted up by n < 64 bits, with a carry coming in from below. */
  function Up(s: seq<int>, n: nat, carry: int): (r: seq<int>)
    requires n < 64
    ensures |r| == |s|
  {
    if s == [] then [] else [s[0] * Pow2(n) % WORD + carry] + Up(s[1..], n, s[0] / Pow2(64 - n))
  }

  /** Shifting up multiplies, modulo the capacity. */
  lemma {:induction false} UpMultiplies(s: seq<int>, n: nat, carry: int) returns (out: int)
    requires AreLimbs(s) && n < 64 && 0 <= carry < Pow2(n)
    ensures AreLimbs(Up(s, n, carry))
    ensures Number(s) * Pow2(n) + carry == out * Capacity(|s|) + Number(Up(s, n, carry))
  {
    hide Pow2, Number, AreLimbs, Up;
    if s == [] {
      NumberOfNone();
      out := carry;
    } else {
      var t, c := s[1..], s[0] / Pow2(64 - n);
      LimbsTail(s);
      SplitWord(s[0], n);
      out := UpMultiplies(t, n, c);
      UpLimb(s[0], n, carry);
      UpHead(s[0], Number(t), Pow2(n), carry, c, s[0] * Pow2(n) % WORD, out, Capacity(|t|), Number(Up(t, n, c)));
      UpStep(s, n, carry);
      NumberCons(s[0] * Pow2(n) % WORD + carry, Up(t, n, c));
      LimbsCons(s[0] * Pow2(n) % WORD + carry, Up(t, n, c));
    }
  }

  lemma UpStep(s: seq<int>, n: nat, carry: int)
    requires n < 64 && s != []
    ensures Up(s, n, carry) == [s[0] * Pow2(n) % WORD + carry] + Up(s[1..], n, s[0] / Pow2(64 - n))
    ensures Number(s) == s[0] + WORD * Number(s[1..])
  {
    hide Pow2;
  }

  lemma UpLimb(x: int, n: nat, carry: int)
    requires 0 <= x < WORD && n < 64 && 0 <= carry < Pow2(n)
    ensures 0 <= x * Pow2(n) % WORD + carry < WORD
    ensures x * Pow2(n) == x / Pow2(64 - n) * WORD + x * Pow2(n) % WORD
  {
    SplitWord(x, n);
    WordIsPow2();
    Pow2Add(64 - n, n);
    var r := x % Pow2(64 - n);
    MulMono(r + 1, Pow2(64 - n), Pow2(n));
    assert (r + 1) * Pow2(n) == r * Pow2(n) + Pow2(n);
  }

  lemma UpHead(x: int, t: int, p: int, carry: int, c: int, low: int, out: int, cap: int, u: int)
    requires x * p == c * WORD + low && t * p + c == out * cap + u
    ensures (x + WORD * t) * p + carry == out * (WORD * cap) + (low + carry + WORD * u)
  {
    assert (x + WORD * t) * p == x * p + WORD * (t * p);
    assert out * (WORD * cap) == WORD * (out * cap);
  }

  /** Limb i of the shifted number, from the two limbs it comes from. */
  lemma {:induction false} UpAt(s: seq<int>, n: nat, carry: int, i: nat)
    requires n < 64 && i < |s|
    ensures Up(s, n, carry)[i] == s[i] * Pow2(n) % WORD + if i == 0 then carry else s[i - 1] / Pow2(64 - n)
  {
    hide Pow2;
    if i > 0 {
      UpAt(s[1..], n, s[0] / Pow2(64 - n), i - 1);
    }
  }

  /** All limbs one place up. */
  function WordUp(s: seq<int>): seq<int>
    requires s != []
  {
    [0] + s[..|s| - 1]
  }

  lemma {:induction false} NumberSnoc(s: seq<int>, x: int)
    ensures Number(s + [x]) == Number(s) + x * Capacity(|s|)
  {
    if s == [] {
      assert Number([x]) == x + WORD * Number([x][1..]);
    } else {
      NumberSnoc(s[1..], x);
      assert (s + [x])[1..] == s[1..] + [x];
      assert WORD * (x * Capacity(|s| - 1)) == x * (WORD * Capacity(|s| - 1));
    }
  }

  lemma NumberCons(x: int, s: seq<int>)
    ensures Number([x] + s) == x + WORD * Number(s)
  {
    assert ([x] + s)[1..] == s;
  }

  lemma CapacityStep(n: nat)
    ensures Capacity(n + 1) == WORD * Capacity(n)
  {
  }

  lemma WordUpMultiplies(s: seq<int>)
    requires AreLimbs(s) && s != []
    ensures AreLimbs(WordUp(s)) && |WordUp(s)| == |s|
    ensures Number(s) * WORD == s[|s| - 1] * Capacity(|s|) + Number(WordUp(s))
  {
    hide Number, Capacity;
    var low, top := s[..|s| - 1], s[|s| - 1];
    assert s == low + [top];
    NumberSnoc(low, top);
    NumberCons(0, low);
    CapacityStep(|low|);
    assert top * Capacity(|low|) * WORD == top * (WORD * Capacity(|low|));
  }

  // ---- Down ----

  /** The n low bits of limb y, at the top of the limb below. */
  function Above(y: int, n: nat): int
    requires n < 64
  {
    y * Pow2(64 - n) % WORD
  }

  /** The limbs of s shifted down by n < 64 bits. */
  function Down(s: seq<int>, n: nat): (r: seq<int>)
    requires n < 64
    ensures |r| == |s|
  {
    if s == [] then []
    else [s[0] / Pow2(n) + if |s| > 1 then Above(s[1], n) else 0] + Down(s[1..], n)
  }

  lemma DownAt(s: seq<int>, n: nat, i: nat)
    requires n < 64 && i < |s|
    ensures Down(s, n)[i] == s[i] / Pow2(n) + if i + 1 < |s| then Above(s[i + 1], n) else 0
  {
    if i > 0 {
      DownAt(s[1..], n, i - 1);
    }
  }

  /** Shifting down divides, rounding down. */
  lemma {:induction false} DownDivides(s: seq<int>, n: nat)
    requires AreLimbs(s) && n < 64
    ensures AreLimbs(Down(s, n))
    ensures Number(s) == Number(Down(s, n)) * Pow2(n) + if s == [] then 0 else s[0] % Pow2(n)
  {
    hide Pow2, Number, AreLimbs;
    if s != [] {
      var t := s[1..];
      LimbsTail(s);
      DownDivides(t, n);
      var y := if t == [] then 0 else t[0];
      DownLimb(s[0], y, n);
      var limb := s[0] / Pow2(n) + Above(y, n);
      DownStep(s, n);
      NumberCons(limb, Down(t, n));
      LimbsCons(limb, Down(t, n));
      NumberCons(s[0], t);
      assert s == [s[0]] + t;
      DownHead(s[0], Number(t), Pow2(n), s[0] / Pow2(n), s[0] % Pow2(n), Above(y, n),
               if t == [] then 0 else t[0] % Pow2(n), Number(Down(t, n)), WORD);
    } else {
      NumberOfNone();
    }
  }

  lemma NumberOfNone()
    ensures Number([]) == 0 && AreLimbs([])
  {
  }

  lemma LimbsTail(s: seq<int>)
    requires AreLimbs(s) && s != []
    ensures AreLimbs(s[1..]) && 0 <= s[0] < WORD && (|s| > 1 ==> 0 <= s[1] < WORD)
  {
  }

  lemma LimbsCons(x: int, s: seq<int>)
    requires AreLimbs(s) && 0 <= x < WORD
    ensures AreLimbs([x] + s)
  {
  }

  lemma DownStep(s: seq<int>, n: nat)
    requires n < 64 && s != []
    ensures Down(s, n) == [s[0] / Pow2(n) + if |s| > 1 then Above(s[1], n) else 0] + Down(s[1..], n)
    ensures Above(0, n) == 0
  {
    ModSmall(0, WORD);
  }

  lemma DownLimb(x: int, y: int, n: nat)
    requires 0 <= x < WORD && 0 <= y < WORD && n < 64
    ensures 0 <= x / Pow2(n) + Above(y, n) < WORD
    ensures Above(y, n) * Pow2(n) == WORD * (y % Pow2(n))
  {
    hide Pow2;
    WordIsPow2();
    Pow2Add(64 - n, n);
    SplitWord(y, 64 - n);
    JoinWord(x, y % Pow2(n), Pow2(n), Pow2(64 - n), WORD);
  }

  lemma JoinWord(x: int, r: int, p: int, high: int, w: int)
    requires 0 <= x < w && 0 <= r < p && 0 < high && high * p == w
    ensures 0 <= x / p + r * high < w && r * high * p == w * r
  {
    FloorIff(x, p, high);
    FloorIff(x, p, 0);
    MulMono(r + 1, p, high);
    MulMono(0, r, high);
    assert (r + 1) * high == r * high + high && p * high == high * p;
    assert r * high * p == r * (high * p);
  }

  lemma DownHead(x: int, t: int, p: int, q: int, r: int, high: int, low: int, d: int, w: int)
    requires x == q * p + r && t == d * p + low && high * p == w * low
    ensures x + w * t == (q + high + w * d) * p + r
  {
    assert (q + high + w * d) * p == q * p + high * p + w * (d * p);
    assert w * (d * p + low) == w * (d * p) + w * low;
  }

  /** All limbs one place down. */
  function WordDown(s: seq<int>): seq<int>
    requires s != []
  {
    s[1..] + [0]
  }

  lemma WordDownDivides(s: seq<int>)
    requires AreLimbs(s) && s != []
    ensures AreLimbs(WordDown(s)) && |WordDown(s)| == |s|
    ensures Number(WordDown(s)) == Number(s) / WORD
  {
    NumberSnoc(s[1..], 0);
    ModIs(Number(s), Number(s[1..]), WORD, s[0]);
  }

  // ---- Mask ----

  /** The limbs of s without the bits from n on. */
  function Masked(s: seq<int>, n: nat): (r: seq<int>)
    ensures |r| == |s|
  {
    if s == [] then []
    else if n >= 64 then [s[0]] + Masked(s[1..], n - 64)
    else [s[0] % Pow2(n)] + Masked(s[1..], 0)
  }

  lemma {:induction false} MaskedAt(s: seq<int>, n: nat, i: nat)
    requires i < |s| && AreLimbs(s)
    ensures Masked(s, n)[i] == if i * 64 >= n then 0 else if (i + 1) * 64 > n then s[i] % Pow2(n - i * 64) else s[i]
  {
    if i > 0 {
      MaskedAt(s[1..], if n >= 64 then n - 64 else 0, i - 1);
    }
  }

  /** Masking keeps the residue. */
  lemma {:induction false} MaskedIsResidue(s: seq<int>, n: nat)
    requires AreLimbs(s)
    ensures AreLimbs(Masked(s, n)) && Number(Masked(s, n)) == Number(s) % Pow2(n)
  {
    hide Pow2, Number, AreLimbs;
    NumberOfNone();
    if s == [] {
      ModSmall(0, Pow2(n));
    } else {
      var x, t := s[0], s[1..];
      LimbsTail(s);
      assert s == [x] + t;
      NumberCons(x, t);
      WordIsPow2();
      if n >= 64 {
        MaskedIsResidue(t, n - 64);
        NumberCons(x, Masked(t, n - 64));
        LimbsCons(x, Masked(t, n - 64));
        Pow2Add(64, n - 64);
        ResidueAbove(x, Number(t), Pow2(n - 64), WORD);
      } else {
        MaskedIsResidue(t, 0);
        NumberCons(x % Pow2(n), Masked(t, 0));
        Pow2Small();
        assert Number(t) % 1 == 0;
        Pow2Add(64 - n, n);
        ResidueBelow(x, Number(t), Pow2(n), Pow2(64 - n), WORD);
        LimbsCons(x % Pow2(n), Masked(t, 0));
      }
    }
  }

  lemma ResidueAbove(x: int, t: int, p: int, w: int)
    requires 0 <= x < w && p > 0
    ensures w * p > 0 && (x + w * t) % (w * p) == x + w * (t % p)
  {
    var q, r := t / p, t % p;
    assert t == q * p + r;
    assert w * t == q * (w * p) + w * r;
    MulMono(r + 1, p, w);
    MulMono(0, r, w);
    MulMono(1, p, w);
    assert (r + 1) * w == w * r + w && p * w == w * p;
    ModIs(x + w * t, q, w * p, x + w * r);
  }

  lemma ResidueBelow(x: int, t: int, p: int, high: int, w: int)
    requires 0 <= x < w && p > 0 && high * p == w
    ensures 0 <= x % p < w && (x + w * t) % p == x % p
  {
    var q := x / p;
    assert x == q * p + x % p;
    assert w * t == high * t * p;
    assert (q + high * t) * p == q * p + high * t * p;
    ModIs(x + w * t, q + high * t, p, x % p);
    FloorIff(x, p, 0);
    MulMono(0, q, p);
  }

  // ---- The methods ----

  /** bigint_shift_up: multiplies by 2^nbits, modulo the capacity. */
  method ShiftUp(a: array<int>, nbits: nat)
    requires a.Length > 0 && AreLimbs(a[..])
    modifies a
    ensures AreLimbs(a[..])
    ensures Number(a[..]) == Residue(Number(old(a[..])) * Pow2(nbits), Capacity(a.Length))
  {
    hide Pow2, Residue, Number, Up;
    var n: nat := nbits;
    ghost var want := Residue(Number(a[..]) * Pow2(nbits), Capacity(a.Length));
    while n >= BITS_PER_LIMB
      invariant AreLimbs(a[..]) && Residue(Number(a[..]) * Pow2(n), Capacity(a.Length)) == want
    {
      ghost var s := a[..];
      UpByWord(s, n);
      WordUpInPlace(a);
      n := n - BITS_PER_LIMB;
    }
    UpByBits(a[..], n);
    if n > 0 {
      BitsUpInPlace(a, n);
    }
  }

  lemma UpByWord(s: seq<int>, n: nat)
    requires AreLimbs(s) && s != [] && n >= 64
    ensures AreLimbs(WordUp(s)) && |WordUp(s)| == |s|
    ensures Residue(Number(WordUp(s)) * Pow2(n - 64), Capacity(|s|)) == Residue(Number(s) * Pow2(n), Capacity(|s|))
  {
    hide Pow2, Number, WordUp, Capacity;
    WordUpMultiplies(s);
    WordIsPow2();
    Pow2Add(64, n - 64);
    var u, c, p := Number(WordUp(s)), Capacity(|s|), Pow2(n - 64);
    var k := s[|s| - 1] * p;
    assert Number(s) * (WORD * p) == (Number(s) * WORD) * p == k * c + u * p;
    AddMultiple(u * p, k, c);
  }

  lemma UpByBits(s: seq<int>, n: nat)
    requires AreLimbs(s) && n < 64
    ensures AreLimbs(Up(s, n, 0)) && Number(Up(s, n, 0)) == Residue(Number(s) * Pow2(n), Capacity(|s|))
    ensures n == 0 ==> Number(s) == Residue(Number(s) * Pow2(n), Capacity(|s|))
  {
    hide Pow2, Residue, Number, AreLimbs, Up;
    Pow2Small();
    var out := UpMultiplies(s, n, 0);
    NumberFits(Up(s, n, 0));
    NumberFits(s);
    AddMultiple(Number(Up(s, n, 0)), out, Capacity(|s|));
    ResidueSmall(Number(Up(s, n, 0)), Capacity(|s|));
    ResidueSmall(Number(s), Capacity(|s|));
  }

  method WordUpInPlace(a: array<int>)
    requires a.Length > 0
    modifies a
    ensures a[..] == WordUp(old(a[..]))
  {
    var i := a.Length - 1;
    while i >= 1
      invariant 0 <= i < a.Length
      invariant forall k :: 0 <= k <= i ==> a[k] == old(a[k])
      invariant forall k :: i < k < a.Length ==> a[k] == old(a[k - 1])
    {
      a[i] := a[i - 1];
      i := i - 1;
    }
    a[0] := 0;
  }

  method BitsUpInPlace(a: array<int>, n: nat)
    requires 0 < n < 64
    modifies a
    ensures a[..] == Up(old(a[..]), n, 0)
  {
    ghost var s := a[..];
    var i := a.Length - 1;
    while i >= 0
      invariant -1 <= i < a.Length
      invariant forall k :: 0 <= k <= i ==> a[k] == s[k]
      invariant forall k :: i < k < a.Length ==> a[k] == Up(s, n, 0)[k]
    {
      UpAt(s, n, 0, i);
      a[i] := a[i] * Pow2(n) % WORD;
      if i > 0 {
        a[i] := a[i] + a[i - 1] / Pow2(BITS_PER_LIMB - n);
      }
      i := i - 1;
    }
  }

  /** bigint_shift_down: divides by 2^nbits, rounding down. */
  method ShiftDown(a: array<int>, nbits: nat)
    requires a.Length > 0 && AreLimbs(a[..])
    modifies a
    ensures AreLimbs(a[..])
    ensures Number(a[..]) == Number(old(a[..])) / Pow2(nbits)
  {
    hide Pow2, Number, Down;
    var n: nat := nbits;
    ghost var want := Number(a[..]) / Pow2(nbits);
    while n >= BITS_PER_LIMB
      invariant AreLimbs(a[..]) && Number(a[..]) / Pow2(n) == want
    {
      DownByWord(a[..], n);
      WordDownInPlace(a);
      n := n - BITS_PER_LIMB;
    }
    DownByBits(a[..], n);
    if n > 0 {
      BitsDownInPlace(a, n);
    }
  }

  lemma DownByWord(s: seq<int>, n: nat)
    requires AreLimbs(s) && s != [] && n >= 64
    ensures AreLimbs(WordDown(s)) && |WordDown(s)| == |s|
    ensures Number(WordDown(s)) / Pow2(n - 64) == Number(s) / Pow2(n)
  {
    hide Pow2, Number, WordDown;
    WordDownDivides(s);
    WordIsPow2();
    Pow2Add(64, n - 64);
    DivideTwice(Number(s), WORD, Pow2(n - 64));
  }

  lemma DownByBits(s: seq<int>, n: nat)
    requires AreLimbs(s) && s != [] && n < 64
    ensures AreLimbs(Down(s, n)) && Number(Down(s, n)) == Number(s) / Pow2(n)
    ensures n == 0 ==> Number(s) == Number(s) / Pow2(n)
  {
    hide Pow2;
    Pow2Small();
    DownDivides(s, n);
    ModIs(Number(s), Number(Down(s, n)), Pow2(n), s[0] % Pow2(n));
  }

  method WordDownInPlace(a: array<int>)
    requires a.Length > 0
    modifies a
    ensures a[..] == WordDown(old(a[..]))
  {
    for i := 0 to a.Length - 1
      invariant forall k :: 0 <= k < i ==> a[k] == old(a[k + 1])
      invariant forall k :: i <= k < a.Length ==> a[k] == old(a[k])
    {
      a[i] := a[i + 1];
    }
    a[a.Length - 1] := 0;
  }

  method BitsDownInPlace(a: array<int>, n: nat)
    requires 0 < n < 64
    modifies a
    ensures a[..] == Down(old(a[..]), n)
  {
    ghost var s := a[..];
    for i := 0 to a.Length
      invariant forall k :: 0 <= k < i ==> a[k] == Down(s, n)[k]
      invariant forall k :: i <= k < a.Length ==> a[k] == s[k]
    {
      DownAt(s, n, i);
      a[i] := a[i] / Pow2(n);
      if i < a.Length - 1 {
        a[i] := a[i] + a[i + 1] * Pow2(BITS_PER_LIMB - n) % WORD;
      }
    }
  }

  /** bigint_mask: keeps the nbits lowest bits. */
  method Mask(a: array<int>, nbits: nat)
    requires AreLimbs(a[..])
    modifies a
    ensures AreLimbs(a[..])
    ensures Number(a[..]) == Number(old(a[..])) % Pow2(nbits)
  {
    ghost var s := a[..];
    for i := 0 to a.Length
      invariant forall k :: 0 <= k < i ==> a[k] == Masked(s, nbits)[k]
      invariant forall k :: i <= k < a.Length ==> a[k] == s[k]
    {
      MaskedAt(s, nbits, i);
      if i * BITS_PER_LIMB >= nbits {
        a[i] := 0;
      } else if (i + 1) * BITS_PER_LIMB > nbits {
        a[i] := a[i] % Pow2(nbits - i * BITS_PER_LIMB);
      }
    }
    assert a[..] == Masked(s, nbits);
    MaskedIsResidue(s, nbits);
  }

  /** bigint_bit: the given bit of the number; 0 past the last limb. */
  method Bit(a: array<int>, bit: nat) returns (result: bool)
    requires AreLimbs(a[..])
    ensures result <==> Number(a[..]) / Pow2(bit) % 2 == 1
  {
    var word := bit / BITS_PER_LIMB;
    var shift := bit - word * BITS_PER_LIMB;
    result := false;
    BitAt(a[..], word, shift);
    if word < a.Length {
      result := a[word] / Pow2(shift) % 2 == 1;
    }
  }

  lemma {:induction false} BitAt(s: seq<int>, word: nat, shift: nat)
    requires AreLimbs(s) && shift < 64
    ensures word >= |s| ==> Number(s) / Pow2(word * 64 + shift) == 0
    ensures word < |s| ==> Number(s) / Pow2(word * 64 + shift) % 2 == s[word] / Pow2(shift) % 2
    decreases |s|
  {
    hide Pow2, Number, AreLimbs;
    NumberOfNone();
    if s == [] {
      ModIs(0, 0, Pow2(word * 64 + shift), 0);
    } else {
      var x, t := s[0], s[1..];
      LimbsTail(s);
      assert s == [x] + t;
      NumberCons(x, t);
      WordIsPow2();
      if word == 0 {
        Pow2Add(63 - shift, shift + 1);
        Pow2Double(shift);
        BitBelow(x, Number(t), Pow2(shift), Pow2(63 - shift), WORD);
      } else {
        var rest := (word - 1) * 64 + shift;
        BitAt(t, word - 1, shift);
        Pow2Add(64, rest);
        ModIs(Number(s), Number(t), WORD, x);
        DivideTwice(Number(s), WORD, Pow2(rest));
        assert word * 64 + shift == 64 + rest;
      }
    }
  }

  lemma BitBelow(x: int, t: int, p: int, high: int, w: int)
    requires p > 0 && high * (2 * p) == w
    ensures (x + w * t) / p % 2 == x / p % 2
  {
    var q, k := x / p, high * t;
    assert x == q * p + x % p;
    assert w * t == 2 * k * p by {
      assert w * t == high * t * (2 * p);
    }
    assert (q + 2 * k) * p == q * p + 2 * k * p;
    ModIs(x + w * t, q + 2 * k, p, x % p);
  }
}
