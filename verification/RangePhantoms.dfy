/** What the range coder of source/cclib/src/encode.cpp does beyond the ends of its
    input, and what its byte-emitting loop amounts to, in closed form. */
module RangePhantoms {
  import opened Arith
  import opened Bytes
  import opened RangeArith
  import opened RangeCoder
  import opened RangeRoundTrip

  // ---- Bounds ----

  /** The lower bound of a sub-interval is the exact one, rounded up; the upper bound lies
      just below the next lower bound. */
  lemma NarrowIs(lo: int, hi: int, m: int, c: int)
    requires lo <= hi && 0 < m
    ensures (NarrowLo(lo, hi, m, c) - lo - 1) * m < c * (hi - lo + 1) <= (NarrowLo(lo, hi, m, c) - lo) * m
    ensures NarrowHi(lo, hi, m, c) + 1 == NarrowLo(lo, hi, m, c + 1)
  {
    var a, x := c * (hi - lo + 1), NarrowLo(lo, hi, m, c) - lo;
    CeilIff(a, m, x);
    CeilIff(a, m, x - 1);
  }

  // ---- Phantom symbols ----

  function Times<T>(x: T, k: nat): (s: seq<T>)
    ensures |s| == k && forall i :: 0 <= i < k ==> s[i] == x
  {
    seq(k, i => x)
  }

  /** Fewer bytes of a tail are its first bytes. */
  lemma {:induction false} TailPrefix(m: int, lo: int, hi: int, n: nat, need: nat)
    requires IsAlphabet(m) && IsInterval(lo, hi) && n <= need
    ensures Tail(m, lo, hi, n) == Tail(m, lo, hi, need)[..n]
    decreases need, hi - lo
  {
    hide Flush, NarrowLo, NarrowHi;
    var f := Flush(lo, hi, m);
    if |f.bytes| < need {
      NarrowNests(f.lo, f.hi, m, m / 2);
      FlushKeeps(lo, hi, m);
      var l, h := NarrowLo(f.lo, f.hi, m, m / 2), NarrowHi(f.lo, f.hi, m, m / 2);
      if |f.bytes| < n {
        TailPrefix(m, l, h, n - |f.bytes|, need - |f.bytes|);
      }
    }
  }

  lemma Mids(m: int, k: nat)
    requires IsAlphabet(m)
    ensures AreSymbols(m, Times(m / 2, k)) && (k > 0 ==> Times(m / 2, k)[1..] == Times(m / 2, k - 1))
    ensures k > 0 ==> Times(m / 2, k)[0] == m / 2
  {
  }

  /** The tail is what encoding middle symbols gives. */
  lemma {:induction false} TailIsMids(m: int, lo: int, hi: int, need: nat, k: nat)
    requires IsAlphabet(m) && IsInterval(lo, hi) && need <= 7 && k > 0
    ensures AreSymbols(m, Times(m / 2, k))
    ensures var f := Flush(lo, hi, m);
      Tail(m, lo, hi, need) <= f.bytes + EncodeFrom(m, f.lo, f.hi, Times(m / 2, k))
    decreases k
  {
    hide Flush, NarrowLo, NarrowHi, Times;
    Mids(m, k);
    var f := Flush(lo, hi, m);
    if |f.bytes| < need {
      NarrowNests(f.lo, f.hi, m, m / 2);
      FlushKeeps(lo, hi, m);
      var l, h := NarrowLo(f.lo, f.hi, m, m / 2), NarrowHi(f.lo, f.hi, m, m / 2);
      if k == 1 {
        TailPrefix(m, l, h, need - |f.bytes|, 7);
      } else {
        TailIsMids(m, l, h, need - |f.bytes|, k - 1);
      }
    }
  }

  lemma {:induction false} EncodeFromGoesOn(m: int, lo: int, hi: int, syms: seq<int>, k: nat)
    requires IsAlphabet(m) && IsReady(lo, hi, m) && syms != [] && AreSymbols(m, syms)
    ensures AreSymbols(m, syms + Times(m / 2, k))
    ensures EncodeFrom(m, lo, hi, syms) <= EncodeFrom(m, lo, hi, syms + Times(m / 2, k))
    decreases |syms|
  {
    hide Flush, NarrowLo, NarrowHi, Times, Tail;
    Mids(m, k);
    var all := syms + Times(m / 2, k);
    NarrowNests(lo, hi, m, syms[0]);
    var l, h := NarrowLo(lo, hi, m, syms[0]), NarrowHi(lo, hi, m, syms[0]);
    assert all[1..] == syms[1..] + Times(m / 2, k);
    if k == 0 {
      assert all == syms;
    } else if |syms| == 1 {
      assert syms[1..] == [];
      assert all[1..] == Times(m / 2, k);
      TailIsMids(m, l, h, 7, k);
    } else {
      var f := Flush(l, h, m);
      EncodeFromGoesOn(m, f.lo, f.hi, syms[1..], k);
    }
  }

  /** Past the end of its input the encoder goes on with symbols in the middle of the
      alphabet: an encoding starts the encoding of what any number of them extend it to. */
  lemma EncodingGoesOn(m: int, syms: seq<int>, k: nat)
    requires IsAlphabet(m) && AreSymbols(m, syms)
    ensures AreSymbols(m, syms + Times(m / 2, k)) && Encode(m, syms) <= Encode(m, syms + Times(m / 2, k))
  {
    Mids(m, k);
    if syms != [] {
      EncodeFromGoesOn(m, 0, P56 - 1, syms, k);
    }
  }

  // ---- Phantom bytes ----

  lemma {:induction false} WindowGoesOn(bs: seq<byte>, k: nat, pos: nat)
    ensures Window(bs + Times(128, k), pos) == Window(bs, pos)
  {
    hide ShiftLo;
    if pos > 0 {
      WindowGoesOn(bs, k, pos - 1);
    }
  }

  lemma {:induction false} DecodeFromGoesOn(m: int, bs: seq<byte>, k: nat, pos: nat, lo: int, hi: int, n: nat)
    requires IsAlphabet(m) && IsInterval(lo, hi) && lo <= Window(bs, pos) <= hi
    ensures lo <= Window(bs + Times(128, k), pos) <= hi
    ensures DecodeFrom(m, bs + Times(128, k), pos, lo, hi, n) == DecodeFrom(m, bs, pos, lo, hi, n)
    decreases n
  {
    hide Flush, NarrowLo, NarrowHi, SymbolAt, Window, Times;
    WindowGoesOn(bs, k, pos);
    if n > 0 {
      var f := Flush(lo, hi, m);
      var p := pos + |f.bytes|;
      WindowFollows(bs, pos, lo, hi, m);
      WindowGoesOn(bs, k, p);
      var c := SymbolAt(f.lo, f.hi, m, Window(bs, p));
      SymbolInRange(f.lo, f.hi, m, Window(bs, p));
      NarrowNests(f.lo, f.hi, m, c);
      DecodeFromGoesOn(m, bs, k, p, NarrowLo(f.lo, f.hi, m, c), NarrowHi(f.lo, f.hi, m, c), n - 1);
    }
  }

  /** Past the end of its input the decoder reads 128: any number of these bytes behind the
      input change nothing. */
  lemma DecodingGoesOn(m: int, bs: seq<byte>, k: nat, n: nat)
    requires IsAlphabet(m) && bs != []
    ensures Decode(m, bs + Times(128, k), n) == Decode(m, bs, n)
  {
    DecodeFromGoesOn(m, bs, k, 0, 0, 0, n);
  }

  // ---- The byte-emitting loop ----

  /** The first k of seven bytes agree. */
  predicate Agree(lo: int, hi: int, k: nat)
    requires k <= 7
  {
    Pow256(7 - k) > 0 && lo / Pow256(7 - k) == hi / Pow256(7 - k)
  }

  /** The lower bytes of a register, moved to the top, and ones moved in below. */
  function MovedLo(lo: int, k: nat): int
    requires k <= 7
  {
    PositivePower(7 - k);
    lo % Pow256(7 - k) * Pow256(k)
  }

  function MovedHi(hi: int, k: nat): int
    requires k <= 7
  {
    PositivePower(7 - k);
    hi % Pow256(7 - k) * Pow256(k) + Pow256(k) - 1
  }

  lemma {:induction false} PositivePower(k: nat)
    ensures Pow256(k) > 0
  {
    if k > 0 {
      PositivePower(k - 1);
    }
  }

  /** Seven bytes are those of their number. */
  lemma BytesOfTop(s: seq<byte>)
    requires |s| == 7
    ensures 0 <= Top7(s) < P56 && SevenBytes(Top7(s)) == s
  {
    var b0: int := s[0];
    var h1: int := b0 * 256 + s[1];
    var h2: int := h1 * 256 + s[2];
    var h3: int := h2 * 256 + s[3];
    var h4: int := h3 * 256 + s[4];
    var h5: int := h4 * 256 + s[5];
    assert Top7(s) == h5 * 256 + s[6];
    LastOf(h5, s[6]);
    LastOf(h4, s[5]);
    LastOf(h3, s[4]);
    LastOf(h2, s[3]);
    LastOf(h1, s[2]);
    LastOf(s[0], s[1]);
  }

  lemma LastOf(h: int, b: byte)
    ensures (h * 256 + b) / 256 == h && (h * 256 + b) % 256 == b
  {
  }

  /** Shifting a byte out of the top of a register. */
  lemma BytesShift(lo: int)
    requires 0 <= lo < P56
    ensures 0 <= ShiftLo(lo) < P56 && 0 <= lo / P48 < 256
    ensures SevenBytes(lo) == [lo / P48] + SevenBytes(ShiftLo(lo))[..6]
  {
    hide SevenBytes;
    var s, t := SevenBytes(lo), SevenBytes(ShiftLo(lo));
    var rest := s[1..] + [0];
    FirstByte(s);
    Top7Cons(s[0], rest);
    assert [s[0]] + rest == s + [0];
    Top7Append(s, [0]);
    assert ByteOr0(rest, 6) == 0;
    assert Top7(rest) == 256 * (lo - s[0] * P48) == ShiftLo(lo);
    BytesOfTop(rest);
    BytesOfTop(t);
  }

  lemma FirstByte(s: seq<byte>)
    requires |s| == 7
    ensures Top7(s) / P48 == s[0]
  {
  }

  lemma QuotientParts(v: int, p: int, q: int)
    requires p > 0 && q > 0 && p * q == P48
    ensures v / p == v / P48 * q + v % P48 / p
  {
    var h, r := v / P48, v % P48;
    assert v == h * (p * q) + r;
    assert h * (p * q) == h * q * p;
    assert r == r / p * p + r % p;
    assert (h * q + r / p) * p == h * q * p + r / p * p;
    ModIs(v, h * q + r / p, p, r % p);
  }

  lemma QuotientOfShift(x: int, p: int, b: int)
    requires p > 0 && 0 <= b < 256
    ensures (x * 256 + b) / (256 * p) == x / p
  {
    var q, r := x / p, x % p;
    assert x == q * p + r;
    assert q * (256 * p) == 256 * (q * p);
    ModIs(x * 256 + b, q, 256 * p, r * 256 + b);
  }

  lemma SplitP48(j: nat)
    requires j <= 6
    ensures Pow256(6 - j) > 0 && Pow256(j) > 0 && Pow256(6 - j) * Pow256(j) == P48
    ensures Pow256(7 - j) == 256 * Pow256(6 - j) && Pow256(j + 1) == 256 * Pow256(j)
  {
    PowersOf256();
    PositivePower(6 - j);
    PositivePower(j);
  }

  lemma AgreeShift(lo: int, hi: int, j: nat)
    requires j <= 6 && lo / P48 == hi / P48
    ensures Agree(lo, hi, j + 1) <==> Agree(ShiftLo(lo), ShiftHi(hi), j)
  {
    hide Pow256;
    SplitP48(j);
    var p, q := Pow256(6 - j), Pow256(j);
    QuotientParts(lo, p, q);
    QuotientParts(hi, p, q);
    QuotientOfShift(lo % P48, p, 0);
    QuotientOfShift(hi % P48, p, 255);
  }

  lemma MovedShift(lo: int, hi: int, j: nat)
    requires j <= 6
    ensures MovedLo(ShiftLo(lo), j) == MovedLo(lo, j + 1) && MovedHi(ShiftHi(hi), j) == MovedHi(hi, j + 1)
  {
    hide Pow256, ShiftLo, ShiftHi;
    SplitP48(j);
    LowerPart(lo, Pow256(6 - j), Pow256(j));
    LowerPart(hi, Pow256(6 - j), Pow256(j));
  }

  lemma LowerPart(x: int, p: int, q: int)
    requires p > 0 && q > 0 && p * q == P48
    ensures ShiftLo(x) % (256 * p) * q == x % p * (256 * q)
    ensures ShiftHi(x) % (256 * p) * q + q - 1 == x % p * (256 * q) + 256 * q - 1
  {
    assert q * p == p * q;
    ShiftInMod(x, q, p, 0);
    ShiftInMod(x, q, p, 255);
    TimesParts(x % p, q);
  }

  lemma TimesParts(r: int, q: int)
    ensures r * 256 * q == r * (256 * q) && (r * 256 + 255) * q == r * (256 * q) + 255 * q
  {
  }

  lemma NothingMoved(lo: int, hi: int)
    requires IsInterval(lo, hi)
    ensures Agree(lo, hi, 0) && MovedLo(lo, 0) == lo && MovedHi(hi, 0) == hi
    ensures Agree(lo, hi, 1) <==> lo / P48 == hi / P48
  {
    hide Pow256;
    PowersOf256();
    PositivePower(7);
  }

  /** All the bytes are emitted in which both registers agree from the top on; and all seven
      bytes of what is then the lower one, if fewer than m values are left. */
  lemma {:induction false} FlushIs(lo: int, hi: int, m: int) returns (k: nat)
    requires IsAlphabet(m) && IsInterval(lo, hi)
    ensures k <= 7 && Agree(lo, hi, k) && (k < 7 ==> !Agree(lo, hi, k + 1))
    ensures 0 <= MovedLo(lo, k) < P56
    ensures Flush(lo, hi, m)
         == if MovedHi(hi, k) - MovedLo(lo, k) + 1 >= m then
              Flushed(SevenBytes(lo)[..k], MovedLo(lo, k), MovedHi(hi, k))
            else Flushed(SevenBytes(lo)[..k] + SevenBytes(MovedLo(lo, k)), 0, P56 - 1)
    decreases P56 - (hi - lo)
  {
    hide SevenBytes, Top7, Pow256, Agree, MovedLo, MovedHi;
    if lo / P48 == hi / P48 {
      ShiftIsInterval(lo, hi);
      var j := FlushIs(ShiftLo(lo), ShiftHi(hi), m);
      NotAllAgree(ShiftLo(lo), ShiftHi(hi), j);
      k := j + 1;
      AgreeShift(lo, hi, j);
      if k < 7 {
        AgreeShift(lo, hi, k);
      }
      MovedShift(lo, hi, j);
      BytesShift(lo);
      assert SevenBytes(lo)[..k] == [lo / P48] + SevenBytes(ShiftLo(lo))[..j];
    } else {
      k := 0;
      NothingMoved(lo, hi);
      assert SevenBytes(lo)[..0] == [];
    }
  }

  lemma NotAllAgree(lo: int, hi: int, j: nat)
    requires lo < hi && j <= 7 && Agree(lo, hi, j)
    ensures j <= 6
  {
    if j == 7 {
      PowersOf256();
    }
  }
}
