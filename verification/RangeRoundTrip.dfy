/** Decoding inverts encoding, for every alphabet and every symbol string, and
    the length of an encoding is bounded from both sides. */
module RangeRoundTrip {
  import opened Arith
  import opened Bytes
  import opened RangeArith
  import opened RangeCoder

  lemma PowersOf256()
    ensures Pow256(0) == 1 && Pow256(1) == 0x100 && Pow256(2) == 0x1_0000 && Pow256(3) == 0x100_0000
    ensures Pow256(4) == 0x1_0000_0000 && Pow256(5) == 0x100_0000_0000 && Pow256(6) == P48 && Pow256(7) == P56
  {
  }

  // ---- The emitted bytes name a value inside the interval that was encoded ----

  /** Prepending a byte to a byte string shifts its 56-bit value down by a byte. */
  lemma Top7Cons(b: byte, s: seq<byte>)
    ensures Top7(s) == 256 * (Top7([b] + s) - b * P48) + ByteOr0(s, 6)
  {
    assert forall i: nat | i < 6 :: ByteOr0([b] + s, i + 1) == ByteOr0(s, i);
  }

  lemma Top7Append(s: seq<byte>, rest: seq<byte>)
    requires |s| == 7
    ensures Top7(s + rest) == Top7(s)
  {
  }

  lemma TailStep(m: int, lo: int, hi: int, need: nat)
    requires IsAlphabet(m) && IsInterval(lo, hi) && lo / P48 == hi / P48 && 0 < need
    ensures IsInterval(ShiftLo(lo), ShiftHi(hi)) && 0 <= lo / P48 < 256
    ensures Tail(m, lo, hi, need) == [lo / P48] + Tail(m, ShiftLo(lo), ShiftHi(hi), need - 1)
  {
    ShiftIsInterval(lo, hi);
    var f, g := Flush(lo, hi, m), Flush(ShiftLo(lo), ShiftHi(hi), m);
    assert f == Flushed([lo / P48] + g.bytes, g.lo, g.hi);
    if |f.bytes| >= need {
      assert f.bytes[..need] == [lo / P48] + g.bytes[..need - 1];
    } else {
      assert need - |f.bytes| == need - 1 - |g.bytes|;
    }
  }

  lemma PhantomSymbol(m: int, lo: int, hi: int, need: nat)
    requires IsAlphabet(m) && IsReady(lo, hi, m) && need > 0
    ensures var l, h := NarrowLo(lo, hi, m, m / 2), NarrowHi(lo, hi, m, m / 2);
      IsInterval(l, h) && Tail(m, lo, hi, need) == Tail(m, l, h, need)
  {
    hide NarrowLo, NarrowHi, Top7, SevenBytes;
    NarrowNests(lo, hi, m, m / 2);
    var l, h := NarrowLo(lo, hi, m, m / 2), NarrowHi(lo, hi, m, m / 2);
    assert Tail(m, lo, hi, need) == [] + Tail(m, l, h, need);
  }

  /** The last bytes of an encoding, read as the top bytes of a 56-bit number,
      name a block of values that meets the interval being encoded. */
  lemma {:induction false} TailMeets(m: int, lo: int, hi: int, need: nat)
    requires IsAlphabet(m) && IsInterval(lo, hi) && need <= 7
    ensures lo - Pow256(7 - need) < Top7(Tail(m, lo, hi, need)) <= hi
    decreases need, hi - lo
  {
    hide Top7, SevenBytes, NarrowLo, NarrowHi;
    if need == 0 {
      Top7Nothing();
      assert Tail(m, lo, hi, 0) == [];
      assert Pow256(7) == P56;
    } else if lo / P48 == hi / P48 {
      TailStep(m, lo, hi, need);
      ShiftIsInterval(lo, hi);
      TailMeets(m, ShiftLo(lo), ShiftHi(hi), need - 1);
      MeetsShift(lo, hi, Tail(m, ShiftLo(lo), ShiftHi(hi), need - 1));
    } else if hi < lo + m - 1 {
      assert Tail(m, lo, hi, need) == SevenBytes(lo)[..need];
      Top7Prefix(SevenBytes(lo), need);
    } else {
      NarrowNests(lo, hi, m, m / 2);
      PhantomSymbol(m, lo, hi, need);
      TailMeets(m, NarrowLo(lo, hi, m, m / 2), NarrowHi(lo, hi, m, m / 2), need);
    }
  }

  lemma Top7Nothing()
    ensures Top7([]) == 0
  {
  }

  lemma MeetsShift(lo: int, hi: int, s: seq<byte>)
    requires IsInterval(lo, hi) && lo / P48 == hi / P48 && |s| < 7
    requires ShiftLo(lo) - Pow256(7 - |s|) < Top7(s) <= ShiftHi(hi)
    ensures 0 <= lo / P48 < 256
    ensures lo - Pow256(6 - |s|) < Top7([lo / P48] + s) <= hi
  {
    ShiftIsInterval(lo, hi);
    Top7Cons(lo / P48, s);
    assert Pow256(7 - |s|) == 256 * Pow256(6 - |s|);
  }

  /** Dropping the last bytes of a seven-byte number rounds it down. */
  lemma Top7Prefix(s: seq<byte>, need: nat)
    requires |s| == 7 && need <= 7
    ensures Top7(s) - Pow256(7 - need) < Top7(s[..need]) <= Top7(s)
  {
    assert forall i: nat | i < 7 :: ByteOr0(s[..need], i) == if i < need then s[i] else 0;
    assert Pow256(1) == 0x100 && Pow256(2) == 0x1_0000 && Pow256(3) == 0x100_0000;
    assert Pow256(4) == 0x1_0000_0000 && Pow256(5) == 0x100_0000_0000 && Pow256(6) == P48 && Pow256(7) == P56;
  }

  /** If what follows a flush names a value inside the flushed registers, then
      the flushed bytes and what follows name a value inside the old ones. */
  lemma {:induction false} FlushMeets(m: int, lo: int, hi: int, rest: seq<byte>)
    requires IsAlphabet(m) && IsInterval(lo, hi)
    requires Flush(lo, hi, m).lo <= Top7(rest) <= Flush(lo, hi, m).hi
    ensures lo <= Top7(Flush(lo, hi, m).bytes + rest) <= hi
    decreases P56 - (hi - lo)
  {
    hide Top7, SevenBytes;
    if lo / P48 == hi / P48 {
      ShiftIsInterval(lo, hi);
      var g := Flush(ShiftLo(lo), ShiftHi(hi), m);
      FlushMeets(m, ShiftLo(lo), ShiftHi(hi), rest);
      Top7Cons(lo / P48, g.bytes + rest);
      assert Flush(lo, hi, m).bytes + rest == [lo / P48] + (g.bytes + rest);
    } else if hi < lo + m - 1 {
      Top7Append(SevenBytes(lo), rest);
    } else {
      assert [] + rest == rest;
    }
  }

  /** The first seven bytes of an encoding lie in the first symbol's sub-interval. */
  lemma {:induction false} EncodingMeets(m: int, lo: int, hi: int, syms: seq<int>)
    requires IsAlphabet(m) && IsReady(lo, hi, m) && |syms| > 0 && AreSymbols(m, syms)
    ensures NarrowLo(lo, hi, m, syms[0]) <= Top7(EncodeFrom(m, lo, hi, syms)) <= NarrowHi(lo, hi, m, syms[0])
    decreases |syms|
  {
    hide NarrowLo, NarrowHi, Top7, SevenBytes;
    NarrowNests(lo, hi, m, syms[0]);
    var l, h := NarrowLo(lo, hi, m, syms[0]), NarrowHi(lo, hi, m, syms[0]);
    if |syms| == 1 {
      TailMeets(m, l, h, 7);
    } else {
      var f := Flush(l, h, m);
      EncodingMeets(m, f.lo, f.hi, syms[1..]);
      NarrowNests(f.lo, f.hi, m, syms[1]);
      FlushMeets(m, l, h, EncodeFrom(m, f.lo, f.hi, syms[1..]));
    }
  }

  // ---- The decoder's window is the encoding from its position on ----

  /** Shifting a byte in keeps the low bytes, one place higher. */
  lemma ShiftInBytes(w: int, b: byte)
    requires 0 <= w < P56
    ensures var x := ShiftLo(w) + b;
      && x % 0x100 == b
      && x % 0x1_0000 == w % 0x100 * 256 + b
      && x % 0x100_0000 == w % 0x1_0000 * 256 + b
      && x % 0x1_0000_0000 == w % 0x100_0000 * 256 + b
      && x % 0x100_0000_0000 == w % 0x1_0000_0000 * 256 + b
      && x % P48 == w % 0x100_0000_0000 * 256 + b
  {
    assert w % 1 == 0;
    ShiftInMod(w, P48, 1, b);
    ShiftInMod(w, 0x100_0000_0000, 0x100, b);
    ShiftInMod(w, 0x1_0000_0000, 0x1_0000, b);
    ShiftInMod(w, 0x100_0000, 0x100_0000, b);
    ShiftInMod(w, 0x1_0000, 0x1_0000_0000, b);
    ShiftInMod(w, 0x100, 0x100_0000_0000, b);
  }

  lemma WindowAtStart(bs: seq<byte>)
    ensures Window(bs, 0) == 0
  {
  }

  lemma WindowStep(bs: seq<byte>, pos: nat)
    ensures Window(bs, pos + 1) == ShiftLo(Window(bs, pos)) + InputByte(bs, pos)
    ensures var w, x, b := Window(bs, pos), Window(bs, pos + 1), InputByte(bs, pos);
      && x % 0x100 == b
      && x % 0x1_0000 == w % 0x100 * 256 + b
      && x % 0x100_0000 == w % 0x1_0000 * 256 + b
      && x % 0x1_0000_0000 == w % 0x100_0000 * 256 + b
      && x % 0x100_0000_0000 == w % 0x1_0000_0000 * 256 + b
      && x % P48 == w % 0x100_0000_0000 * 256 + b
  {
    ShiftInBytes(Window(bs, pos), InputByte(bs, pos));
  }

  lemma WindowIsTop7(bs: seq<byte>, pos: nat)
    requires 7 <= pos <= |bs|
    ensures Window(bs, pos) == Top7(bs[pos - 7..])
  {
    var s := bs[pos - 7..];
    assert forall i: nat | i < 7 :: ByteOr0(s, i) == InputByte(bs, pos - 7 + i);
    WindowStep(bs, pos - 7);
    WindowStep(bs, pos - 6);
    WindowStep(bs, pos - 5);
    WindowStep(bs, pos - 4);
    WindowStep(bs, pos - 3);
    WindowStep(bs, pos - 2);
    WindowStep(bs, pos - 1);
  }

  // ---- Round trip ----

  /** A decoder whose window is at the encoding of syms reads syms, and consumes
      exactly the bytes that are left: never a phantom byte. */
  lemma {:induction false} DecodeReads(m: int, bs: seq<byte>, pos: nat, lo: int, hi: int, syms: seq<int>)
    requires IsAlphabet(m) && IsInterval(lo, hi) && lo <= Window(bs, pos) <= hi
    requires |syms| > 0 && AreSymbols(m, syms)
    requires 7 <= pos + |Flush(lo, hi, m).bytes| <= |bs|
    requires bs[pos + |Flush(lo, hi, m).bytes| - 7..] == EncodeFrom(m, Flush(lo, hi, m).lo, Flush(lo, hi, m).hi, syms)
    ensures DecodeFrom(m, bs, pos, lo, hi, |syms|) == Decoded(syms, |bs|)
    decreases |syms|
  {
    hide NarrowLo, NarrowHi, SymbolAt, Window, Flush, EncodeFrom, DecodeFrom;
    var f := Flush(lo, hi, m);
    var p := pos + |f.bytes|;
    FirstSymbol(m, bs, p, f.lo, f.hi, syms);
    NarrowNests(f.lo, f.hi, m, syms[0]);
    var l, h := NarrowLo(f.lo, f.hi, m, syms[0]), NarrowHi(f.lo, f.hi, m, syms[0]);
    if |syms| == 1 {
      LastSymbol(m, bs, p, f.lo, f.hi, syms);
    } else {
      EncodingSplits(m, bs, p, f.lo, f.hi, syms);
      DecodeReads(m, bs, p, l, h, syms[1..]);
      assert |syms[1..]| == |syms| - 1;
    }
    DecodeStep(m, bs, pos, lo, hi, syms[0], |syms|);
    assert syms == [syms[0]] + syms[1..];
  }

  lemma LastSymbol(m: int, bs: seq<byte>, p: nat, lo: int, hi: int, syms: seq<int>)
    requires IsAlphabet(m) && IsReady(lo, hi, m) && |syms| == 1 && AreSymbols(m, syms)
    requires 7 <= p <= |bs| && bs[p - 7..] == EncodeFrom(m, lo, hi, syms)
    requires NarrowLo(lo, hi, m, syms[0]) <= Window(bs, p) <= NarrowHi(lo, hi, m, syms[0])
    ensures var l, h := NarrowLo(lo, hi, m, syms[0]), NarrowHi(lo, hi, m, syms[0]);
      IsInterval(l, h) && DecodeFrom(m, bs, p, l, h, 0) == Decoded([], |bs|)
  {
    hide NarrowLo, NarrowHi, Window;
    NarrowNests(lo, hi, m, syms[0]);
    assert |EncodeFrom(m, lo, hi, syms)| == 7;
  }

  lemma DecodeStep(m: int, bs: seq<byte>, pos: nat, lo: int, hi: int, c: int, n: nat)
    requires IsAlphabet(m) && IsInterval(lo, hi) && lo <= Window(bs, pos) <= hi && 0 < n
    requires 0 <= c < m
    requires var f := Flush(lo, hi, m); SymbolAt(f.lo, f.hi, m, Window(bs, pos + |f.bytes|)) == c
    ensures var f := Flush(lo, hi, m);
      var l, h, p := NarrowLo(f.lo, f.hi, m, c), NarrowHi(f.lo, f.hi, m, c), pos + |f.bytes|;
      && IsInterval(l, h) && l <= Window(bs, p) <= h
      && var r := DecodeFrom(m, bs, p, l, h, n - 1);
         DecodeFrom(m, bs, pos, lo, hi, n) == Decoded([c] + r.syms, r.pos)
  {
    hide NarrowLo, NarrowHi, Top7, SevenBytes;
    var f := Flush(lo, hi, m);
    WindowFollows(bs, pos, lo, hi, m);
    SymbolInRange(f.lo, f.hi, m, Window(bs, pos + |f.bytes|));
    NarrowNests(f.lo, f.hi, m, c);
  }

  lemma FirstSymbol(m: int, bs: seq<byte>, p: nat, lo: int, hi: int, syms: seq<int>)
    requires IsAlphabet(m) && IsReady(lo, hi, m) && |syms| > 0 && AreSymbols(m, syms)
    requires 7 <= p <= |bs| && bs[p - 7..] == EncodeFrom(m, lo, hi, syms)
    ensures SymbolAt(lo, hi, m, Window(bs, p)) == syms[0]
    ensures NarrowLo(lo, hi, m, syms[0]) <= Window(bs, p) <= NarrowHi(lo, hi, m, syms[0])
  {
    hide NarrowLo, NarrowHi, SymbolAt, Top7, SevenBytes, EncodeFrom;
    WindowIsTop7(bs, p);
    EncodingMeets(m, lo, hi, syms);
    SymbolUnique(lo, hi, m, syms[0], Window(bs, p));
  }

  lemma EncodingSplits(m: int, bs: seq<byte>, p: nat, lo: int, hi: int, syms: seq<int>)
    requires IsAlphabet(m) && IsReady(lo, hi, m) && |syms| > 1 && AreSymbols(m, syms)
    requires 7 <= p <= |bs| && bs[p - 7..] == EncodeFrom(m, lo, hi, syms)
    ensures var l, h := NarrowLo(lo, hi, m, syms[0]), NarrowHi(lo, hi, m, syms[0]);
      && IsInterval(l, h)
      && p + |Flush(l, h, m).bytes| <= |bs|
      && bs[p + |Flush(l, h, m).bytes| - 7..] == EncodeFrom(m, Flush(l, h, m).lo, Flush(l, h, m).hi, syms[1..])
  {
    hide NarrowLo, NarrowHi, Flush, Tail;
    NarrowNests(lo, hi, m, syms[0]);
    var l, h := NarrowLo(lo, hi, m, syms[0]), NarrowHi(lo, hi, m, syms[0]);
    var g := Flush(l, h, m);
    var rest := EncodeFrom(m, g.lo, g.hi, syms[1..]);
    assert bs[p - 7..] == g.bytes + rest;
    assert bs[p + |g.bytes| - 7..] == bs[p - 7..][|g.bytes|..] == rest;
  }

  /** The decoder's zeroed registers shift in seven bytes and become the full range. */
  lemma FlushFromZero(m: int, k: nat)
    requires IsAlphabet(m) && k <= 7
    ensures 1 <= Pow256(k) <= P56
    ensures var f := Flush(0, Pow256(k) - 1, m); |f.bytes| == 7 - k && f.lo == 0 && f.hi == P56 - 1
    decreases 7 - k
  {
    hide Top7, SevenBytes, Pow256;
    PowersOf256();
    if k < 7 {
      assert ShiftHi(Pow256(k) - 1) == Pow256(k + 1) - 1;
      FlushFromZero(m, k + 1);
    }
  }

  /** The round trip: for every alphabet and every symbol string, decoding the
      encoder's bytes with the same symbol count gives the string back, and
      leaves no byte unread. */
  lemma {:induction false} RoundTrip(m: int, syms: seq<int>)
    requires IsAlphabet(m) && AreSymbols(m, syms)
    ensures Decode(m, Encode(m, syms), |syms|) == syms
    ensures syms != [] ==> DecodeFrom(m, Encode(m, syms), 0, 0, 0, |syms|) == Decoded(syms, |Encode(m, syms)|)
  {
    hide NarrowLo, NarrowHi, SymbolAt, Top7, SevenBytes, EncodeFrom, Flush, DecodeFrom;
    if syms != [] {
      FlushFromZero(m, 0);
      WindowAtStart(Encode(m, syms));
      assert Pow256(0) == 1;
      assert Encode(m, syms)[0..] == Encode(m, syms);
      DecodeReads(m, Encode(m, syms), 0, 0, 0, syms);
    }
  }

  // ---- How long an encoding is ----

  /** Enough of the range is left for the symbols that have not yet cost a byte:
      with s more symbols than bytes so far, at least 256^(7-s) values. */
  predicate HasSlack(width: int, s: int) { s >= 7 || (0 <= s && Pow256(7 - s) <= width) }

  lemma SlackNarrow(lo: int, hi: int, m: int, c: int, s: nat)
    requires IsAlphabet(m) && IsReady(lo, hi, m) && 0 <= c < m && HasSlack(hi - lo + 1, s)
    ensures HasSlack(NarrowHi(lo, hi, m, c) - NarrowLo(lo, hi, m, c) + 1, s + 1)
  {
    if s < 6 {
      NarrowWidth(lo, hi, m, c);
      var p := Pow256(6 - s);
      assert Pow256(7 - s) == 256 * p;
      Pow256Positive(6 - s);
      MulMono(m, 256, p);
      assert p * m == m * p;
      FloorIff(hi - lo + 1, m, p);
    }
  }

  lemma Pow256Positive(k: nat)
    ensures Pow256(k) >= if k == 0 then 1 else 256
  {
  }

  lemma {:induction false} SlackFlush(lo: int, hi: int, m: int, s: int)
    requires IsAlphabet(m) && IsInterval(lo, hi) && HasSlack(hi - lo + 1, s)
    ensures var f := Flush(lo, hi, m); HasSlack(f.hi - f.lo + 1, s - |f.bytes|)
    decreases P56 - (hi - lo)
  {
    hide Top7, SevenBytes;
    assert Pow256(0) == 1 && Pow256(7) == P56;
    Pow256Positive(if 0 <= s < 7 then 7 - s else 0);
    if lo / P48 == hi / P48 {
      ShiftIsInterval(lo, hi);
      if 0 < s < 7 {
        assert Pow256(7 - (s - 1)) == 256 * Pow256(7 - s);
      } else if s == 7 {
        assert Pow256(1) == 256;
      }
      SlackFlush(ShiftLo(lo), ShiftHi(hi), m, s - 1);
    }
  }

  lemma {:induction false} EncodingAtMost(m: int, lo: int, hi: int, syms: seq<int>, s: nat)
    requires IsAlphabet(m) && IsReady(lo, hi, m) && |syms| > 0 && AreSymbols(m, syms)
    requires HasSlack(hi - lo + 1, s)
    ensures |EncodeFrom(m, lo, hi, syms)| <= s + |syms| + 6
    decreases |syms|
  {
    hide NarrowLo, NarrowHi, Flush, Tail, Pow256;
    NarrowNests(lo, hi, m, syms[0]);
    var l, h := NarrowLo(lo, hi, m, syms[0]), NarrowHi(lo, hi, m, syms[0]);
    if |syms| > 1 {
      var f := Flush(l, h, m);
      SlackNarrow(lo, hi, m, syms[0], s);
      SlackFlush(l, h, m, s + 1);
      EncodingAtMost(m, f.lo, f.hi, syms[1..], s + 1 - |f.bytes|);
    }
  }

  /** An encoding is never more than six bytes longer than its input, and never
      shorter than seven bytes. */
  lemma LengthAtMost(m: int, syms: seq<int>)
    requires IsAlphabet(m) && AreSymbols(m, syms) && syms != []
    ensures 7 <= |Encode(m, syms)| <= |syms| + 6
  {
    assert Pow256(7) == P56;
    EncodingAtMost(m, 0, P56 - 1, syms, 0);
  }

  /** An upper bound on the width of the registers r symbols after a flush. */
  function WidestAfter(m: int, r: nat): int
    requires 0 < m
  {
    if r == 0 then P56 else (WidestAfter(m, r - 1) + m - 1) / m
  }

  /** After any k symbols in a row at least one byte has been emitted, if even
      the widest registers are too narrow by then. */
  lemma {:induction false} EncodingAtLeast(m: int, lo: int, hi: int, syms: seq<int>, r: nat, k: nat)
    requires IsAlphabet(m) && IsReady(lo, hi, m) && |syms| > 0 && AreSymbols(m, syms)
    requires hi - lo + 1 <= WidestAfter(m, r) && r < k && WidestAfter(m, k) < m
    ensures k * (|EncodeFrom(m, lo, hi, syms)| - 7) + k >= |syms| + r
    decreases |syms|
  {
    hide NarrowLo, NarrowHi, Top7, SevenBytes, WidestAfter;
    if |syms| > 1 {
      var f := NarrowedWidth(m, lo, hi, syms, r);
      var rest := EncodeFrom(m, f.lo, f.hi, syms[1..]);
      if f.bytes == [] {
        assert r + 1 != k;
        EncodingAtLeast(m, f.lo, f.hi, syms[1..], r + 1, k);
      } else {
        EncodingAtLeast(m, f.lo, f.hi, syms[1..], 0, k);
        BytesPaid(k, |f.bytes|, |rest| - 7, |EncodeFrom(m, lo, hi, syms)| - 7);
      }
    } else {
      assert |EncodeFrom(m, lo, hi, syms)| - 7 == 0;
    }
  }

  lemma NarrowedWidth(m: int, lo: int, hi: int, syms: seq<int>, r: nat) returns (f: Flushed)
    requires IsAlphabet(m) && IsReady(lo, hi, m) && |syms| > 1 && AreSymbols(m, syms)
    requires hi - lo + 1 <= WidestAfter(m, r)
    ensures IsReady(f.lo, f.hi, m)
    ensures EncodeFrom(m, lo, hi, syms) == f.bytes + EncodeFrom(m, f.lo, f.hi, syms[1..])
    ensures f.hi - f.lo + 1 <= WidestAfter(m, if f.bytes == [] then r + 1 else 0)
  {
    hide NarrowLo, NarrowHi, Top7, SevenBytes;
    NarrowNests(lo, hi, m, syms[0]);
    var l, h := NarrowLo(lo, hi, m, syms[0]), NarrowHi(lo, hi, m, syms[0]);
    f := Flush(l, h, m);
    NarrowWidth(lo, hi, m, syms[0]);
    CeilMono(hi - lo + 1, WidestAfter(m, r), m);
    assert h - l + 1 <= WidestAfter(m, r + 1);
    FlushKeeps(l, h, m);
  }

  lemma BytesPaid(k: nat, b: nat, e: nat, n: nat)
    requires b >= 1 && n == b + e
    ensures k * n >= k + k * e
  {
    MulMono(1 + e, b + e, k);
    assert (1 + e) * k == k + k * e;
  }

  lemma CeilMono(a: int, b: int, m: int)
    requires a <= b && 0 < m
    ensures (a + m - 1) / m <= (b + m - 1) / m
  {
    CeilIff(b, m, (b + m - 1) / m);
    CeilIff(a, m, (b + m - 1) / m);
  }

  /** With 224 symbols, every seven symbols cost at least one byte. */
  lemma LengthAtLeast224(syms: seq<int>)
    requires AreSymbols(224, syms) && syms != []
    ensures 7 * |Encode(224, syms)| >= |syms| + 42
  {
    var w1 := WidestAfter(224, 1);
    var w2 := WidestAfter(224, 2);
    var w3 := WidestAfter(224, 3);
    var w4 := WidestAfter(224, 4);
    var w5 := WidestAfter(224, 5);
    var w6 := WidestAfter(224, 6);
    assert WidestAfter(224, 7) < 224;
    EncodingAtLeast(224, 0, P56 - 1, syms, 0, 7);
  }
}
