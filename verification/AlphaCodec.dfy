/** cc_alpha_encode and cc_alpha_decode of source/cclib/src/encode.cpp: the
    loops on 64-bit registers, proved to compute the functions of RangeCoder. */
module AlphaCodec {
  import opened Arith
  import opened Bytes
  import opened Encodings
  import opened RangeArith
  import opened RangeCoder
  import opened RangeRoundTrip

  /** A table that cc_alpha_encode can be called with. */
  ghost predicate CanEncode(table: seq<byte>) {
    && IsBinTable(table)
    && (TableMod(table) == 256
        || (IsAlphabet(TableMod(table))
            && forall c: byte :: DestringifyChar(table, c) == 255 || DestringifyChar(table, c) < TableMod(table)))
  }

  /** A table that cc_alpha_decode can be called with. */
  predicate CanDecode(table: seq<byte>) {
    IsTable(table) && TableMod(table) >= 2 && TableMod(table) + 3 <= |table|
  }

  function Indexes(table: seq<byte>, data: seq<byte>): (syms: seq<int>)
    requires IsBinTable(table)
    ensures |syms| == |data|
  {
    seq(|data|, i requires 0 <= i < |data| => DestringifyChar(table, data[i]))
  }

  /** Every char of data is in the alphabet. */
  predicate UsesSymbols(table: seq<byte>, data: seq<byte>)
    requires IsBinTable(table)
  {
    TableMod(table) == 256 || forall i :: 0 <= i < |data| ==> DestringifyChar(table, data[i]) != 255
  }

  lemma IndexesAreSymbols(table: seq<byte>, data: seq<byte>)
    requires CanEncode(table) && TableMod(table) != 256 && UsesSymbols(table, data)
    ensures AreSymbols(TableMod(table), Indexes(table, data))
  {
  }

  ghost function EncodeChars(table: seq<byte>, data: seq<byte>): seq<byte>
    requires CanEncode(table) && UsesSymbols(table, data)
  {
    if TableMod(table) == 256 then data
    else IndexesAreSymbols(table, data); Encode(TableMod(table), Indexes(table, data))
  }

  function Chars(table: seq<byte>, syms: seq<int>): (s: seq<byte>)
    requires CanDecode(table) && AreSymbols(TableMod(table), syms)
    ensures |s| == |syms|
  {
    seq(|syms|, i requires 0 <= i < |syms| => StringifyByte(table, syms[i]))
  }

  function DecodeChars(table: seq<byte>, bs: seq<byte>, n: nat): seq<byte>
    requires CanDecode(table)
  {
    if TableMod(table) == 256 then bs[..if n < |bs| then n else |bs|]
    else Chars(table, Decode(TableMod(table), bs, n))
  }

  /** At most `fuel` rounds of the byte-shifting loop, as the code runs it:
      after a forced flush has begun, hi is below lo for several rounds. */
  function RawFlush(lo: int, hi: int, m: int, fuel: nat): Flushed
    requires 0 <= lo < P56
    decreases fuel
  {
    if fuel == 0 || !NeedsShift(lo, hi, m) then Flushed([], lo, hi)
    else
      var f := RawFlush(ShiftLo(lo), ShiftHi(hi), m, fuel - 1);
      Flushed([lo / P48] + f.bytes, f.lo, f.hi)
  }

  /** A pair astride a byte boundary with too few values left: the loop runs for
      exactly seven rounds, emits the bytes of lo, and ends with the full range. */
  lemma ForcedFlush(lo: int, hi: int, m: int)
    requires IsAlphabet(m) && IsInterval(lo, hi) && lo / P48 != hi / P48 && hi < lo + m - 1
    ensures RawFlush(lo, hi, m, 7) == Flushed(SevenBytes(lo), 0, P56 - 1)
  {
    hide Top7, SevenBytes;
    var top := lo / P48;
    var a := (top + 1) * P48 - lo;
    var b := hi - (top + 1) * P48;
    assert lo % P48 == P48 - a && hi % P48 == b && 1 <= a && 0 <= b && a + b <= 253;
    StraddleBytes(lo, top, a);
    assert Pow256(1) == 0x100;
    StraddleRounds(ShiftLo(lo), ShiftHi(hi), m, a, b, 0x100, 5);
    assert [top] + (seq(5, i => 255) + [256 - a]) == SevenBytes(lo);
  }

  lemma StraddleBytes(v: int, top: int, a: int)
    requires 0 <= top < 255 && 1 <= a <= 254 && v == (top + 1) * P48 - a
    ensures SevenBytes(v) == [top, 255, 255, 255, 255, 255, 256 - a]
  {
    var v1 := (top + 1) * 0x100_0000_0000 - 1;
    assert v / 256 == v1;
    assert v1 / 256 == (top + 1) * 0x1_0000_0000 - 1;
    assert v1 / 256 / 256 == (top + 1) * 0x100_0000 - 1;
    assert v1 / 256 / 256 / 256 == (top + 1) * 0x1_0000 - 1;
    assert v1 / 256 / 256 / 256 / 256 == (top + 1) * 0x100 - 1;
  }

  /** While hi is below lo, a values below and b + 1 values from a boundary that
      has left the registers, every round but the last emits 255. */
  lemma {:induction false} StraddleRounds(lo: int, hi: int, m: int, a: int, b: int, w: int, left: nat)
    requires IsAlphabet(m) && 1 <= a && 0 <= b && a + b <= 253 && left <= 5
    requires w == Pow256(6 - left) && lo == P56 - a * w && hi == (b + 1) * w - 1
    ensures 0 <= lo < P56
    ensures RawFlush(lo, hi, m, left + 1) == Flushed(seq(left, i => 255) + [256 - a], 0, P56 - 1)
    decreases left
  {
    WeightBelowP48(left);
    StraddleRound(a, b, w);
    assert NeedsShift(lo, hi, m);
    var next := RawFlush(ShiftLo(lo), ShiftHi(hi), m, left);
    assert RawFlush(lo, hi, m, left + 1) == Flushed([lo / P48] + next.bytes, next.lo, next.hi);
    if left == 0 {
      assert seq(left, i => 255) + [256 - a] == [256 - a];
    } else {
      StraddleRounds(ShiftLo(lo), ShiftHi(hi), m, a, b, 256 * w, left - 1);
      assert seq(left, i => 255) + [256 - a] == [255] + (seq(left - 1, i => 255) + [256 - a]);
    }
  }

  lemma WeightBelowP48(left: nat)
    requires left <= 5
    ensures 1 <= Pow256(6 - left)
    ensures if left == 0 then Pow256(6) == P48
            else Pow256(6 - left) <= 0x100_0000_0000 && Pow256(6 - (left - 1)) == 256 * Pow256(6 - left)
  {
    assert Pow256(1) == 0x100 && Pow256(2) == 0x1_0000 && Pow256(3) == 0x100_0000;
    assert Pow256(4) == 0x1_0000_0000 && Pow256(5) == 0x100_0000_0000 && Pow256(6) == P48;
  }

  lemma StraddleRound(a: int, b: int, w: int)
    requires 1 <= a && 0 <= b && a + b <= 253 && (1 <= w <= 0x100_0000_0000 || w == P48)
    ensures var lo, hi := P56 - a * w, (b + 1) * w - 1;
      && 0 <= lo < P56 && hi < lo
      && (w < P48 ==> lo / P48 == 255 && ShiftLo(lo) == P56 - a * (256 * w) && ShiftHi(hi) == (b + 1) * (256 * w) - 1)
      && (w == P48 ==> lo / P48 == 256 - a && ShiftLo(lo) == 0 && ShiftHi(hi) == P56 - 1)
  {
    if w == P48 {
      StraddleRoundLast(a, b);
    } else {
      MulMono(1, a, w);
      MulMono(1, b + 1, w);
      MulMono(a + b + 1, 254, w);
      assert (a + b + 1) * w == a * w + (b + 1) * w;
      assert a * (256 * w) == 256 * (a * w) && (b + 1) * (256 * w) == 256 * ((b + 1) * w);
      StraddleRoundBelow(a * w, (b + 1) * w);
    }
  }

  lemma StraddleRoundLast(a: int, b: int)
    requires 1 <= a && 0 <= b && a + b <= 253
    ensures var lo, hi := P56 - a * P48, (b + 1) * P48 - 1;
      && 0 <= lo < P56 && hi < lo && lo / P48 == 256 - a && ShiftLo(lo) == 0 && ShiftHi(hi) == P56 - 1
  {
    ModIs(P56 - a * P48, 256 - a, P48, 0);
    ModIs((b + 1) * P48 - 1, b, P48, P48 - 1);
  }

  lemma StraddleRoundBelow(x: int, y: int)
    requires 1 <= x && 1 <= y && x + y <= 254 * 0x100_0000_0000
    ensures var lo, hi := P56 - x, y - 1;
      && 0 <= lo < P56 && hi < lo && lo / P48 == 255
      && ShiftLo(lo) == P56 - 256 * x && ShiftHi(hi) == 256 * y - 1
  {
  }

  /** The loop of the code and the two-case description of it agree, and seven
      rounds are always enough. */
  lemma {:induction false} RawFlushIsFlush(lo: int, hi: int, m: int, fuel: nat)
    requires IsAlphabet(m) && IsInterval(lo, hi) && fuel <= 7 && Pow256(7 - fuel) <= hi - lo + 1
    ensures RawFlush(lo, hi, m, fuel) == Flush(lo, hi, m)
    decreases fuel
  {
    PowersOf256();
    Pow256Positive(7 - fuel);
    if lo / P48 == hi / P48 {
      if fuel == 0 {
        assert false;
      } else {
        ShiftIsInterval(lo, hi);
        WidthShift(lo, hi, fuel);
        RawFlushIsFlush(ShiftLo(lo), ShiftHi(hi), m, fuel - 1);
        var next := RawFlush(ShiftLo(lo), ShiftHi(hi), m, fuel - 1);
        assert RawFlush(lo, hi, m, fuel) == Flushed([lo / P48] + next.bytes, next.lo, next.hi);
      }
    } else if hi < lo + m - 1 {
      assert fuel == 7;
      ForcedFlush(lo, hi, m);
    } else {
      assert RawFlush(lo, hi, m, fuel) == Flushed([], lo, hi);
    }
  }

  lemma WidthShift(lo: int, hi: int, fuel: nat)
    requires IsInterval(lo, hi) && lo / P48 == hi / P48 && 0 < fuel <= 7 && Pow256(7 - fuel) <= hi - lo + 1
    ensures Pow256(7 - (fuel - 1)) <= ShiftHi(hi) - ShiftLo(lo) + 1
  {
    ShiftIsInterval(lo, hi);
    assert Pow256(7 - (fuel - 1)) == 256 * Pow256(7 - fuel);
  }

  // ---- 64-bit arithmetic ----

  /** hval = lval + ((c+1)*denom + mod-1)/mod - 1 and lval = lval + (c*denom + mod-1)/mod
      in 64-bit arithmetic: nothing wraps. */
  method Narrow64(lval: int, hval: int, mod: int, c: int) returns (l: int, h: int)
    requires IsAlphabet(mod) && IsReady(lval, hval, mod) && 0 <= c < mod
    ensures l == NarrowLo(lval, hval, mod, c) && h == NarrowHi(lval, hval, mod, c)
    ensures IsInterval(l, h)
  {
    NarrowNests(lval, hval, mod, c);
    ProductsFit(lval, hval, mod, c);
    var denom := U64(U64(hval - lval) + 1);
    var lsum := U64(U64(c * denom) + mod - 1);
    var hsum := U64(U64((c + 1) * denom) + mod - 1);
    assert lsum == c * (hval - lval + 1) + mod - 1 && hsum == (c + 1) * (hval - lval + 1) + mod - 1;
    assert NarrowLo(lval, hval, mod, c) == lval + lsum / mod;
    assert NarrowHi(lval, hval, mod, c) == lval + hsum / mod - 1;
    h := U64(lval + hsum / mod - 1);
    l := U64(lval + lsum / mod);
  }

  lemma ProductsFit(lo: int, hi: int, m: int, c: int)
    requires IsAlphabet(m) && IsInterval(lo, hi) && 0 <= c < m
    ensures 0 <= c * (hi - lo + 1) <= (c + 1) * (hi - lo + 1) <= 255 * P56
  {
    MulMono(0, c, hi - lo + 1);
    MulMono(c, c + 1, hi - lo + 1);
    MulMono(c + 1, 255, hi - lo + 1);
  }

  /** ((hval ^ lval) & CC_ENC_UPPER) == 0 || hval < lval + mod - 1. */
  predicate NeedsShift64(lval: int, hval: int, mod: int) {
    lval / P48 == hval / P48 || hval < U64(U64(lval + mod) - 1)
  }

  // ---- The encoder ----

  lemma FirstRounds(m: int, lo: int, hi: int)
    requires IsAlphabet(m) && IsInterval(lo, hi)
    ensures RawFlush(lo, hi, m, 7) == Flush(lo, hi, m) && |Flush(lo, hi, m).bytes| <= 7
  {
    assert Pow256(0) == 1;
    RawFlushIsFlush(lo, hi, m, 7);
    RawFlushLength(lo, hi, m, 7);
  }

  lemma RawFlushLength(lo: int, hi: int, m: int, fuel: nat)
    requires 0 <= lo < P56
    ensures |RawFlush(lo, hi, m, fuel).bytes| <= fuel
    decreases fuel
  {
  }

  /** The eofm register after k bytes past the end of the input. */
  lemma EofMask(k: nat)
    requires k <= 6
    ensures 0 <= Pow256(k) - 1 < P56
    ensures U64((Pow256(k) - 1) * 256) + 255 == Pow256(k + 1) - 1
    ensures (Pow256(k + 1) - 1) / P48 % 256 == 255 <==> k == 6
  {
    PowersOf256();
  }

  /** The byte-emitting loop of the encoder. Past the end of the input every
      byte also goes through eofm, and the loop breaks off when seven are out. */
  method ShiftOut(lval0: int, hval0: int, mod: int, atEnd: bool, eofm0: int, outv0: seq<byte>, ghost past0: nat)
    returns (lval: int, hval: int, eofm: int, outv: seq<byte>, done: bool, ghost past: nat)
    requires IsAlphabet(mod) && IsInterval(lval0, hval0)
    requires past0 < 7 && eofm0 == Pow256(past0) - 1 && (atEnd || past0 == 0)
    ensures done <==> atEnd && past0 + |Flush(lval0, hval0, mod).bytes| >= 7
    ensures done ==> outv == outv0 + Flush(lval0, hval0, mod).bytes[..7 - past0] && past == 7
    ensures !done ==> outv == outv0 + Flush(lval0, hval0, mod).bytes
    ensures !done ==> lval == Flush(lval0, hval0, mod).lo && hval == Flush(lval0, hval0, mod).hi
    ensures !done ==> past == if atEnd then past0 + |Flush(lval0, hval0, mod).bytes| else 0
    ensures past <= 7 && eofm == Pow256(past) - 1
  {
    hide RawFlush, Flush, Pow256, U64;
    lval, hval, eofm, outv, done, past := lval0, hval0, eofm0, outv0, false, past0;
    ghost var f, emitted := Flush(lval, hval, mod), 0;
    FirstRounds(mod, lval, hval);
    while NeedsShift64(lval, hval, mod)
      invariant 0 <= emitted <= |f.bytes| <= 7 && 0 <= lval < P56 && 0 <= hval < P56 && !done
      invariant RawFlush(lval, hval, mod, 7 - emitted) == Flushed(f.bytes[emitted..], f.lo, f.hi)
      invariant outv == outv0 + f.bytes[..emitted]
      invariant past == if atEnd then past0 + emitted else 0
      invariant past < 7 && eofm == Pow256(past) - 1
      decreases 7 - emitted
    {
      RoundOf(lval, hval, mod, 7 - emitted, f, emitted);
      var b := lval / P48;
      outv := outv + [b];
      hval := U64(hval % P48 * 256) + 255;
      lval := U64(lval % P48 * 256);
      assert hval < P56 * 128;
      emitted := emitted + 1;
      if atEnd {
        EofMask(past);
        eofm := U64(eofm * 256) + 255;
        past := past + 1;
        if eofm / P48 % 256 == 255 {
          done := true;
          break;
        }
      }
    }
    if !done {
      LastRound(lval, hval, mod, 7 - emitted, f, emitted);
    }
  }

  lemma LastRound(lo: int, hi: int, m: int, fuel: nat, f: Flushed, emitted: nat)
    requires IsAlphabet(m) && 0 <= lo < P56 && 0 <= hi < P56 && !NeedsShift64(lo, hi, m) && emitted <= |f.bytes|
    requires RawFlush(lo, hi, m, fuel) == Flushed(f.bytes[emitted..], f.lo, f.hi)
    ensures emitted == |f.bytes| && lo == f.lo && hi == f.hi && f.bytes[..emitted] == f.bytes
  {
    assert !NeedsShift(lo, hi, m);
  }

  /** One round of the loop: a byte was left to emit, and is the next one. */
  lemma RoundOf(lo: int, hi: int, m: int, fuel: nat, f: Flushed, emitted: nat)
    requires IsAlphabet(m) && 0 <= lo < P56 && 0 <= hi < P56 && NeedsShift64(lo, hi, m) && emitted <= |f.bytes|
    requires RawFlush(lo, hi, m, fuel) == Flushed(f.bytes[emitted..], f.lo, f.hi) && IsReady(f.lo, f.hi, m)
    ensures fuel > 0 && emitted < |f.bytes| && 0 <= lo / P48 < 256 && f.bytes[emitted] == lo / P48
    ensures RawFlush(ShiftLo(lo), ShiftHi(hi), m, fuel - 1) == Flushed(f.bytes[emitted + 1..], f.lo, f.hi)
    ensures f.bytes[..emitted + 1] == f.bytes[..emitted] + [f.bytes[emitted]]
  {
    assert NeedsShift(lo, hi, m);
    var next := RawFlush(ShiftLo(lo), ShiftHi(hi), m, fuel - 1);
    assert f.bytes[emitted..] == [lo / P48] + next.bytes;
    assert f.bytes[emitted + 1..] == f.bytes[emitted..][1..];
  }

  lemma ReadSymbol(m: int, lo: int, hi: int, syms: seq<int>)
    requires IsAlphabet(m) && IsReady(lo, hi, m) && |syms| > 0 && AreSymbols(m, syms)
    ensures var l, h := NarrowLo(lo, hi, m, syms[0]), NarrowHi(lo, hi, m, syms[0]);
      && IsInterval(l, h)
      && EncodeFrom(m, lo, hi, syms) ==
           (if |syms| == 1 then Tail(m, l, h, 7)
            else Flush(l, h, m).bytes + EncodeFrom(m, Flush(l, h, m).lo, Flush(l, h, m).hi, syms[1..]))
  {
    hide NarrowLo, NarrowHi, Top7, SevenBytes;
    NarrowNests(lo, hi, m, syms[0]);
  }

  lemma TailAfterFlush(m: int, lo: int, hi: int, need: nat)
    requires IsAlphabet(m) && IsInterval(lo, hi)
    ensures var f := Flush(lo, hi, m);
      Tail(m, lo, hi, need) ==
        if |f.bytes| >= need then f.bytes[..need] else f.bytes + Tail(m, f.lo, f.hi, need - |f.bytes|)
  {
    hide NarrowLo, NarrowHi, Top7, SevenBytes;
    var f := Flush(lo, hi, m);
    if |f.bytes| < need {
      PhantomSymbol(m, f.lo, f.hi, need - |f.bytes|);
    }
  }

  /** What is still to be emitted before the next round of the outer loop. */
  ghost function Rest(m: int, lo: int, hi: int, syms: seq<int>, past: nat): seq<byte>
    requires IsAlphabet(m) && IsReady(lo, hi, m) && AreSymbols(m, syms) && past < 7
  {
    if |syms| > 0 then EncodeFrom(m, lo, hi, syms) else Tail(m, lo, hi, 7 - past)
  }

  lemma RestAtStart(table: seq<byte>, data: seq<byte>, syms: seq<int>)
    requires CanEncode(table) && TableMod(table) != 256 && UsesSymbols(table, data) && data != []
    requires syms == Indexes(table, data) && AreSymbols(TableMod(table), syms)
    ensures IsReady(0, P56 - 1, TableMod(table)) && syms[0..] == syms
    ensures Rest(TableMod(table), 0, P56 - 1, syms, 0) == EncodeChars(table, data)
  {
  }

  /** One round of the outer loop. */
  lemma RestStep(m: int, lo: int, hi: int, syms: seq<int>, past: nat, l: int, h: int)
    requires IsAlphabet(m) && IsReady(lo, hi, m) && AreSymbols(m, syms) && past < 7 && (|syms| > 0 ==> past == 0)
    requires var c := if |syms| > 0 then syms[0] else m / 2;
      l == NarrowLo(lo, hi, m, c) && h == NarrowHi(lo, hi, m, c)
    ensures IsInterval(l, h)
    ensures var f := Flush(l, h, m);
      Rest(m, lo, hi, syms, past) ==
        if |syms| > 1 then f.bytes + Rest(m, f.lo, f.hi, syms[1..], 0)
        else if past + |f.bytes| >= 7 then f.bytes[..7 - past]
        else f.bytes + Rest(m, f.lo, f.hi, [], past + |f.bytes|)
  {
    hide NarrowLo, NarrowHi, EncodeFrom, Tail, Flush;
    if |syms| > 0 {
      ReadSymbol(m, lo, hi, syms);
    } else {
      PhantomSymbol(m, lo, hi, 7 - past);
    }
    if |syms| <= 1 {
      TailAfterFlush(m, l, h, 7 - past);
    }
  }

  /** A round of the loop emits what Rest says. */
  lemma RoundKeeps(m: int, lo: int, hi: int, syms: seq<int>, past: nat, l: int, h: int, out1: seq<byte>,
                   target: seq<byte>,
                   outv: seq<byte>, done: bool, past': nat)
    requires IsAlphabet(m) && IsReady(lo, hi, m) && AreSymbols(m, syms) && past < 7 && (|syms| > 0 ==> past == 0)
    requires target == out1 + Rest(m, lo, hi, syms, past)
    requires var c := if |syms| > 0 then syms[0] else m / 2;
      l == NarrowLo(lo, hi, m, c) && h == NarrowHi(lo, hi, m, c) && IsInterval(l, h)
    requires var f := Flush(l, h, m);
      && (done <==> |syms| <= 1 && past + |f.bytes| >= 7)
      && outv == out1 + (if done then f.bytes[..7 - past] else f.bytes)
      && (!done ==> past' == if |syms| <= 1 then past + |f.bytes| else 0)
    ensures done ==> target == outv
    ensures !done ==>
              var f := Flush(l, h, m);
              past' < 7 && target == outv + Rest(m, f.lo, f.hi, if |syms| > 0 then syms[1..] else [], past')
  {
    hide NarrowLo, NarrowHi, Flush, Rest;
    RestStep(m, lo, hi, syms, past, l, h);
    if !done {
      var f := Flush(l, h, m);
      assert |syms| == 1 ==> syms[1..] == [];
      Associate(out1, f.bytes, Rest(m, f.lo, f.hi, if |syms| > 0 then syms[1..] else [], past'));
    }
  }

  lemma Associate(a: seq<byte>, b: seq<byte>, c: seq<byte>)
    ensures a + (b + c) == a + b + c
  {
  }

  lemma FullRangeReady(m: int)
    requires IsAlphabet(m)
    ensures IsReady(0, P56 - 1, m)
  {
  }

  lemma RoundNests(lo: int, hi: int, m: int, c: int)
    requires IsAlphabet(m) && IsReady(lo, hi, m) && 0 <= c < m
    ensures NarrowHi(lo, hi, m, c) - NarrowLo(lo, hi, m, c) < hi - lo
  {
    NarrowNests(lo, hi, m, c);
  }

  /** The range-coding loop: fails on a char outside the alphabet. */
  method EncodeLoop(table: seq<byte>, data: seq<byte>, outv0: seq<byte>) returns (rc: int, outv: seq<byte>)
    requires CanEncode(table) && TableMod(table) != 256 && data != []
    ensures rc == 0 <==> UsesSymbols(table, data)
    ensures rc == 0 ==> outv == outv0 + EncodeChars(table, data)
  {
    hide Flush, Rest, NarrowLo, NarrowHi, Pow256, EncodeChars, Encode, SevenBytes, Top7, RawFlush, DestringifyChar,
         NeedsShift;
    var mod := TableMod(table);
    var hval, lval, eofm, bufpos, done := P56 - 1, 0, 0, 0, false;
    outv := outv0;
    ghost var ok := UsesSymbols(table, data);
    ghost var syms := if ok then Indexes(table, data) else [];
    ghost var past, target := 0, if ok then outv0 + EncodeChars(table, data) else [];
    if ok {
      IndexesAreSymbols(table, data);
      RestAtStart(table, data, syms);
    }
    assert Pow256(0) == 1 by { PowersOf256(); }
    FullRangeReady(mod);
    while !done
      invariant 0 <= bufpos <= |data| && past <= 7
      invariant forall i :: 0 <= i < bufpos ==> DestringifyChar(table, data[i]) != 255
      invariant eofm == Pow256(past) - 1 && (bufpos < |data| ==> past == 0)
      invariant !done ==> IsReady(lval, hval, mod) && past < 7
      invariant done ==> bufpos == |data|
      invariant ok && !done ==> target == outv + Rest(mod, lval, hval, syms[bufpos..], past)
      invariant ok && done ==> target == outv
      decreases !done, |data| - bufpos, 7 - past, hval - lval
    {
      ghost var before := bufpos;
      var c: int := mod / 2;
      if bufpos < |data| {
        c := DestringifyChar(table, data[bufpos]);
        bufpos := bufpos + 1;
      }
      if c == 255 {
        return -1, outv;
      }
      ghost var lo, hi := lval, hval;
      RoundNests(lo, hi, mod, c);
      lval, hval := Narrow64(lval, hval, mod, c);
      assert hval < P56 * 128;
      FlushKeeps(lval, hval, mod);
      ghost var l, h, out1, past1 := lval, hval, outv, past;
      lval, hval, eofm, outv, done, past := ShiftOut(lval, hval, mod, bufpos == |data|, eofm, outv, past);
      if ok {
        assert syms[bufpos..] == if before < |data| then syms[before..][1..] else [];
        RoundKeeps(mod, lo, hi, syms[before..], past1, l, h, out1, target, outv, done, past);
      }
    }
    rc := 0;
  }

  /** Converts chars to bytes; fails on a char outside the alphabet. */
  method CcAlphaEncode(table: seq<byte>, data: seq<byte>, outv0: seq<byte>, bclear: bool)
    returns (rc: int, outv: seq<byte>)
    requires CanEncode(table)
    ensures rc == 0 <==> UsesSymbols(table, data)
    ensures rc == 0 ==> outv == (if bclear then [] else outv0) + EncodeChars(table, data)
  {
    outv := if bclear then [] else outv0;
    ghost var out0 := outv;
    if |data| == 0 {
      assert Indexes(table, data) == [];
      return 0, outv;
    }
    if TableMod(table) == 256 {
      for i := 0 to |data|
        invariant outv == out0 + data[..i]
      {
        outv := outv + [data[i]];
      }
      assert data[..|data|] == data;
      return 0, outv;
    }
    rc, outv := EncodeLoop(table, data, outv);
  }

  // ---- The decoder ----

  /** The byte-reading loop of the decoder: a phantom 128 past the end of the input. */
  method ShiftIn(lval0: int, hval0: int, dval0: int, mod: int, data: seq<byte>, bufpos0: nat)
    returns (lval: int, hval: int, dval: int, bufpos: nat)
    requires IsAlphabet(mod) && IsInterval(lval0, hval0) && dval0 == Window(data, bufpos0)
    ensures var f := Flush(lval0, hval0, mod); lval == f.lo && hval == f.hi && bufpos == bufpos0 + |f.bytes|
    ensures dval == Window(data, bufpos)
  {
    hide RawFlush, Flush, U64;
    lval, hval, dval, bufpos := lval0, hval0, dval0, bufpos0;
    ghost var f, read := Flush(lval, hval, mod), 0;
    FirstRounds(mod, lval, hval);
    while NeedsShift64(lval, hval, mod)
      invariant 0 <= read <= |f.bytes| <= 7 && 0 <= lval < P56 && 0 <= hval < P56
      invariant RawFlush(lval, hval, mod, 7 - read) == Flushed(f.bytes[read..], f.lo, f.hi)
      invariant bufpos == bufpos0 + read && dval == Window(data, bufpos)
      decreases 7 - read
    {
      RoundOf(lval, hval, mod, 7 - read, f, read);
      WindowStep(data, bufpos);
      var b: int := 128;
      if bufpos < |data| {
        b := data[bufpos];
      }
      bufpos := bufpos + 1;
      hval := U64(hval % P48 * 256) + 255;
      dval := U64(dval % P48 * 256) + b;
      lval := U64(lval % P48 * 256);
      assert hval < P56 * 128;
      read := read + 1;
    }
    LastRound(lval, hval, mod, 7 - read, f, read);
  }

  lemma ProductFits(x: int, m: int)
    requires IsAlphabet(m) && 0 <= x < P56
    ensures 0 <= x * m < 0x1_0000_0000_0000_0000
  {
    MulMono(0, x, m);
    MulMono(x, P56, m);
  }

  /** c = ((dval - lval) * mod) / denom in 64-bit arithmetic: nothing wraps, the
      register is in range, and the result is in the alphabet. */
  method Symbol64(lval: int, hval: int, dval: int, mod: int) returns (c: int)
    requires IsAlphabet(mod) && IsReady(lval, hval, mod) && lval <= dval <= hval
    ensures c == SymbolAt(lval, hval, mod, dval) && 0 <= c < mod
  {
    SymbolInRange(lval, hval, mod, dval);
    ProductFits(dval - lval, mod);
    var denom := U64(U64(hval - lval) + 1);
    var num := U64(U64(dval - lval) * mod);
    assert num == (dval - lval) * mod && denom == hval - lval + 1;
    c := num / denom;
  }

  /** The chars still to be read from a pair that has just been narrowed. */
  ghost function RestChars(table: seq<byte>, data: seq<byte>, pos: nat, lo: int, hi: int, n: nat): (s: seq<byte>)
    requires CanDecode(table) && IsAlphabet(TableMod(table)) && IsInterval(lo, hi) && lo <= Window(data, pos) <= hi
    ensures |s| == n
  {
    Chars(table, DecodeFrom(TableMod(table), data, pos, lo, hi, n).syms)
  }

  lemma RestCharsStep(table: seq<byte>, data: seq<byte>, pos: nat, lo: int, hi: int, n: nat, f: Flushed, p: nat,
                      c: int, l: int, h: int)
    requires CanDecode(table) && IsAlphabet(TableMod(table)) && IsInterval(lo, hi) && lo <= Window(data, pos) <= hi
    requires 0 < n && f == Flush(lo, hi, TableMod(table)) && p == pos + |f.bytes| && 0 <= c < TableMod(table)
    requires c == SymbolAt(f.lo, f.hi, TableMod(table), Window(data, p))
    requires l == NarrowLo(f.lo, f.hi, TableMod(table), c) && h == NarrowHi(f.lo, f.hi, TableMod(table), c)
    ensures IsInterval(l, h) && l <= Window(data, p) <= h
    ensures RestChars(table, data, pos, lo, hi, n)
         == [StringifyByte(table, c)] + RestChars(table, data, p, l, h, n - 1)
  {
    hide NarrowLo, NarrowHi, SymbolAt, Flush, Window, DecodeFrom;
    DecodeStep(TableMod(table), data, pos, lo, hi, c, n);
    var rest := DecodeFrom(TableMod(table), data, p, l, h, n - 1);
    assert RestChars(table, data, pos, lo, hi, n) == Chars(table, [c] + rest.syms);
  }

  lemma RestCharsAtStart(table: seq<byte>, data: seq<byte>, n: nat)
    requires CanDecode(table) && IsAlphabet(TableMod(table)) && data != []
    ensures Window(data, 0) == 0 && RestChars(table, data, 0, 0, 0, n) == DecodeChars(table, data, n)
  {
  }

  method DecodeLoop(table: seq<byte>, data: seq<byte>, nchars: nat, outs0: seq<byte>) returns (outs: seq<byte>)
    requires CanDecode(table) && TableMod(table) != 256 && data != []
    ensures outs == outs0 + DecodeChars(table, data, nchars)
  {
    hide Flush, NarrowLo, NarrowHi, SymbolAt, Window, RestChars, DecodeChars;
    var mod := TableMod(table);
    outs := outs0;
    var bufpos, dval, hval, lval := 0, 0, 0, 0;
    RestCharsAtStart(table, data, nchars);
    while |outs| < |outs0| + nchars
      invariant |outs| <= |outs0| + nchars
      invariant IsInterval(lval, hval) && dval == Window(data, bufpos) && lval <= dval <= hval
      invariant outs0 + DecodeChars(table, data, nchars)
             == outs + RestChars(table, data, bufpos, lval, hval, |outs0| + nchars - |outs|)
    {
      ghost var f, lo, hi, pos := Flush(lval, hval, mod), lval, hval, bufpos;
      ghost var left := |outs0| + nchars - |outs|;
      WindowFollows(data, bufpos, lval, hval, mod);
      lval, hval, dval, bufpos := ShiftIn(lval, hval, dval, mod, data, bufpos);
      assert !(dval < lval || dval > hval || hval < lval);
      var c := Symbol64(lval, hval, dval, mod);
      assert c < mod;
      lval, hval := Narrow64(lval, hval, mod, c);
      RestCharsStep(table, data, pos, lo, hi, left, f, bufpos, c, lval, hval);
      ghost var rest := RestChars(table, data, bufpos, lval, hval, left - 1);
      assert outs + ([StringifyByte(table, c)] + rest) == (outs + [StringifyByte(table, c)]) + rest;
      outs := outs + [StringifyByte(table, c)];
      assert hval < P56 * 128;
    }
  }

  /** Converts bytes to nchars chars (to as many chars as there are bytes, if
      fewer, when the table has 256 symbols). */
  method CcAlphaDecode(table: seq<byte>, data: seq<byte>, nchars: nat, outs0: seq<byte>, bclear: bool)
    returns (outs: seq<byte>)
    requires CanDecode(table)
    ensures outs == (if bclear then [] else outs0) + DecodeChars(table, data, nchars)
  {
    outs := if bclear then [] else outs0;
    ghost var base := outs;
    if |data| == 0 || nchars == 0 {
      return;
    }
    if TableMod(table) == 256 {
      var n := if nchars < |data| then nchars else |data|;
      for i := 0 to n
        invariant outs == base + data[..i]
      {
        outs := outs + [data[i]];
      }
      return;
    }
    outs := DecodeLoop(table, data, nchars, outs);
  }

  // ---- Round trip on chars ----

  /** The round trip on chars, for every pair of inverse tables. */
  lemma CharsRoundTrip(bin: seq<byte>, sym: seq<byte>, data: seq<byte>)
    requires AreInverse(bin, sym) && UsesSymbols(bin, data)
    ensures CanEncode(bin) && CanDecode(sym)
    ensures DecodeChars(sym, EncodeChars(bin, data), |data|) == data
  {
    IndexesAreSymbols(bin, data);
    RoundTrip(TableMod(bin), Indexes(bin, data));
    var back := Chars(sym, Indexes(bin, data));
    forall i | 0 <= i < |data|
      ensures back[i] == data[i]
    {
      assert DestringifyChar(bin, data[i]) != 255;
    }
  }

  /** Every string of symbols can be encoded. */
  lemma CharsCanBeEncoded(bin: seq<byte>, sym: seq<byte>, syms: seq<int>)
    requires AreInverse(bin, sym) && AreSymbols(TableMod(sym), syms)
    ensures CanDecode(sym) && CanEncode(bin) && UsesSymbols(bin, Chars(sym, syms))
    ensures Indexes(bin, Chars(sym, syms)) == syms
  {
    var s := Chars(sym, syms);
    forall i | 0 <= i < |s|
      ensures DestringifyChar(bin, s[i]) == syms[i]
    {
    }
  }
}
