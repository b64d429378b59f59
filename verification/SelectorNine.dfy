/** Selector 9 of cc_alpha_encode_best (source/cclib/src/encode.cpp), whose decode
    table is wrong: from 65536 bytes on it can be emitted, and exactly then the
    data do not come back. */
module SelectorNine {
  import opened Arith
  import opened Bytes
  import opened Encodings
  import opened RangeArith
  import opened RangeCoder
  import opened RangeRoundTrip
  import opened AlphaCodec
  import opened BestEncoding
  import opened Options

  // ---- What selector 9 does to the data ----

  /** What slot 9 emits is never truncated, and only if its length, modulo 2^16, is
      expected to decode to about as many chars as there are. */
  lemma Emitted(data: seq<byte>)
    requires data != [] && TrySlot(9, data).Some?
    ensures CanEncode(Base224Bin) && CanDecode(Base224Bin) && UsesSymbols(Base224Bin, data)
    ensures var enc := EncodeChars(Base224Bin, data);
      var diff := LenDiff(Base224Bin, |enc|, |data|);
      enc != [] && FitsNibble(diff) && TrySlot(9, data).value == [9 * 16 + diff] + enc
  {
    hide Encode, Decode, EncodeChars, DecodeChars, Shorten, LenDiff;
    SlotTables(9);
    LastTables();
    var enc := EncodeChars(Base224Bin, data);
    var r := Shorten(Base224Bin, data, enc, |enc|, |enc|);
    if r != |enc| {
      Slot9NeverDecodes(data, r);
      assert false;
    }
    Slot9EncodingLength(data);
    assert enc[..r] == enc;
  }

  /** The length difference of slot 9 leaves at least 65536 chars, and more of them
      than the wrapped number of bytes. */
  lemma OldLength(b: nat, n: nat, expected: int, k: int)
    requires n >= 0x1_0000 && k == b % 0x1_0000 && expected == U32(b * 0x1_0000) / 8447
    requires 0 <= expected - n + 9 <= 15
    ensures U32(b * 0x1_0000) == k * 0x1_0000
    ensures 0 < k - (expected - n) < n
  {
    ModIs(b * 0x1_0000, b / 0x1_0000, 0x1_0000_0000, k * 0x1_0000);
    assert expected * 8447 <= k * 0x1_0000 < expected * 8447 + 8447;
  }

  /** What is emitted with selector 9 does not decode to the data, under either
      table mapping. */
  lemma Slot9Loses(data: seq<byte>, outs: seq<byte>, useOldTableMapping: bool)
    requires data != [] && |data| < 0x8000_0000 && TrySlot(9, data).Some?
    ensures TrySlot(9, data).value != [] && TrySlot(9, data).value[0] as int / 16 == 9
    ensures DecodeBest(TrySlot(9, data).value, outs, useOldTableMapping) != DecodeResult(0, data)
  {
    hide TrySlot, EncodeChars, DecodeChars, ExpectedStrlen, LenDiff, UsesSymbols;
    Emitted(data);
    var enc, n := EncodeChars(Base224Bin, data), |data|;
    var diff := LenDiff(Base224Bin, |enc|, n);
    LenDiffIsExact(9, |enc|, n);
    HeaderByte(9, diff, enc);
    var out := TrySlot(9, data).value;
    assert out == [9 * 16 + diff] + enc;
    if useOldTableMapping {
      OldMappingLoses(data, enc, diff);
    } else {
      Slot9NeverDecodes(data, |enc|);
      assert enc[..|enc|] == enc;
    }
  }

  /** The old mapping copies the bytes: fewer than there are chars. */
  lemma OldMappingLoses(data: seq<byte>, enc: seq<byte>, diff: int)
    requires data != [] && TrySlot(9, data).Some? && CanDecode(Base256Sym) && FitsNibble(diff)
    requires IsTable(Base224Bin) && diff == ExpectedStrlen(Base224Bin, |enc|) - |data| + LENGTH_DIFF_OFFSET
    ensures var nchars := ExpectedStrlen(Base256Sym, |enc|) - (diff - LENGTH_DIFF_OFFSET);
      nchars >= 0 && DecodeChars(Base256Sym, enc, nchars) != data
  {
    hide TrySlot;
    if |data| < 0x1_0000 {
      Slot9NeverChosen(data);
      assert false;
    } else {
      var k := |enc| % 0x1_0000;
      OldLength(|enc|, |data|, ExpectedStrlen(Base224Bin, |enc|), k);
      assert ExpectedStrlen(Base256Sym, |enc|) == k;
    }
  }

  // ---- Exactly when the data come back ----

  lemma {:induction false} TrySlotsIff(slot: nat, data: seq<byte>, outs: seq<byte>, useOldTableMapping: bool)
    requires slot <= TABLES && data != [] && |data| < 0x8000_0000 && TrySlots(slot, data).Some?
    ensures TrySlots(slot, data).value != []
    ensures DecodeBest(TrySlots(slot, data).value, outs, useOldTableMapping) == DecodeResult(0, data)
       <==> TrySlots(slot, data).value[0] as int / 16 != 9
    decreases TABLES - slot
  {
    hide TrySlot, DecodeBest;
    if TrySlot(slot, data).Some? {
      SlotHeader(slot, data);
      if slot == 9 {
        Slot9Loses(data, outs, useOldTableMapping);
      } else {
        SlotRoundTrip(slot, data, outs, useOldTableMapping);
      }
    } else {
      TrySlotsIff(slot + 1, data, outs, useOldTableMapping);
    }
  }

  /** Whatever is encoded is decoded to the data if and only if its selector is not 9. */
  lemma DecodesIff(data: seq<byte>, outs: seq<byte>, useOldTableMapping: bool)
    requires |data| < 0x8000_0000 && EncodeBest(data).Some?
    ensures data != [] ==> EncodeBest(data).value != []
    ensures DecodeBest(EncodeBest(data).value, outs, useOldTableMapping) == DecodeResult(0, data)
       <==> data == [] || EncodeBest(data).value[0] as int / 16 != 9
  {
    if data != [] {
      TrySlotsIff(0, data, outs, useOldTableMapping);
    }
  }

  // ---- A power of 224 between powers of 2 ----

  predicate IsBetween(m: nat, lo: nat, hi: nat, s: nat) { lo * Pow2(s) <= Pow(224, m) <= hi * Pow2(s) }

  lemma ProductMono(a: nat, b: nat, c: nat, d: nat)
    requires a <= b && c <= d
    ensures a * c <= b * d
  {
    MulMono(a, b, c);
    MulMono(c, d, b);
    assert b * c == c * b && b * d == d * b;
  }

  lemma SquareOfProduct(a: nat, t: nat)
    ensures a * t * (a * t) == a * a * (t * t)
  {
    var x := a * t;
    assert x * x == a * (t * x);
    assert t * x == a * (t * t);
  }

  lemma Squared(m: nat, lo: nat, hi: nat, s: nat)
    requires IsBetween(m, lo, hi, s)
    ensures lo * lo >= 0 && hi * hi >= 0 && IsBetween(2 * m, lo * lo, hi * hi, 2 * s)
  {
    hide Pow, Pow2;
    PowAdd(224, m, m);
    Pow2Add(s, s);
    var p, t := Pow(224, m), Pow2(s);
    ProductMono(lo * t, p, lo * t, p);
    ProductMono(p, hi * t, p, hi * t);
    SquareOfProduct(lo, t);
    SquareOfProduct(hi, t);
    assert m + m == 2 * m && s + s == 2 * s;
  }

  /** One more factor 224 = 7 * 2^5. */
  lemma Multiplied(m: nat, lo: nat, hi: nat, s: nat)
    requires IsBetween(m, lo, hi, s)
    ensures IsBetween(m + 1, 7 * lo, 7 * hi, s + 5)
  {
    hide Pow, Pow2;
    PowStep(224, m + 1);
    Pow2Literals();
    Pow2Add(s, 5);
    var t := Pow2(s);
    assert 7 * lo * (t * 32) == 224 * (lo * t) && 7 * hi * (t * 32) == 224 * (hi * t);
  }

  lemma Cut(m: nat, lo: nat, hi: nat, s: nat, lo2: nat, hi2: nat, sh: nat)
    requires IsBetween(m, lo, hi, s) && lo2 * Pow2(sh) <= lo && hi <= hi2 * Pow2(sh)
    ensures IsBetween(m, lo2, hi2, s + sh)
  {
    hide Pow, Pow2;
    Pow2Add(s, sh);
    var t, u := Pow2(s), Pow2(sh);
    MulMono(lo2 * u, lo, t);
    MulMono(hi, hi2 * u, t);
    Reassociate(lo2, t, u);
    Reassociate(hi2, t, u);
  }

  lemma Reassociate(x: nat, t: nat, u: nat)
    ensures x * u * t == x * (t * u)
  {
  }

  /** Squaring, with one more factor if asked for, and then cutting the bounds by sh bits. */
  lemma Doubled(m: nat, lo: nat, hi: nat, s: nat, odd: bool, lo2: nat, hi2: nat, sh: nat, unit: nat)
    requires IsBetween(m, lo, hi, s) && unit == Pow2(sh)
    requires lo2 * unit <= lo * lo * (if odd then 7 else 1) && hi * hi * (if odd then 7 else 1) <= hi2 * unit
    ensures IsBetween(2 * m + (if odd then 1 else 0), lo2, hi2, 2 * s + (if odd then 5 else 0) + sh)
  {
    hide IsBetween, Pow2;
    Squared(m, lo, hi, s);
    if odd {
      Multiplied(2 * m, lo * lo, hi * hi, 2 * s);
      Cut(2 * m + 1, 7 * (lo * lo), 7 * (hi * hi), 2 * s + 5, lo2, hi2, sh);
    } else {
      Cut(2 * m, lo * lo, hi * hi, 2 * s, lo2, hi2, sh);
    }
  }

  lemma Units()
    ensures Pow2(0) == 0x1 && Pow2(2) == 0x4 && Pow2(23) == 0x80_0000 && Pow2(24) == 0x100_0000
    ensures Pow2(26) == 0x400_0000 && Pow2(27) == 0x800_0000
  {
    hide Pow2;
    Pow2Small();
    Pow2Literals();
    Pow2Add(1, 1);
    Pow2Add(4, 4);
    Pow2Add(8, 8);
    Pow2Add(16, 5);
    Pow2Add(21, 2);
    Pow2Add(23, 1);
    Pow2Add(24, 2);
    Pow2Add(26, 1);
  }

  lemma PowerOf224()
    ensures IsBetween(77364, 9666744, 9682856, 603985)
  {
    hide IsBetween, Pow2;
    Units();
    assert IsBetween(1, 7, 7, 5) by { FirstPower(); }
    Doubled(1, 7, 7, 5, false, 49, 49, 0, 0x1);
    Doubled(2, 49, 49, 10, false, 2401, 2401, 0, 0x1);
    Doubled(4, 2401, 2401, 20, true, 10088401, 10088402, 2, 0x4);
    Doubled(9, 10088401, 10088402, 47, false, 12132624, 12132628, 23, 0x800000);
    Doubled(18, 12132624, 12132628, 117, true, 15354215, 15354226, 26, 0x4000000);
    Doubled(37, 15354215, 15354226, 265, true, 12295420, 12295439, 27, 0x8000000);
    Doubled(75, 12295420, 12295439, 562, true, 15769026, 15769076, 26, 0x4000000);
    Doubled(151, 15769026, 15769076, 1155, false, 14821420, 14821515, 24, 0x1000000);
    Doubled(302, 14821420, 14821515, 2334, false, 13093619, 13093788, 24, 0x1000000);
    Doubled(604, 13093619, 13093788, 4692, false, 10218790, 10219055, 24, 0x1000000);
    Doubled(1208, 10218790, 10219055, 9408, true, 10892237, 10892803, 26, 0x4000000);
    Doubled(2417, 10892237, 10892803, 18847, true, 12375202, 12376489, 26, 0x4000000);
    Doubled(4835, 12375202, 12376489, 37725, false, 9128190, 9130090, 24, 0x1000000);
    Doubled(9670, 9128190, 9130090, 75474, true, 8691355, 8694974, 26, 0x4000000);
    Doubled(19341, 8691355, 8694974, 150979, false, 9005028, 9012529, 23, 0x800000);
    Doubled(38682, 9005028, 9012529, 301981, false, 9666744, 9682856, 23, 0x800000);
  }

  lemma FirstPower()
    ensures IsBetween(1, 7, 7, 5)
  {
    Pow2Literals();
    PowOne(224);
  }

  // ---- The encoding of a string of last symbols ----

  lemma {:induction false} Pow256Add(j: nat, k: nat)
    ensures Pow256(j + k) == Pow256(j) * Pow256(k)
  {
    if j > 0 {
      Pow256Add(j - 1, k);
      assert Pow256(j + k) == 256 * Pow256(j - 1 + k);
    }
  }

  /** Narrowing registers that end at the top to the last symbol of 224. */
  lemma NarrowToLast(w: int)
    requires 224 <= w <= P56
    ensures NarrowLo(P56 - w, P56 - 1, 224, 223) == P56 - w / 224
    ensures NarrowHi(P56 - w, P56 - 1, 224, 223) == P56 - 1
  {
    NarrowEnds(P56 - w, P56 - 1, 224);
  }

  /** Flushing such registers shifts out j bytes of 255. */
  lemma {:induction false} FlushTop(w: int) returns (j: nat)
    requires 0 < w <= P56
    ensures IsInterval(P56 - w, P56 - 1) && P48 < w * Pow256(j) <= P56
    ensures var f := Flush(P56 - w, P56 - 1, 224);
      |f.bytes| == j && f.lo == P56 - w * Pow256(j) && f.hi == P56 - 1
    decreases P56 - w
  {
    if w <= P48 {
      var i := FlushTop(256 * w);
      j := i + 1;
      ShiftTop(w);
      assert 256 * w * Pow256(i) == w * (256 * Pow256(i));
    } else {
      j := 0;
    }
  }

  lemma ShiftTop(w: int)
    requires 0 < w <= P48
    ensures (P56 - w) / P48 == (P56 - 1) / P48 == 255
    ensures ShiftLo(P56 - w) == P56 - 256 * w && ShiftHi(P56 - 1) == P56 - 1
  {
    ModIs(P56 - w, 255, P48, P48 - w);
  }

  /** Of this many parts, each symbol loses at most one by rounding down. */
  const PARTS: int := 0x100_0000_0000

  /** What the width of the registers, times 256 for each of e bytes, is worth: k
      symbols divide it by 224 each. */
  predicate IsWorth(w: int, e: nat, k: nat) {
    && P48 * Pow(224, k) <= w * Pow256(e)
    && w * Pow256(e) * (PARTS - k) <= PARTS * (P56 * Pow(224, k))
  }

  lemma {:induction false} LengthOfLast(w: int, syms: seq<int>) returns (e: nat)
    requires P48 < w <= P56 && 0 < |syms| <= PARTS && forall i :: 0 <= i < |syms| ==> syms[i] == 223
    ensures IsReady(P56 - w, P56 - 1, 224)
    ensures |EncodeFrom(224, P56 - w, P56 - 1, syms)| == 7 + e && IsWorth(w, e, |syms| - 1)
    decreases |syms|
  {
    hide IsWorth, NarrowLo, NarrowHi, Flush;
    TopIsReady(w);
    NarrowToLast(w);
    NarrowNests(P56 - w, P56 - 1, 224, 223);
    if |syms| == 1 {
      e := 0;
      WorthAtEnd(w);
    } else {
      var j := FlushTop(w / 224);
      var i := LengthOfLast(w / 224 * Pow256(j), syms[1..]);
      e := j + i;
      WorthStep(w, j, i, |syms| - 2);
    }
  }

  lemma TopIsReady(w: int)
    requires P48 < w <= P56
    ensures IsReady(P56 - w, P56 - 1, 224)
  {
  }

  lemma WorthAtEnd(w: int)
    requires P48 < w <= P56
    ensures IsWorth(w, 0, 0)
  {
  }

  lemma WorthStep(w: int, j: nat, i: nat, k: nat)
    requires P48 < w && IsWorth(w / 224 * Pow256(j), i, k) && k + 1 <= PARTS
    ensures IsWorth(w, j + i, k + 1)
  {
    hide Pow256, Pow;
    Pow256Add(j, i);
    PowStep(224, k + 1);
    var q, x, z := w / 224, Pow256(j + i), Pow(224, k);
    assert q * Pow256(j) * Pow256(i) == q * x;
    Pow256Positive(j + i);
    WorthKept(w, q, x, z);
    WorthLost(w, q, x, z, k);
  }

  lemma WorthKept(w: int, q: int, x: int, z: int)
    requires q == w / 224 && x >= 0 && P48 * z <= q * x
    ensures P48 * (224 * z) <= w * x
  {
    MulMono(224 * q, w, x);
    assert 224 * q * x == 224 * (q * x);
  }

  lemma WorthLost(w: int, q: int, x: int, z: int, k: nat)
    requires P48 < w && q == w / 224 && x >= 0 && k + 1 <= PARTS && q * x * (PARTS - k) <= PARTS * (P56 * z)
    ensures w * x * (PARTS - (k + 1)) <= PARTS * (P56 * (224 * z))
  {
    var c := PARTS - k;
    MulMono(w - 223, 224 * q, c);
    assert (w - 223) * c == w * c - 223 * c && w * (c - 1) == w * c - w;
    MulMono(w * (c - 1), 224 * q * c, x);
    assert w * (c - 1) * x == w * x * (c - 1);
    assert 224 * q * c * x == 224 * (q * x * c);
  }

  // ---- 77365 bytes of 255 ----

  lemma {:induction false} Pow256IsPow2(e: nat)
    ensures Pow256(e) == Pow2(8 * e)
  {
    hide Pow2;
    if e == 0 {
      Pow2Small();
    } else {
      Pow256IsPow2(e - 1);
      Pow2Literals();
      Pow2Add(4, 4);
      Pow2Add(8, 8 * (e - 1));
      assert 8 + 8 * (e - 1) == 8 * e;
    }
  }

  /** The number of bytes, from the bounds on the power of 224. */
  lemma BytesOfPower(e: nat, k: nat, s: nat)
    requires k == 77364 && s == 603985 && IsWorth(P56, e, k) && IsBetween(k, 9666744, 9682856, s)
    ensures 75500 <= e <= 75501
  {
    hide Pow, Pow2, Pow256;
    var z, x, t := Pow(224, k), Pow256(e), Pow2(s);
    Pow256IsPow2(e);
    Units();
    Pow2Add(23, s);
    Pow2Add(24, s);
    assert z <= 256 * x;
    MulMono(PARTS, 2 * (PARTS - k), x);
    assert P56 * x * (PARTS - k) == P56 * (x * (PARTS - k)) && PARTS * (P56 * z) == P56 * (PARTS * z);
    assert x <= 2 * z;
    PowersApart(8 * e, s, x, t);
  }

  lemma PowersApart(e8: nat, s: nat, x: int, t: int)
    requires x == Pow2(e8) && t == Pow2(s) && Pow2(s + 23) == 0x80_0000 * t && Pow2(s + 24) == 0x100_0000 * t
    requires 0x80_0000 * t < 256 * x && x < 2 * (0x100_0000 * t)
    ensures s + 15 < e8 < s + 25
  {
    hide Pow2;
    Units();
    Pow2Add(s, 1);
    Pow2Small();
    Pow2Double(s + 24);
    if e8 >= s + 25 {
      Pow2Mono(s + 25, e8);
    }
    if e8 <= s + 15 {
      Pow2Mono(e8, s + 15);
      Pow2Literals();
      Pow2Add(4, 4);
      Pow2Add(s + 15, 8);
    }
  }

  lemma LastSymbols(n: nat) returns (e: nat)
    requires n == 77365
    ensures |Encode(224, seq(n, i => 223))| == 7 + e && 75500 <= e <= 75501
  {
    hide IsWorth, IsBetween;
    var syms := seq(n, i => 223);
    e := LengthOfLast(P56, syms);
    PowerOf224();
    BytesOfPower(e, n - 1, 603985);
  }

  function Failing(n: nat): seq<byte> { seq(n, i => 255) }

  /** No slot before slot 9 knows the char 255. */
  lemma UnknownToOthers(slot: nat, data: seq<byte>)
    requires slot < 9 && data != [] && data[0] == 255
    ensures TrySlot(slot, data) == None
  {
    hide EncodeShortest, LenDiff;
    SlotTables(slot);
    LastChar(slot);
  }

  lemma LastChar(slot: nat)
    requires slot < 9
    ensures IsBinTable(BestEncodeTable(slot)) && TableMod(BestEncodeTable(slot)) != 256
    ensures DestringifyChar(BestEncodeTable(slot), 255) == 255
  {
    hide AreInverse;
    SlotInverse(slot);
    SlotTables(slot);
  }

  lemma {:induction false} SkipsToNine(slot: nat, data: seq<byte>)
    requires slot <= 9 && data != [] && data[0] == 255 && TrySlot(9, data).Some?
    ensures TrySlots(slot, data) == TrySlot(9, data)
    decreases 9 - slot
  {
    hide TrySlot;
    if slot < 9 {
      UnknownToOthers(slot, data);
      SkipsToNine(slot + 1, data);
    }
  }

  /** Slot 9 yields something for data whose encoding has one of these lengths. */
  lemma NineFits(data: seq<byte>)
    requires |data| == 77365 && CanEncode(Base224Bin) && UsesSymbols(Base224Bin, data)
    requires 75507 <= |EncodeChars(Base224Bin, data)| <= 75508
    ensures TrySlot(9, data).Some?
  {
    hide EncodeChars, DecodeChars, Shorten;
    SlotTables(9);
    LastTables();
    var enc := EncodeChars(Base224Bin, data);
    var r := Shorten(Base224Bin, data, enc, |enc|, |enc|);
    if r != |enc| {
      Slot9NeverDecodes(data, r);
      assert false;
    }
    assert enc[..r] == enc;
  }

  /** An input that is encoded with selector 9: it does not come back. */
  lemma FailingInput(data: seq<byte>, n: nat, outs: seq<byte>, useOldTableMapping: bool)
    requires n == 77365 && data == Failing(n)
    ensures EncodeBest(data).Some? && EncodeBest(data).value != [] && EncodeBest(data).value[0] as int / 16 == 9
    ensures DecodeBest(EncodeBest(data).value, outs, useOldTableMapping) != DecodeResult(0, data)
  {
    hide TrySlot, DecodeBest, Encode;
    LastTables();
    assert Indexes(Base224Bin, data) == seq(n, i => 223);
    var e := LastSymbols(n);
    NineFits(data);
    SkipsToNine(0, data);
    Slot9Loses(data, outs, useOldTableMapping);
  }
}
