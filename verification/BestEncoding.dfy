/** cc_alpha_encode_shortest, cc_alpha_encode_best and cc_alpha_decode_best of
    source/cclib/src/encode.cpp: truncation search, table selection and the
    length nibble, for any byte string. */
module BestEncoding {
  import opened Arith
  import opened Bytes
  import opened Encodings
  import opened RangeArith
  import opened RangeCoder
  import opened RangeRoundTrip
  import opened AlphaCodec
  import opened Options

  /** The return code and the output string of cc_alpha_decode_best. */
  datatype DecodeResult = DecodeResult(rc: int, outs: seq<byte>)

  const LENGTH_DIFF_OFFSET: int := 9

  /** The value that goes into the length nibble, if it fits. */
  function LenDiff(sym: seq<byte>, binlength: nat, nchars: nat): int
    requires IsTable(sym)
  {
    Int32(ExpectedStrlen(sym, binlength) - nchars) + LENGTH_DIFF_OFFSET
  }

  predicate FitsNibble(diff: int) { 0 <= diff <= 15 }

  lemma SlotTables(slot: nat)
    requires slot < TABLES
    ensures CanEncode(BestEncodeTable(slot)) && CanDecode(BestDecodeTable(slot))
    ensures TableMod(BestEncodeTable(slot)) == TableMod(BestDecodeTable(slot))
    ensures TableMod(BestEncodeTable(slot)) == 256 <==> slot == 10
  {
    hide AreInverse;
    if slot < 9 {
      SlotInverse(slot);
      InverseTables(BestEncodeTable(slot), BestDecodeTable(slot));
    } else {
      LastTables();
    }
  }

  lemma InverseTables(bin: seq<byte>, sym: seq<byte>)
    requires AreInverse(bin, sym)
    ensures CanEncode(bin) && CanDecode(sym) && TableMod(bin) == TableMod(sym) <= 255
  {
  }

  lemma LastTables()
    ensures CanEncode(Base224Bin) && CanDecode(Base224Bin) && TableMod(Base224Bin) == 224
    ensures CanEncode(Base256Bin) && CanDecode(Base256Sym) && TableMod(Base256Bin) == TableMod(Base256Sym) == 256
  {
  }

  // ---- The functions ----

  /** The search for a shorter prefix that still decodes to data: from `size`
      bytes down, `best` being the shortest found so far. */
  function Shorten(sym: seq<byte>, data: seq<byte>, enc: seq<byte>, size: nat, best: nat): (r: nat)
    requires CanDecode(sym) && size <= |enc| && best <= |enc|
    ensures r == best || (0 < r <= size && DecodeChars(sym, enc[..r], |data|) == data)
    decreases size
  {
    if size == 0 then best
    else if !FitsNibble(LenDiff(sym, size, |data|)) then Shorten(sym, data, enc, size - 1, best)
    else if DecodeChars(sym, enc[..size], |data|) != data then best
    else Shorten(sym, data, enc, size - 1, size)
  }

  ghost function EncodeShortest(bin: seq<byte>, sym: seq<byte>, data: seq<byte>): seq<byte>
    requires CanEncode(bin) && CanDecode(sym) && UsesSymbols(bin, data)
  {
    var enc := EncodeChars(bin, data);
    enc[..Shorten(sym, data, enc, |enc|, |enc|)]
  }

  /** The output with one slot's tables, if they can encode data and the length
      difference fits the nibble. */
  ghost function TrySlot(slot: nat, data: seq<byte>): Option<seq<byte>>
    requires slot < TABLES
  {
    SlotTables(slot);
    var bin, sym := BestEncodeTable(slot), BestDecodeTable(slot);
    if !UsesSymbols(bin, data) then None
    else
      var bs := EncodeShortest(bin, sym, data);
      var diff := LenDiff(sym, |bs|, |data|);
      if FitsNibble(diff) then Some([slot * 16 + diff] + bs) else None
  }

  /** The first slot, from `slot` on, that works. */
  ghost function TrySlots(slot: nat, data: seq<byte>): Option<seq<byte>>
    requires slot <= TABLES
    decreases TABLES - slot
  {
    if slot == TABLES then None
    else if TrySlot(slot, data).Some? then TrySlot(slot, data)
    else TrySlots(slot + 1, data)
  }

  ghost function EncodeBest(data: seq<byte>): Option<seq<byte>> {
    if data == [] then Some([]) else TrySlots(0, data)
  }

  function DecodeBest(bs: seq<byte>, outs: seq<byte>, useOldTableMapping: bool): DecodeResult {
    if bs == [] then DecodeResult(0, [])
    else
      var selector := bs[0] as int / 16;
      var table := if selector == 9 && useOldTableMapping then 10 else selector;
      if table > TABLES - 1 then DecodeResult(-1, outs)
      else
        SlotTables(table);
        var lenDiff := bs[0] as int % 16 - LENGTH_DIFF_OFFSET;
        var nchars := ExpectedStrlen(BestDecodeTable(table), |bs| - 1) - lenDiff;
        if nchars < 0 then DecodeResult(0, outs)
        else DecodeResult(0, DecodeChars(BestDecodeTable(table), bs[1..], nchars))
  }

  // ---- Slots with matching tables ----

  lemma ShortestDecodes(slot: nat, data: seq<byte>)
    requires slot < TABLES && slot != 9 && data != []
    requires CanEncode(BestEncodeTable(slot)) && UsesSymbols(BestEncodeTable(slot), data)
    ensures CanDecode(BestDecodeTable(slot))
    ensures var bin, sym := BestEncodeTable(slot), BestDecodeTable(slot);
      DecodeChars(sym, EncodeShortest(bin, sym, data), |data|) == data
  {
    hide AreInverse, EncodeChars, DecodeChars, Shorten;
    SlotTables(slot);
    var bin, sym := BestEncodeTable(slot), BestDecodeTable(slot);
    var enc := EncodeChars(bin, data);
    if slot < 9 {
      SlotInverse(slot);
      CharsRoundTrip(bin, sym, data);
    } else {
      Copies(bin, sym, data);
    }
    assert enc[..|enc|] == enc;
  }

  /** A table with 256 symbols copies. */
  lemma Copies(bin: seq<byte>, sym: seq<byte>, data: seq<byte>)
    requires CanEncode(bin) && CanDecode(sym) && TableMod(bin) == TableMod(sym) == 256
    ensures EncodeChars(bin, data) == data && DecodeChars(sym, data, |data|) == data
    ensures forall r: nat :: r < |data| ==> DecodeChars(sym, data[..r], |data|) == data[..r]
  {
    assert data[..|data|] == data;
    forall r: nat | r < |data|
      ensures DecodeChars(sym, data[..r], |data|) == data[..r]
    {
      assert data[..r][..r] == data[..r];
    }
  }

  /** The size ratios keep the expected length far below the range of int. */
  lemma ExpectedIsSmall(slot: nat, binlength: nat)
    requires slot < TABLES
    ensures IsTable(BestDecodeTable(slot))
    ensures 0 <= ExpectedStrlen(BestDecodeTable(slot), binlength) < 0x100_0000
  {
    var resize := SlotRatio(slot);
    FloorIff(U32(binlength * 0x1_0000), resize, 0x100_0000);
    FloorIff(U32(binlength * 0x1_0000), resize, 0);
    MulMono(256, resize, 0x100_0000);
    assert 0x100_0000 * resize == resize * 0x100_0000;
  }

  lemma SlotRatio(slot: nat) returns (resize: int)
    requires slot < TABLES
    ensures var sym := BestDecodeTable(slot);
      && IsTable(sym) && resize == SizeRatio(slot) >= 256
      && forall b: nat {:trigger ExpectedStrlen(sym, b)} :: ExpectedStrlen(sym, b) == U32(b * 0x1_0000) / resize
  {
    resize := SizeRatio(slot);
  }

  /** How many 65536ths of a byte each slot expects a char to take. */
  function SizeRatio(slot: nat): int
    requires slot < TABLES
  {
    [27213, 32768, 40960, 40960, 41676, 42991, 47989, 49516, 53820, 8447, 0x1_0000][slot]
  }

  /** The length nibble holds the exact difference when it fits. */
  lemma LenDiffIsExact(slot: nat, binlength: nat, nchars: nat)
    requires slot < TABLES && nchars < 0x8000_0000
    ensures IsTable(BestDecodeTable(slot))
    ensures LenDiff(BestDecodeTable(slot), binlength, nchars)
         == ExpectedStrlen(BestDecodeTable(slot), binlength) - nchars + LENGTH_DIFF_OFFSET
  {
    ExpectedIsSmall(slot, binlength);
  }

  /** Whatever is emitted with a selector other than 9 decodes to the input,
      under the old and the new table mapping. */
  lemma SlotRoundTrip(slot: nat, data: seq<byte>, outs: seq<byte>, useOldTableMapping: bool)
    requires slot < TABLES && slot != 9 && data != [] && |data| < 0x8000_0000 && TrySlot(slot, data).Some?
    ensures DecodeBest(TrySlot(slot, data).value, outs, useOldTableMapping) == DecodeResult(0, data)
  {
    hide AreInverse, EncodeChars, DecodeChars, EncodeShortest, ExpectedStrlen, LenDiff, BestDecodeTable,
         BestEncodeTable;
    SlotTables(slot);
    ShortestDecodes(slot, data);
    var bin, sym := BestEncodeTable(slot), BestDecodeTable(slot);
    var bs := EncodeShortest(bin, sym, data);
    var diff := LenDiff(sym, |bs|, |data|);
    LenDiffIsExact(slot, |bs|, |data|);
    HeaderByte(slot, diff, bs);
    var out := TrySlot(slot, data).value;
    assert out == [slot * 16 + diff] + bs;
  }

  /** The first byte holds the selector above the length nibble. */
  lemma HeaderByte(slot: nat, diff: int, bs: seq<byte>)
    requires slot < TABLES && FitsNibble(diff)
    ensures var out: seq<byte> := [slot * 16 + diff] + bs;
      out[0] as int / 16 == slot && out[0] as int % 16 == diff && out[1..] == bs
  {
  }

  // ---- Slot 9 ----

  lemma WindowOfFirst(bs: seq<byte>, k: nat)
    requires k <= 6
    ensures InputByte(bs, 0) * Pow256(k) <= Window(bs, k + 1) <= (InputByte(bs, 0) + 1) * Pow256(k) - 1
  {
    hide Pow256, Window, ShiftLo;
    PowersOf256();
    if k == 0 {
      WindowAtStart(bs);
      WindowStep(bs, 0);
      assert ShiftLo(0) == 0 by { ShiftOfSmall(0); }
    } else {
      WindowOfFirst(bs, k - 1);
      WindowStep(bs, k);
      PowBelowP48(k - 1);
      WindowGrows(Window(bs, k), InputByte(bs, 0), Pow256(k - 1), InputByte(bs, k));
    }
  }

  lemma ShiftOfSmall(w: int)
    requires 0 <= w < P48
    ensures ShiftLo(w) == 256 * w
  {
  }

  lemma WindowGrows(w: int, b: byte, x: int, c: byte)
    requires b * x <= w <= (b + 1) * x - 1 && 0 <= 256 * x <= P48
    ensures b * (256 * x) <= ShiftLo(w) + c <= (b + 1) * (256 * x) - 1
  {
    MulMono(b + 1, 256, x);
    MulMono(0, b, x);
    ShiftOfSmall(w);
    assert b * (256 * x) == 256 * (b * x) && (b + 1) * (256 * x) == 256 * ((b + 1) * x);
  }

  lemma PowBelowP48(k: nat)
    requires k <= 5
    ensures 0 <= 256 * Pow256(k) <= P48 && Pow256(k + 1) == 256 * Pow256(k)
  {
    PowersOf256();
  }

  /** With only its first byte known, a first symbol out of 224 is known up to 1. */
  lemma FirstSymbolOfPrefix(syms: seq<int>, t: nat)
    requires AreSymbols(224, syms) && syms != [] && 1 <= t <= |Encode(224, syms)|
    ensures Decode(224, Encode(224, syms)[..t], |syms|)[0] <= syms[0] + 1
  {
    hide Encode, EncodeFrom, DecodeFrom, Flush, Window;
    var enc := Encode(224, syms);
    var cut := enc[..t];
    RoundTrip(224, syms);
    FirstDecoded(enc, |syms|);
    FirstDecoded(cut, |syms|);
    PowersOf256();
    WindowOfFirst(enc, 6);
    WindowOfFirst(cut, 6);
    assert InputByte(enc, 0) == InputByte(cut, 0);
    assert Window(cut, 7) < Window(enc, 7) + P48;
  }

  lemma FirstDecoded(bs: seq<byte>, n: nat)
    requires bs != [] && n > 0
    ensures Decode(224, bs, n)[0] == Window(bs, 7) * 224 / P56
  {
    hide Flush, Window;
    WindowAtStart(bs);
    PowersOf256();
    FlushFromZero(224, 0);
    WindowFollows(bs, 0, 0, 0, 224);
    SymbolInRange(0, P56 - 1, 224, Window(bs, 7));
    DecodeStep(224, bs, 0, 0, 0, SymbolAt(0, P56 - 1, 224, Window(bs, 7)), n);
  }

  /** No prefix of a slot 9 encoding decodes to the input through slot 9. */
  lemma Slot9NeverDecodes(data: seq<byte>, t: nat)
    requires data != [] && CanEncode(Base224Bin) && UsesSymbols(Base224Bin, data) && CanDecode(Base224Bin)
    requires 1 <= t <= |EncodeChars(Base224Bin, data)|
    ensures DecodeChars(Base224Bin, EncodeChars(Base224Bin, data)[..t], |data|) != data
  {
    hide Encode, Decode;
    IndexesAreSymbols(Base224Bin, data);
    var syms := Indexes(Base224Bin, data);
    FirstSymbolOfPrefix(syms, t);
    Slot9Mismatch(data[0]);
    var back := Decode(224, EncodeChars(Base224Bin, data)[..t], |data|);
    assert DecodeChars(Base224Bin, EncodeChars(Base224Bin, data)[..t], |data|)[0] == back[0];
    assert syms[0] == data[0] as int - 32;
  }

  /** Below 65536 chars, the length of a slot 9 encoding never fits the nibble. */
  lemma Slot9Length(b: nat, n: nat)
    requires 7 * b >= n + 42 && b <= n + 6 && 1 <= n < 0x1_0000
    ensures IsTable(Base224Bin) && !FitsNibble(LenDiff(Base224Bin, b, n))
  {
    assert ExpectedStrlen(Base224Bin, b) == U32(b * 0x1_0000) / 8447;
    if b < 0x1_0000 {
      assert U32(b * 0x1_0000) == b * 0x1_0000;
    } else {
      assert U32(b * 0x1_0000) == (b - 0x1_0000) * 0x1_0000;
    }
  }

  /** The slot whose decode table is wrong is never chosen. */
  lemma Slot9NeverChosen(data: seq<byte>)
    requires data != [] && |data| < 0x1_0000
    ensures TrySlot(9, data) == None
  {
    hide Encode, Decode, EncodeChars, DecodeChars, Shorten;
    SlotTables(9);
    LastTables();
    if UsesSymbols(Base224Bin, data) {
      var enc := EncodeChars(Base224Bin, data);
      var r := Shorten(Base224Bin, data, enc, |enc|, |enc|);
      if r != |enc| {
        Slot9NeverDecodes(data, r);
        assert false;
      }
      IndexesAreSymbols(Base224Bin, data);
      Slot9EncodingLength(data);
      Slot9Length(|enc|, |data|);
      assert enc[..r] == enc;
    }
  }

  lemma Slot9EncodingLength(data: seq<byte>)
    requires data != [] && CanEncode(Base224Bin) && UsesSymbols(Base224Bin, data) && TableMod(Base224Bin) == 224
    ensures 7 * |EncodeChars(Base224Bin, data)| >= |data| + 42 && |EncodeChars(Base224Bin, data)| <= |data| + 6
  {
    IndexesAreSymbols(Base224Bin, data);
    LengthAtLeast224(Indexes(Base224Bin, data));
    LengthAtMost(224, Indexes(Base224Bin, data));
  }

  // ---- The last slot ----

  /** The 256-symbol slot works for every string below 65536 bytes: the length
      difference is 0. */
  lemma LastSlotWorks(data: seq<byte>)
    requires data != [] && |data| < 0x1_0000
    ensures TrySlot(10, data) == Some([169] + data)
  {
    hide Encode, Decode, EncodeChars, DecodeChars, Shorten;
    SlotTables(10);
    var bin, sym := BestEncodeTable(10), BestDecodeTable(10);
    Copies(bin, sym, data);
    var enc := EncodeChars(bin, data);
    var r := Shorten(sym, data, enc, |enc|, |enc|);
    assert r == |data|;
    assert enc[..r] == data;
    assert ExpectedStrlen(sym, |data|) == |data|;
  }

  // ---- The best encoding ----

  lemma {:induction false} TrySlotsRoundTrip(slot: nat, data: seq<byte>, outs: seq<byte>, useOldTableMapping: bool)
    requires slot <= 10 && data != [] && |data| < 0x1_0000
    ensures TrySlots(slot, data).Some?
    ensures TrySlots(slot, data).value != [] && TrySlots(slot, data).value[0] as int / 16 != 9
    ensures DecodeBest(TrySlots(slot, data).value, outs, useOldTableMapping) == DecodeResult(0, data)
    decreases TABLES - slot
  {
    hide TrySlot, DecodeBest;
    if TrySlot(slot, data).Some? {
      if slot == 9 {
        Slot9NeverChosen(data);
        assert false;
      } else {
        SlotRoundTrip(slot, data, outs, useOldTableMapping);
        SlotHeader(slot, data);
      }
    } else if slot == 10 {
      LastSlotWorks(data);
      assert false;
    } else {
      TrySlotsRoundTrip(slot + 1, data, outs, useOldTableMapping);
    }
  }

  lemma SlotHeader(slot: nat, data: seq<byte>)
    requires slot < TABLES && TrySlot(slot, data).Some?
    ensures TrySlot(slot, data).value != [] && TrySlot(slot, data).value[0] as int / 16 == slot
  {
    hide UsesSymbols, EncodeShortest, LenDiff, BestEncodeTable, BestDecodeTable;
    SlotTables(slot);
    var bs := EncodeShortest(BestEncodeTable(slot), BestDecodeTable(slot), data);
    HeaderByte(slot, LenDiff(BestDecodeTable(slot), |bs|, |data|), bs);
  }

  /** cc_alpha_encode_best succeeds on every byte string shorter than 65536,
      never emits selector 9, and cc_alpha_decode_best gives the string back
      under the old and the new table mapping. */
  lemma {:induction false} BestRoundTrip(data: seq<byte>, outs: seq<byte>, useOldTableMapping: bool)
    requires |data| < 0x1_0000
    ensures EncodeBest(data).Some?
    ensures data != [] ==> EncodeBest(data).value != [] && EncodeBest(data).value[0] as int / 16 != 9
    ensures DecodeBest(EncodeBest(data).value, outs, useOldTableMapping) == DecodeResult(0, data)
  {
    if data != [] {
      TrySlotsRoundTrip(0, data, outs, useOldTableMapping);
    }
  }

  /** Slot 9 is not chosen with a short result either, however long data is. */
  lemma Slot9NotShort(data: seq<byte>)
    requires data != [] && TrySlot(9, data).Some?
    ensures |TrySlot(9, data).value| > 0x2000
  {
    hide Encode, Decode, EncodeChars, DecodeChars, Shorten, LenDiff;
    SlotTables(9);
    LastTables();
    if |data| < 0x1_0000 {
      Slot9NeverChosen(data);
      assert false;
    } else {
      var enc := EncodeChars(Base224Bin, data);
      var r := Shorten(Base224Bin, data, enc, |enc|, |enc|);
      if r != |enc| {
        Slot9NeverDecodes(data, r);
        assert false;
      } else {
        Slot9EncodingLength(data);
        assert enc[..r] == enc;
      }
    }
  }

  lemma {:induction false} TrySlotsShort(slot: nat, data: seq<byte>, outs: seq<byte>, useOldTableMapping: bool)
    requires slot <= TABLES && data != [] && |data| < 0x8000_0000
    requires TrySlots(slot, data).Some? && |TrySlots(slot, data).value| <= 0x2000
    ensures DecodeBest(TrySlots(slot, data).value, outs, useOldTableMapping) == DecodeResult(0, data)
    decreases TABLES - slot
  {
    hide TrySlot, DecodeBest;
    if TrySlot(slot, data).Some? {
      if slot == 9 {
        Slot9NotShort(data);
        assert false;
      } else {
        SlotRoundTrip(slot, data, outs, useOldTableMapping);
      }
    } else {
      TrySlotsShort(slot + 1, data, outs, useOldTableMapping);
    }
  }

  lemma TrySlotLength(slot: nat, data: seq<byte>)
    requires slot < TABLES && data != [] && TrySlot(slot, data).Some?
    ensures |TrySlot(slot, data).value| <= |data| + 7
  {
    hide Encode, EncodeChars, DecodeChars, Shorten, LenDiff, BestEncodeTable, BestDecodeTable;
    SlotTables(slot);
    EncodedLength(BestEncodeTable(slot), data);
  }

  lemma EncodedLength(bin: seq<byte>, data: seq<byte>)
    requires CanEncode(bin) && UsesSymbols(bin, data) && data != []
    ensures |EncodeChars(bin, data)| <= |data| + 6
  {
    hide Encode;
    if TableMod(bin) != 256 {
      IndexesAreSymbols(bin, data);
      LengthAtMost(TableMod(bin), Indexes(bin, data));
    }
  }

  lemma {:induction false} TrySlotsLength(slot: nat, data: seq<byte>)
    requires slot <= TABLES && data != [] && TrySlots(slot, data).Some?
    ensures |TrySlots(slot, data).value| <= |data| + 7
    decreases TABLES - slot
  {
    hide TrySlot;
    if TrySlot(slot, data).Some? {
      TrySlotLength(slot, data);
    } else {
      TrySlotsLength(slot + 1, data);
    }
  }

  /** The selector byte, and at most six bytes more than the data. */
  lemma BestLength(data: seq<byte>)
    requires EncodeBest(data).Some?
    ensures |EncodeBest(data).value| <= |data| + 7
  {
    if data != [] {
      TrySlotsLength(0, data);
    }
  }

  /** Whatever is encoded in at most 8192 bytes is decoded again. */
  lemma ShortEncodingDecodes(data: seq<byte>, outs: seq<byte>, useOldTableMapping: bool)
    requires |data| < 0x8000_0000 && EncodeBest(data).Some? && |EncodeBest(data).value| <= 0x2000
    ensures DecodeBest(EncodeBest(data).value, outs, useOldTableMapping) == DecodeResult(0, data)
  {
    if data != [] {
      TrySlotsShort(0, data, outs, useOldTableMapping);
    }
  }

  // ---- The methods ----

  /** Encodes data, then truncates the result as far as it still decodes. */
  method CcAlphaEncodeShortest(bin: seq<byte>, sym: seq<byte>, data: seq<byte>, outv0: seq<byte>, bclear: bool)
    returns (rc: int, outv: seq<byte>)
    requires CanEncode(bin) && CanDecode(sym)
    ensures rc == 0 <==> UsesSymbols(bin, data)
    ensures rc == 0 ==> outv == (if bclear then [] else outv0) + EncodeShortest(bin, sym, data)
  {
    hide EncodeChars, DecodeChars, LenDiff;
    var startSize := |if bclear then [] else outv0|;
    rc, outv := CcAlphaEncode(bin, data, outv0, bclear);
    if rc != 0 {
      return;
    }
    ghost var enc := EncodeChars(bin, data);
    assert outv[startSize..] == enc;
    var shortest := |outv| - startSize;
    var testSize := shortest;
    while testSize > 0
      invariant 0 <= testSize <= |enc| && 0 <= shortest <= |enc|
      invariant Shorten(sym, data, enc, |enc|, |enc|) == Shorten(sym, data, enc, testSize, shortest)
    {
      var lenDiff := LenDiff(sym, testSize, |data|);
      if 0 <= lenDiff <= 15 {
        var decoded := CcAlphaDecode(sym, outv[startSize..][..testSize], |data|, [], true);
        assert decoded == DecodeChars(sym, enc[..testSize], |data|);
        if |decoded| != |data| || decoded != data {
          testSize := 0;
          break;
        }
        shortest := testSize;
      }
      testSize := testSize - 1;
    }
    assert shortest == Shorten(sym, data, enc, |enc|, |enc|);
    outv := outv[..startSize + shortest];
    assert outv == (if bclear then [] else outv0) + enc[..shortest];
  }

  /** Encodes data with the first table that works. */
  method CcAlphaEncodeBest(data: seq<byte>) returns (rc: int, outv: seq<byte>)
    ensures EncodeBest(data).Some? ==> rc == 0 && outv == EncodeBest(data).value
    ensures EncodeBest(data).None? ==> rc == -1 && outv == []
    ensures |data| < 0x1_0000 ==> rc == 0
  {
    hide UsesSymbols, EncodeShortest, LenDiff, BestEncodeTable, BestDecodeTable, TrySlot, DecodeBest;
    if |data| < 0x1_0000 {
      BestRoundTrip(data, [], false);
    }
    if |data| == 0 {
      return 0, [];
    }
    for i := 0 to TABLES
      invariant TrySlots(0, data) == TrySlots(i, data)
    {
      SlotTables(i);
      outv := [i * 16];
      rc, outv := CcAlphaEncodeShortest(BestEncodeTable(i), BestDecodeTable(i), data, outv, false);
      TrySlotIs(i, data);
      if rc == 0 {
        var lenDiff := LenDiff(BestDecodeTable(i), |outv| - 1, |data|);
        if !(lenDiff < 0 || lenDiff > 15) {
          outv := [outv[0] + lenDiff] + outv[1..];
          return 0, outv;
        }
      }
    }
    return -1, [];
  }

  lemma TrySlotIs(slot: nat, data: seq<byte>)
    requires slot < TABLES
    ensures CanEncode(BestEncodeTable(slot)) && CanDecode(BestDecodeTable(slot))
    ensures !UsesSymbols(BestEncodeTable(slot), data) ==> TrySlot(slot, data) == None
    ensures UsesSymbols(BestEncodeTable(slot), data) ==>
              var bs := EncodeShortest(BestEncodeTable(slot), BestDecodeTable(slot), data);
              var diff := LenDiff(BestDecodeTable(slot), |bs|, |data|);
              TrySlot(slot, data) == if FitsNibble(diff) then Some([slot * 16 + diff] + bs) else None
  {
    hide UsesSymbols, EncodeShortest, LenDiff, BestEncodeTable, BestDecodeTable;
    SlotTables(slot);
  }

  /** Decodes what CcAlphaEncodeBest made; -1 for an unknown selector. */
  method CcAlphaDecodeBest(data: seq<byte>, outs0: seq<byte>, useOldTableMapping: bool)
    returns (rc: int, outs: seq<byte>)
    ensures DecodeResult(rc, outs) == DecodeBest(data, outs0, useOldTableMapping)
  {
    hide ExpectedStrlen, BestDecodeTable, DecodeChars;
    outs := outs0;
    if |data| == 0 {
      return 0, [];
    }
    var table := data[0] as int / 16;
    if table == 9 && useOldTableMapping {
      table := 10;
    }
    if table > TABLES - 1 {
      return -1, outs;
    }
    SlotTables(table);
    var lenDiff := data[0] as int % 16 - LENGTH_DIFF_OFFSET;
    var expectedLen := ExpectedStrlen(BestDecodeTable(table), |data| - 1);
    var nchars := expectedLen - lenDiff;
    if nchars < 0 {
      return 0, outs;
    }
    outs := CcAlphaDecode(BestDecodeTable(table), data[1..], nchars, outs, true);
    rc := 0;
  }

  // ---- What is decoded ----

  /** The slot whose table decodes what starts with byte b. */
  function SlotOf(b: byte, useOldTableMapping: bool): nat {
    if useOldTableMapping && 144 <= b < 160 then 10 else b as int / 16
  }

  /** Any bytes: first bytes from 176 on are refused; the others say how many chars there
      are, but there are none without a further byte, and slot 10 gives no more chars than
      there are bytes. */
  lemma DecodedLength(bs: seq<byte>, outs: seq<byte>, useOldTableMapping: bool)
    requires bs != []
    ensures var d, slot := DecodeBest(bs, outs, useOldTableMapping), SlotOf(bs[0], useOldTableMapping);
      if bs[0] >= 176 then d == DecodeResult(-1, outs)
      else
        && slot < TABLES && SizeRatio(slot) > 0
        && var n := U32((|bs| - 1) * 0x1_0000) / SizeRatio(slot) + 9 - bs[0] as int % 16;
           if n < 0 then d == DecodeResult(0, outs)
           else if slot < 10 then d.rc == 0 && |d.outs| == if |bs| == 1 then 0 else n
           else d == DecodeResult(0, if n < |bs| then bs[1..n + 1] else bs[1..])
  {
    hide BestDecodeTable, ExpectedStrlen, Decode, U32;
    if bs[0] < 176 {
      var slot := SlotOf(bs[0], useOldTableMapping);
      SlotTables(slot);
      var resize := SlotRatio(slot);
      var n := ExpectedStrlen(BestDecodeTable(slot), |bs| - 1) + 9 - bs[0] as int % 16;
      if slot == 10 && 0 <= n < |bs| {
        assert bs[1..][..n] == bs[1..n + 1];
      }
    }
  }
}
