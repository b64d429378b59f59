/** The symbol tables of source/cclib/src/encodings.c that the best-table
    encoder tries, and the table look-ups of source/cclib/src/encode.cpp.

    A "sym" table is [alphabet size, size ratio (two bytes), symbols...]; a
    "bin" table is [alphabet size, first char, last char, indexes...] with 255
    for a char outside the alphabet. An alphabet size of 0 stands for 256. */
module Encodings {
  import opened Bytes

  /** len consecutive table entries, counting up from first. */
  function Span(first: byte, len: nat): (s: seq<byte>)
    requires first + len <= 256
    ensures |s| == len && forall i :: 0 <= i < len ==> s[i] == first + i
  {
    seq(len, i requires 0 <= i < len => first + i)
  }

  /** len table entries for chars outside the alphabet. */
  function Fill(len: nat): (s: seq<byte>)
    ensures |s| == len && forall i :: 0 <= i < len ==> s[i] == 255
  {
    seq(len, i => 255)
  }

  const Base10Sym: seq<byte> := [10, 106, 77] + Span(48, 10)
  const Base10Bin: seq<byte> := [10, 48, 57] + Span(0, 10)
  const Base16Sym: seq<byte> := [16, 128, 0] + Span(48, 10) + Span(97, 6)
  const Base16Bin: seq<byte> := [16, 48, 102] + Span(0, 10) + Fill(39) + Span(10, 6)
  const Base32Sym: seq<byte> := [32, 160, 0] + Span(65, 26) + Span(50, 6)
  const Base32Bin: seq<byte> := [32, 50, 90] + Span(26, 6) + Fill(9) + Span(0, 26)
  const Base32ZSym: seq<byte> := [32, 160, 0] + Span(97, 11) + Span(109, 9) + Span(119, 4) + [49] + Span(51, 7)
  const Base32ZBin: seq<byte> :=
    [32, 49, 122] + [24, 255] + Span(25, 7) + Fill(39) + Span(0, 11) + [255] + Span(11, 9) + [255] + Span(20, 4)
  const Base34Sym: seq<byte> := [34, 162, 204] + Span(48, 10) + Span(97, 8) + Span(106, 5) + Span(112, 11)
  const Base34Bin: seq<byte> :=
    [34, 48, 122] + Span(0, 10) + Fill(39) + Span(10, 8) + [255] + Span(18, 5) + [255] + Span(23, 11)
  const Base38Sym: seq<byte> := [38, 167, 239] + Span(48, 10) + Span(97, 26) + [45, 95]
  const Base38Bin: seq<byte> := [38, 45, 122] + [36] + Fill(2) + Span(0, 10) + Fill(37) + [37, 255] + Span(10, 26)
  const Base58Sym: seq<byte> :=
    [58, 187, 117] + Span(49, 9) + Span(65, 8) + Span(74, 5) + Span(80, 11) + Span(97, 11) + Span(109, 14)
  const Base58Bin: seq<byte> :=
    [58, 49, 122] + Span(0, 9) + Fill(7) + Span(9, 8) + [255] + Span(17, 5) + [255] + Span(22, 11) + Fill(6)
    + Span(33, 11) + [255] + Span(44, 14)
  const Base66Sym: seq<byte> := [66, 193, 108] + Span(65, 26) + Span(97, 26) + Span(48, 10) + [43, 47, 45, 95]
  const Base66Bin: seq<byte> :=
    [66, 43, 122] + [62, 255, 64, 255, 63] + Span(52, 10) + Fill(7) + Span(0, 26) + Fill(4) + [65, 255] + Span(26, 26)
  const Base95Sym: seq<byte> := [95, 210, 60] + Span(32, 95)
  const Base95Bin: seq<byte> := [95, 32, 126] + Span(0, 95)
  const Base224Sym: seq<byte> := [224, 249, 214] + Span(32, 224)
  const Base224Bin: seq<byte> := [224, 32, 255] + Span(0, 224)
  const Base256Sym: seq<byte> := [0, 0, 0] + Span(0, 256)
  const Base256Bin: seq<byte> := [0, 0, 255] + Span(0, 256)

  predicate IsTable(table: seq<byte>) { |table| >= 3 }

  predicate IsSymTable(table: seq<byte>) { IsTable(table) && |table| == TableMod(table) + 3 }

  predicate IsBinTable(table: seq<byte>) {
    IsTable(table) && table[1] <= table[2] && |table| - 4 == (table[2] as int) - (table[1] as int)
  }

  function TableMod(table: seq<byte>): (mod: int)
    requires IsTable(table)
    ensures 1 <= mod <= 256
  {
    if table[0] == 0 then 256 else table[0]
  }

  /** The length of the string that binlength bytes are expected to decode to;
      32-bit arithmetic, so the product wraps. */
  function ExpectedStrlen(table: seq<byte>, binlength: int): int
    requires IsTable(table) && 0 <= binlength
  {
    var resize := (table[1] as int) * 256 + (table[2] as int);
    U32(binlength * 0x1_0000) / (if resize == 0 then 0x1_0000 else resize)
  }

  function StringifyByte(table: seq<byte>, c: int): byte
    requires IsTable(table) && 0 <= c < TableMod(table) && TableMod(table) + 3 <= |table|
  {
    table[c + 3]
  }

  /** The index of char c, or 255. */
  function DestringifyChar(table: seq<byte>, c: byte): byte
    requires IsBinTable(table)
  {
    if c < table[1] || c > table[2] then 255 else table[c - table[1] + 3]
  }

  /** Every char is outside the alphabet or the symbol of its index. */
  ghost predicate CharsHaveIndexes(bin: seq<byte>, sym: seq<byte>)
    requires IsBinTable(bin) && IsSymTable(sym)
  {
    forall c: byte :: DestringifyChar(bin, c) == 255 ||
      (DestringifyChar(bin, c) < TableMod(sym) && StringifyByte(sym, DestringifyChar(bin, c)) == c)
  }

  /** Every index is the index of its symbol. */
  ghost predicate IndexesHaveChars(bin: seq<byte>, sym: seq<byte>)
    requires IsBinTable(bin) && IsSymTable(sym)
  {
    forall i: int :: 0 <= i < TableMod(sym) ==> DestringifyChar(bin, StringifyByte(sym, i)) == i
  }

  /** The two tables of an alphabet undo each other. */
  ghost predicate AreInverse(bin: seq<byte>, sym: seq<byte>) {
    && IsBinTable(bin) && IsSymTable(sym)
    && 2 <= TableMod(bin) == TableMod(sym) <= 255
    && CharsHaveIndexes(bin, sym) && IndexesHaveChars(bin, sym)
  }

  const TABLES: nat := 11

  function BestEncodeTable(slot: nat): seq<byte>
    requires slot < TABLES
  {
    [Base10Bin, Base16Bin, Base32Bin, Base32ZBin, Base34Bin, Base38Bin, Base58Bin, Base66Bin, Base95Bin,
     Base224Bin, Base256Bin][slot]
  }

  /** Slot 9 holds the bin table where the sym table is meant. */
  function BestDecodeTable(slot: nat): seq<byte>
    requires slot < TABLES
  {
    [Base10Sym, Base16Sym, Base32Sym, Base32ZSym, Base34Sym, Base38Sym, Base58Sym, Base66Sym, Base95Sym,
     Base224Bin, Base256Sym][slot]
  }

  lemma Base10Inverse() ensures AreInverse(Base10Bin, Base10Sym) {}
  lemma Base16Inverse() ensures AreInverse(Base16Bin, Base16Sym) {}
  lemma Base32Inverse() ensures AreInverse(Base32Bin, Base32Sym) {}
  lemma Base32ZChars()
    ensures IsBinTable(Base32ZBin) && IsSymTable(Base32ZSym) && CharsHaveIndexes(Base32ZBin, Base32ZSym)
  {}
  lemma Base32ZIndexes()
    ensures IsBinTable(Base32ZBin) && IsSymTable(Base32ZSym) && IndexesHaveChars(Base32ZBin, Base32ZSym)
  {}
  lemma Base32ZInverse()
    ensures AreInverse(Base32ZBin, Base32ZSym)
  {
    hide CharsHaveIndexes, IndexesHaveChars;
    Base32ZChars();
    Base32ZIndexes();
  }
  lemma Base34Inverse() ensures AreInverse(Base34Bin, Base34Sym) {}
  lemma Base38Inverse() ensures AreInverse(Base38Bin, Base38Sym) {}
  lemma Base58Chars()
    ensures IsBinTable(Base58Bin) && IsSymTable(Base58Sym) && CharsHaveIndexes(Base58Bin, Base58Sym)
  {}
  lemma Base58Indexes()
    ensures IsBinTable(Base58Bin) && IsSymTable(Base58Sym) && IndexesHaveChars(Base58Bin, Base58Sym)
  {}
  lemma Base58Inverse()
    ensures AreInverse(Base58Bin, Base58Sym)
  {
    hide CharsHaveIndexes, IndexesHaveChars;
    Base58Chars();
    Base58Indexes();
  }
  lemma Base66Chars()
    ensures IsBinTable(Base66Bin) && IsSymTable(Base66Sym) && CharsHaveIndexes(Base66Bin, Base66Sym)
  {}
  lemma Base66Indexes()
    ensures IsBinTable(Base66Bin) && IsSymTable(Base66Sym) && IndexesHaveChars(Base66Bin, Base66Sym)
  {}
  lemma Base66Inverse()
    ensures AreInverse(Base66Bin, Base66Sym)
  {
    hide CharsHaveIndexes, IndexesHaveChars;
    Base66Chars();
    Base66Indexes();
  }
  lemma Base95Inverse() ensures AreInverse(Base95Bin, Base95Sym) {}

  /** Every range-coded slot except slot 9 has inverse tables. */
  lemma SlotInverse(slot: nat)
    requires slot < 9
    ensures AreInverse(BestEncodeTable(slot), BestDecodeTable(slot))
  {
    hide AreInverse;
    match slot {
      case 0 => Base10Inverse();
      case 1 => Base16Inverse();
      case 2 => Base32Inverse();
      case 3 => Base32ZInverse();
      case 4 => Base34Inverse();
      case 5 => Base38Inverse();
      case 6 => Base58Inverse();
      case 7 => Base66Inverse();
      case _ => Base95Inverse();
    }
  }

  /** Slot 9 would have inverse tables with the sym table; with the bin table in
      its place, every decoded char comes out 32 too low. */
  lemma Slot9Mismatch(c: byte)
    ensures AreInverse(Base224Bin, Base224Sym)
    ensures DestringifyChar(BestEncodeTable(9), c) != 255 <==> c >= 32
    ensures c >= 32 ==> StringifyByte(BestDecodeTable(9), DestringifyChar(BestEncodeTable(9), c)) == c - 32
  {
  }
}
