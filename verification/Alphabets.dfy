/** The alphabets behind the tables of source/cclib/src/encodings.c: which chars they
    have, as its introduction describes them, and in which order. */
module Alphabets {
  import opened Bytes
  import opened Encodings
  import Payspec

  predicate IsDigit(c: byte) { '0' as int <= c <= '9' as int }
  predicate IsLower(c: byte) { 'a' as int <= c <= 'z' as int }
  predicate IsUpper(c: byte) { 'A' as int <= c <= 'Z' as int }
  predicate IsAlphanumeric(c: byte) { IsDigit(c) || IsLower(c) || IsUpper(c) }

  predicate Is(c: byte, ch: char) { c as int == ch as int }

  /** The chars that a slot of the best-table encoder is for. */
  predicate InAlphabet(slot: nat, c: byte)
    requires slot < 10
  {
    match slot
    case 0 => IsDigit(c)
    case 1 => IsDigit(c) || 'a' as int <= c <= 'f' as int
    case 2 => IsUpper(c) || '2' as int <= c <= '7' as int
    case 3 => (IsLower(c) || IsDigit(c)) && !Is(c, '0') && !Is(c, 'l') && !Is(c, 'v') && !Is(c, '2')
    case 4 => (IsLower(c) || IsDigit(c)) && !Is(c, 'i') && !Is(c, 'o')
    case 5 => IsLower(c) || IsDigit(c) || Is(c, '-') || Is(c, '_')
    case 6 => IsAlphanumeric(c) && !Is(c, '0') && !Is(c, 'I') && !Is(c, 'O') && !Is(c, 'l')
    case 7 => IsAlphanumeric(c) || Is(c, '+') || Is(c, '/') || Is(c, '-') || Is(c, '_')
    case 8 => 32 <= c <= 126
    case 9 => 32 <= c
  }

  /** The alphabets are in the order of their chars' codes, but letters come before digits
      in base 32 and base 66, and the other chars of base 38 and base 66 come last. */
  function Group(slot: nat, c: byte): nat {
    match slot
    case 2 => if IsDigit(c) then 1 else 0
    case 3 => if IsDigit(c) then 1 else 0
    case 5 => if Is(c, '-') || Is(c, '_') then 1 else 0
    case 7 =>
      if IsDigit(c) then 1 else if Is(c, '+') || Is(c, '/') then 2 else if Is(c, '-') || Is(c, '_') then 3 else 0
    case _ => 0
  }

  predicate IsBefore(slot: nat, c: byte, d: byte) {
    Group(slot, c) < Group(slot, d) || (Group(slot, c) == Group(slot, d) && c < d)
  }

  /** The table has an index for just the chars of the alphabet. */
  ghost predicate HasAlphabet(bin: seq<byte>, slot: nat)
    requires slot < 10
  {
    IsBinTable(bin) && forall c: byte :: DestringifyChar(bin, c) != 255 <==> InAlphabet(slot, c)
  }

  /** The indexes follow the order of the alphabet. */
  ghost predicate HasOrder(bin: seq<byte>, slot: nat)
    requires slot < 10
  {
    && IsBinTable(bin)
    && forall c: byte, d: byte :: InAlphabet(slot, c) && InAlphabet(slot, d) ==>
         (DestringifyChar(bin, c) < DestringifyChar(bin, d) <==> IsBefore(slot, c, d))
  }

  /** How many letters before c, of the same case, base 58 leaves out. */
  function Skipped58(c: byte): nat {
    if IsUpper(c) then (if c > 'I' as int then 1 else 0) + (if c > 'O' as int then 1 else 0)
    else if c > 'l' as int then 1 else 0
  }

  lemma Base10Has() ensures HasAlphabet(Base10Bin, 0) {}
  lemma Base10Order() ensures HasOrder(Base10Bin, 0) {}
  lemma Base16Has() ensures HasAlphabet(Base16Bin, 1) {}
  lemma Base16Order() ensures HasOrder(Base16Bin, 1) {}
  lemma Base32Has() ensures HasAlphabet(Base32Bin, 2) {}
  lemma Base32Order() ensures HasOrder(Base32Bin, 2) {}
  lemma Base32ZHas() ensures HasAlphabet(Base32ZBin, 3) {}
  lemma Base32ZOrder() ensures HasOrder(Base32ZBin, 3) {}
  lemma Base34Has() ensures HasAlphabet(Base34Bin, 4) {}
  lemma Base34Order() ensures HasOrder(Base34Bin, 4) {}
  lemma Base38Has() ensures HasAlphabet(Base38Bin, 5) {}
  lemma Base38Order() ensures HasOrder(Base38Bin, 5) {}
  lemma Base58Has() ensures HasAlphabet(Base58Bin, 6) {}
  lemma Base58Order()
    ensures HasOrder(Base58Bin, 6)
  {
    Base58Has();
    forall c: byte, d: byte | InAlphabet(6, c) && InAlphabet(6, d)
      ensures DestringifyChar(Base58Bin, c) < DestringifyChar(Base58Bin, d) <==> IsBefore(6, c, d)
    {
      hide DestringifyChar;
      Base58Index(c);
      Base58Index(d);
    }
  }
  lemma Base58Index(c: byte)
    requires InAlphabet(6, c)
    ensures IsBinTable(Base58Bin)
    ensures DestringifyChar(Base58Bin, c) as int
         == if IsDigit(c) then c - 49 else if IsUpper(c) then c - Skipped58(c) - 56 else c - Skipped58(c) - 64
  {}
  lemma Base66Has() ensures HasAlphabet(Base66Bin, 7) {}
  lemma Base66Order()
    ensures HasOrder(Base66Bin, 7)
  {
    Base66Has();
    forall c: byte, d: byte | InAlphabet(7, c) && InAlphabet(7, d)
      ensures DestringifyChar(Base66Bin, c) < DestringifyChar(Base66Bin, d) <==> IsBefore(7, c, d)
    {
      hide DestringifyChar;
      Base66Index(c);
      Base66Index(d);
    }
  }
  lemma Base66Index(c: byte)
    requires InAlphabet(7, c)
    ensures IsBinTable(Base66Bin)
    ensures DestringifyChar(Base66Bin, c) as int
         == if IsUpper(c) then c - 65 else if IsLower(c) then c - 71 else if IsDigit(c) then c + 4
            else if Is(c, '+') then 62 else if Is(c, '/') then 63 else if Is(c, '-') then 64 else 65
  {}
  lemma Base95Has() ensures HasAlphabet(Base95Bin, 8) {}
  lemma Base95Order() ensures HasOrder(Base95Bin, 8) {}
  lemma Base224Has() ensures HasAlphabet(Base224Bin, 9) {}
  lemma Base224Order() ensures HasOrder(Base224Bin, 9) {}

  /** Every slot's encode table is that of its alphabet. */
  lemma Alphabets(slot: nat)
    requires slot < 10
    ensures HasAlphabet(BestEncodeTable(slot), slot) && HasOrder(BestEncodeTable(slot), slot)
  {
    hide HasAlphabet, HasOrder;
    match slot {
      case 0 => Base10Has(); Base10Order();
      case 1 => Base16Has(); Base16Order();
      case 2 => Base32Has(); Base32Order();
      case 3 => Base32ZHas(); Base32ZOrder();
      case 4 => Base34Has(); Base34Order();
      case 5 => Base38Has(); Base38Order();
      case 6 => Base58Has(); Base58Order();
      case 7 => Base66Has(); Base66Order();
      case 8 => Base95Has(); Base95Order();
      case _ => Base224Has(); Base224Order();
    }
  }

  /** Base 57 has the chars of slot 6 without the digit 1, and the digits come last. */
  lemma Base57Alphabet()
    ensures IsBinTable(Payspec.Base57Bin)
    ensures forall c: byte :: DestringifyChar(Payspec.Base57Bin, c) != 255 <==> InAlphabet(6, c) && !Is(c, '1')
  {
  }

  lemma Base57Order(c: byte, d: byte)
    requires InAlphabet(6, c) && InAlphabet(6, d) && !Is(c, '1') && !Is(d, '1')
    ensures IsBinTable(Payspec.Base57Bin)
    ensures DestringifyChar(Payspec.Base57Bin, c) < DestringifyChar(Payspec.Base57Bin, d)
       <==> (!IsDigit(c) && IsDigit(d)) || (IsDigit(c) == IsDigit(d) && c < d)
  {
    hide DestringifyChar;
    Base57Index(c);
    Base57Index(d);
  }

  lemma Base57Index(c: byte)
    requires InAlphabet(6, c) && !Is(c, '1')
    ensures IsBinTable(Payspec.Base57Bin)
    ensures DestringifyChar(Payspec.Base57Bin, c) as int
         == if IsDigit(c) then c - 1 else if IsUpper(c) then c - Skipped58(c) - 65 else c - Skipped58(c) - 73
  {
  }
}
