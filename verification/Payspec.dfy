/** Payspec strings of source/cclib/src/payspec.cpp: printing a destination and
    an optional amount with a checksum, and parsing them back. */
module Payspec {
  import opened Arith
  import opened Bytes
  import opened Encodings
  import opened AlphaCodec
  import opened BaseN
  import Limbs
  import opened Options

  const Base57Sym: seq<byte> :=
    [57, 186, 167] + Span(65, 8) + Span(74, 5) + Span(80, 11) + Span(97, 11) + Span(109, 14) + Span(50, 8)
  const Base57Bin: seq<byte> :=
    [57, 50, 122] + Span(49, 8) + Fill(7) + Span(0, 8) + [255] + Span(8, 5) + [255] + Span(13, 11) + Fill(6)
    + Span(24, 11)
    + [255] + Span(35, 14)

  lemma Base57Chars()
    ensures IsBinTable(Base57Bin) && IsSymTable(Base57Sym) && CharsHaveIndexes(Base57Bin, Base57Sym)
  {}
  lemma Base57Indexes()
    ensures IsBinTable(Base57Bin) && IsSymTable(Base57Sym) && IndexesHaveChars(Base57Bin, Base57Sym)
  {}

  /** The alphabet's tables undo each other, and it has neither separator. */
  lemma Base57Tables()
    ensures AreInverse(Base57Bin, Base57Sym) && CanDecode(Base57Sym) && TableMod(Base57Sym) == 57
    ensures DestringifyChar(Base57Bin, SEPARATOR) == 255 && DestringifyChar(Base57Bin, SEPARATOR_ALT) == 255
  {
    hide CharsHaveIndexes, IndexesHaveChars;
    Base57Chars();
    Base57Indexes();
  }

  const TX_AMOUNT_BITS: nat := 40
  const DEST_CHARS: nat := 44
  const CHECKSUM_CHARS: nat := 5

  /** "CC" and the type '0'. */
  const PREFIX: seq<byte> := [67, 67, 48]

  /** A checksum function with 64-bit results. */
  type Checksum = seq<byte> -> nat

  datatype Spec = Spec(dest: int, amount: Option<int>)

  datatype SpecResult =
    | Ok(spec: Spec)
    | InvalidLength
    | UnrecognizedType
    | InvalidField
    | AmountOverflow
    | UnexpectedChar
    | ChecksumMismatch

  /** The largest field element has 254 bits. */
  predicate IsFieldMax(fieldMax: nat) { Pow2(253) <= fieldMax < Pow2(254) }

  predicate IsSeparator(s: seq<byte>) { s != [] && (s[0] == SEPARATOR || s[0] == SEPARATOR_ALT) }

  // ---- Printing ----

  ghost function AmountField(amount: Option<int>): seq<byte>
    requires amount.Some? ==> amount.value >= 0
  {
    Base57Tables();
    match amount
    case None => []
    case Some(a) => Printed(Base57Sym, 0, true, -1, a)
  }

  /** Everything that the checksum covers. */
  ghost function Covered(fieldMax: nat, spec: Spec): seq<byte>
    requires spec.dest >= 0 && (spec.amount.Some? ==> spec.amount.value >= 0)
  {
    Base57Tables();
    PREFIX + Printed(Base57Sym, fieldMax, false, 0, spec.dest) + AmountField(spec.amount) + [SEPARATOR, SEPARATOR]
  }

  ghost function ChecksumChars(siphash: Checksum, covered: seq<byte>): seq<byte> {
    Base57Tables();
    Printed(Base57Sym, 0, false, CHECKSUM_CHARS, U64(siphash(covered)))
  }

  ghost function PrintedSpec(fieldMax: nat, siphash: Checksum, spec: Spec): seq<byte>
    requires spec.dest >= 0 && (spec.amount.Some? ==> spec.amount.value >= 0)
  {
    Covered(fieldMax, spec) + ChecksumChars(siphash, Covered(fieldMax, spec))
  }

  method PayspecFromJson(fieldMax: nat, siphash: Checksum, spec: Spec) returns (outs: seq<byte>)
    requires 0 < fieldMax < BIG && 0 <= spec.dest <= fieldMax
    requires spec.amount.Some? ==> 0 <= spec.amount.value < Pow2(TX_AMOUNT_BITS)
    ensures outs == PrintedSpec(fieldMax, siphash, spec)
  {
    hide Printed, Pow2;
    Base57Tables();
    SmallIsBig();
    outs := PREFIX;
    outs := CcStringify(Base57Sym, fieldMax, false, 0, spec.dest, outs);
    if spec.amount.Some? {
      outs := CcStringify(Base57Sym, 0, true, -1, spec.amount.value, outs);
    }
    outs := outs + [SEPARATOR];
    outs := outs + [SEPARATOR];
    assert outs == Covered(fieldMax, spec);
    var hash := U64(siphash(outs));
    outs := CcStringify(Base57Sym, 0, false, CHECKSUM_CHARS, hash, outs);
  }

  lemma SmallIsBig()
    ensures Pow2(TX_AMOUNT_BITS) < BIG && 0x1_0000_0000_0000_0000 < BIG && Pow2(254) < BIG
  {
    hide Pow2;
    BigIsPow2();
    Limbs.WordIsPow2();
    Pow2Mono(40, 255);
    Pow2Mono(64, 255);
    Pow2Mono(254, 255);
    Pow2Double(255);
  }

  // ---- Parsing ----

  /** What follows the destination: an optional amount and the checksum. */
  ghost function ParsedRest(siphash: Checksum, payspec: seq<byte>, dest: int, s: seq<byte>): SpecResult
    requires |s| <= |payspec|
  {
    if s == [] || IsSeparator(s) then ParsedEnd(siphash, payspec, Spec(dest, None), s)
    else
      Base57Tables();
      match Destringified(Base57Bin, true, 0, s)
      case InputEnd => InvalidField
      case InvalidChar => InvalidField
      case Parsed(amount, rest) =>
        if amount / Pow2(TX_AMOUNT_BITS) != 0 then AmountOverflow
        else ParsedEnd(siphash, payspec, Spec(dest, Some(amount)), rest)
  }

  ghost function ParsedEnd(siphash: Checksum, payspec: seq<byte>, spec: Spec, s: seq<byte>): SpecResult
    requires |s| <= |payspec|
  {
    if !IsSeparator(s) then UnexpectedChar
    else if |s| - 1 < 6 || !IsSeparator(s[1..]) then UnexpectedChar
    else
      var covered := payspec[..|payspec| - (|s| - 1) + 1];
      if ChecksumChars(siphash, covered) != s[2..7] then ChecksumMismatch else Ok(spec)
  }

  ghost function ParsedSpec(siphash: Checksum, payspec: seq<byte>): SpecResult {
    if |payspec| < 3 then InvalidLength
    else if payspec[..2] != PREFIX[..2] || payspec[2] != PREFIX[2] then UnrecognizedType
    else
      Base57Tables();
      match Destringified(Base57Bin, false, DEST_CHARS, payspec[3..])
      case InputEnd => InvalidField
      case InvalidChar => InvalidField
      case Parsed(dest, rest) => ParsedRest(siphash, payspec, dest, rest)
  }

  method PayspecToJson(siphash: Checksum, payspec: seq<byte>) returns (r: SpecResult)
    ensures r == ParsedSpec(siphash, payspec)
  {
    hide Printed, Pow2, Destringified;
    if |payspec| < 3 {
      return InvalidLength;
    }
    var typ := payspec[2];
    if payspec[..2] != PREFIX[..2] || typ != PREFIX[2] {
      return UnrecognizedType;
    }
    Base57Tables();
    var destField := CcDestringify(Base57Bin, false, DEST_CHARS, payspec[3..]);
    if !destField.Parsed? {
      return InvalidField;
    }
    var dest, instring := destField.val, destField.rest;
    var amount := None;
    if instring != [] && instring[0] != SEPARATOR && instring[0] != SEPARATOR_ALT {
      var amountField := CcDestringify(Base57Bin, true, 0, instring);
      if !amountField.Parsed? {
        return InvalidField;
      }
      amount, instring := Some(amountField.val), amountField.rest;
      if amount.value / Pow2(TX_AMOUNT_BITS) != 0 {
        return AmountOverflow;
      }
    }
    r := FinishParse(siphash, payspec, Spec(dest, amount), instring);
  }

  method FinishParse(siphash: Checksum, payspec: seq<byte>, spec: Spec, instring0: seq<byte>) returns (r: SpecResult)
    requires |instring0| <= |payspec|
    ensures r == ParsedEnd(siphash, payspec, spec, instring0)
  {
    hide Printed, Pow2, AreInverse, TableMod, DestringifyChar, StringifyByte, Span, Fill;
    var instring := instring0;
    if instring == [] || (instring[0] != SEPARATOR && instring[0] != SEPARATOR_ALT) {
      return UnexpectedChar;
    }
    instring := instring[1..];
    if |instring| < 6 || (instring[0] != SEPARATOR && instring[0] != SEPARATOR_ALT) {
      return UnexpectedChar;
    }
    Base57Tables();
    SmallIsBig();
    var hash := U64(siphash(payspec[..|payspec| - |instring| + 1]));
    var outs := CcStringify(Base57Sym, 0, false, CHECKSUM_CHARS, hash, []);
    assert instring[1..6] == instring0[2..7];
    if outs != instring[1..6] {
      return ChecksumMismatch;
    }
    return Ok(spec);
  }

  // ---- Round trip ----

  lemma Products(a: int, b: int, c: int, d: int)
    requires 0 <= a <= b && 0 <= c <= d
    ensures a * c <= b * d
  {
    MulMono(a, b, c);
    MulMono(c, d, b);
  }

  /** 57^6 < 2^35 and 57^11 > 2^64. */
  lemma PowersOf57()
    ensures 0 <= Pow(57, 6) <= Pow2(35) && Pow2(64) <= Pow(57, 11)
  {
    hide Pow, Pow2;
    PowOne(57);
    PowStep(57, 2);
    PowStep(57, 3);
    PowAdd(57, 3, 3);
    PowAdd(57, 6, 3);
    PowAdd(57, 9, 2);
    Limbs.WordIsPow2();
    Pow2Literals();
    Pow2Add(5, 5);
    Pow2Add(10, 10);
    Pow2Add(20, 10);
    Pow2Add(30, 5);
  }

  /** 57^43 has at most 253 bits, and 57^44 more than 256. */
  lemma FieldWidth()
    ensures Pow(57, 43) <= Pow2(253) && Pow2(256) <= Pow(57, 44)
  {
    hide Pow, Pow2;
    PowersOf57();
    PowAdd(57, 6, 6);
    PowAdd(57, 12, 12);
    PowAdd(57, 24, 12);
    PowAdd(57, 36, 6);
    Pow2Add(35, 35);
    Pow2Add(70, 70);
    Pow2Add(140, 70);
    Pow2Add(210, 35);
    Products(Pow(57, 6), Pow2(35), Pow(57, 6), Pow2(35));
    Products(Pow(57, 12), Pow2(70), Pow(57, 12), Pow2(70));
    Products(Pow(57, 24), Pow2(140), Pow(57, 12), Pow2(70));
    Products(Pow(57, 36), Pow2(210), Pow(57, 6), Pow2(35));
    PowStep(57, 43);
    LastDigit(Pow(57, 42));
    PowAdd(57, 11, 11);
    PowAdd(57, 22, 22);
    Pow2Add(64, 64);
    Pow2Add(128, 128);
    Products(Pow2(64), Pow(57, 11), Pow2(64), Pow(57, 11));
    Products(Pow2(128), Pow(57, 22), Pow2(128), Pow(57, 22));
  }

  /** A destination takes 44 chars of base 57. */
  lemma DestWidth(fieldMax: nat)
    requires IsFieldMax(fieldMax)
    ensures Pow(57, 43) <= fieldMax < Pow(57, 44)
  {
    hide Pow, Pow2;
    FieldWidth();
    Pow2Mono(254, 256);
  }

  lemma LastDigit(x: int)
    requires 0 <= x <= Pow2(245)
    ensures 57 * x <= Pow2(253)
  {
    assert Pow2(8) == 256;
    Pow2Add(8, 245);
  }

  lemma ChecksumWidth()
    ensures Pow(57, 4) <= BIG - 1
  {
    hide Pow2;
    assert Pow(57, 4) < 0x100_0000 by { assert Pow(57, 2) == 3249; }
    SmallIsBig();
  }

  lemma PrintedWidth(maxval: nat, nchars: nat, val: nat, k: nat)
    requires Limit(maxval) >= 0 && Pow(57, k) <= Limit(maxval)
    requires if nchars == 0 then Limit(maxval) < Pow(57, k + 1) else nchars == k + 1
    ensures CanDecode(Base57Sym) && |Printed(Base57Sym, maxval, false, nchars, val)| == k + 1
  {
    hide Pow, Pow2, Digits, AreInverse, Limit;
    Base57Tables();
    DivideByOne(val);
    DivideByOne(Limit(maxval));
    PrintedIs(Base57Sym, maxval, false, nchars, val, 0, Digits(57, Limit(maxval) / Pow2(0), val / Pow2(0), nchars, 0));
    Width(57, Limit(maxval), val, nchars, 0, k);
  }

  /** Printing and parsing: a destination in the field and an amount of at most
      40 bits come back, and the checksum is accepted, whatever the checksum function. */
  lemma {:induction false} SpecRoundTrip(fieldMax: nat, siphash: Checksum, spec: Spec)
    requires IsFieldMax(fieldMax) && 0 <= spec.dest <= fieldMax
    requires spec.amount.Some? ==> 0 <= spec.amount.value < Pow2(TX_AMOUNT_BITS)
    ensures ParsedSpec(siphash, PrintedSpec(fieldMax, siphash, spec)) == Ok(spec)
  {
    hide Printed, Pow, Pow2, AreInverse, ParsedRest, Destringified, Covered, ChecksumChars, AmountField;
    Base57Tables();
    SmallIsBig();
    var dest := Printed(Base57Sym, fieldMax, false, 0, spec.dest);
    var covered := Covered(fieldMax, spec);
    var sum := ChecksumChars(siphash, covered);
    var s := PrintedSpec(fieldMax, siphash, spec);
    CoveredIs(fieldMax, spec);
    var rest := AmountField(spec.amount) + [SEPARATOR, SEPARATOR] + sum;
    assert s == PREFIX + (dest + rest);
    assert s[..2] == PREFIX[..2] && s[2] == PREFIX[2] && s[3..] == dest + rest;
    DestWidth(fieldMax);
    PrintedWidth(fieldMax, 0, spec.dest, 43);
    PrintedParses(Base57Bin, Base57Sym, fieldMax, false, 0, spec.dest, rest);
    RestRoundTrip(siphash, s, covered, spec, rest);
  }

  lemma CoveredIs(fieldMax: nat, spec: Spec)
    requires spec.dest >= 0 && (spec.amount.Some? ==> spec.amount.value >= 0)
    ensures CanDecode(Base57Sym)
    ensures Covered(fieldMax, spec)
         == PREFIX + Printed(Base57Sym, fieldMax, false, 0, spec.dest) + AmountField(spec.amount)
            + [SEPARATOR, SEPARATOR]
  {
    hide Printed;
    Base57Tables();
  }

  lemma RestRoundTrip(siphash: Checksum, s: seq<byte>, covered: seq<byte>, spec: Spec, rest: seq<byte>)
    requires spec.amount.Some? ==> 0 <= spec.amount.value < Pow2(TX_AMOUNT_BITS)
    requires rest == AmountField(spec.amount) + [SEPARATOR, SEPARATOR] + ChecksumChars(siphash, covered)
    requires s == covered + ChecksumChars(siphash, covered) && |rest| <= |s|
    ensures ParsedRest(siphash, s, spec.dest, rest) == Ok(spec)
  {
    hide Printed, Pow, Pow2, AreInverse, Destringified, ChecksumChars, ParsedEnd, Base57Bin, Base57Sym;
    Base57Tables();
    var sum := ChecksumChars(siphash, covered);
    var end := [SEPARATOR, SEPARATOR] + sum;
    ChecksumLength(siphash, covered);
    EndRoundTrip(siphash, s, covered, spec, end);
    match spec.amount
    case None =>
      assert rest == end;
    case Some(a) =>
      var out := Printed(Base57Sym, 0, true, -1, a);
      assert rest == out + end;
      SmallIsBig();
      PrintedIsNotEmpty(a);
      PrintedAvoids(Base57Bin, Base57Sym, 0, true, -1, a, SEPARATOR);
      PrintedAvoids(Base57Bin, Base57Sym, 0, true, -1, a, SEPARATOR_ALT);
      assert rest[0] == out[0] && out[0] in out;
      PrintedParsesToSeparator(Base57Bin, Base57Sym, 0, true, -1, a, end);
      FloorIff(a, Pow2(TX_AMOUNT_BITS), 1);
      FloorIff(a, Pow2(TX_AMOUNT_BITS), 0);
  }

  lemma PrintedIsNotEmpty(a: nat)
    ensures CanDecode(Base57Sym) && Printed(Base57Sym, 0, true, -1, a) != []
  {
    Base57Tables();
  }

  lemma ChecksumLength(siphash: Checksum, covered: seq<byte>)
    ensures |ChecksumChars(siphash, covered)| == 5
  {
    hide Printed, Pow;
    Base57Tables();
    ChecksumWidth();
    PrintedWidth(0, CHECKSUM_CHARS, U64(siphash(covered)), 4);
  }

  lemma EndRoundTrip(siphash: Checksum, s: seq<byte>, covered: seq<byte>, spec: Spec, end: seq<byte>)
    requires |ChecksumChars(siphash, covered)| == 5
    requires end == [SEPARATOR, SEPARATOR] + ChecksumChars(siphash, covered)
    requires s == covered + ChecksumChars(siphash, covered) && |end| <= |s|
    ensures ParsedEnd(siphash, s, spec, end) == Ok(spec)
  {
    hide ChecksumChars;
    assert s[..|s| - (|end| - 1) + 1] == covered;
    assert end[2..7] == ChecksumChars(siphash, covered);
  }
}
