/** Encrypted master secret strings of source/cclib/src/payspec.cpp: a salt, the
    cost parameters, and a checksum, printed and parsed back. */
module MasterSecret {
  import opened Arith
  import opened Bytes
  import opened Encodings
  import opened AlphaCodec
  import opened BaseN
  import opened Payspec

  const ITERATIONS_SCALE: nat := 10

  /** "CCMS". */
  const MS_PREFIX: seq<byte> := [67, 67, 77, 83]

  const SALT_CHARS: nat := 44

  /** What the string carries: iterations in units of ten. */
  datatype Params = Params(salt: int, memory: int, units: int)

  /** What is found, and the number of iterations it asks for. */
  datatype ParamsResult =
    | Found(params: Params, iterations: int)
    | TooShort
    | NotScrambled
    | BadField
    | BadChar
    | BadChecksum

  predicate IsParams(m: Params) {
    0 <= m.salt && 0 <= m.memory < 0x1_0000_0000_0000_0000 && 0 <= m.units < 0x1_0000_0000_0000_0000
  }

  /** The iterations, in 64-bit arithmetic. */
  function Iterations(m: Params): int { U64(m.units * ITERATIONS_SCALE) }

  // ---- Printing ----

  ghost function MemoryField(memory: nat): seq<byte> {
    Base57Tables();
    Printed(Base57Sym, 0, true, -1, memory)
  }

  ghost function UnitsField(units: nat): seq<byte> {
    Base57Tables();
    Printed(Base57Sym, 0, false, -1, units)
  }

  ghost function SaltField(salt: nat): seq<byte> {
    Base57Tables();
    Printed(Base57Sym, 0, false, 0, salt)
  }

  ghost function CoveredParams(m: Params): seq<byte>
    requires IsParams(m)
  {
    MS_PREFIX + SaltField(m.salt) + MemoryField(m.memory) + [SEPARATOR] + UnitsField(m.units)
  }

  ghost function PrintedParams(siphash: Checksum, m: Params): seq<byte>
    requires IsParams(m)
  {
    CoveredParams(m) + ChecksumChars(siphash, CoveredParams(m))
  }

  /** Prints the salt, the memory, and the iterations rounded up to units of ten; if that
      wraps, 0 units. */
  method GenerateMasterSecret(siphash: Checksum, salt: nat, memory: nat, iterations0: nat) returns (outs: seq<byte>)
    requires salt < BIG && memory < 0x1_0000_0000 && iterations0 < 0x1_0000_0000_0000_0000
    ensures exists units: nat ::
              && (if iterations0 < 0x1_0000_0000_0000_0000 - 9
                  then units * ITERATIONS_SCALE - ITERATIONS_SCALE < iterations0 <= units * ITERATIONS_SCALE
                  else units == 0)
              && IsParams(Params(salt, memory, units))
              && outs == PrintedParams(siphash, Params(salt, memory, units))
  {
    hide Printed, Pow2;
    Base57Tables();
    SmallIsBig();
    var iterations := U64(iterations0 + (ITERATIONS_SCALE - 1));
    iterations := iterations / ITERATIONS_SCALE;
    ghost var m := Params(salt, memory, iterations);
    outs := MS_PREFIX;
    outs := CcStringify(Base57Sym, 0, false, 0, salt, outs);
    outs := CcStringify(Base57Sym, 0, true, -1, memory, outs);
    outs := outs + [SEPARATOR];
    outs := CcStringify(Base57Sym, 0, false, -1, iterations, outs);
    assert outs == CoveredParams(m);
    var hash := U64(siphash(outs));
    outs := CcStringify(Base57Sym, 0, false, CHECKSUM_CHARS, hash, outs);
    assert outs == PrintedParams(siphash, m);
  }

  // ---- Parsing ----

  ghost function ParsedUnits(siphash: Checksum, msspec: seq<byte>, salt: int, memory: int, s: seq<byte>): ParamsResult
    requires |msspec| >= 5
  {
    if |s| < 6 then BadChar
    else
      Base57Tables();
      match Destringified(Base57Bin, false, |s| - 5, s)
      case InputEnd => BadField
      case InvalidChar => BadField
      case Parsed(units, rest) =>
        if ChecksumChars(siphash, msspec[..|msspec| - 5]) != rest then BadChecksum
        else
          var m := Params(salt, memory, LowWord(units));
          Found(m, Iterations(m))
  }

  /** The lowest 64 bits. */
  function LowWord(x: int): int { U64(x) }

  ghost function ParsedMemory(siphash: Checksum, msspec: seq<byte>, salt: int, s: seq<byte>): ParamsResult
    requires |msspec| >= 5
  {
    Base57Tables();
    match Destringified(Base57Bin, true, 0, s)
    case InputEnd => BadField
    case InvalidChar => BadField
    case Parsed(memory, rest) =>
      if !IsSeparator(rest) then BadChar else ParsedUnits(siphash, msspec, salt, LowWord(memory), rest[1..])
  }

  ghost function ParsedParams(siphash: Checksum, msspec: seq<byte>): ParamsResult {
    if |msspec| < 10 then TooShort
    else if msspec[..4] != MS_PREFIX then NotScrambled
    else
      Base57Tables();
      match Destringified(Base57Bin, false, SALT_CHARS, msspec[4..])
      case InputEnd => BadField
      case InvalidChar => BadField
      case Parsed(salt, rest) => ParsedMemory(siphash, msspec, salt, rest)
  }

  /** The parameters that compute_master_secret passes on: the hash itself is not
      part of this model. */
  method ComputeMasterSecretParams(siphash: Checksum, msspec: seq<byte>) returns (r: ParamsResult)
    requires |msspec| < 0x8000_0000
    ensures r == ParsedParams(siphash, msspec)
  {
    hide Printed, Pow2, Destringified;
    if |msspec| < 10 {
      return TooShort;
    }
    if msspec[..4] != MS_PREFIX {
      return NotScrambled;
    }
    Base57Tables();
    var saltField := CcDestringify(Base57Bin, false, SALT_CHARS, msspec[4..]);
    if !saltField.Parsed? {
      return BadField;
    }
    var memoryField := CcDestringify(Base57Bin, true, 0, saltField.rest);
    if !memoryField.Parsed? {
      return BadField;
    }
    var instring := memoryField.rest;
    if instring == [] || (instring[0] != SEPARATOR && instring[0] != SEPARATOR_ALT) {
      return BadChar;
    }
    r := FinishParams(siphash, msspec, saltField.val, LowWord(memoryField.val), instring[1..]);
  }

  method FinishParams(siphash: Checksum, msspec: seq<byte>, salt: int, memory: int, instring: seq<byte>)
    returns (r: ParamsResult)
    requires 5 <= |msspec| < 0x8000_0000 && |instring| <= |msspec|
    ensures r == ParsedUnits(siphash, msspec, salt, memory, instring)
  {
    hide Printed, Pow2, Destringified, AreInverse, TableMod, DestringifyChar, StringifyByte, Span, Fill;
    if |instring| < 6 {
      return BadChar;
    }
    Base57Tables();
    SmallIsBig();
    var unitsField := CcDestringify(Base57Bin, false, |instring| - 5, instring);
    if !unitsField.Parsed? {
      return BadField;
    }
    var hash := U64(siphash(msspec[..|msspec| - 5]));
    var outs := CcStringify(Base57Sym, 0, false, CHECKSUM_CHARS, hash, []);
    if outs != unitsField.rest {
      return BadChecksum;
    }
    var iterations := LowWord(unitsField.val);
    iterations := U64(iterations * ITERATIONS_SCALE);
    return Found(Params(salt, memory, LowWord(unitsField.val)), iterations);
  }

  // ---- Round trip ----

  /** A 256-bit salt takes 44 chars of base 57. */
  lemma SaltWidth(salt: nat)
    ensures |SaltField(salt)| == SALT_CHARS
  {
    hide Printed, Pow, Pow2;
    Base57Tables();
    FieldWidth();
    BigIsPow2();
    Pow2Mono(253, 255);
    Pow2Double(255);
    PrintedWidth(0, 0, salt, 43);
  }

  /** Every 256-bit salt, memory size and iteration count is parsed back, and the
      checksum is accepted, whatever the checksum function. The iterations are the
      ten for each unit, as long as they fit 64 bits. */
  lemma MasterSecretRoundTrip(siphash: Checksum, m: Params)
    requires IsParams(m) && m.salt < BIG
    ensures ParsedParams(siphash, PrintedParams(siphash, m)) == Found(m, Iterations(m))
    ensures m.units * ITERATIONS_SCALE < 0x1_0000_0000_0000_0000 ==> Iterations(m) == m.units * ITERATIONS_SCALE
  {
    hide Printed, Pow, Pow2, AreInverse, ParsedMemory, Destringified, CoveredParams, ChecksumChars, SaltField,
         MemoryField, UnitsField;
    Base57Tables();
    var covered := CoveredParams(m);
    var sum := ChecksumChars(siphash, covered);
    var s := PrintedParams(siphash, m);
    CoveredParamsAre(m);
    var salt := SaltField(m.salt);
    var rest := MemoryField(m.memory) + ([SEPARATOR] + (UnitsField(m.units) + sum));
    SaltWidth(m.salt);
    assert s == MS_PREFIX + (salt + rest);
    assert s[..4] == MS_PREFIX && s[4..] == salt + rest;
    SaltParses(m.salt, rest);
    MemoryRoundTrip(siphash, s, covered, m, rest);
  }

  lemma CoveredParamsAre(m: Params)
    requires IsParams(m)
    ensures CoveredParams(m)
         == MS_PREFIX + SaltField(m.salt) + MemoryField(m.memory) + [SEPARATOR] + UnitsField(m.units)
  {
  }

  lemma SaltParses(salt: nat, rest: seq<byte>)
    requires salt < BIG
    ensures IsBinTable(Base57Bin)
    ensures Destringified(Base57Bin, false, SALT_CHARS, SaltField(salt) + rest) == Parsed(salt, rest)
  {
    hide Printed, Pow, Pow2, AreInverse, Destringified, Base57Bin, Base57Sym;
    Base57Tables();
    InverseFacts(Base57Bin, Base57Sym);
    SaltWidth(salt);
    PrintedParses(Base57Bin, Base57Sym, 0, false, 0, salt, rest);
  }

  lemma MemoryRoundTrip(siphash: Checksum, s: seq<byte>, covered: seq<byte>, m: Params, rest: seq<byte>)
    requires IsParams(m) && s == covered + ChecksumChars(siphash, covered)
    requires rest == MemoryField(m.memory) + ([SEPARATOR] + (UnitsField(m.units) + ChecksumChars(siphash, covered)))
    ensures |s| >= 5 && ParsedMemory(siphash, s, m.salt, rest) == Found(m, Iterations(m))
  {
    hide Printed, Pow, Pow2, AreInverse, Destringified, ChecksumChars, ParsedUnits, Base57Bin, Base57Sym, UnitsField;
    Base57Tables();
    SmallIsBig();
    var sum := ChecksumChars(siphash, covered);
    ChecksumLength(siphash, covered);
    var end := UnitsField(m.units) + sum;
    UnitsLength(m.units);
    PrintedIsNotEmpty(m.memory);
    PrintedParsesToSeparator(Base57Bin, Base57Sym, 0, true, -1, m.memory, [SEPARATOR] + end);
    assert ([SEPARATOR] + end)[1..] == end;
    UnitsRoundTrip(siphash, s, covered, m, end);
  }

  lemma UnitsLength(units: nat)
    requires units < 0x1_0000_0000_0000_0000
    ensures 1 <= |UnitsField(units)| <= 257
  {
    hide Printed, Pow, Pow2, AreInverse, Destringified;
    Base57Tables();
    SmallIsBig();
    PrintedParses(Base57Bin, Base57Sym, 0, false, -1, units, []);
    UnitsNotEmpty(units);
  }

  lemma UnitsNotEmpty(units: nat)
    ensures CanDecode(Base57Sym) && Printed(Base57Sym, 0, false, -1, units) != []
  {
    hide Pow2, Limbs.Capacity;
    Base57Tables();
    SmallIsBig();
    DivideByOne(units);
    DivideByOne(Limit(0));
    PrintedIs(Base57Sym, 0, false, -1, units, 0, Digits(57, Limit(0) / Pow2(0), units / Pow2(0), -1, 0));
  }

  lemma UnitsRoundTrip(siphash: Checksum, s: seq<byte>, covered: seq<byte>, m: Params, end: seq<byte>)
    requires IsParams(m) && s == covered + ChecksumChars(siphash, covered) && |s| >= 5
    requires |ChecksumChars(siphash, covered)| == 5
    requires end == UnitsField(m.units) + ChecksumChars(siphash, covered)
    ensures ParsedUnits(siphash, s, m.salt, m.memory, end) == Found(m, Iterations(m))
  {
    hide Printed, Pow, Pow2, AreInverse, Destringified, ChecksumChars, Base57Bin, Base57Sym;
    Base57Tables();
    SmallIsBig();
    UnitsLength(m.units);
    PrintedParses(Base57Bin, Base57Sym, 0, false, -1, m.units, ChecksumChars(siphash, covered));
    assert s[..|s| - 5] == covered;
  }
}
