/** cc_stringify and cc_destringify of source/cclib/src/encode.cpp: numbers below
    2^256 as strings over an alphabet, with fixed, full or variable width, and
    with or without a leading char for a bit shift. */
module BaseN {
  import opened Arith
  import opened Bytes
  import opened Encodings
  import opened RangeCoder
  import opened AlphaCodec
  import Limbs
  import opened Options

  /** 2^256: the numbers are four limbs wide. */
  ghost const BIG: int := Limbs.Capacity(4)

  const SEPARATOR: byte := 48
  const SEPARATOR_ALT: byte := 79

  /** What cc_destringify returns: the number and the rest of the input. */
  datatype Parse = Parsed(val: int, rest: seq<byte>) | InputEnd | InvalidChar

  /** Four-limb arithmetic wraps. */
  function Big(x: int): int { Residue(x, Limbs.Capacity(4)) }

  // ---- The bit shift ----

  /** The number of trailing zero bits of val, but at most limit. */
  function Shift(val: nat, limit: nat): (k: nat)
    ensures k <= limit
    decreases limit
  {
    if limit == 0 || val % 2 == 1 then 0 else 1 + Shift(val / 2, limit - 1)
  }

  /** No bit that is set is shifted out. */
  lemma {:induction false} ShiftIsExact(val: nat, limit: nat)
    ensures val == val / Pow2(Shift(val, limit)) * Pow2(Shift(val, limit))
    decreases limit
  {
    hide Pow2;
    Pow2Small();
    if limit != 0 && val % 2 == 0 {
      var k := Shift(val / 2, limit - 1);
      Pow2Double(k);
      ShiftIsExact(val / 2, limit - 1);
      HalveThenDivide(val, k);
      assert val == 2 * (val / 2);
      var q := val / 2 / Pow2(k);
      assert q * (2 * Pow2(k)) == 2 * (q * Pow2(k));
    }
  }

  /** And no zero bit below it stays, unless the limit is reached. */
  lemma {:induction false} ShiftIsMaximal(val: nat, limit: nat)
    requires Shift(val, limit) < limit
    ensures val / Pow2(Shift(val, limit)) % 2 == 1
    decreases limit
  {
    hide Pow2;
    Pow2Small();
    if val % 2 == 0 {
      var k := Shift(val / 2, limit - 1);
      ShiftIsMaximal(val / 2, limit - 1);
      HalveThenDivide(val, k);
    }
  }

  /** Shifts out the trailing zero bits of val, and as many bits of maxval. */
  method ComputeShift(mod: int, maxval: nat, val: nat) returns (shift: nat, m: nat, v: nat)
    requires 2 <= mod
    ensures shift == Shift(val, mod - 1) && m == maxval / Pow2(shift) && v == val / Pow2(shift)
  {
    hide Pow2;
    shift, m, v := 0, maxval, val;
    DivideByOne(maxval);
    DivideByOne(val);
    while true
      invariant shift < mod - 1 && Shift(val, mod - 1) == shift + Shift(v, mod - 1 - shift)
      invariant m == maxval / Pow2(shift) && v == val / Pow2(shift)
      decreases mod - shift
    {
      if v % 2 == 1 {
        break;
      }
      DivideThenHalve(val, shift);
      DivideThenHalve(maxval, shift);
      v := v / 2;
      m := m / 2;
      shift := shift + 1;
      if shift == mod - 1 {
        break;
      }
    }
  }

  lemma DivideByOne(x: nat)
    ensures x / Pow2(0) == x
  {
  }

  // ---- Printing ----

  /** The digits of v, lowest first: as many as mval has; or nchars, if that is
      positive and fewer; or up to the last digit of v that counts, if nchars is negative. */
  function Digits(mod: int, mval: nat, v: nat, nchars: int, nc: nat): (ds: seq<int>)
    requires mod >= 2
    ensures AreSymbols(mod, ds)
    decreases mval
  {
    if mval == 0 then []
    else
      [v % mod] + if nc + 1 == nchars || (nchars < 0 && v / mod == 0) then []
                  else Digits(mod, mval / mod, v / mod, nchars, nc + 1)
  }

  /** 0 stands for the largest number. */
  ghost function Limit(maxval: int): int { if maxval == 0 then BIG - 1 else maxval }

  ghost function Printed(table: seq<byte>, maxval: nat, normalize: bool, nchars: int, val: nat): seq<byte>
    requires CanDecode(table)
  {
    LimitIsNat(maxval);
    var mod := TableMod(table);
    var k := if normalize then Shift(val, mod - 1) else 0;
    (if normalize then [StringifyByte(table, k)] else [])
    + Chars(table, Digits(mod, Limit(maxval) / Pow2(k), val / Pow2(k), nchars, 0))
  }

  lemma LimitIsNat(maxval: nat)
    ensures Limit(maxval) >= 0
  {
  }

  method CcStringify(table: seq<byte>, maxval: nat, normalize: bool, nchars: int, val: nat, outs0: seq<byte>)
    returns (outs: seq<byte>)
    requires CanDecode(table) && maxval < BIG && val < BIG
    ensures outs == outs0 + Printed(table, maxval, normalize, nchars, val)
  {
    hide Pow2, Digits;
    var v, mod := val, TableMod(table);
    var mval := maxval;
    outs := outs0;
    if mval == 0 {
      mval := Limbs.Capacity(4) - 1;
    }
    DivideByOne(v);
    DivideByOne(mval);
    if normalize {
      var shift;
      shift, mval, v := ComputeShift(mod, mval, v);
      outs := outs + [StringifyByte(table, shift)];
    }
    outs := PrintDigits(table, mod, mval, v, nchars, outs);
  }

  method PrintDigits(table: seq<byte>, mod: int, mval0: nat, v0: nat, nchars: int, outs0: seq<byte>)
    returns (outs: seq<byte>)
    requires CanDecode(table) && mod == TableMod(table)
    ensures outs == outs0 + Chars(table, Digits(mod, mval0, v0, nchars, 0))
  {
    hide Chars, Digits, Value, TableMod, StringifyByte;
    var mval: nat, v: nat, nc: nat := mval0, v0, 0;
    outs := outs0;
    NoChars(table);
    while mval != 0
      invariant outs + Chars(table, Digits(mod, mval, v, nchars, nc))
             == outs0 + Chars(table, Digits(mod, mval0, v0, nchars, 0))
      decreases mval
    {
      QuotientShrinks(mval, mval, mod);
      QuotientShrinks(v, v, mod);
      PrintStep(table, mod, mval, v, nchars, nc, outs);
      outs := outs + [StringifyByte(table, v % mod)];
      v := v / mod;
      mval := mval / mod;
      nc := nc + 1;
      if nc == nchars || (nchars < 0 && v == 0) {
        return;
      }
    }
    NoDigits(mod, mval, v, nchars, nc);
  }

  /** One digit more. */
  lemma PrintStep(table: seq<byte>, mod: int, mval: nat, v: nat, nchars: int, nc: nat, outs: seq<byte>)
    requires CanDecode(table) && mod == TableMod(table) && mval != 0 && v / mod >= 0 && mval / mod >= 0
    ensures var c := StringifyByte(table, v % mod);
      outs + Chars(table, Digits(mod, mval, v, nchars, nc))
      == outs + [c] + if nc + 1 == nchars || (nchars < 0 && v / mod == 0) then []
                      else Chars(table, Digits(mod, mval / mod, v / mod, nchars, nc + 1))
  {
    hide Chars, Digits, Value, TableMod, StringifyByte;
    DigitsStep(mod, mval, v, nchars, nc);
    NoChars(table);
    var last := nc + 1 == nchars || (nchars < 0 && v / mod == 0);
    CharsCons(table, v % mod, if last then [] else Digits(mod, mval / mod, v / mod, nchars, nc + 1));
  }

  lemma NoChars(table: seq<byte>)
    requires CanDecode(table)
    ensures Chars(table, []) == []
  {
  }

  lemma CharsCons(table: seq<byte>, c: int, syms: seq<int>)
    requires CanDecode(table) && AreSymbols(TableMod(table), syms) && 0 <= c < TableMod(table)
    ensures Chars(table, [c] + syms) == [StringifyByte(table, c)] + Chars(table, syms)
  {
  }

  // ---- Parsing ----

  /** The number spelled by the chars, lowest digit first, in four limbs. */
  function Spelled(table: seq<byte>, s: seq<byte>): Option<int>
    requires IsBinTable(table)
  {
    if s == [] then Some(0)
    else
      var rest := Spelled(table, s[1..]);
      var c := DestringifyChar(table, s[0]);
      if rest.None? || c == 255 then None else Some(Big(Big(rest.value * TableMod(table)) + c))
  }

  /** Where char c first occurs. */
  function Find(s: seq<byte>, c: byte): (r: Option<nat>)
    ensures r.None? <==> c !in s
    ensures r.Some? ==> r.value < |s| && s[r.value] == c && c !in s[..r.value]
  {
    if s == [] then None
    else if s[0] == c then Some(0)
    else
      var r := Find(s[1..], c);
      assert s == [s[0]] + s[1..];
      if r.None? then None else assert s[..r.value + 1] == [s[0]] + s[1..][..r.value]; Some(r.value + 1)
  }

  /** The 32-bit length of the field before the first separator; all ones, or
      wrapped, if there is none in reach. */
  function FieldLength(s: seq<byte>): (n: nat) {
    var n1 := match Find(s, SEPARATOR) case None => 0xFFFF_FFFF case Some(i) => U32(i);
    match Find(s, SEPARATOR_ALT) case None => n1 case Some(i) => if i < n1 then U32(i) else n1
  }

  function Destringified(table: seq<byte>, normalize: bool, nchars: nat, s: seq<byte>): (r: Parse)
    requires IsBinTable(table)
    ensures r.Parsed? ==> |r.rest| <= |s|
  {
    var norm := if normalize then 1 else 0;
    if normalize && |s| < 1 then InputEnd
    else
      var shift := if normalize then DestringifyChar(table, s[0]) else 0;
      if shift == 255 then InvalidChar
      else
        var field := if nchars == 0 then FieldLength(s) else nchars;
        if nchars == 0 && field >= |s| then InputEnd
        else
          var n := U32(field - norm);
          if |s| < U32(n + norm) then InputEnd
          else
            var sval := s[norm..][..if n < |s| - norm then n else |s| - norm];
            match Spelled(table, sval)
            case None => InvalidChar
            case Some(v) => Parsed(Big(v * Pow2(shift)), s[U32(n + norm)..])
  }

  method CcDestringify(table: seq<byte>, normalize: bool, nchars0: nat, instring: seq<byte>) returns (r: Parse)
    requires IsBinTable(table) && nchars0 < 0x1_0000_0000
    ensures r == Destringified(table, normalize, nchars0, instring)
  {
    hide Spelled, FieldLength, Big, Pow2, U32;
    var norm := if normalize then 1 else 0;
    var shift: nat, nchars := 0, nchars0;
    if normalize {
      if |instring| < 1 {
        return InputEnd;
      }
      shift := DestringifyChar(table, instring[0]);
      if shift == 255 {
        return InvalidChar;
      }
    }
    if nchars == 0 {
      nchars := FieldLength(instring);
      if nchars >= |instring| {
        return InputEnd;
      }
    }
    nchars := U32(nchars - norm);
    if |instring| < U32(nchars + norm) {
      return InputEnd;
    }
    var sval := instring[norm..][..if nchars < |instring| - norm then nchars else |instring| - norm];
    var rest := instring[U32(nchars + norm)..];
    var val := ParseDigits(table, sval);
    if val.None? {
      return InvalidChar;
    }
    return Parsed(Big(val.value * Pow2(shift)), rest);
  }

  /** From the last char to the first. */
  method ParseDigits(table: seq<byte>, s: seq<byte>) returns (r: Option<int>)
    requires IsBinTable(table)
    ensures r == Spelled(table, s)
  {
    hide Big;
    var val, size := 0, |s|;
    assert s[|s|..] == [];
    while size > 0
      invariant 0 <= size <= |s| && Spelled(table, s[size..]) == Some(val)
    {
      assert s[size - 1..][1..] == s[size..];
      var c := DestringifyChar(table, s[size - 1]);
      size := size - 1;
      if c == 255 {
        InvalidSpoils(table, s, size);
        return None;
      }
      val := Big(val * TableMod(table));
      val := Big(val + c);
    }
    assert s[0..] == s;
    return Some(val);
  }

  lemma {:induction false} InvalidSpoils(table: seq<byte>, s: seq<byte>, i: nat)
    requires IsBinTable(table) && i < |s| && DestringifyChar(table, s[i]) == 255
    ensures Spelled(table, s) == None
  {
    hide Big;
    if i > 0 {
      InvalidSpoils(table, s[1..], i - 1);
    }
  }

  // ---- Round trip ----

  /** The number that digits stand for, lowest first. */
  function Value(mod: int, ds: seq<int>): int { if ds == [] then 0 else ds[0] + mod * Value(mod, ds[1..]) }

  /** The digits stand for v; cut to nchars digits, for v modulo mod^nchars. */
  lemma {:induction false} DigitsStandFor(mod: int, mval: nat, v: nat, nchars: int, nc: nat)
    requires mod >= 2 && v <= mval && (nchars > 0 ==> nc < nchars)
    ensures nchars > 0 ==> Pow(mod, nchars - nc) > 0
    ensures Value(mod, Digits(mod, mval, v, nchars, nc)) == if nchars > 0 then v % Pow(mod, nchars - nc) else v
    decreases mval
  {
    hide Pow, Value, Digits;
    if nchars > 0 {
      PowPositive(mod, nchars - nc);
    }
    if mval == 0 {
      NoDigits(mod, mval, v, nchars, nc);
      if nchars > 0 {
        ModSmall(0, Pow(mod, nchars - nc));
      }
    } else {
      QuotientShrinks(v, mval, mod);
      DigitsStep(mod, mval, v, nchars, nc);
      if nc + 1 == nchars {
        PowOne(mod);
      } else if nchars < 0 && v / mod == 0 {
        assert v == v % mod;
      } else {
        DigitsStandFor(mod, mval / mod, v / mod, nchars, nc + 1);
        if nchars > 0 {
          PowStep(mod, nchars - nc);
          LowDigits(v, mod, Pow(mod, nchars - nc - 1));
        } else {
          assert v == v / mod * mod + v % mod;
        }
      }
    }
  }

  lemma NoDigits(mod: int, mval: nat, v: nat, nchars: int, nc: nat)
    requires mod >= 2 && mval == 0
    ensures Digits(mod, mval, v, nchars, nc) == [] && Value(mod, []) == 0
  {
  }

  lemma DigitsStep(mod: int, mval: nat, v: nat, nchars: int, nc: nat)
    requires mod >= 2 && mval != 0
    ensures var rest := Digits(mod, mval / mod, v / mod, nchars, nc + 1);
      var last := nc + 1 == nchars || (nchars < 0 && v / mod == 0);
      && Digits(mod, mval, v, nchars, nc) == [v % mod] + (if last then [] else rest)
      && Value(mod, Digits(mod, mval, v, nchars, nc)) == v % mod + if last then 0 else mod * Value(mod, rest)
  {
    ValueCons(mod, v % mod, []);
    ValueCons(mod, v % mod, Digits(mod, mval / mod, v / mod, nchars, nc + 1));
  }

  lemma ValueCons(mod: int, d: int, ds: seq<int>)
    ensures Value(mod, [d] + ds) == d + mod * Value(mod, ds)
    ensures Value(mod, []) == 0
  {
    assert ([d] + ds)[1..] == ds;
  }

  lemma QuotientShrinks(a: int, b: int, m: int)
    requires 0 <= a <= b && m >= 2
    ensures 0 <= a / m <= b / m && (b > 0 ==> b / m < b)
  {
    QuotientMono(a, b, m);
    FloorIff(a, m, 0);
    if b > 0 {
      FloorIff(b, m, b);
      MulMono(2, m, b);
      assert b * m == m * b;
    }
  }

  lemma LowDigits(v: int, mod: int, p: int)
    requires mod >= 2 && p >= 1
    ensures mod * p > 0 && v % (mod * p) == v % mod + mod * (v / mod % p)
  {
    var h := v / mod;
    var q, r := h / p, h % p;
    assert v == h * mod + v % mod && h == q * p + r;
    assert h * mod == q * (mod * p) + mod * r by {
      assert (q * p + r) * mod == q * p * mod + r * mod;
      assert q * p * mod == q * (mod * p);
    }
    MulMono(r + 1, p, mod);
    assert (r + 1) * mod == mod * r + mod && p * mod == mod * p;
    MulMono(0, r, mod);
    ModIs(v, q, mod * p, v % mod + mod * r);
  }

  /** Chars that stand for a number below 2^256 spell it: nothing wraps. */
  lemma {:induction false} CharsSpell(bin: seq<byte>, sym: seq<byte>, ds: seq<int>)
    requires AreInverse(bin, sym) && CanDecode(sym) && AreSymbols(TableMod(sym), ds) && Value(TableMod(sym), ds) < BIG
    ensures Spelled(bin, Chars(sym, ds)) == Some(Value(TableMod(sym), ds)) && Value(TableMod(sym), ds) >= 0
  {
    hide CharsHaveIndexes, Residue;
    var mod := TableMod(sym);
    if ds != [] {
      var t := ds[1..];
      ValueNotNegative(mod, t);
      var v := Value(mod, t);
      MulMono(1, mod, v);
      CharsSpell(bin, sym, t);
      assert Chars(sym, ds)[1..] == Chars(sym, t);
      assert Chars(sym, ds)[0] == StringifyByte(sym, ds[0]);
      assert v * mod == mod * v;
      ResidueSmall(v * mod, BIG);
      ResidueSmall(v * mod + ds[0], BIG);
    }
  }

  lemma {:induction false} ValueNotNegative(mod: int, ds: seq<int>)
    requires mod >= 2 && AreSymbols(mod, ds)
    ensures Value(mod, ds) >= 0
  {
    if ds != [] {
      ValueNotNegative(mod, ds[1..]);
      MulMono(0, Value(mod, ds[1..]), mod);
    }
  }

  /** At most one digit for each bit. */
  lemma {:induction false} DigitsAtMost(mod: int, mval: nat, v: nat, nchars: int, nc: nat, bits: nat)
    requires mod >= 2 && mval < Pow2(bits)
    ensures |Digits(mod, mval, v, nchars, nc)| <= bits
    decreases mval
  {
    if mval != 0 {
      QuotientShrinks(mval, mval, mod);
      FloorIff(mval, mod, Pow2(bits - 1));
      MulMono(2, mod, Pow2(bits - 1));
      assert mod * Pow2(bits - 1) == Pow2(bits - 1) * mod;
      DigitsAtMost(mod, mval / mod, v / mod, nchars, nc + 1, bits - 1);
    }
  }

  lemma BigIsPow2()
    ensures BIG == Pow2(256)
  {
    hide Pow2;
    Limbs.WordIsPow2();
    Pow2Add(64, 64);
    Pow2Add(128, 64);
    Pow2Add(192, 64);
    CapacityFour();
  }

  lemma CapacityFour()
    ensures Limbs.Capacity(4) == Limbs.WORD * Limbs.WORD * Limbs.WORD * Limbs.WORD
  {
    assert Limbs.Capacity(1) == Limbs.WORD;
    assert Limbs.Capacity(2) == Limbs.WORD * Limbs.WORD;
    assert Limbs.Capacity(3) == Limbs.WORD * Limbs.WORD * Limbs.WORD;
  }

  lemma InverseFacts(bin: seq<byte>, sym: seq<byte>)
    requires AreInverse(bin, sym)
    ensures IsBinTable(bin) && CanDecode(sym) && 2 <= TableMod(bin) == TableMod(sym) <= 255
  {
  }

  lemma PrintedIs(table: seq<byte>, maxval: nat, normalize: bool, nchars: int, val: nat, k: nat, ds: seq<int>)
    requires CanDecode(table) && Limit(maxval) >= 0
    requires k == if normalize then Shift(val, TableMod(table) - 1) else 0
    requires ds == Digits(TableMod(table), Limit(maxval) / Pow2(k), val / Pow2(k), nchars, 0)
    ensures k < TableMod(table)
    ensures Printed(table, maxval, normalize, nchars, val)
         == (if normalize then [StringifyByte(table, k)] else []) + Chars(table, ds)
  {
    hide Digits, Pow2, Shift, Chars, Limit, TableMod;
  }

  /** What is printed: the shift char, if asked for, and the digits of the rest. */
  lemma {:induction false} PrintedDigits(bin: seq<byte>, sym: seq<byte>, maxval: nat, normalize: bool, nchars: int,
                                         val: nat)
    returns (k: nat, ds: seq<int>)
    requires AreInverse(bin, sym) && CanDecode(sym) && maxval < BIG && val <= Limit(maxval)
    requires nchars > 0 ==> val < Pow(TableMod(sym), nchars)
    ensures k < TableMod(sym) && (!normalize ==> k == 0)
    ensures AreSymbols(TableMod(sym), ds) && |ds| <= 256
    ensures 0 <= Value(TableMod(sym), ds) < BIG && Value(TableMod(sym), ds) * Pow2(k) == val
    ensures Printed(sym, maxval, normalize, nchars, val)
         == (if normalize then [StringifyByte(sym, k)] else []) + Chars(sym, ds)
    ensures !normalize ==> ds == Digits(TableMod(sym), Limit(maxval), val, nchars, 0)
  {
    hide Digits, Pow2, Value, Chars, AreInverse, TableMod, Shift, Pow, Printed;
    InverseFacts(bin, sym);
    var mod := TableMod(sym);
    LimitIsNat(maxval);
    k := if normalize then Shift(val, mod - 1) else 0;
    DivideMono(val, Limit(maxval), Pow2(k));
    var m: nat, v: nat := Limit(maxval) / Pow2(k), val / Pow2(k);
    ds := Digits(mod, m, v, nchars, 0);
    DivideByOne(val);
    DivideByOne(Limit(maxval));
    Pow2Small();
    ShiftIsExact(val, mod - 1);
    DigitsStandFor(mod, m, v, nchars, 0);
    if nchars > 0 {
      ModSmall(v, Pow(mod, nchars));
    }
    BigIsPow2();
    DigitsAtMost(mod, m, v, nchars, 0, 256);
    PrintedIs(sym, maxval, normalize, nchars, val, k, ds);
  }

  lemma DivideMono(a: int, b: int, d: int)
    requires 0 <= a <= b && d >= 1
    ensures 0 <= a / d <= b / d <= b && a / d <= a
  {
    FloorIff(b, d, a / d);
    FloorIff(a, d, 0);
    FloorIff(b, d, b + 1);
    FloorIff(a, d, a + 1);
    MulMono(1, d, b + 1);
    MulMono(1, d, a + 1);
    assert d * (b + 1) == (b + 1) * d && d * (a + 1) == (a + 1) * d;
  }

  /** Parsing what was printed gives the number back, and leaves what follows:
      for every alphabet, every limit, in fixed, full and variable width, with
      and without the shift char, given the number of chars to read. */
  lemma PrintedParses(bin: seq<byte>, sym: seq<byte>, maxval: nat, normalize: bool, nchars: int, val: nat,
                      rest: seq<byte>)
    requires AreInverse(bin, sym) && CanDecode(sym) && maxval < BIG && val <= Limit(maxval)
    requires nchars > 0 ==> val < Pow(TableMod(sym), nchars)
    ensures var out := Printed(sym, maxval, normalize, nchars, val);
      && |out| <= 257
      && (out != [] ==> Destringified(bin, normalize, |out|, out + rest) == Parsed(val, rest))
  {
    hide Digits, Pow2, Value, Chars, Spelled, Shift, Pow, Printed, Residue, IndexesHaveChars;
    var k, ds := PrintedDigits(bin, sym, maxval, normalize, nchars, val);
    var out := Printed(sym, maxval, normalize, nchars, val);
    var head := if normalize then [StringifyByte(sym, k)] else [];
    FieldParses(bin, sym, normalize, k, ds, val, head, |out|, out + rest, rest);
  }

  lemma CharOfIndex(bin: seq<byte>, sym: seq<byte>, k: nat)
    requires AreInverse(bin, sym) && k < TableMod(sym)
    ensures DestringifyChar(bin, StringifyByte(sym, k)) == k != 255
  {
  }

  /** The heart of parsing, for a field of the given length. */
  lemma FieldParses(bin: seq<byte>, sym: seq<byte>, normalize: bool, k: nat, ds: seq<int>, val: nat, head: seq<byte>,
                    field: nat, s: seq<byte>, rest: seq<byte>)
    requires AreInverse(bin, sym) && CanDecode(sym) && AreSymbols(TableMod(sym), ds) && |ds| <= 256
    requires k < TableMod(sym) && (!normalize ==> k == 0)
    requires 0 <= Value(TableMod(sym), ds) < BIG && Value(TableMod(sym), ds) * Pow2(k) == val < BIG
    requires head == if normalize then [StringifyByte(sym, k)] else []
    requires field == |head| + |ds| && s == head + Chars(sym, ds) + rest
    ensures field != 0 ==> Destringified(bin, normalize, field, s) == Parsed(val, rest)
    ensures FieldLength(s) == field < |s| && field != 0 ==> Destringified(bin, normalize, 0, s) == Parsed(val, rest)
  {
    hide Pow2, Value, Chars, Spelled, Residue, AreInverse, TableMod, StringifyByte, DestringifyChar, FieldLength, U32;
    InverseFacts(bin, sym);
    var chars := Chars(sym, ds);
    CharOfIndex(bin, sym, k);
    CharsSpell(bin, sym, ds);
    ResidueSmall(val, BIG);
    assert s[|head|..] == chars + rest;
    assert s[|head|..][..|ds|] == chars;
    assert s[field..] == rest;
  }

  /** Chars outside the alphabet do not occur in what is printed. */
  lemma PrintedAvoids(bin: seq<byte>, sym: seq<byte>, maxval: nat, normalize: bool, nchars: int, val: nat, c: byte)
    requires AreInverse(bin, sym) && CanDecode(sym) && DestringifyChar(bin, c) == 255
    ensures c !in Printed(sym, maxval, normalize, nchars, val)
  {
    hide AreInverse, Printed, Digits, Pow2, Chars, Shift, TableMod, DestringifyChar, StringifyByte;
    InverseFacts(bin, sym);
    LimitIsNat(maxval);
    var k := if normalize then Shift(val, TableMod(sym) - 1) else 0;
    var ds := Digits(TableMod(sym), Limit(maxval) / Pow2(k), val / Pow2(k), nchars, 0);
    PrintedIs(sym, maxval, normalize, nchars, val, k, ds);
    CharsAvoid(bin, sym, ds, c);
    CharOfIndex(bin, sym, k);
  }

  lemma CharsAvoid(bin: seq<byte>, sym: seq<byte>, ds: seq<int>, c: byte)
    requires AreInverse(bin, sym) && CanDecode(sym) && AreSymbols(TableMod(sym), ds) && DestringifyChar(bin, c) == 255
    ensures c !in Chars(sym, ds)
  {
    var s := Chars(sym, ds);
    forall i | 0 <= i < |s|
      ensures s[i] != c
    {
      CharOfIndex(bin, sym, ds[i]);
    }
  }

  lemma FindAfter(field: seq<byte>, rest: seq<byte>, c: byte)
    requires c !in field
    ensures rest != [] && rest[0] == c ==> Find(field + rest, c) == Some(|field|)
    ensures rest != [] && rest[0] != c && Find(field + rest, c).Some? ==> Find(field + rest, c).value > |field|
  {
    var s := field + rest;
    var r := Find(s, c);
    if rest != [] {
      assert s[|field|] == rest[0];
    }
    assert forall i :: 0 <= i < |field| ==> s[i] == field[i] && field[i] != c;
    if r.Some? && r.value > |field| {
      assert s[..r.value][|field|] == rest[0];
    }
  }

  /** The same without the number of chars, when a separator follows. */
  lemma PrintedParsesToSeparator(bin: seq<byte>, sym: seq<byte>, maxval: nat, normalize: bool, nchars: int, val: nat,
                                 rest: seq<byte>)
    requires AreInverse(bin, sym) && CanDecode(sym) && maxval < BIG && val <= Limit(maxval)
    requires nchars > 0 ==> val < Pow(TableMod(sym), nchars)
    requires DestringifyChar(bin, SEPARATOR) == 255 && DestringifyChar(bin, SEPARATOR_ALT) == 255
    requires rest != [] && (rest[0] == SEPARATOR || rest[0] == SEPARATOR_ALT) && |rest| < 0x8000_0000
    ensures var out := Printed(sym, maxval, normalize, nchars, val);
      out != [] ==> Destringified(bin, normalize, 0, out + rest) == Parsed(val, rest)
  {
    hide Digits, Pow2, Value, Chars, Spelled, Shift, Pow, Printed, Residue, AreInverse, Destringified, TableMod, Find,
         StringifyByte, DestringifyChar;
    InverseFacts(bin, sym);
    var k, ds := PrintedDigits(bin, sym, maxval, normalize, nchars, val);
    var out := Printed(sym, maxval, normalize, nchars, val);
    PrintedAvoids(bin, sym, maxval, normalize, nchars, val, SEPARATOR);
    PrintedAvoids(bin, sym, maxval, normalize, nchars, val, SEPARATOR_ALT);
    FindAfter(out, rest, SEPARATOR);
    FindAfter(out, rest, SEPARATOR_ALT);
    FieldEnds(out + rest, |out|);
    var head := if normalize then [StringifyByte(sym, k)] else [];
    FieldParses(bin, sym, normalize, k, ds, val, head, |out|, out + rest, rest);
  }

  lemma FieldEnds(s: seq<byte>, n: nat)
    requires n < 0xFFFF_FFFF
    requires Find(s, SEPARATOR) == Some(n) || Find(s, SEPARATOR_ALT) == Some(n)
    requires Find(s, SEPARATOR).Some? ==> Find(s, SEPARATOR).value >= n
    requires Find(s, SEPARATOR_ALT).Some? ==> Find(s, SEPARATOR_ALT).value >= n
    requires |s| < 0xFFFF_FFFF
    ensures FieldLength(s) == n
  {
    hide Find;
  }

  /** How many digits a full or fixed width prints. */
  lemma {:induction false} Width(mod: int, mval: nat, v: nat, nchars: nat, nc: nat, k: nat)
    requires mod >= 2 && Pow(mod, k) <= mval
    requires if nchars == 0 then mval < Pow(mod, k + 1) else nchars == nc + k + 1
    ensures |Digits(mod, mval, v, nchars, nc)| == k + 1
    decreases k
  {
    hide Pow, Digits, Value;
    PowPositive(mod, k);
    QuotientShrinks(mval, mval, mod);
    QuotientShrinks(v, v, mod);
    DigitsStep(mod, mval, v, nchars, nc);
    PowStep(mod, k + 1);
    FloorIff(mval, mod, Pow(mod, k));
    assert mod * Pow(mod, k) == Pow(mod, k) * mod;
    if k == 0 {
      PowOne(mod);
      PowZero(mod);
      NoDigits(mod, 0, v / mod, nchars, nc + 1);
    } else {
      PowStep(mod, k);
      FloorIff(mval, mod, Pow(mod, k - 1));
      assert mod * Pow(mod, k - 1) == Pow(mod, k - 1) * mod;
      Width(mod, mval / mod, v / mod, nchars, nc + 1, k - 1);
    }
  }

  /** A negative width prints no zero behind the last digit that counts. */
  lemma {:induction false} VariableWidth(mod: int, mval: nat, v: nat, nchars: int, nc: nat)
    requires mod >= 2 && 0 < v <= mval && nchars < 0
    ensures var ds := Digits(mod, mval, v, nchars, nc); ds != [] && ds[|ds| - 1] != 0
    decreases mval
  {
    hide Digits, Value;
    QuotientShrinks(v, mval, mod);
    DigitsStep(mod, mval, v, nchars, nc);
    if v / mod > 0 {
      VariableWidth(mod, mval / mod, v / mod, nchars, nc + 1);
    } else {
      assert v == v % mod;
    }
  }

  /** With a shift char, as many zero bits as there are, below the alphabet's size, are
      left out of the digits. */
  lemma PrintedShift(bin: seq<byte>, sym: seq<byte>, maxval: nat, nchars: int, val: nat)
    returns (k: nat, odd: nat, ds: seq<int>)
    requires AreInverse(bin, sym) && CanDecode(sym) && maxval < BIG && val <= Limit(maxval)
    requires nchars > 0 ==> val < Pow(TableMod(sym), nchars)
    ensures k < TableMod(sym) && val == odd * Pow2(k) && (odd % 2 == 1 || k == TableMod(sym) - 1)
    ensures AreSymbols(TableMod(sym), ds) && Value(TableMod(sym), ds) == odd
    ensures Printed(sym, maxval, true, nchars, val) == [StringifyByte(sym, k)] + Chars(sym, ds)
  {
    hide Digits, Pow2, Value, Chars, AreInverse, TableMod, Shift, Pow, Printed;
    InverseFacts(bin, sym);
    var mod := TableMod(sym);
    LimitIsNat(maxval);
    k := Shift(val, mod - 1);
    DivideMono(val, Limit(maxval), Pow2(k));
    odd := val / Pow2(k);
    ds := Digits(mod, Limit(maxval) / Pow2(k), odd, nchars, 0);
    ShiftIsExact(val, mod - 1);
    if k < mod - 1 {
      ShiftIsMaximal(val, mod - 1);
    }
    DigitsStandFor(mod, Limit(maxval) / Pow2(k), odd, nchars, 0);
    if nchars > 0 {
      ModSmall(odd, Pow(mod, nchars));
    }
    PrintedIs(sym, maxval, true, nchars, val, k, ds);
  }
}
