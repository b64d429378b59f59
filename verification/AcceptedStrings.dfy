/** Exactly which payspec and master secret strings source/cclib/src/payspec.cpp
    accepts, and what it reads from them, in terms of the numbers that chars spell. */
module AcceptedStrings {
  import opened Arith
  import opened Bytes
  import opened Encodings
  import opened RangeCoder
  import opened AlphaCodec
  import opened BaseN
  import opened Payspec
  import opened MasterSecret
  import Limbs
  import opened Options

  // ---- Numbers of chars ----

  /** All chars are in the alphabet. */
  predicate AreChars(table: seq<byte>, s: seq<byte>)
    requires IsBinTable(table)
  {
    forall i :: 0 <= i < |s| ==> DestringifyChar(table, s[i]) != 255
  }

  /** The number that the chars spell, lowest digit first. */
  function NumberOf(table: seq<byte>, s: seq<byte>): int
    requires IsBinTable(table)
  {
    Value(TableMod(table), Indexes(table, s))
  }

  lemma NumberCons(table: seq<byte>, s: seq<byte>)
    requires IsBinTable(table) && s != []
    ensures NumberOf(table, s) == DestringifyChar(table, s[0]) + TableMod(table) * NumberOf(table, s[1..])
  {
    hide DestringifyChar, TableMod;
    assert Indexes(table, s) == [DestringifyChar(table, s[0])] + Indexes(table, s[1..]);
    ValueCons(TableMod(table), DestringifyChar(table, s[0]), Indexes(table, s[1..]));
  }

  /** Parsing digits gives that number, in 256 bits. */
  lemma {:induction false} SpelledIs(table: seq<byte>, s: seq<byte>)
    requires IsBinTable(table)
    ensures Spelled(table, s) == if AreChars(table, s) then Some(Big(NumberOf(table, s))) else None
  {
    hide DestringifyChar, TableMod, Big, NumberOf;
    if s == [] {
      NothingSpelled(table);
    } else {
      SpelledIs(table, s[1..]);
      NumberCons(table, s);
      AreCharsCons(table, s);
      WrapOnce(NumberOf(table, s[1..]), TableMod(table), DestringifyChar(table, s[0]));
    }
  }

  lemma NothingSpelled(table: seq<byte>)
    requires IsBinTable(table)
    ensures NumberOf(table, []) == 0 == Big(0)
  {
    hide DestringifyChar, TableMod;
    assert Indexes(table, []) == [];
    LargeBig();
    ResidueSmall(0, Limbs.Capacity(4));
  }

  lemma LargeBig()
    ensures BIG > 0x1_0000_0000_0000_0000
  {
    SmallIsBig();
  }

  lemma AreCharsCons(table: seq<byte>, s: seq<byte>)
    requires IsBinTable(table) && s != []
    ensures AreChars(table, s) <==> DestringifyChar(table, s[0]) != 255 && AreChars(table, s[1..])
  {
    hide DestringifyChar;
    assert s == [s[0]] + s[1..];
  }

  /** Wrapping at each step is wrapping once. */
  lemma WrapOnce(x: int, m: int, c: int)
    ensures Big(Big(Big(x) * m) + c) == Big(c + m * x)
  {
    hide Residue, Limbs.Capacity;
    LargeBig();
    var p := Limbs.Capacity(4);
    ResidueMul(x, m, p);
    ResidueAdd(x * m, c, p);
    assert x * m + c == c + m * x;
  }

  // ---- Fields ----

  /** A field of fixed width. */
  lemma FixedField(table: seq<byte>, nchars: nat, s: seq<byte>)
    requires IsBinTable(table) && 0 < nchars < 0x1_0000_0000
    ensures Destringified(table, false, nchars, s)
         == if |s| < nchars then InputEnd
            else if !AreChars(table, s[..nchars]) then InvalidChar
            else Parsed(Big(NumberOf(table, s[..nchars])), s[nchars..])
  {
    hide DestringifyChar, TableMod, Big, NumberOf, Spelled, FieldLength, AreChars;
    if |s| >= nchars {
      SpelledIs(table, s[..nchars]);
      assert s[0..][..nchars] == s[..nchars];
      BigOfBig(NumberOf(table, s[..nchars]));
    }
  }

  lemma BigOfBig(x: int)
    ensures Big(Big(x) * Pow2(0)) == Big(x)
  {
    hide Residue, Limbs.Capacity;
    LargeBig();
    Pow2Small();
    ResidueSmall(Residue(x, Limbs.Capacity(4)), Limbs.Capacity(4));
  }

  predicate IsSeparatorChar(c: byte) { c == SEPARATOR || c == SEPARATOR_ALT }

  /** The first separator is at n. */
  predicate IsFirstSeparator(s: seq<byte>, n: nat) {
    n < |s| && IsSeparatorChar(s[n]) && forall i :: 0 <= i < n ==> !IsSeparatorChar(s[i])
  }

  lemma FieldLengthIs(s: seq<byte>, n: nat)
    requires |s| < 0x8000_0000 && IsFirstSeparator(s, n)
    ensures FieldLength(s) == n
  {
    hide Find;
    var a, b := Find(s, SEPARATOR), Find(s, SEPARATOR_ALT);
    if a.Some? && a.value > n {
      assert s[..a.value][n] == s[n];
    }
    if b.Some? && b.value > n {
      assert s[..b.value][n] == s[n];
    }
    assert s[n] in s;
    FieldEnds(s, n);
  }

  /** A field that ends at the first separator, behind a char for the shift. */
  lemma ShiftedField(table: seq<byte>, s: seq<byte>, n: nat)
    requires IsBinTable(table) && |s| < 0x8000_0000 && 0 < n && IsFirstSeparator(s, n)
    ensures Destringified(table, true, 0, s)
         == if !AreChars(table, s[..n]) then InvalidChar
            else Parsed(Big(NumberOf(table, s[1..n]) * Pow2(DestringifyChar(table, s[0]))), s[n..])
  {
    hide DestringifyChar, TableMod, Big, NumberOf, Spelled, FieldLength, AreChars, Pow2;
    FieldLengthIs(s, n);
    SpelledIs(table, s[1..n]);
    assert s[1..][..n - 1] == s[1..n];
    assert s[..n][1..] == s[1..n];
    AreCharsCons(table, s[..n]);
    if AreChars(table, s[1..n]) && DestringifyChar(table, s[0]) != 255 {
      BigTimes(NumberOf(table, s[1..n]), Pow2(DestringifyChar(table, s[0])));
    }
  }

  lemma BigTimes(x: int, y: int)
    ensures Big(Big(x) * y) == Big(x * y)
  {
    hide Residue, Limbs.Capacity;
    LargeBig();
    ResidueMul(x, y, Limbs.Capacity(4));
  }

  /** Without a separator behind at least one char, there is no such field. */
  lemma NoShiftedField(table: seq<byte>, s: seq<byte>)
    requires IsBinTable(table) && |s| < 0x8000_0000 && Destringified(table, true, 0, s).Parsed?
    requires DestringifyChar(table, SEPARATOR) == 255 && DestringifyChar(table, SEPARATOR_ALT) == 255
    ensures exists n: nat :: 0 < n && IsFirstSeparator(s, n)
  {
    hide DestringifyChar, TableMod, Big, Spelled, Find;
    var n := FieldLength(s);
    assert n < |s|;
    FirstFound(s);
    assert IsFirstSeparator(s, n);
  }

  lemma FirstFound(s: seq<byte>)
    requires FieldLength(s) < |s| < 0x8000_0000
    ensures IsFirstSeparator(s, FieldLength(s))
  {
    hide Find;
    var a, b := Find(s, SEPARATOR), Find(s, SEPARATOR_ALT);
    var n := FieldLength(s);
    forall i | 0 <= i < n ensures !IsSeparatorChar(s[i]) {
      if a.Some? {
        assert s[..a.value][i] == s[i];
      }
      if b.Some? {
        assert s[..b.value][i] == s[i];
      }
    }
  }

  // ---- Checksums ----

  /** Digits of one length are determined by their value. */
  lemma {:induction false} DigitsUnique(mod: int, a: seq<int>, b: seq<int>)
    requires mod >= 2 && AreSymbols(mod, a) && AreSymbols(mod, b) && |a| == |b| && Value(mod, a) == Value(mod, b)
    ensures a == b
  {
    if a != [] {
      var x, y := Value(mod, a[1..]), Value(mod, b[1..]);
      SmallDifference(mod, x - y, b[0] - a[0]);
      DigitsUnique(mod, a[1..], b[1..]);
      assert a == [a[0]] + a[1..] && b == [b[0]] + b[1..];
    }
  }

  lemma SmallDifference(m: int, x: int, d: int)
    requires m >= 2 && m * x == d && -m < d < m
    ensures x == 0 && d == 0
  {
    if x >= 1 {
      MulMono(1, x, m);
    } else if x <= -1 {
      MulMono(x, -1, m);
    }
  }

  /** Chars of the alphabet are the chars of their indexes. */
  lemma CharsOfIndexes(bin: seq<byte>, sym: seq<byte>, s: seq<byte>)
    requires AreInverse(bin, sym) && CanDecode(sym) && AreChars(bin, s)
    ensures AreSymbols(TableMod(sym), Indexes(bin, s)) && Chars(sym, Indexes(bin, s)) == s
  {
    hide IndexesHaveChars, TableMod, DestringifyChar, StringifyByte;
    forall i | 0 <= i < |s|
      ensures Indexes(bin, s)[i] < TableMod(sym) && StringifyByte(sym, Indexes(bin, s)[i]) == s[i]
    {
      assert DestringifyChar(bin, s[i]) != 255;
    }
  }

  lemma IndexesOfChars(bin: seq<byte>, sym: seq<byte>, ds: seq<int>)
    requires AreInverse(bin, sym) && CanDecode(sym) && AreSymbols(TableMod(sym), ds)
    ensures AreChars(bin, Chars(sym, ds)) && Indexes(bin, Chars(sym, ds)) == ds
  {
    hide AreInverse, TableMod, DestringifyChar, StringifyByte;
    InverseFacts(bin, sym);
    forall i | 0 <= i < |ds| ensures DestringifyChar(bin, Chars(sym, ds)[i]) == ds[i] != 255 {
      CharOfIndex(bin, sym, ds[i]);
    }
  }

  lemma Base57Facts()
    ensures IsBinTable(Base57Bin) && TableMod(Base57Bin) == 57 && CanDecode(Base57Sym) && TableMod(Base57Sym) == 57
    ensures AreInverse(Base57Bin, Base57Sym)
    ensures DestringifyChar(Base57Bin, SEPARATOR) == 255 && DestringifyChar(Base57Bin, SEPARATOR_ALT) == 255
  {
    hide AreInverse, TableMod, DestringifyChar;
    Base57Tables();
    InverseFacts(Base57Bin, Base57Sym);
  }

  /** The chars spell the checksum, modulo 57^5. */
  ghost predicate IsChecksum(siphash: Checksum, covered: seq<byte>, c: seq<byte>) {
    Base57Facts();
    && |c| == 5 && AreChars(Base57Bin, c)
    && Pow(57, 5) > 0 && NumberOf(Base57Bin, c) == U64(siphash(covered)) % Pow(57, 5)
  }

  /** And there is no other checksum. */
  lemma ChecksumIff(siphash: Checksum, covered: seq<byte>, c: seq<byte>)
    ensures ChecksumChars(siphash, covered) == c <==> IsChecksum(siphash, covered, c)
  {
    hide AreInverse, TableMod, DestringifyChar, Printed, Pow, Digits, Pow2, AreChars, Chars, Indexes, Limbs.Capacity,
         Base57Bin, Base57Sym;
    Base57Facts();
    SmallIsBig();
    var h := U64(siphash(covered));
    DivideByOne(h);
    DivideByOne(Limit(0));
    var ds := Digits(57, Limit(0), h, 5, 0);
    PrintedIs(Base57Sym, 0, false, 5, h, 0, ds);
    ChecksumLength(siphash, covered);
    DigitsStandFor(57, Limit(0), h, 5, 0);
    IndexesOfChars(Base57Bin, Base57Sym, ds);
    assert ChecksumChars(siphash, covered) == Chars(Base57Sym, ds);
    if IsChecksum(siphash, covered, c) {
      CharsOfIndexes(Base57Bin, Base57Sym, c);
      DigitsUnique(57, Indexes(Base57Bin, c), ds);
    }
  }

  // ---- Payspecs ----

  /** The chars are a number of fixed width, in 256 bits. */
  ghost predicate IsNumber(s: seq<byte>, v: int) {
    Base57Facts();
    AreChars(Base57Bin, s) && v == Big(NumberOf(Base57Bin, s))
  }

  /** The chars are a number whose first char says how far the others are shifted. */
  ghost predicate IsShiftedNumber(s: seq<byte>, v: int) {
    Base57Facts();
    s != [] && AreChars(Base57Bin, s) && v == Big(NumberOf(Base57Bin, s[1..]) * Pow2(DestringifyChar(Base57Bin, s[0])))
  }

  /** Behind the prefix 44 chars spell the destination; then comes, if there is one, an
      amount of at most 40 bits; then two separators, the second just before place k; then
      the checksum of all that is before place k; and then anything. */
  ghost predicate IsPayspec(siphash: Checksum, s: seq<byte>, spec: Spec, k: nat) {
    && 49 <= k && k + 5 <= |s| && s[..3] == [67, 67, 48] && IsNumber(s[3..47], spec.dest)
    && IsSeparatorChar(s[k - 2]) && IsSeparatorChar(s[k - 1])
    && (match spec.amount
        case None => k == 49
        case Some(a) =>
          && k > 49 && IsShiftedNumber(s[47..k - 2], a) && a < 0x100_0000_0000)
    && IsChecksum(siphash, s[..k], s[k..k + 5])
  }

  lemma AvoidsSeparators(s: seq<byte>)
    requires IsBinTable(Base57Bin) && AreChars(Base57Bin, s)
    ensures forall i :: 0 <= i < |s| ==> !IsSeparatorChar(s[i])
  {
    hide AreInverse, TableMod, DestringifyChar, Base57Bin;
    Base57Facts();
    forall i | 0 <= i < |s| ensures !IsSeparatorChar(s[i]) {
      assert DestringifyChar(Base57Bin, s[i]) != 255;
    }
  }

  /** The end of a payspec, from the separators on. */
  lemma EndIff(siphash: Checksum, s: seq<byte>, spec: Spec, e: nat)
    requires e <= |s|
    ensures ParsedEnd(siphash, s, spec, s[e..]) == Ok(spec)
       <==> && e + 7 <= |s| && IsSeparatorChar(s[e]) && IsSeparatorChar(s[e + 1])
            && IsChecksum(siphash, s[..e + 2], s[e + 2..e + 7])
    ensures ParsedEnd(siphash, s, spec, s[e..])
         == if e + 7 <= |s| && IsSeparatorChar(s[e]) && IsSeparatorChar(s[e + 1]) then
              if IsChecksum(siphash, s[..e + 2], s[e + 2..e + 7]) then Ok(spec) else ChecksumMismatch
            else UnexpectedChar
  {
    hide ChecksumChars, IsChecksum;
    var t := s[e..];
    if |t| >= 7 {
      assert t[2..7] == s[e + 2..e + 7] && t[1..][0] == s[e + 1];
      ChecksumIff(siphash, s[..e + 2], s[e + 2..e + 7]);
    }
  }

  /** What IsPayspec says of all that is behind the destination. */
  ghost predicate IsEnd(siphash: Checksum, s: seq<byte>, amount: Option<int>, k: nat) {
    && 49 <= k && k + 5 <= |s| && IsSeparatorChar(s[k - 2]) && IsSeparatorChar(s[k - 1])
    && (match amount
        case None => k == 49
        case Some(a) => k > 49 && IsShiftedNumber(s[47..k - 2], a) && a < 0x100_0000_0000)
    && IsChecksum(siphash, s[..k], s[k..k + 5])
  }

  /** Without an amount. */
  lemma PlainRestIff(siphash: Checksum, s: seq<byte>, dest: int, spec: Spec)
    requires 47 <= |s| && (|s| == 47 || IsSeparatorChar(s[47]))
    ensures ParsedRest(siphash, s, dest, s[47..]) == Ok(spec)
       <==> spec.dest == dest && exists k: nat :: IsEnd(siphash, s, spec.amount, k)
  {
    hide ParsedEnd, IsChecksum, IsShiftedNumber;
    EndIff(siphash, s, Spec(dest, None), 47);
    forall k: nat | IsEnd(siphash, s, spec.amount, k) ensures spec.amount == None && k == 49 {
      if spec.amount.Some? {
        NoSeparatorFirst(s[47..k - 2], spec.amount.value);
      }
    }
    if spec == Spec(dest, None) && ParsedEnd(siphash, s, spec, s[47..]) == Ok(spec) {
      assert IsEnd(siphash, s, spec.amount, 49);
    }
  }

  lemma NoSeparatorFirst(s: seq<byte>, v: int)
    requires IsShiftedNumber(s, v)
    ensures s != [] && !IsSeparatorChar(s[0])
  {
    hide AreInverse, TableMod, DestringifyChar, Base57Bin, Pow2, Big, NumberOf;
    Base57Facts();
    AvoidsSeparators(s);
  }

  /** The amount in front of the first separator. */
  lemma AmountRead(siphash: Checksum, s: seq<byte>, dest: int, n: nat)
    requires 47 <= |s| < 0x8000_0000 && n > 0 && IsFirstSeparator(s[47..], n)
    ensures var field := s[47..47 + n];
      && IsBinTable(Base57Bin)
      && ParsedRest(siphash, s, dest, s[47..])
         == if !AreChars(Base57Bin, field) then InvalidField
            else
              var a := Big(NumberOf(Base57Bin, field[1..]) * Pow2(DestringifyChar(Base57Bin, field[0])));
              if a >= 0x100_0000_0000 then AmountOverflow
              else ParsedEnd(siphash, s, Spec(dest, Some(a)), s[47 + n..])
  {
    hide ParsedEnd, IsChecksum, Destringified, AreInverse, TableMod, DestringifyChar, Base57Bin, Pow2, Big, NumberOf,
         AreChars;
    var t := s[47..];
    Base57Facts();
    ShiftedField(Base57Bin, t, n);
    assert t[..n] == s[47..47 + n] && t[1..n] == s[47..47 + n][1..] && t[n..] == s[47 + n..];
    assert !IsSeparatorChar(t[0]);
    BigIsNat(NumberOf(Base57Bin, t[1..n]) * Pow2(DestringifyChar(Base57Bin, t[0])));
    AmountLimit(Big(NumberOf(Base57Bin, t[1..n]) * Pow2(DestringifyChar(Base57Bin, t[0]))));
  }

  lemma AmountRestIff(siphash: Checksum, s: seq<byte>, dest: int, spec: Spec, n: nat)
    requires 47 <= |s| < 0x8000_0000 && n > 0 && IsFirstSeparator(s[47..], n)
    ensures ParsedRest(siphash, s, dest, s[47..]) == Ok(spec)
       <==> spec.dest == dest && spec.amount.Some? && IsEnd(siphash, s, spec.amount, 47 + n + 2)
  {
    hide ParsedEnd, ParsedRest, IsChecksum, AreInverse, TableMod, DestringifyChar, Base57Bin, Pow2, Big, NumberOf,
         AreChars;
    Base57Facts();
    AmountRead(siphash, s, dest, n);
    var field := s[47..47 + n];
    var a := Big(NumberOf(Base57Bin, field[1..]) * Pow2(DestringifyChar(Base57Bin, field[0])));
    EndIff(siphash, s, Spec(dest, Some(a)), 47 + n);
    assert s[47..][n] == s[47 + n];
  }

  lemma BigIsNat(x: int)
    ensures 0 <= Big(x) < BIG
  {
    LargeBig();
  }

  lemma AmountLimit(a: int)
    requires a >= 0
    ensures a / Pow2(TX_AMOUNT_BITS) == 0 <==> a < 0x100_0000_0000
  {
    hide Pow2;
    Pow2Literals();
    Pow2Add(5, 5);
    Pow2Add(10, 10);
    Pow2Add(20, 20);
    assert Pow2(TX_AMOUNT_BITS) == 0x100_0000_0000;
    FloorIff(a, 0x100_0000_0000, 0);
    FloorIff(a, 0x100_0000_0000, 1);
  }

  lemma RestIff(siphash: Checksum, s: seq<byte>, dest: int, spec: Spec)
    requires 47 <= |s| < 0x8000_0000
    ensures ParsedRest(siphash, s, dest, s[47..]) == Ok(spec)
       <==> spec.dest == dest && exists k: nat :: IsEnd(siphash, s, spec.amount, k)
  {
    hide ParsedRest, IsEnd, AreInverse, TableMod, DestringifyChar, Base57Bin, IsFirstSeparator, Destringified;
    if |s| == 47 || IsSeparatorChar(s[47]) {
      PlainRestIff(siphash, s, dest, spec);
    } else {
      forall k: nat | IsEnd(siphash, s, spec.amount, k)
        ensures k > 49 && spec.amount.Some? && IsFirstSeparator(s[47..], k - 49)
      {
        EndSeparates(siphash, s, spec.amount, k);
      }
      if exists n: nat :: n > 0 && IsFirstSeparator(s[47..], n) {
        var n: nat :| n > 0 && IsFirstSeparator(s[47..], n);
        AmountRestIff(siphash, s, dest, spec, n);
        forall k: nat | IsEnd(siphash, s, spec.amount, k) ensures k == 47 + n + 2 {
          OneFirst(s[47..], n, k - 49);
        }
      } else {
        NothingRead(siphash, s, dest);
      }
    }
  }

  lemma OneFirst(s: seq<byte>, m: nat, n: nat)
    requires IsFirstSeparator(s, m) && IsFirstSeparator(s, n)
    ensures m == n
  {
  }

  lemma EndSeparates(siphash: Checksum, s: seq<byte>, amount: Option<int>, k: nat)
    requires 47 < |s| && !IsSeparatorChar(s[47]) && IsEnd(siphash, s, amount, k)
    ensures k > 49 && amount.Some? && IsFirstSeparator(s[47..], k - 49)
  {
    hide IsChecksum, AreInverse, TableMod, DestringifyChar, Base57Bin, Pow2, Big, NumberOf, AreChars;
    Base57Facts();
    AvoidsSeparators(s[47..k - 2]);
    forall i | 0 <= i < k - 49 ensures !IsSeparatorChar(s[47..][i]) {
      assert s[47..][i] == s[47..k - 2][i];
    }
  }

  lemma NothingRead(siphash: Checksum, s: seq<byte>, dest: int)
    requires 47 < |s| < 0x8000_0000 && !IsSeparatorChar(s[47])
    requires !exists n: nat :: n > 0 && IsFirstSeparator(s[47..], n)
    ensures !ParsedRest(siphash, s, dest, s[47..]).Ok?
  {
    hide ParsedEnd, IsChecksum, Destringified, AreInverse, TableMod, DestringifyChar, Base57Bin, Pow2;
    Base57Facts();
    if Destringified(Base57Bin, true, 0, s[47..]).Parsed? {
      NoShiftedField(Base57Bin, s[47..]);
    }
  }

  /** Exactly what is accepted, and as what. */
  lemma PayspecIff(siphash: Checksum, s: seq<byte>, spec: Spec)
    requires |s| < 0x8000_0000
    ensures ParsedSpec(siphash, s) == Ok(spec) <==> exists k: nat :: IsPayspec(siphash, s, spec, k)
  {
    hide ParsedRest, AreInverse, TableMod, DestringifyChar, Base57Bin, Destringified, IsChecksum, IsShiftedNumber,
         IsNumber;
    Base57Facts();
    forall k: nat ensures IsPayspec(siphash, s, spec, k)
                     <==> |s| >= 47 && s[..3] == [67, 67, 48] && IsNumber(s[3..47], spec.dest)
                          && IsEnd(siphash, s, spec.amount, k)
    {
    }
    if |s| >= 3 {
      FixedField(Base57Bin, DEST_CHARS, s[3..]);
      assert s[..3] == s[..2] + [s[2]] && PREFIX == [67, 67, 48] && PREFIX[..2] == [67, 67];
      if |s| >= 47 {
        assert s[3..][..DEST_CHARS] == s[3..47] && s[3..][DEST_CHARS..] == s[47..];
        RestIff(siphash, s, Big(NumberOf(Base57Bin, s[3..47])), spec);
        NumberIs(s[3..47], spec.dest);
      }
    }
  }

  /** With any other five chars in the place of its checksum, a payspec is refused. */
  lemma WrongChecksum(siphash: Checksum, s: seq<byte>, spec: Spec, k: nat, c: seq<byte>)
    requires |s| < 0x8000_0000 && IsPayspec(siphash, s, spec, k) && |c| == 5 && c != s[k..k + 5]
    ensures ParsedSpec(siphash, s[..k] + c + s[k + 5..]) == ChecksumMismatch
  {
    hide ParsedRest, AreInverse, TableMod, DestringifyChar, Base57Bin, Destringified, IsChecksum, IsShiftedNumber,
         IsNumber;
    var t := s[..k] + c + s[k + 5..];
    assert t[..k] == s[..k] && t[k..k + 5] == c;
    Base57Facts();
    ChecksumIff(siphash, s[..k], s[k..k + 5]);
    ChecksumIff(siphash, s[..k], c);
    FixedField(Base57Bin, DEST_CHARS, t[3..]);
    assert t[3..][..DEST_CHARS] == s[3..47] && t[3..][DEST_CHARS..] == t[47..];
    NumberIs(s[3..47], spec.dest);
    assert t[..3] == s[..3] == [67, 67, 48] && t[..2] == t[..3][..2] && t[2] == t[..3][2];
    assert PREFIX[..2] == [67, 67] == t[..2];
    assert t[47..k - 2] == s[47..k - 2] by {
      assert t[..k][47..k - 2] == t[47..k - 2] && s[..k][47..k - 2] == s[47..k - 2];
    }
    WrongEnd(siphash, t, spec, k);
  }

  lemma WrongEnd(siphash: Checksum, s: seq<byte>, spec: Spec, k: nat)
    requires 49 <= k && k + 5 <= |s| < 0x8000_0000 && IsSeparatorChar(s[k - 2]) && IsSeparatorChar(s[k - 1])
    requires match spec.amount
      case None => k == 49
      case Some(a) => k > 49 && IsShiftedNumber(s[47..k - 2], a) && a < 0x100_0000_0000
    requires !IsChecksum(siphash, s[..k], s[k..k + 5])
    ensures ParsedRest(siphash, s, spec.dest, s[47..]) == ChecksumMismatch
  {
    hide ParsedEnd, IsChecksum, AreInverse, TableMod, DestringifyChar, Base57Bin, Pow2, Big, NumberOf, AreChars;
    EndIff(siphash, s, spec, k - 2);
    match spec.amount
    case None =>
    case Some(a) =>
      hide ParsedRest;
      Base57Facts();
      AvoidsSeparators(s[47..k - 2]);
      forall i | 0 <= i < k - 49 ensures !IsSeparatorChar(s[47..][i]) {
        assert s[47..][i] == s[47..k - 2][i];
      }
      assert IsFirstSeparator(s[47..], k - 49);
      AmountRead(siphash, s, spec.dest, k - 49);
  }

  lemma NumberIs(s: seq<byte>, v: int)
    ensures IsBinTable(Base57Bin)
    ensures IsNumber(s, v) <==> AreChars(Base57Bin, s) && v == Big(NumberOf(Base57Bin, s))
  {
    hide AreInverse, TableMod, DestringifyChar, Base57Bin, Big, NumberOf;
    Base57Facts();
  }

  // ---- Master secrets ----

  /** The lowest 64 bits of a number, and of a shifted number. */
  ghost predicate IsWord(s: seq<byte>, x: int) { exists v: int :: IsNumber(s, v) && x == U64(v) }

  ghost predicate IsShiftedWord(s: seq<byte>, x: int) { exists v: int :: IsShiftedNumber(s, v) && x == U64(v) }

  /** Behind the prefix 44 chars spell the salt; then comes the memory size up to the
      first separator, at place k; then the units; and the last five chars are the checksum
      of all the others. Memory and units are cut to 64 bits, and so are the iterations. */
  ghost predicate IsMasterSecret(siphash: Checksum, s: seq<byte>, m: Params, iterations: int, k: nat) {
    var end := |s| - 5;
    && 48 < k && k + 1 < end && s[..4] == [67, 67, 77, 83] && IsNumber(s[4..48], m.salt)
    && IsFirstSeparator(s[48..], k - 48)
    && IsShiftedWord(s[48..k], m.memory)
    && IsWord(s[k + 1..end], m.units)
    && IsChecksum(siphash, s[..end], s[end..])
    && iterations == U64(m.units * 10)
  }

  /** The units and the checksum. */
  lemma UnitsIff(siphash: Checksum, s: seq<byte>, salt: int, memory: int, m: Params, iterations: int, e: nat)
    requires 5 <= |s| < 0x8000_0000 && e <= |s|
    ensures ParsedUnits(siphash, s, salt, memory, s[e..]) == Found(m, iterations)
       <==> && e < |s| - 5 && m.salt == salt && m.memory == memory
            && IsWord(s[e..|s| - 5], m.units)
            && IsChecksum(siphash, s[..|s| - 5], s[|s| - 5..]) && iterations == U64(m.units * 10)
  {
    hide IsChecksum, AreInverse, TableMod, DestringifyChar, Base57Bin, Destringified, Big, NumberOf, AreChars,
         ChecksumChars, U64;
    Base57Facts();
    var t, end := s[e..], |s| - 5;
    if |t| >= 6 {
      FixedField(Base57Bin, |t| - 5, t);
      assert t[..|t| - 5] == s[e..end] && t[|t| - 5..] == s[end..];
      ChecksumIff(siphash, s[..end], s[end..]);
      if AreChars(Base57Bin, s[e..end]) {
        assert IsNumber(s[e..end], Big(NumberOf(Base57Bin, s[e..end])));
      }
    }
  }

  /** The memory and what follows it. */
  lemma MemoryIff(siphash: Checksum, s: seq<byte>, salt: int, m: Params, iterations: int, k: nat)
    requires 48 <= |s| < 0x8000_0000 && 48 < k && IsFirstSeparator(s[48..], k - 48)
    ensures ParsedMemory(siphash, s, salt, s[48..]) == Found(m, iterations)
       <==> && k + 1 < |s| - 5 && m.salt == salt
            && IsShiftedWord(s[48..k], m.memory)
            && IsWord(s[k + 1..|s| - 5], m.units)
            && IsChecksum(siphash, s[..|s| - 5], s[|s| - 5..]) && iterations == U64(m.units * 10)
  {
    hide IsChecksum, AreInverse, TableMod, DestringifyChar, Base57Bin, Destringified, Big, NumberOf, AreChars, Pow2,
         U64, ParsedUnits, IsNumber, IsWord;
    Base57Facts();
    var t := s[48..];
    ShiftedField(Base57Bin, t, k - 48);
    assert t[..k - 48] == s[48..k] && t[1..k - 48] == s[48..k][1..] && t[k - 48..] == s[k..];
    var v := Big(NumberOf(Base57Bin, t[1..k - 48]) * Pow2(DestringifyChar(Base57Bin, t[0])));
    assert s[k..][1..] == s[k + 1..];
    UnitsIff(siphash, s, salt, LowWord(v), m, iterations, k + 1);
    if AreChars(Base57Bin, s[48..k]) {
      assert IsShiftedNumber(s[48..k], v);
    }
  }

  /** Exactly what is accepted, and as what. */
  lemma MasterSecretIff(siphash: Checksum, s: seq<byte>, m: Params, iterations: int)
    requires |s| < 0x8000_0000
    ensures ParsedParams(siphash, s) == Found(m, iterations)
       <==> exists k: nat :: IsMasterSecret(siphash, s, m, iterations, k)
  {
    hide ParsedMemory, AreInverse, TableMod, DestringifyChar, Base57Bin, Destringified, IsChecksum, IsShiftedNumber,
         IsNumber, IsFirstSeparator, U64, IsWord, IsShiftedWord;
    Base57Facts();
    if |s| >= 48 && s[..4] == MS_PREFIX {
      FixedField(Base57Bin, SALT_CHARS, s[4..]);
      assert s[4..][..SALT_CHARS] == s[4..48] && s[4..][SALT_CHARS..] == s[48..];
      NumberIs(s[4..48], m.salt);
      if exists n: nat :: n > 0 && IsFirstSeparator(s[48..], n) {
        var n: nat :| n > 0 && IsFirstSeparator(s[48..], n);
        MemoryIff(siphash, s, Big(NumberOf(Base57Bin, s[4..48])), m, iterations, 48 + n);
        forall k: nat | IsMasterSecret(siphash, s, m, iterations, k) ensures k == 48 + n {
          OneFirst(s[48..], n, k - 48);
        }
        if ParsedParams(siphash, s) == Found(m, iterations) {
          assert IsMasterSecret(siphash, s, m, iterations, 48 + n);
        }
      } else {
        NoMemory(siphash, s, Big(NumberOf(Base57Bin, s[4..48])));
      }
    } else if |s| >= 10 && s[..4] == MS_PREFIX {
      FixedField(Base57Bin, SALT_CHARS, s[4..]);
    }
  }

  lemma NoMemory(siphash: Checksum, s: seq<byte>, salt: int)
    requires 48 <= |s| < 0x8000_0000
    requires !exists n: nat :: n > 0 && IsFirstSeparator(s[48..], n)
    ensures !ParsedMemory(siphash, s, salt, s[48..]).Found?
  {
    hide ParsedUnits, Destringified, AreInverse, TableMod, DestringifyChar, Base57Bin;
    Base57Facts();
    if Destringified(Base57Bin, true, 0, s[48..]).Parsed? {
      NoShiftedField(Base57Bin, s[48..]);
    }
  }
}
