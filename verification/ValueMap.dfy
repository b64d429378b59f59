/** The exponential value map of source/cclib/src/map_values.cpp: decoding by an
    interpolated table, and the search that encodes. */
module ValueMap {
  import opened Arith
  import opened Bytes

  const EXP_TABLE_SIZE: nat := 1024
  const EXP_INTERP_MAX: nat := 0x40_0000
  const EXP_INDEX_MAX: nat := 1023 * 0x40_0000

  /** The table of exponentials, and the parameters of one map. */
  datatype Params = Params(table: seq<nat>, offset: nat, step: nat, encMax: nat, decMax: nat, unityIndex: nat)

  /** A table that does not decrease, and parameters for which no 32- or 64-bit value
      overflows on the way. The largest code can decode to less or more than decMax. */
  ghost predicate IsMap(m: Params) {
    && |m.table| == EXP_TABLE_SIZE && 0 < m.table[0]
    && (forall i, j :: 0 <= i <= j < EXP_TABLE_SIZE ==> m.table[i] <= m.table[j] < 0x1_0000_0000)
    && 0 < m.step && 0 < m.encMax < 0x1_0000_0000 && m.unityIndex <= EXP_INDEX_MAX && m.decMax < 0x1_0000_0000
    && m.step * m.encMax * m.table[EXP_TABLE_SIZE - 1] < 0x1_0000_0000_0000_0000
    && DecodedExactly(m, m.encMax) < 0x1_0000_0000
  }

  // ---- Without overflow ----

  function ExpAt(table: seq<nat>, index: nat): nat
    requires |table| == EXP_TABLE_SIZE && index <= EXP_INDEX_MAX
    requires forall i, j :: 0 <= i <= j < EXP_TABLE_SIZE ==> table[i] <= table[j]
  {
    var i := index / EXP_INTERP_MAX;
    if index >= EXP_INDEX_MAX then table[i]
    else
      assert table[i] <= table[i + 1];
      NotNegative(table[i + 1] - table[i], index % EXP_INTERP_MAX);
      ((table[i + 1] - table[i]) * (index % EXP_INTERP_MAX) + EXP_INTERP_MAX / 2) / EXP_INTERP_MAX + table[i]
  }

  lemma NotNegative(a: nat, b: nat)
    ensures a * b >= 0
  {
  }

  /** Codes are spread evenly over the indexes from unityIndex on. */
  function IndexOf(m: Params, enc: nat): (index: nat)
    requires m.unityIndex <= EXP_INDEX_MAX && 0 < m.encMax && enc <= m.encMax
    ensures m.unityIndex <= index <= EXP_INDEX_MAX
    ensures enc == m.encMax ==> index == EXP_INDEX_MAX
  {
    var range := EXP_INDEX_MAX - m.unityIndex;
    FloorIff(range * enc, m.encMax, 0);
    FloorIff(range * enc, m.encMax, range + 1);
    FloorIff(range * enc, m.encMax, range);
    MulMono(enc, m.encMax, range);
    assert (range + 1) * m.encMax == range * m.encMax + m.encMax;
    range * enc / m.encMax + m.unityIndex
  }

  ghost function DecodedExactly(m: Params, enc: nat): (dec: nat)
    requires |m.table| == EXP_TABLE_SIZE && 0 < m.table[0]
    requires forall i, j :: 0 <= i <= j < EXP_TABLE_SIZE ==> m.table[i] <= m.table[j]
    requires m.unityIndex <= EXP_INDEX_MAX && 0 < m.encMax && enc <= m.encMax
  {
    ExpBounds(m.table, m.unityIndex);
    ShareNotNegative(m.step, enc, ExpAt(m.table, IndexOf(m, enc)), ExpAt(m.table, m.unityIndex));
    m.offset + m.step * enc * ExpAt(m.table, IndexOf(m, enc)) / ExpAt(m.table, m.unityIndex)
  }

  lemma ShareNotNegative(step: nat, enc: nat, exp: nat, unity: nat)
    requires unity > 0
    ensures step * enc * exp / unity >= 0
  {
    NotNegative(step, enc);
    NotNegative(step * enc, exp);
    FloorIff(step * enc * exp, unity, 0);
  }

  /** The interpolated value lies between the two table entries. */
  lemma ExpBounds(table: seq<nat>, index: nat)
    requires |table| == EXP_TABLE_SIZE && index <= EXP_INDEX_MAX
    requires forall i, j :: 0 <= i <= j < EXP_TABLE_SIZE ==> table[i] <= table[j]
    ensures var i := index / EXP_INTERP_MAX;
      && table[i] <= ExpAt(table, index)
      && (i + 1 < EXP_TABLE_SIZE ==> ExpAt(table, index) <= table[i + 1])
      && table[0] <= ExpAt(table, index) <= table[EXP_TABLE_SIZE - 1]
  {
    var i := index / EXP_INTERP_MAX;
    if index < EXP_INDEX_MAX {
      Interpolated(table[i + 1] - table[i], index % EXP_INTERP_MAX);
    }
    assert table[0] <= table[i] <= table[EXP_TABLE_SIZE - 1];
  }

  lemma Interpolated(d: nat, pos: nat)
    requires pos < EXP_INTERP_MAX
    ensures 0 <= (d * pos + EXP_INTERP_MAX / 2) / EXP_INTERP_MAX <= d
  {
    MulMono(pos, EXP_INTERP_MAX - 1, d);
    MulMono(0, pos, d);
    RoundedShare(d * pos, d);
  }

  lemma RoundedShare(x: int, d: nat)
    requires 0 <= x <= (EXP_INTERP_MAX - 1) * d
    ensures 0 <= (x + EXP_INTERP_MAX / 2) / EXP_INTERP_MAX <= d
  {
  }

  lemma ExpMono(table: seq<nat>, i: nat, j: nat)
    requires |table| == EXP_TABLE_SIZE && i <= j <= EXP_INDEX_MAX
    requires forall i, j :: 0 <= i <= j < EXP_TABLE_SIZE ==> table[i] <= table[j]
    ensures ExpAt(table, i) <= ExpAt(table, j)
  {
    var x, y := i / EXP_INTERP_MAX, j / EXP_INTERP_MAX;
    ExpBounds(table, i);
    ExpBounds(table, j);
    if x < y {
      assert table[x + 1] <= table[y];
    } else if i < j {
      InterpolationMono(table[x + 1] - table[x], i % EXP_INTERP_MAX, j % EXP_INTERP_MAX);
    }
  }

  lemma InterpolationMono(d: nat, p: nat, q: nat)
    requires p <= q
    ensures (d * p + EXP_INTERP_MAX / 2) / EXP_INTERP_MAX <= (d * q + EXP_INTERP_MAX / 2) / EXP_INTERP_MAX
  {
    var f := (d * p + EXP_INTERP_MAX / 2) / EXP_INTERP_MAX;
    MulMono(p, q, d);
    FloorIff(d * p + EXP_INTERP_MAX / 2, EXP_INTERP_MAX, f);
    FloorIff(d * q + EXP_INTERP_MAX / 2, EXP_INTERP_MAX, f);
  }

  /** The number that a code stands for. */
  ghost function Decoded(m: Params, enc: nat): (dec: nat)
    requires IsMap(m) && enc <= m.encMax
  {
    DecodedExactly(m, enc)
  }

  /** Decoding is strictly increasing: each code decodes at least one step higher. */
  lemma DecodeStep(m: Params, e: nat)
    requires IsMap(m) && e < m.encMax
    ensures Decoded(m, e) + m.step <= Decoded(m, e + 1)
  {
    hide ExpAt;
    var range := EXP_INDEX_MAX - m.unityIndex;
    MulMono(e, e + 1, range);
    QuotientMono(range * e, range * (e + 1), m.encMax);
    ExpMono(m.table, IndexOf(m, e), IndexOf(m, e + 1));
    ExpMono(m.table, m.unityIndex, IndexOf(m, e + 1));
    ExpBounds(m.table, m.unityIndex);
    OneStepMore(m.step, e, ExpAt(m.table, IndexOf(m, e)), ExpAt(m.table, IndexOf(m, e + 1)),
                ExpAt(m.table, m.unityIndex));
  }

  lemma OneStepMore(step: nat, e: nat, x: nat, y: nat, unity: nat)
    requires 0 < unity <= y && x <= y
    ensures step * e * x / unity + step <= step * (e + 1) * y / unity
  {
    var f := step * e * x / unity;
    FloorIff(step * e * x, unity, f);
    MulMono(x, y, step * e);
    assert step * (e + 1) * y == y * (step * e) + y * step;
    MulMono(unity, y, step);
    assert (f + step) * unity == f * unity + unity * step;
    FloorIff(step * (e + 1) * y, unity, f + step);
  }

  lemma {:induction false} DecodeIncreases(m: Params, e: nat, f: nat)
    requires IsMap(m) && e < f <= m.encMax
    ensures Decoded(m, e) < Decoded(m, f)
    decreases f
  {
    hide Decoded;
    DecodeStep(m, f - 1);
    if e < f - 1 {
      DecodeIncreases(m, e, f - 1);
    }
  }

  lemma DecodeRange(m: Params, e: nat)
    requires IsMap(m) && e <= m.encMax
    ensures m.offset <= Decoded(m, e) <= Decoded(m, m.encMax) && Decoded(m, 0) == m.offset
  {
    hide ExpAt;
    ExpBounds(m.table, m.unityIndex);
    assert m.step * 0 * ExpAt(m.table, IndexOf(m, 0)) == 0;
    if 0 < e {
      DecodeIncreases(m, 0, e);
    }
    if e < m.encMax {
      DecodeIncreases(m, e, m.encMax);
    }
  }

  // ---- The methods, on machine words ----

  method MapExpGetExp(m: Params, index: nat) returns (val: nat)
    requires IsMap(m) && index <= EXP_INDEX_MAX
    ensures val == ExpAt(m.table, index)
  {
    hide Decoded;
    var i := index / EXP_INTERP_MAX;
    var val0 := m.table[i];
    if index >= EXP_INDEX_MAX {
      return val0;
    }
    var val1 := m.table[i + 1];
    var pos := index % EXP_INTERP_MAX;
    ExpBounds(m.table, index);
    SpreadFits(val1 - val0, pos);
    val := U32(U64(U64((val1 - val0) * pos) + EXP_INTERP_MAX / 2) / EXP_INTERP_MAX + val0);
  }

  lemma SpreadFits(d: nat, pos: nat)
    requires d < 0x1_0000_0000 && pos < EXP_INTERP_MAX
    ensures 0 <= d * pos < 0x1_0000_0000 * EXP_INTERP_MAX
  {
    MulMono(pos, EXP_INTERP_MAX, d);
    MulMono(0, pos, d);
  }

  method MapExpEncodedToIndex(m: Params, enc: nat) returns (index: nat)
    requires IsMap(m) && enc <= m.encMax
    ensures index == IndexOf(m, enc)
  {
    hide Decoded;
    var range := EXP_INDEX_MAX - m.unityIndex;
    MulMono(range, 0xFFFF_FFFF, enc);
    MulMono(enc, 0xFFFF_FFFF, 0xFFFF_FFFF);
    MulMono(0, enc, range);
    index := U32(U64(range * enc) / m.encMax + m.unityIndex);
  }

  method MapExpDecode(m: Params, enc: nat) returns (dec: nat)
    requires IsMap(m) && enc <= m.encMax
    ensures dec == Decoded(m, enc)
  {
    hide ExpAt;
    var unity := MapExpGetExp(m, m.unityIndex);
    var index := MapExpEncodedToIndex(m, enc);
    var exp := MapExpGetExp(m, index);
    ExpBounds(m.table, index);
    ExpBounds(m.table, m.unityIndex);
    ProductFits(m, enc, exp);
    DecodeRange(m, enc);
    dec := U32(U64(m.offset + U64(U64(m.step * enc) * exp) / unity));
  }

  lemma ProductFits(m: Params, enc: nat, exp: nat)
    requires IsMap(m) && enc <= m.encMax && exp <= m.table[EXP_TABLE_SIZE - 1] && 0 < exp
    ensures 0 <= m.step * enc <= m.step * enc * exp < 0x1_0000_0000_0000_0000
  {
    hide Decoded;
    var top := m.table[EXP_TABLE_SIZE - 1];
    MulMono(enc, m.encMax, m.step);
    MulMono(m.step * enc, m.step * m.encMax, exp);
    MulMono(exp, top, m.step * m.encMax);
    MulMono(1, exp, m.step * enc);
  }

  /** The least code that decodes to at least val, or the largest code if none does. */
  ghost predicate IsLeast(m: Params, val: nat, enc: nat)
    requires IsMap(m) && enc <= m.encMax
  {
    && (forall e: nat :: e < enc ==> Decoded(m, e) < val)
    && (Decoded(m, enc) >= val || enc == m.encMax)
  }

  /** The greatest code that decodes to at most val. */
  ghost predicate IsGreatest(m: Params, val: nat, enc: nat)
    requires IsMap(m) && enc <= m.encMax
  {
    Decoded(m, enc) <= val && forall e: nat :: enc < e <= m.encMax ==> Decoded(m, e) > val
  }

  /** Between the ends of the range, the least code when rounding up and the greatest
      when rounding down; elsewhere the nearest end. */
  ghost predicate IsEncoding(m: Params, val: nat, roundup: bool, enc: nat)
    requires IsMap(m)
  {
    && enc <= m.encMax
    && if val <= m.offset then enc == 0
       else if val >= m.decMax then enc == m.encMax
       else if roundup then IsLeast(m, val, enc) else IsGreatest(m, val, enc)
  }

  method MapExpEncode(m: Params, val: nat, roundup: bool) returns (enc: nat)
    requires IsMap(m)
    ensures IsEncoding(m, val, roundup, enc)
  {
    hide Decoded, IsMap, IsLeast, IsGreatest;
    MapEnds(m);
    if val <= m.offset {
      return 0;
    }
    if val >= m.decMax {
      return m.encMax;
    }
    enc := (val - m.offset) / m.step;
    if enc > m.encMax {
      enc := m.encMax;
    }
    enc := Search(m, val, roundup, enc);
  }

  lemma MapEnds(m: Params)
    requires IsMap(m)
    ensures Decoded(m, 0) == m.offset < Decoded(m, m.encMax) && m.step > 0
  {
    hide DecodedExactly;
    DecodeRange(m, 0);
    DecodeIncreases(m, 0, m.encMax);
  }

  method Search(m: Params, val: nat, roundup: bool, start: nat) returns (enc: nat)
    requires IsMap(m) && m.offset < val && start <= m.encMax
    ensures enc <= m.encMax && if roundup then IsLeast(m, val, enc) else IsGreatest(m, val, enc)
  {
    hide Decoded, IsMap;
    MapEnds(m);
    enc := start;
    var dec := MapExpDecode(m, enc);
    while roundup && dec >= val && enc > 0
      invariant enc <= m.encMax && dec == Decoded(m, enc)
      decreases enc
    {
      enc := enc - 1;
      dec := MapExpDecode(m, enc);
    }
    if dec <= val {
      LowerCodes(m, val, enc);
    }
    while (dec < val || (!roundup && dec <= val)) && enc < m.encMax
      invariant enc <= m.encMax && dec == Decoded(m, enc)
      invariant roundup ==> forall e: nat :: e < enc ==> Decoded(m, e) < val
      decreases m.encMax - enc
    {
      enc := enc + 1;
      dec := MapExpDecode(m, enc);
    }
    if dec >= val {
      HigherCodes(m, val, enc);
    }
    while !roundup && dec > val && enc > 0
      invariant enc <= m.encMax && dec == Decoded(m, enc)
      invariant roundup ==> IsLeast(m, val, enc)
      invariant !roundup ==> forall e: nat :: enc < e <= m.encMax ==> Decoded(m, e) > val
      decreases enc
    {
      enc := enc - 1;
      dec := MapExpDecode(m, enc);
    }
  }

  lemma LowerCodes(m: Params, val: nat, enc: nat)
    requires IsMap(m) && enc <= m.encMax && Decoded(m, enc) <= val
    ensures forall e: nat :: e < enc ==> Decoded(m, e) < val
  {
    hide Decoded;
    forall e: nat | e < enc
      ensures Decoded(m, e) < val
    {
      DecodeIncreases(m, e, enc);
    }
  }

  lemma HigherCodes(m: Params, val: nat, enc: nat)
    requires IsMap(m) && enc <= m.encMax && Decoded(m, enc) >= val
    ensures forall e: nat :: enc < e <= m.encMax ==> Decoded(m, e) > val
  {
    hide Decoded;
    forall e: nat | enc < e <= m.encMax
      ensures Decoded(m, e) > val
    {
      DecodeIncreases(m, enc, e);
    }
  }

  /** The encoding of a decoded code, in both directions, is the code, unless the code
      decodes to decMax or more and a larger code does too. */
  lemma EncodingOfDecoded(m: Params, e: nat, roundup: bool, enc: nat)
    requires IsMap(m) && e <= m.encMax && IsEncoding(m, Decoded(m, e), roundup, enc)
    ensures enc == e <==> e == 0 || e == m.encMax || Decoded(m, e) < m.decMax
  {
    hide Decoded;
    MapEnds(m);
    DecodeRange(m, e);
    if 0 < e {
      DecodeIncreases(m, 0, e);
    }
    if e < m.encMax {
      DecodeIncreases(m, e, m.encMax);
    }
    if enc < e {
      DecodeIncreases(m, enc, e);
    } else if e < enc {
      DecodeIncreases(m, e, enc);
    }
  }

  /** Every value has exactly one encoding in each direction. */
  lemma EncodingUnique(m: Params, val: nat, roundup: bool, enc: nat, other: nat)
    requires IsMap(m) && IsEncoding(m, val, roundup, enc) && IsEncoding(m, val, roundup, other)
    ensures enc == other
  {
    hide Decoded;
  }

  /** What map_exp_test_check asserts of rounding up, that nothing up to decMax decodes
      lower than it was, is so just when the largest code reaches decMax. */
  lemma RoundsUpIff(m: Params)
    requires IsMap(m)
    ensures (forall val: nat, enc: nat :: val <= m.decMax && IsEncoding(m, val, true, enc) ==> Decoded(m, enc) >= val)
       <==> Decoded(m, m.encMax) >= m.decMax
  {
    hide Decoded;
    MapEnds(m);
    if Decoded(m, m.encMax) >= m.decMax {
      forall val: nat, enc: nat | val <= m.decMax && IsEncoding(m, val, true, enc)
        ensures Decoded(m, enc) >= val
      {
      }
    } else {
      assert IsEncoding(m, m.decMax, true, m.encMax);
    }
  }

  /** What it asserts of rounding down, that nothing from offset on decodes higher, is so
      just when the largest code stays within decMax. */
  lemma RoundsDownIff(m: Params)
    requires IsMap(m) && m.offset < m.decMax
    ensures (forall val: nat, enc: nat :: m.offset <= val <= m.decMax && IsEncoding(m, val, false, enc) ==>
               Decoded(m, enc) <= val)
       <==> Decoded(m, m.encMax) <= m.decMax
  {
    hide Decoded;
    MapEnds(m);
    if Decoded(m, m.encMax) <= m.decMax {
      forall val: nat, enc: nat | m.offset <= val <= m.decMax && IsEncoding(m, val, false, enc)
        ensures Decoded(m, enc) <= val
      {
      }
    } else {
      assert IsEncoding(m, m.decMax, false, m.encMax);
    }
  }

  // ---- The search for the parameters ----

  /** What the largest code decodes to with this index of unity. */
  ghost function TopAt(m: Params, unity: nat): nat
    requires |m.table| == EXP_TABLE_SIZE && 0 < m.table[0] && 0 < m.encMax && unity <= EXP_INDEX_MAX
    requires forall i, j :: 0 <= i <= j < EXP_TABLE_SIZE ==> m.table[i] <= m.table[j]
  {
    DecodedExactly(m.(unityIndex := unity), m.encMax)
  }

  /** A table and numbers for which decoding overflows with no index of unity, and decMax
      lies between the least and the greatest that the largest code can decode to. */
  ghost predicate IsSearchable(m: Params) {
    && |m.table| == EXP_TABLE_SIZE && 0 < m.table[0]
    && (forall i, j :: 0 <= i <= j < EXP_TABLE_SIZE ==> m.table[i] <= m.table[j] < 0x1_0000_0000)
    && 0 < m.step && 0 < m.encMax < 0x1_0000_0000 && m.decMax < 0x1_0000_0000
    && m.step * m.encMax * m.table[EXP_TABLE_SIZE - 1] < 0x1_0000_0000_0000_0000
    && TopAt(m, EXP_INDEX_MAX) <= m.decMax < TopAt(m, 0) < 0x1_0000_0000
  }

  /** The larger the index of unity, the lower the top. */
  lemma TopMono(m: Params, u: nat, v: nat)
    requires |m.table| == EXP_TABLE_SIZE && 0 < m.table[0] && 0 < m.encMax && u <= v <= EXP_INDEX_MAX
    requires forall i, j :: 0 <= i <= j < EXP_TABLE_SIZE ==> m.table[i] <= m.table[j]
    ensures TopAt(m, v) <= TopAt(m, u)
  {
    hide ExpAt;
    ExpMono(m.table, u, v);
    ExpBounds(m.table, u);
    ExpBounds(m.table, v);
    assert IndexOf(m.(unityIndex := u), m.encMax) == IndexOf(m.(unityIndex := v), m.encMax) == EXP_INDEX_MAX;
    var x := m.step * m.encMax * ExpAt(m.table, EXP_INDEX_MAX);
    NotNegative(m.step, m.encMax);
    NotNegative(m.step * m.encMax, ExpAt(m.table, EXP_INDEX_MAX));
    LargerDivisor(x, ExpAt(m.table, u), ExpAt(m.table, v));
  }

  lemma LargerDivisor(x: nat, d: nat, e: nat)
    requires 0 < d <= e
    ensures x / e <= x / d
  {
    FloorIff(x, e, x / e);
    FloorIff(x, e, 0);
    MulMono(d, e, x / e);
    FloorIff(x, d, x / e);
  }

  lemma SearchableIsMap(m: Params, u: nat)
    requires IsSearchable(m) && u <= EXP_INDEX_MAX
    ensures IsMap(m.(unityIndex := u)) && TopAt(m, u) == Decoded(m.(unityIndex := u), m.encMax)
  {
    hide ExpAt;
    TopMono(m, 0, u);
  }

  /** From where the floating point estimate starts, down until the top is above decMax,
      then up until it is not: the least such index. */
  method FindUnityIndex(m: Params, start: nat) returns (unity: nat)
    requires IsSearchable(m) && 0 < start <= EXP_INDEX_MAX
    ensures 0 < unity <= EXP_INDEX_MAX && TopAt(m, unity) <= m.decMax
    ensures forall u: nat :: u < unity ==> TopAt(m, u) > m.decMax
  {
    hide TopAt, DecodedExactly, IsMap;
    unity := start;
    var dec := m.decMax;
    while dec <= m.decMax
      invariant unity <= EXP_INDEX_MAX && (dec <= m.decMax ==> unity > 0)
      invariant dec > m.decMax ==> dec == TopAt(m, unity)
      decreases unity + if dec <= m.decMax then 1 else 0
    {
      unity := unity - 1;
      SearchableIsMap(m, unity);
      dec := MapExpDecode(m.(unityIndex := unity), m.encMax);
      if unity == 0 {
        assert dec > m.decMax;
      }
    }
    AllAbove(m, unity);
    while dec > m.decMax
      invariant unity <= EXP_INDEX_MAX && dec == TopAt(m, unity)
      invariant forall u: nat :: u < unity ==> TopAt(m, u) > m.decMax
      decreases EXP_INDEX_MAX - unity
    {
      AllAbove(m, unity);
      unity := unity + 1;
      SearchableIsMap(m, unity);
      dec := MapExpDecode(m.(unityIndex := unity), m.encMax);
    }
  }

  lemma AllAbove(m: Params, unity: nat)
    requires IsSearchable(m) && unity <= EXP_INDEX_MAX && TopAt(m, unity) > m.decMax
    ensures unity < EXP_INDEX_MAX && forall u: nat :: u <= unity ==> TopAt(m, u) > m.decMax
  {
    hide TopAt;
    forall u: nat | u <= unity
      ensures TopAt(m, u) > m.decMax
    {
      TopMono(m, u, unity);
    }
  }

  /** The least index meets decMax exactly if any index does. */
  lemma SearchHits(m: Params, unity: nat, other: nat)
    requires IsSearchable(m) && unity <= EXP_INDEX_MAX && TopAt(m, unity) <= m.decMax
    requires forall u: nat :: u < unity ==> TopAt(m, u) > m.decMax
    requires other <= EXP_INDEX_MAX && TopAt(m, other) == m.decMax
    ensures TopAt(m, unity) == m.decMax
  {
    hide TopAt;
    TopMono(m, unity, other);
  }

  /** The map of payment times: with the three entries that count here, the largest code
      decodes to exactly two days of seconds, and with no smaller index of unity. */
  lemma PaymentTimes(m: Params)
    requires |m.table| == EXP_TABLE_SIZE && 0 < m.table[0]
    requires forall i, j :: 0 <= i <= j < EXP_TABLE_SIZE ==> m.table[i] <= m.table[j]
    requires m.table[664] == 31503235 && m.table[665] == 31937516 && m.table[1023] == 0xFFFF_FFFF
    requires m.offset == 10 && m.step == 5 && m.encMax == 255
    ensures TopAt(m, 2786840450) == 172800 < TopAt(m, 2786840449)
  {
  }

  // ---- Every code ----

  /** x is the table's value at an index, the two neighbouring entries interpolated and
      rounded to the nearest, halves up. */
  ghost predicate IsInterpolated(table: seq<nat>, index: nat, x: int)
    requires |table| == EXP_TABLE_SIZE && index <= EXP_INDEX_MAX
  {
    var k, pos := index / EXP_INTERP_MAX, index % EXP_INTERP_MAX;
    if k == EXP_TABLE_SIZE - 1 then x == table[k]
    else
      && (x - table[k]) * EXP_INTERP_MAX <= (table[k + 1] - table[k]) * pos + EXP_INTERP_MAX / 2
      && (table[k + 1] - table[k]) * pos + EXP_INTERP_MAX / 2 < (x - table[k] + 1) * EXP_INTERP_MAX
  }

  lemma ExpIsInterpolated(table: seq<nat>, index: nat)
    requires |table| == EXP_TABLE_SIZE && index <= EXP_INDEX_MAX
    requires forall i, j :: 0 <= i <= j < EXP_TABLE_SIZE ==> table[i] <= table[j]
    ensures IsInterpolated(table, index, ExpAt(table, index))
  {
    var k, pos := index / EXP_INTERP_MAX, index % EXP_INTERP_MAX;
    if index < EXP_INDEX_MAX {
      var d := table[k + 1] - table[k];
      RoundedBetween(d * pos + EXP_INTERP_MAX / 2);
    }
  }

  lemma RoundedBetween(x: int)
    ensures x / EXP_INTERP_MAX * EXP_INTERP_MAX <= x < (x / EXP_INTERP_MAX + 1) * EXP_INTERP_MAX
  {
  }

  /** What every code stands for: the codes are spread evenly over the indexes from
      that of unity on, and a code e counts for e steps, scaled by the ratio of the
      table's value at its index to that at unity's. */
  lemma CodeStandsFor(m: Params, e: nat) returns (index: nat, x: nat, unity: nat)
    requires IsMap(m) && e <= m.encMax
    ensures m.unityIndex <= index <= EXP_INDEX_MAX
    ensures (index - m.unityIndex) * m.encMax <= (EXP_INDEX_MAX - m.unityIndex) * e
    ensures (EXP_INDEX_MAX - m.unityIndex) * e < (index - m.unityIndex + 1) * m.encMax
    ensures IsInterpolated(m.table, index, x) && IsInterpolated(m.table, m.unityIndex, unity)
    ensures (Decoded(m, e) - m.offset) * unity <= m.step * e * x < (Decoded(m, e) - m.offset + 1) * unity
  {
    hide ExpAt, IsInterpolated;
    index := IndexOf(m, e);
    x, unity := ExpAt(m.table, index), ExpAt(m.table, m.unityIndex);
    ExpIsInterpolated(m.table, index);
    ExpIsInterpolated(m.table, m.unityIndex);
    ExpBounds(m.table, m.unityIndex);
    QuotientBetween((EXP_INDEX_MAX - m.unityIndex) * e, m.encMax);
    QuotientBetween(m.step * e * x, unity);
  }

  lemma QuotientBetween(x: int, d: int)
    requires d > 0
    ensures x / d * d <= x < (x / d + 1) * d
  {
    FloorIff(x, d, x / d);
    FloorIff(x, d, x / d + 1);
  }

  /** A constant table gives a map, and the map is linear. */
  lemma ConstantTableIsLinear(offset: nat, step: nat, encMax: nat, c: nat)
    requires 0 < step && 0 < encMax && 0 < c < 0x1_0000_0000
    requires step * encMax * c < 0x1_0000_0000_0000_0000 && offset + step * encMax < 0x1_0000_0000
    ensures var m := ConstantMap(offset, step, encMax, c);
      IsMap(m) && forall e: nat :: e <= encMax ==> Decoded(m, e) == offset + step * e
  {
    var m := ConstantMap(offset, step, encMax, c);
    MulMono(1, step, encMax);
    forall e: nat | e <= encMax
      ensures DecodedExactly(m, e) == offset + step * e
    {
      ConstantDecodes(m, e, c);
    }
  }

  function Constant(n: nat, c: nat): (s: seq<nat>)
    ensures |s| == n && forall i :: 0 <= i < n ==> s[i] == c
  {
    seq(n, i => c)
  }

  function ConstantMap(offset: nat, step: nat, encMax: nat, c: nat): Params {
    Params(Constant(EXP_TABLE_SIZE, c), offset, step, encMax, offset + step * encMax, 0)
  }

  lemma ConstantDecodes(m: Params, e: nat, c: nat)
    requires m.table == Constant(EXP_TABLE_SIZE, c) && 0 < c && m.unityIndex == 0 && 0 < m.encMax && e <= m.encMax
    ensures DecodedExactly(m, e) == m.offset + m.step * e
  {
    hide ExpAt;
    ExpBounds(m.table, m.unityIndex);
    ExpBounds(m.table, IndexOf(m, e));
    ModIs(m.step * e * c, m.step * e, c, 0);
  }
}
