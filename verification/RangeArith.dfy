/** The interval arithmetic of the range coder in source/cclib/src/encode.cpp:
    cutting [lo, hi] into m sub-intervals with rounded-up bounds, finding the
    sub-interval of a value, and shifting whole bytes out of the top. */
module RangeArith {
  import opened Arith

  /** One more than CC_ENC_LOWER: the weight of the byte that is shifted out next. */
  const P48: int := 0x1_0000_0000_0000

  /** CC_ENC_MAX: one more than the largest value of the 56-bit coder registers. */
  const P56: int := 0x100_0000_0000_0000

  /** The alphabets that are really range coded. */
  predicate IsAlphabet(m: int) { 2 <= m <= 255 }

  /** A register pair after a narrowing: not empty, within 56 bits. */
  predicate IsInterval(lo: int, hi: int) { 0 <= lo <= hi < P56 }

  /** ((hi ^ lo) & CC_ENC_UPPER) == 0 || hi < lo + mod - 1. */
  predicate NeedsShift(lo: int, hi: int, m: int) { lo / P48 == hi / P48 || hi < lo + m - 1 }

  /** A register pair from which the next symbol can be coded. */
  predicate IsReady(lo: int, hi: int, m: int) { IsInterval(lo, hi) && !NeedsShift(lo, hi, m) }

  function NarrowLo(lo: int, hi: int, m: int, c: int): int
    requires 0 < m
  {
    lo + (c * (hi - lo + 1) + m - 1) / m
  }

  function NarrowHi(lo: int, hi: int, m: int, c: int): int
    requires 0 < m
  {
    lo + ((c + 1) * (hi - lo + 1) + m - 1) / m - 1
  }

  /** ((lo & CC_ENC_LOWER) << 8). */
  function ShiftLo(lo: int): int { lo % P48 * 256 }

  /** ((hi & CC_ENC_LOWER) << 8) | 255. */
  function ShiftHi(hi: int): int { hi % P48 * 256 + 255 }

  /** The symbol that the decoder reads off at d. */
  function SymbolAt(lo: int, hi: int, m: int, d: int): int
    requires lo <= hi
  {
    (d - lo) * m / (hi - lo + 1)
  }

  /** The lower bound of sub-interval c is at most d exactly when c is at most
      the symbol read off at d. */
  lemma LowerBoundIff(lo: int, hi: int, m: int, c: int, d: int)
    requires lo <= hi && 0 < m
    ensures NarrowLo(lo, hi, m, c) <= d <==> c <= SymbolAt(lo, hi, m, d)
  {
    CeilIff(c * (hi - lo + 1), m, d - lo);
    FloorIff((d - lo) * m, hi - lo + 1, c);
  }

  /** The symbol read off at d is the only one whose sub-interval holds d. */
  lemma SymbolUnique(lo: int, hi: int, m: int, c: int, d: int)
    requires lo <= hi && 0 < m
    ensures NarrowLo(lo, hi, m, c) <= d <= NarrowHi(lo, hi, m, c) <==> c == SymbolAt(lo, hi, m, d)
  {
    LowerBoundIff(lo, hi, m, c, d);
    LowerBoundIff(lo, hi, m, c + 1, d);
    assert NarrowHi(lo, hi, m, c) == NarrowLo(lo, hi, m, c + 1) - 1;
  }

  lemma NarrowLoMono(lo: int, hi: int, m: int, b: int, c: int)
    requires lo <= hi && 0 < m && b <= c
    ensures NarrowLo(lo, hi, m, b) <= NarrowLo(lo, hi, m, c)
  {
    var w := hi - lo + 1;
    var y := (c * w + m - 1) / m;
    CeilIff(c * w, m, y);
    MulMono(b, c, w);
    CeilIff(b * w, m, y);
  }

  /** The m sub-intervals start at lo and end at hi. */
  lemma NarrowEnds(lo: int, hi: int, m: int)
    requires lo <= hi && 0 < m
    ensures NarrowLo(lo, hi, m, 0) == lo
    ensures NarrowHi(lo, hi, m, m - 1) == hi
  {
    var w := hi - lo + 1;
    assert 0 * w == 0;
    assert (m - 1) / m == 0;
    CeilIff(m * w, m, w);
    CeilIff(m * w, m, w - 1);
    assert (w - 1) * m == m * w - m;
  }

  /** Between floor(w/m) and ceil(w/m) values fall into each sub-interval. */
  lemma NarrowWidth(lo: int, hi: int, m: int, c: int)
    requires lo <= hi && 0 < m
    ensures (hi - lo + 1) / m <= NarrowHi(lo, hi, m, c) - NarrowLo(lo, hi, m, c) + 1 <= (hi - lo + m) / m
  {
    var w := hi - lo + 1;
    var u, y := (c * w + m - 1) / m, ((c + 1) * w + m - 1) / m;
    var f, t := w / m, (w + m - 1) / m;
    assert (c + 1) * w == c * w + w;
    CeilIff(c * w, m, u);
    CeilIff(w, m, t);
    assert (u + t) * m == u * m + t * m;
    CeilIff((c + 1) * w, m, u + t);
    CeilIff((c + 1) * w, m, y);
    FloorIff(w, m, f);
    assert (y - f) * m == y * m - f * m;
    CeilIff(c * w, m, y - f);
  }

  /** Narrowing to a symbol keeps the pair an interval inside the old one, and
      strictly smaller, when at least m values are left to divide. */
  lemma NarrowNests(lo: int, hi: int, m: int, c: int)
    requires 2 <= m <= hi - lo + 1 && 0 <= c < m
    ensures lo <= NarrowLo(lo, hi, m, c) <= NarrowHi(lo, hi, m, c) <= hi
    ensures NarrowHi(lo, hi, m, c) - NarrowLo(lo, hi, m, c) < hi - lo
  {
    NarrowEnds(lo, hi, m);
    NarrowLoMono(lo, hi, m, 0, c);
    NarrowLoMono(lo, hi, m, c + 1, m);
    assert NarrowHi(lo, hi, m, c) == NarrowLo(lo, hi, m, c + 1) - 1;
    assert NarrowHi(lo, hi, m, m - 1) == NarrowLo(lo, hi, m, m) - 1;
    NarrowWidth(lo, hi, m, c);
    ShareIsSmaller(hi - lo + 1, m);
  }

  lemma ShareIsSmaller(w: int, m: int)
    requires 2 <= m <= w
    ensures 1 <= w / m && (w + m - 1) / m < w
  {
    FloorIff(w, m, 1);
    CeilIff(w, m, w - 1);
    MulMono(2, m, w - 1);
    assert (w - 1) * m == m * (w - 1);
  }

  /** Keeping the low n*k of a number, then shifting a byte in, keeps what is
      below k one byte higher up. */
  lemma ShiftInMod(w: int, n: int, k: int, b: int)
    requires 0 < n && 0 < k && 0 <= b < 256
    ensures 0 < n * k
    ensures (w % (n * k) * 256 + b) % (256 * k) == w % k * 256 + b
  {
    MulMono(1, n, k);
    var t := w / (n * k);
    var r := w % (n * k);
    var u := w / k - n * t;
    assert w == n * k * t + r;
    assert n * k * t == n * t * k;
    assert u * k == w / k * k - n * t * k;
    assert r == u * k + w % k;
    assert r * 256 + b == u * (256 * k) + (w % k * 256 + b);
    ModIs(r * 256 + b, u, 256 * k, w % k * 256 + b);
  }
}
