/** Packed signed amounts of source/cclib/src/amounts.cpp: 24 bytes whose order
    as byte strings is the order of the amounts. */
module SignedAmount {
  import opened Arith
  import opened Bytes
  import Limbs

  const W: int := Limbs.WORD

  /** 2^128, 2^191, 2^192 and 2^256. */
  const W2: int := 0x1_0000_0000_0000_0000_0000_0000_0000_0000
  const OFFSET: int := 0x8000_0000_0000_0000_0000_0000_0000_0000_0000_0000_0000_0000
  const W3: int := 0x1_0000_0000_0000_0000_0000_0000_0000_0000_0000_0000_0000_0000
  const W4: int := 0x1_0000_0000_0000_0000_0000_0000_0000_0000_0000_0000_0000_0000_0000_0000_0000_0000

  // ---- Big-endian bytes ----

  /** The n lowest bytes of x, highest first. */
  function BigEndian(x: nat, n: nat): (bs: seq<byte>)
    ensures |bs| == n
    decreases n
  {
    if n == 0 then [] else BigEndian(x / 256, n - 1) + [x % 256]
  }

  function FromBigEndian(bs: seq<byte>): (x: nat) {
    if bs == [] then 0 else FromBigEndian(bs[..|bs| - 1]) * 256 + bs[|bs| - 1]
  }

  lemma {:induction false} FromBigEndianBound(bs: seq<byte>)
    ensures FromBigEndian(bs) < Pow256(|bs|)
  {
    if bs != [] {
      FromBigEndianBound(bs[..|bs| - 1]);
    }
  }

  lemma {:induction false} BigEndianInverse(x: nat, n: nat)
    requires x < Pow256(n)
    ensures FromBigEndian(BigEndian(x, n)) == x
    decreases n
  {
    if n > 0 {
      BigEndianInverse(x / 256, n - 1);
      assert BigEndian(x, n)[..n - 1] == BigEndian(x / 256, n - 1);
    }
  }

  lemma {:induction false} FromBigEndianConcat(a: seq<byte>, b: seq<byte>)
    ensures FromBigEndian(a + b) == FromBigEndian(a) * Pow256(|b|) + FromBigEndian(b)
    decreases |b|
  {
    if b == [] {
      assert a + b == a;
    } else {
      var c := b[..|b| - 1];
      FromBigEndianConcat(a, c);
      assert (a + b)[..|a + b| - 1] == a + c;
      assert FromBigEndian(a) * Pow256(|c|) * 256 == FromBigEndian(a) * (256 * Pow256(|c|));
    }
  }

  /** memcmp: the first byte that differs decides. */
  predicate Before(a: seq<byte>, b: seq<byte>)
    requires |a| == |b|
  {
    a != [] && (a[0] < b[0] || (a[0] == b[0] && Before(a[1..], b[1..])))
  }

  /** Byte strings of one length are ordered like the numbers they spell. */
  lemma {:induction false} BeforeIffLess(a: seq<byte>, b: seq<byte>)
    requires |a| == |b|
    ensures Before(a, b) <==> FromBigEndian(a) < FromBigEndian(b)
  {
    if a != [] {
      var s, t, p := a[1..], b[1..], Pow256(|a| - 1);
      BeforeIffLess(s, t);
      FirstByte(a);
      FirstByte(b);
      FromBigEndianBound(s);
      FromBigEndianBound(t);
      if a[0] < b[0] {
        MulMono(a[0] + 1, b[0], p);
        assert (a[0] + 1) * p == a[0] * p + p;
      } else if a[0] > b[0] {
        MulMono(b[0] + 1, a[0], p);
        assert (b[0] + 1) * p == b[0] * p + p;
      }
    }
  }

  lemma FirstByte(a: seq<byte>)
    requires a != []
    ensures FromBigEndian(a) == a[0] * Pow256(|a| - 1) + FromBigEndian(a[1..])
  {
    hide FromBigEndian, Pow256;
    assert a == [a[0]] + a[1..];
    FromBigEndianConcat([a[0]], a[1..]);
    OneBigByte(a[0]);
  }

  lemma OneBigByte(b: byte)
    ensures FromBigEndian([b]) == b
  {
    assert [b][..0] == [];
  }

  lemma WordPowers()
    ensures Pow256(8) == W && Pow256(16) == W2
  {
    assert Pow256(4) == 0x1_0000_0000;
    assert Pow256(8) == 256 * (256 * (256 * (256 * Pow256(4))));
    assert Pow256(12) == 256 * (256 * (256 * (256 * Pow256(8))));
    assert Pow256(16) == 256 * (256 * (256 * (256 * Pow256(12))));
  }

  // ---- What the 24 bytes stand for ----

  /** The number that 256 bits stand for in two's complement. */
  function Signed(a: nat): int { if a >= W4 / 2 then a - W4 else a }

  predicate IsPackable(a: nat) { -OFFSET <= Signed(a) < OFFSET }

  /** The 192 bits that are stored. */
  function Stored(a: nat): nat { (a + OFFSET) % W3 }

  /** What the stored bits are read as: in two's complement of 256 bits. */
  function Restored(u: nat): nat
    requires u < W3
  {
    if u >= OFFSET then u - OFFSET else u - OFFSET + W4
  }

  lemma StoredSigned(a: nat)
    requires a < W4 && IsPackable(a)
    ensures Stored(a) == Signed(a) + OFFSET && Restored(Stored(a)) == a
  {
    if a >= W4 / 2 {
      ModIs(a + OFFSET, W, W3, Signed(a) + OFFSET);
    } else {
      ModIs(a + OFFSET, 0, W3, a + OFFSET);
    }
  }

  // ---- The methods ----

  /** The limbs, highest first, each highest byte first. */
  function PackedBytes(u: nat): (bs: seq<byte>)
    ensures |bs| == 24
  {
    BigEndian(u / W / W % W, 8) + BigEndian(u / W % W, 8) + BigEndian(u % W, 8)
  }

  lemma LimbBytes(u: nat)
    requires u < W3
    ensures FromBigEndian(PackedBytes(u)) == u
    ensures var bs := PackedBytes(u);
      u == FromBigEndian(bs[..8]) * W2 + FromBigEndian(bs[8..16]) * W + FromBigEndian(bs[16..])
  {
    hide Pow256, BigEndian, FromBigEndian;
    WordPowers();
    var hi, mid, lo := u / W / W % W, u / W % W, u % W;
    BigEndianInverse(hi, 8);
    BigEndianInverse(mid, 8);
    BigEndianInverse(lo, 8);
    assert u == hi * W2 + mid * W + lo by { ThreeLimbs(u); }
    ThreeWords(BigEndian(hi, 8), BigEndian(mid, 8), BigEndian(lo, 8));
  }

  lemma ThreeLimbs(u: nat)
    requires u < W3
    ensures u == u / W / W % W * W2 + u / W % W * W + u % W
  {
    assert u / W / W < W;
  }

  lemma ThreeWords(a: seq<byte>, b: seq<byte>, c: seq<byte>)
    requires |a| == |b| == |c| == 8
    ensures var bs := a + b + c;
      && bs[..8] == a && bs[8..16] == b && bs[16..] == c
      && FromBigEndian(bs) == FromBigEndian(a) * W2 + FromBigEndian(b) * W + FromBigEndian(c)
  {
    hide Pow256, FromBigEndian;
    WordPowers();
    FromBigEndianConcat(a + b, c);
    FromBigEndianConcat(a, b);
    assert FromBigEndian(a) * W * W == FromBigEndian(a) * W2;
  }

  /** Reads a packed amount; what the fourth limb of the target held before does
      not matter. */
  method UnpackSignedAmount(packed: seq<byte>, limb3: nat) returns (amount: nat)
    requires |packed| == 24 && limb3 < W
    ensures FromBigEndian(packed) < W3
    ensures amount == Restored(FromBigEndian(packed))
  {
    hide Pow256, FromBigEndian;
    WordPowers();
    var l0 := FromBigEndian(packed[16..]);
    var l1 := FromBigEndian(packed[8..16]);
    var l2 := FromBigEndian(packed[..8]);
    FromBigEndianBound(packed[16..]);
    FromBigEndianBound(packed[8..16]);
    FromBigEndianBound(packed[..8]);
    assert packed == packed[..8] + packed[8..16] + packed[16..];
    ThreeWords(packed[..8], packed[8..16], packed[16..]);
    ghost var u := FromBigEndian(packed);
    var v := (limb3 * W3 + l2 * W2 + l1 * W + l0 - OFFSET) % W4;
    SubtractOffset(u, limb3, v);
    var limb2 := v / W2 % W;
    amount := v % W3 + (if limb2 >= 0x8000_0000_0000_0000 then W - 1 else 0) * W3;
    TopBit(v);
  }

  lemma SubtractOffset(u: nat, limb3: nat, v: int)
    requires u < W3 && limb3 < W && v == (limb3 * W3 + u - OFFSET) % W4
    ensures 0 <= v && v % W3 == if u >= OFFSET then u - OFFSET else u - OFFSET + W3
  {
    if u >= OFFSET {
      ModIs(limb3 * W3 + u - OFFSET, 0, W4, limb3 * W3 + u - OFFSET);
      ModIs(v, limb3, W3, u - OFFSET);
    } else if limb3 > 0 {
      ModIs(limb3 * W3 + u - OFFSET, 0, W4, limb3 * W3 + u - OFFSET);
      ModIs(v, limb3 - 1, W3, u - OFFSET + W3);
    } else {
      ModIs(u - OFFSET, -1, W4, u - OFFSET + W4);
      ModIs(v, W - 1, W3, u - OFFSET + W3);
    }
  }

  /** The top bit of the third limb tells the sign of the 192-bit number. */
  lemma TopBit(v: nat)
    ensures v / W2 % W >= 0x8000_0000_0000_0000 <==> v % W3 >= OFFSET
  {
    var q, r := v / W3, v % W3;
    var h, l := r / W2, r % W2;
    assert v == q * W3 + r && r == h * W2 + l;
    ModIs(v, q * W + h, W2, l);
    ModIs(q * W + h, q, W, h);
  }

  /** Packs an amount; fails if it does not come back. */
  method PackSignedAmount(amount: nat) returns (rc: bool, packed: seq<byte>)
    requires amount < W4
    ensures !rc <==> IsPackable(amount)
    ensures packed == PackedBytes(Stored(amount))
  {
    hide BigEndian, FromBigEndian;
    var adj := (amount + OFFSET) % W4;
    var lo := BigEndian(adj % W, 8);
    var mid := BigEndian(adj / W % W, 8);
    var hi := BigEndian(adj / W / W % W, 8);
    packed := hi + mid + lo;
    LowLimbs(amount + OFFSET);
    LimbBytes(Stored(amount));
    var unpacked := UnpackSignedAmount(packed, 0);
    rc := unpacked != amount;
    if IsPackable(amount) {
      StoredSigned(amount);
    }
  }

  /** The three lowest limbs do not depend on the fourth. */
  lemma LowLimbs(x: nat)
    ensures var a, b := x % W4, x % W3;
      a % W == b % W && a / W % W == b / W % W && a / W / W % W == b / W / W % W
  {
    var q, a := x / W4, x % W4;
    var k, b := a / W3, a % W3;
    assert x == q * W4 + a && a == k * W3 + b;
    ModIs(x, q * W + k, W3, b);
    SameLow(a, b, k);
  }

  lemma SameLow(a: nat, b: nat, k: int)
    requires a == k * W3 + b && b < W3
    ensures a % W == b % W && a / W % W == b / W % W && a / W / W % W == b / W / W % W
  {
    var b1, b2 := b / W, b / W / W;
    ModIs(a, k * W2 + b1, W, b % W);
    ModIs(k * W2 + b1, k * W + b2, W, b1 % W);
    ModIs(k * W + b2, k, W, b2);
    ModIs(b2, 0, W, b2);
  }

  // ---- Bijection and order ----

  /** Every 24 bytes are the packed form of exactly the amount they unpack to. */
  lemma UnpackedIsPackable(bs: seq<byte>)
    requires |bs| == 24
    ensures FromBigEndian(bs) < W3
    ensures var a := Restored(FromBigEndian(bs));
      a < W4 && IsPackable(a) && Stored(a) == FromBigEndian(bs)
  {
    hide Pow256, FromBigEndian;
    WordPowers();
    FromBigEndianBound(bs[16..]);
    FromBigEndianBound(bs[8..16]);
    FromBigEndianBound(bs[..8]);
    assert bs == bs[..8] + bs[8..16] + bs[16..];
    ThreeWords(bs[..8], bs[8..16], bs[16..]);
    StoredSigned(Restored(FromBigEndian(bs)));
  }

  /** The packed forms sort like the signed amounts. */
  lemma PackedOrder(a: nat, b: nat)
    requires a < W4 && b < W4 && IsPackable(a) && IsPackable(b)
    ensures Before(PackedBytes(Stored(a)), PackedBytes(Stored(b))) <==> Signed(a) < Signed(b)
    ensures PackedBytes(Stored(a)) == PackedBytes(Stored(b)) <==> a == b
  {
    hide PackedBytes, FromBigEndian, Before;
    StoredSigned(a);
    StoredSigned(b);
    LimbBytes(Stored(a));
    LimbBytes(Stored(b));
    BeforeIffLess(PackedBytes(Stored(a)), PackedBytes(Stored(b)));
  }
}
