/** Which result cc_alpha_encode_best of source/cclib/src/encode.cpp gives: the
    shortest prefix that the search can reach, in the first slot that has one. */
module ShortestEncoding {
  import opened Bytes
  import opened Encodings
  import opened AlphaCodec
  import opened BestEncoding
  import opened Options

  /** The alphabet of the slot has all the chars. */
  ghost predicate HasChars(slot: nat, data: seq<byte>)
    requires slot < TABLES
  {
    SlotTables(slot);
    UsesSymbols(BestEncodeTable(slot), data)
  }

  /** All the bytes that the slot encodes data in. */
  ghost function Whole(slot: nat, data: seq<byte>): seq<byte>
    requires slot < TABLES && HasChars(slot, data)
  {
    SlotTables(slot);
    EncodeChars(BestEncodeTable(slot), data)
  }

  /** What goes into the length nibble for a result of r bytes. */
  ghost function Nibble(slot: nat, data: seq<byte>, r: nat): int
    requires slot < TABLES
  {
    SlotTables(slot);
    LenDiff(BestDecodeTable(slot), r, |data|)
  }

  /** The nibble can hold the length difference. */
  ghost predicate Fits(slot: nat, data: seq<byte>, r: nat)
    requires slot < TABLES
  {
    0 <= Nibble(slot, data, r) <= 15
  }

  /** The first r bytes are enough. */
  ghost predicate Decodes(slot: nat, data: seq<byte>, r: nat)
    requires slot < TABLES && HasChars(slot, data) && r <= |Whole(slot, data)|
  {
    SlotTables(slot);
    DecodeChars(BestDecodeTable(slot), Whole(slot, data)[..r], |data|) == data
  }

  /** Some length that fits, from t on and below r, is too short to decode. */
  ghost predicate IsBarred(slot: nat, data: seq<byte>, t: nat, r: nat)
    requires slot < TABLES && HasChars(slot, data) && r <= |Whole(slot, data)|
  {
    exists u: nat :: t <= u < r && Fits(slot, data, u) && !Decodes(slot, data, u)
  }

  /** The result has r bytes: all of them, or so few that they fit and that they, and
      whatever longer prefix fits, decode; and every shorter one that fits is barred. */
  ghost predicate IsShortest(slot: nat, data: seq<byte>, r: nat)
    requires slot < TABLES && HasChars(slot, data)
  {
    var all := |Whole(slot, data)|;
    && r <= all
    && (r == all || (Fits(slot, data, r)
                     && forall u: nat :: r <= u <= all && Fits(slot, data, u) ==> Decodes(slot, data, u)))
    && forall t: nat :: 0 < t < r && Fits(slot, data, t) ==> IsBarred(slot, data, t, r)
  }

  /** No two lengths are. */
  lemma ShortestUnique(slot: nat, data: seq<byte>, q: nat, r: nat)
    requires slot < TABLES && HasChars(slot, data) && 0 < q && 0 < r
    requires IsShortest(slot, data, q) && IsShortest(slot, data, r)
    ensures q == r
  {
    hide HasChars, Whole, Fits, Decodes;
    var all := |Whole(slot, data)|;
    var one, other := q <= all && IsBarred(slot, data, r, q), r <= all && IsBarred(slot, data, q, r);
  }

  /** With all its bytes the slot gives data back, unless it is slot 9, which never does. */
  lemma WholeDecodes(slot: nat, data: seq<byte>)
    requires slot < TABLES && HasChars(slot, data) && data != []
    ensures Whole(slot, data) != []
    ensures slot != 9 ==> Decodes(slot, data, |Whole(slot, data)|)
    ensures slot == 9 ==> forall t: nat :: 0 < t <= |Whole(slot, data)| ==> !Decodes(slot, data, t)
  {
    hide EncodeChars, DecodeChars, AreInverse;
    SlotTables(slot);
    var bin, sym := BestEncodeTable(slot), BestDecodeTable(slot);
    var enc := Whole(slot, data);
    assert enc[..|enc|] == enc;
    NotEmpty(bin, data);
    if slot < 9 {
      SlotInverse(slot);
      CharsRoundTrip(bin, sym, data);
    } else if slot == 10 {
      Copies(bin, sym, data);
    } else {
      forall t: nat | 0 < t <= |enc| ensures !Decodes(slot, data, t) {
        Slot9NeverDecodes(data, t);
      }
    }
  }

  lemma NotEmpty(bin: seq<byte>, data: seq<byte>)
    requires CanEncode(bin) && UsesSymbols(bin, data) && data != []
    ensures EncodeChars(bin, data) != []
  {
    if TableMod(bin) != 256 {
      IndexesAreSymbols(bin, data);
    }
  }

  /** What the search has established when it comes to length size: best is the least
      length found, nothing in between fits, and all that fits from best on decodes. */
  ghost predicate IsFound(slot: nat, data: seq<byte>, size: nat, best: nat)
    requires slot < TABLES && HasChars(slot, data)
  {
    var all := |Whole(slot, data)|;
    && size <= best <= all
    && (best == all || (Fits(slot, data, best)
                        && forall u: nat :: best <= u <= all && Fits(slot, data, u) ==> Decodes(slot, data, u)))
    && forall u: nat :: size < u < best ==> !Fits(slot, data, u)
  }

  ghost function Found(slot: nat, data: seq<byte>, size: nat, best: nat): nat
    requires slot < TABLES && HasChars(slot, data) && size <= |Whole(slot, data)| && best <= |Whole(slot, data)|
  {
    SlotTables(slot);
    Shorten(BestDecodeTable(slot), data, Whole(slot, data), size, best)
  }

  /** One length of the search. */
  lemma FoundStep(slot: nat, data: seq<byte>, size: nat, best: nat)
    requires slot < TABLES && HasChars(slot, data) && 0 < size <= |Whole(slot, data)| && best <= |Whole(slot, data)|
    ensures Found(slot, data, size, best)
         == if !Fits(slot, data, size) then Found(slot, data, size - 1, best)
            else if !Decodes(slot, data, size) then best
            else Found(slot, data, size - 1, size)
  {
    hide EncodeChars, DecodeChars, UsesSymbols, LenDiff, BestEncodeTable, BestDecodeTable;
    SlotTables(slot);
  }

  lemma FoundEnd(slot: nat, data: seq<byte>, best: nat)
    requires slot < TABLES && HasChars(slot, data) && best <= |Whole(slot, data)|
    ensures Found(slot, data, 0, best) == best
  {
    hide EncodeChars, DecodeChars, UsesSymbols, LenDiff, BestEncodeTable, BestDecodeTable;
    SlotTables(slot);
  }

  lemma {:induction false} FoundIsShortest(slot: nat, data: seq<byte>, size: nat, best: nat)
    requires slot < TABLES && HasChars(slot, data) && Decodes(slot, data, |Whole(slot, data)|)
    requires IsFound(slot, data, size, best)
    ensures IsShortest(slot, data, Found(slot, data, size, best))
  {
    hide HasChars, Whole, Fits, Decodes, Found;
    if size == 0 {
      FoundEnd(slot, data, best);
    } else {
      FoundStep(slot, data, size, best);
      if !Fits(slot, data, size) {
        FoundIsShortest(slot, data, size - 1, best);
      } else if Decodes(slot, data, size) {
        FoundIsShortest(slot, data, size - 1, size);
      } else {
        forall t: nat | 0 < t < best && Fits(slot, data, t) ensures IsBarred(slot, data, t, best) {
          assert t <= size;
        }
      }
    }
  }

  /** Slot 9 finds nothing. */
  lemma {:induction false} NothingFound(slot: nat, data: seq<byte>, size: nat, best: nat)
    requires slot < TABLES && HasChars(slot, data) && size <= |Whole(slot, data)| && best <= |Whole(slot, data)|
    requires forall t: nat :: 0 < t <= |Whole(slot, data)| ==> !Decodes(slot, data, t)
    ensures Found(slot, data, size, best) == best
  {
    hide HasChars, Whole, Fits, Decodes, Found;
    if size == 0 {
      FoundEnd(slot, data, best);
    } else {
      FoundStep(slot, data, size, best);
      if !Fits(slot, data, size) {
        NothingFound(slot, data, size - 1, best);
      }
    }
  }

  /** The length to which the slot's encoding of data is truncated. */
  ghost function Kept(slot: nat, data: seq<byte>): (r: nat)
    requires slot < TABLES && HasChars(slot, data)
    ensures r <= |Whole(slot, data)|
  {
    SlotTables(slot);
    |EncodeShortest(BestEncodeTable(slot), BestDecodeTable(slot), data)|
  }

  lemma KeptIsShortest(slot: nat, data: seq<byte>)
    requires slot < TABLES && HasChars(slot, data) && data != []
    ensures IsShortest(slot, data, Kept(slot, data)) && Kept(slot, data) > 0
  {
    hide HasChars, Whole, Fits, Decodes, Found, Kept;
    var all := |Whole(slot, data)|;
    WholeDecodes(slot, data);
    KeptIsFound(slot, data);
    if slot == 9 {
      NothingFound(slot, data, all, all);
      forall t: nat | 0 < t < all && Fits(slot, data, t) ensures IsBarred(slot, data, t, all) {
        assert !Decodes(slot, data, t);
      }
    } else {
      FoundIsShortest(slot, data, all, all);
    }
  }

  lemma KeptIsFound(slot: nat, data: seq<byte>)
    requires slot < TABLES && HasChars(slot, data) && data != []
    ensures Kept(slot, data) == Found(slot, data, |Whole(slot, data)|, |Whole(slot, data)|) > 0
  {
    hide EncodeChars, DecodeChars, UsesSymbols, LenDiff, BestEncodeTable, BestDecodeTable, Shorten;
    SlotTables(slot);
    NotEmpty(BestEncodeTable(slot), data);
  }

  // ---- The result ----

  /** The slot cannot be used: a char is not in its alphabet, or the shortest that it
      has does not fit the nibble. */
  ghost predicate IsUseless(slot: nat, data: seq<byte>)
    requires slot < TABLES
  {
    HasChars(slot, data) ==> exists r: nat :: r > 0 && IsShortest(slot, data, r) && !Fits(slot, data, r)
  }

  /** The shortest of the slot fits, behind the slot's number and the nibble. */
  ghost predicate IsResultOf(slot: nat, data: seq<byte>, out: seq<byte>)
    requires slot < TABLES
  {
    && HasChars(slot, data) && 2 <= |out| <= |Whole(slot, data)| + 1
    && IsShortest(slot, data, |out| - 1) && Fits(slot, data, |out| - 1)
    && out[0] == slot * 16 + Nibble(slot, data, |out| - 1) && out[1..] == Whole(slot, data)[..|out| - 1]
  }

  /** The result of the first slot that can be used. */
  ghost predicate IsBest(data: seq<byte>, slot: nat, out: seq<byte>) {
    slot < TABLES && IsResultOf(slot, data, out) && forall t: nat :: t < slot ==> IsUseless(t, data)
  }

  lemma SlotResult(slot: nat, data: seq<byte>)
    requires slot < TABLES && data != []
    ensures match TrySlot(slot, data) case None => IsUseless(slot, data) case Some(out) => IsResultOf(slot, data, out)
  {
    hide EncodeChars, DecodeChars, UsesSymbols, LenDiff, BestEncodeTable, BestDecodeTable, IsShortest, EncodeShortest;
    TrySlotIs(slot, data);
    if HasChars(slot, data) {
      KeptIsShortest(slot, data);
      ShortestIsPrefix(slot, data);
    }
  }

  lemma ShortestIsPrefix(slot: nat, data: seq<byte>)
    requires slot < TABLES && HasChars(slot, data)
    ensures CanEncode(BestEncodeTable(slot)) && CanDecode(BestDecodeTable(slot))
    ensures EncodeShortest(BestEncodeTable(slot), BestDecodeTable(slot), data) == Whole(slot, data)[..Kept(slot, data)]
  {
    hide EncodeChars, UsesSymbols, BestEncodeTable, BestDecodeTable, Shorten;
    SlotTables(slot);
  }

  lemma {:induction false} FirstResult(slot: nat, data: seq<byte>) returns (s: nat)
    requires slot <= TABLES && data != []
    ensures slot <= s <= TABLES && forall t: nat :: slot <= t < s ==> IsUseless(t, data)
    ensures match TrySlots(slot, data)
      case None => s == TABLES
      case Some(out) => s < TABLES && IsResultOf(s, data, out)
    decreases TABLES - slot
  {
    hide IsUseless, IsResultOf, TrySlot;
    s := slot;
    if slot < TABLES {
      SlotResult(slot, data);
      if TrySlot(slot, data).None? {
        s := FirstResult(slot + 1, data);
      }
    }
  }

  /** Exactly what is emitted: the shortest of the first slot that can be used; and
      nothing if there is none. */
  lemma BestIff(data: seq<byte>, out: seq<byte>)
    requires data != []
    ensures EncodeBest(data) == Some(out) <==> exists slot: nat :: IsBest(data, slot, out)
    ensures EncodeBest(data) == None <==> forall slot: nat :: slot < TABLES ==> IsUseless(slot, data)
  {
    hide IsUseless, IsResultOf;
    var s := FirstResult(0, data);
    if s < TABLES {
      var one := EncodeBest(data).value;
      assert IsBest(data, s, one);
      UsefulOrNot(s, data, one);
      forall slot: nat | IsBest(data, slot, out) ensures out == one {
        UsefulOrNot(slot, data, out);
        if slot == s {
          ResultUnique(slot, data, one, out);
        }
      }
    } else {
      forall slot: nat | slot < TABLES ensures !IsResultOf(slot, data, out) {
        if IsResultOf(slot, data, out) {
          UsefulOrNot(slot, data, out);
        }
      }
    }
  }

  lemma UsefulOrNot(slot: nat, data: seq<byte>, out: seq<byte>)
    requires slot < TABLES && IsResultOf(slot, data, out)
    ensures !IsUseless(slot, data)
  {
    hide HasChars, Whole, Fits, Decodes, IsShortest;
    forall r: nat | r > 0 && IsShortest(slot, data, r) ensures Fits(slot, data, r) {
      ShortestUnique(slot, data, r, |out| - 1);
    }
  }

  lemma ResultUnique(slot: nat, data: seq<byte>, one: seq<byte>, other: seq<byte>)
    requires slot < TABLES && IsResultOf(slot, data, one) && IsResultOf(slot, data, other)
    ensures one == other
  {
    hide HasChars, Whole, Fits, Decodes, IsShortest, Nibble;
    ShortestUnique(slot, data, |one| - 1, |other| - 1);
    assert one == [one[0]] + one[1..] && other == [other[0]] + other[1..];
  }
}
