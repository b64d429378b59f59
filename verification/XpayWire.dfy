/** The wire form of payment claims in source/cclib/src/xtransaction-xpay.cpp,
    over the cursor copies of source/cccommon/src/CCutil.cpp. */
module XpayWire {
  import opened Arith
  import opened Bytes
  import opened BestEncoding
  import opened Encodings
  import opened Options

  const XTX_MAX_ITEM_SIZE: nat := 247
  const UNIFLOAT_WIRE_BYTES: nat := 4
  const STRBUF_SIZE: nat := 288

  // ---- Cursor copies ----

  /** Advances the cursor by the size of the data; copies only what fits as a whole. */
  method CopyToBuf(data: seq<byte>, bufpos0: nat, buf: array<byte>) returns (bufpos: nat)
    requires bufpos0 + |data| < 0x1_0000_0000
    modifies buf
    ensures bufpos == bufpos0 + |data|
    ensures Written(old(buf[..]), buf[..], bufpos0, data)
    ensures bufpos > buf.Length ==> buf[..] == old(buf[..])
  {
    var pos := bufpos0;
    bufpos := U32(bufpos0 + |data|);
    if bufpos <= buf.Length {
      for i := 0 to |data|
        invariant buf[..] == old(buf[..pos]) + data[..i] + old(buf[pos + i..])
      {
        buf[pos + i] := data[i];
      }
      assert data[..|data|] == data;
    }
  }

  /** From `before` to `after`, s was written from `start` on, if it fits. */
  ghost predicate Written(before: seq<byte>, after: seq<byte>, start: nat, s: seq<byte>) {
    && |after| == |before|
    && (start + |s| <= |before| ==> after == before[..start] + s + before[start + |s|..])
  }

  lemma WrittenMore(before: seq<byte>, mid: seq<byte>, after: seq<byte>, start: nat, s: seq<byte>, t: seq<byte>)
    requires Written(before, mid, start, s) && Written(mid, after, start + |s|, t)
    ensures Written(before, after, start, s + t)
  {
    if start + |s + t| <= |before| {
      assert mid[..start + |s|] == before[..start] + s;
      assert mid[start + |s + t|..] == before[start + |s + t|..];
      assert before[..start] + s + t == before[..start] + (s + t);
    }
  }

  function Zeros(n: nat): (s: seq<byte>)
    ensures |s| == n && forall i :: 0 <= i < n ==> s[i] == 0
  {
    seq(n, i => 0)
  }

  /** Advances the cursor; reads nbytes and pads with zeros, or reads only zeros
      past the end. */
  method CopyFromBuf(datasize: nat, nbytes: nat, bufpos0: nat, buf: array<byte>, bufsize: nat)
    returns (data: seq<byte>, bufpos: nat)
    requires nbytes <= datasize && bufsize <= buf.Length && bufpos0 + nbytes < 0x1_0000_0000
    ensures bufpos == bufpos0 + nbytes && |data| == datasize
    ensures data == if bufpos <= bufsize then buf[bufpos0..bufpos] + Zeros(datasize - nbytes) else Zeros(datasize)
  {
    var pos := bufpos0;
    bufpos := U32(bufpos0 + nbytes);
    if bufpos <= bufsize {
      data := buf[pos..pos + nbytes] + Zeros(datasize - nbytes);
    } else {
      data := Zeros(datasize);
    }
  }

  /** Copies behind what has been written since `start`. */
  method Append(data: seq<byte>, bufpos0: nat, buf: array<byte>, ghost before: seq<byte>, ghost start: nat,
                ghost s: seq<byte>)
    returns (bufpos: nat, ghost s': seq<byte>)
    requires bufpos0 == start + |s| && Written(before, buf[..], start, s) && bufpos0 + |data| < 0x1_0000_0000
    modifies buf
    ensures bufpos == start + |s'| && s' == s + data && Written(before, buf[..], start, s')
  {
    hide Written;
    ghost var mid := buf[..];
    bufpos := CopyToBuf(data, bufpos0, buf);
    WrittenMore(before, mid, buf[..], start, s, data);
    s' := s + data;
  }

  lemma NothingWritten(before: seq<byte>, start: nat)
    ensures Written(before, before, start, [])
  {
  }

  // ---- Integers in memory ----

  /** The n lowest bytes of x, lowest first. */
  function LittleEndian(x: nat, n: nat): (bs: seq<byte>)
    ensures |bs| == n
    decreases n
  {
    if n == 0 then [] else [x % 256] + LittleEndian(x / 256, n - 1)
  }

  function FromLittleEndian(bs: seq<byte>): nat { if bs == [] then 0 else bs[0] + 256 * FromLittleEndian(bs[1..]) }

  /** Reading a word back after padding it with zeros. */
  lemma {:induction false} LittleEndianInverse(x: nat, n: nat, padding: nat)
    requires x < Pow256(n)
    ensures FromLittleEndian(LittleEndian(x, n) + Zeros(padding)) == x
    decreases n, padding
  {
    var bs := LittleEndian(x, n) + Zeros(padding);
    if n > 0 {
      LittleEndianInverse(x / 256, n - 1, padding);
      assert bs[1..] == LittleEndian(x / 256, n - 1) + Zeros(padding);
    } else if padding > 0 {
      LittleEndianInverse(0, 0, padding - 1);
      assert bs[1..] == LittleEndian(0, 0) + Zeros(padding - 1);
    }
  }

  // ---- A payment claim ----

  /** The fields that travel: the match number, the amount as a 32-bit word, the
      transaction id, and the block id, which may be empty. */
  datatype Claim = Claim(matchNum: nat, amountWord: nat, txid: seq<byte>, blockId: seq<byte>)

  predicate IsClaim(c: Claim) {
    && c.matchNum < 0x1_0000_0000_0000_0000 && c.amountWord < 0x1_0000_0000
    && |c.txid| < 0x8000_0000 && |c.blockId| < 0x8000_0000
  }

  /** The code throws for an id that cannot be encoded, and for a transaction id
      that is empty or too long. */
  ghost predicate CanSend(c: Claim) {
    && EncodeBest(c.txid).Some? && U32(|EncodeBest(c.txid).value| - 1) <= XTX_MAX_ITEM_SIZE
    && EncodeBest(c.blockId).Some?
  }

  ghost function Wire(c: Claim): seq<byte>
    requires CanSend(c)
  {
    var txid := EncodeBest(c.txid).value;
    LittleEndian(c.matchNum, 8) + LittleEndian(c.amountWord, UNIFLOAT_WIRE_BYTES)
    + LittleEndian(U32(|txid| - 1), 1) + txid + EncodeBest(c.blockId).value
  }

  /** The encoded block id fits the receiver's string buffer. */
  ghost predicate FitsReceiver(c: Claim)
    requires CanSend(c)
  {
    |EncodeBest(c.blockId).value| <= STRBUF_SIZE
  }

  datatype Outcome = Done | RangeError

  class Xpay {
    var xmatchnum: nat
    var foreignAmountFp: nat
    var foreignTxid: seq<byte>
    var foreignBlockId: seq<byte>

    function Fields(): Claim
      reads this
    {
      Claim(xmatchnum, foreignAmountFp, foreignTxid, foreignBlockId)
    }

    constructor (c: Claim)
      ensures Fields() == c
    {
      xmatchnum, foreignAmountFp, foreignTxid, foreignBlockId := c.matchNum, c.amountWord, c.txid, c.blockId;
    }

    /** Writes the fields at the cursor. */
    method DataToWire(buf: array<byte>, bufpos0: nat) returns (outcome: Outcome, bufpos: nat)
      requires IsClaim(Fields()) && bufpos0 < 0x4000_0000
      modifies buf
      ensures outcome == Done <==> CanSend(Fields())
      ensures outcome == Done ==> bufpos == bufpos0 + |Wire(Fields())|
      ensures outcome == Done ==> Written(old(buf[..]), buf[..], bufpos0, Wire(Fields()))
    {
      hide EncodeBest, LittleEndian, U32, Written, Wire;
      ghost var before, s := buf[..], [];
      NothingWritten(before, bufpos0);
      bufpos, s := Append(LittleEndian(xmatchnum, 8), bufpos0, buf, before, bufpos0, s);
      bufpos, s := Append(LittleEndian(foreignAmountFp, UNIFLOAT_WIRE_BYTES), bufpos, buf, before, bufpos0, s);
      var rc, encoded := CcAlphaEncodeBest(foreignTxid);
      if rc != 0 {
        return RangeError, bufpos;
      }
      var encodedSize := U32(|encoded| - 1);
      if encodedSize > XTX_MAX_ITEM_SIZE {
        return RangeError, bufpos;
      }
      BestLength(foreignTxid);
      EncodedSize(encoded);
      bufpos, s := Append(LittleEndian(encodedSize, 1), bufpos, buf, before, bufpos0, s);
      bufpos, s := Append(encoded, bufpos, buf, before, bufpos0, s);
      rc, encoded := CcAlphaEncodeBest(foreignBlockId);
      if rc != 0 {
        return RangeError, bufpos;
      }
      WireIs(Fields(), s + encoded, bufpos0);
      bufpos, s := Append(encoded, bufpos, buf, before, bufpos0, s);
      return Done, bufpos;
    }

    /** Reads the fields at the cursor, the block id up to the end. */
    method DataFromWire(buf: array<byte>, binsize: nat, bufpos0: nat, useOldTableMapping: bool)
      returns (outcome: Outcome, bufpos: nat)
      requires binsize <= buf.Length && bufpos0 + 13 <= binsize < 0x8000_0000
      requires bufpos0 + 13 + (buf[bufpos0 + 12] as nat + 1) <= binsize
      requires binsize - (bufpos0 + 13 + (buf[bufpos0 + 12] as nat + 1)) <= STRBUF_SIZE
      modifies this
      ensures var r := Received(buf[bufpos0..binsize], old(foreignTxid), old(foreignBlockId), useOldTableMapping);
        && (outcome == Done <==> r.Some?)
        && (r.Some? ==> Fields() == r.value && bufpos == binsize)
    {
      hide DecodeBest, FromLittleEndian, U32, Zeros, Received;
      ghost var all, s := buf[..], buf[bufpos0..binsize];
      var encoded;
      xmatchnum, foreignAmountFp, encoded, bufpos := ReadHeader(buf, binsize, bufpos0);
      var rc;
      rc, foreignTxid, bufpos := ReadId(buf, binsize, bufpos, encoded, foreignTxid, useOldTableMapping);
      Slices(all, bufpos0, binsize, 13, 13 + encoded);
      if rc != 0 {
        ReceivedIs(s, old(foreignTxid), old(foreignBlockId), useOldTableMapping);
        return RangeError, bufpos;
      }
      encoded := binsize - bufpos;
      Slices(all, bufpos0, binsize, |s| - encoded, |s|);
      ReceivedIs(s, old(foreignTxid), old(foreignBlockId), useOldTableMapping);
      rc, foreignBlockId, bufpos := ReadId(buf, binsize, bufpos, encoded, foreignBlockId, useOldTableMapping);
      if rc != 0 {
        return RangeError, bufpos;
      }
      return Done, bufpos;
    }
  }

  /** The match number, the amount, and the length of the encoded transaction id. */
  method ReadHeader(buf: array<byte>, binsize: nat, bufpos0: nat)
    returns (matchNum: nat, amountWord: nat, encoded: nat, bufpos: nat)
    requires binsize <= buf.Length && bufpos0 + 13 <= binsize < 0x8000_0000
    ensures bufpos == bufpos0 + 13
    ensures var s := buf[bufpos0..binsize];
      && matchNum == FromLittleEndian(s[..8]) && amountWord == FromLittleEndian(s[8..12] + Zeros(4))
      && encoded == s[12] as nat + 1
  {
    hide FromLittleEndian, U32, Zeros;
    ghost var all, s := buf[..], buf[bufpos0..binsize];
    Slices(all, bufpos0, binsize, 0, 8);
    matchNum, bufpos := ReadWord(buf, binsize, bufpos0, 8);
    NoPadding(s[..8]);
    Slices(all, bufpos0, binsize, 8, 12);
    amountWord, bufpos := ReadWord(buf, binsize, bufpos, UNIFLOAT_WIRE_BYTES);
    Slices(all, bufpos0, binsize, 12, 13);
    encoded, bufpos := ReadWord(buf, binsize, bufpos, 1);
    assert s[12..13] == [s[12]];
    OneLittleByte(s[12]);
    encoded := encoded + 1;
  }

  /** Reads the lowest bytes of a zeroed 64-bit word. */
  method ReadWord(buf: array<byte>, binsize: nat, bufpos0: nat, nbytes: nat) returns (word: nat, bufpos: nat)
    requires binsize <= buf.Length && bufpos0 + nbytes <= binsize < 0x8000_0000 && nbytes <= 8
    ensures bufpos == bufpos0 + nbytes
    ensures word == FromLittleEndian(buf[bufpos0..bufpos] + Zeros(8 - nbytes))
  {
    hide FromLittleEndian, Zeros, U32;
    var data;
    data, bufpos := CopyFromBuf(8, nbytes, bufpos0, buf, binsize);
    word := FromLittleEndian(data);
  }

  /** Copies an encoded id into the string buffer and decodes it. */
  method ReadId(buf: array<byte>, binsize: nat, bufpos0: nat, encoded: nat, id0: seq<byte>, useOldTableMapping: bool)
    returns (rc: int, id: seq<byte>, bufpos: nat)
    requires binsize <= buf.Length && bufpos0 + encoded <= binsize < 0x8000_0000 && encoded <= STRBUF_SIZE
    ensures bufpos == bufpos0 + encoded
    ensures DecodeResult(rc, id) == DecodeBest(buf[bufpos0..bufpos], id0, useOldTableMapping)
  {
    hide DecodeBest, U32;
    var strbuf;
    strbuf, bufpos := CopyFromBuf(STRBUF_SIZE, encoded, bufpos0, buf, binsize);
    assert strbuf[..encoded] == buf[bufpos0..bufpos];
    rc, id := CcAlphaDecodeBest(strbuf[..encoded], id0, useOldTableMapping);
  }

  lemma Slices(all: seq<byte>, start: nat, end: nat, i: nat, j: nat)
    requires start <= end <= |all| && i <= j <= end - start
    ensures all[start..end][i..j] == all[start + i..start + j]
  {
    var s, t := all[start..end][i..j], all[start + i..start + j];
    assert |s| == |t| && forall k :: 0 <= k < |s| ==> s[k] == t[k];
  }

  lemma NoPadding(s: seq<byte>)
    ensures s + Zeros(0) == s
  {
  }

  lemma WireIs(c: Claim, s: seq<byte>, bufpos: nat)
    requires IsClaim(c) && CanSend(c) && EncodeBest(c.txid).value != [] && bufpos < 0x4000_0000
    requires U32(|EncodeBest(c.txid).value| - 1) == |EncodeBest(c.txid).value| - 1
    requires s == LittleEndian(c.matchNum, 8) + LittleEndian(c.amountWord, UNIFLOAT_WIRE_BYTES)
               + LittleEndian(|EncodeBest(c.txid).value| - 1, 1) + EncodeBest(c.txid).value
               + EncodeBest(c.blockId).value
    ensures s == Wire(c) && bufpos + |s| < 0x1_0000_0000
  {
    hide EncodeBest, LittleEndian, U32;
    BestLength(c.blockId);
  }

  lemma EncodedSize(encoded: seq<byte>)
    requires U32(|encoded| - 1) <= XTX_MAX_ITEM_SIZE && |encoded| < 0x1_0000_0000
    ensures U32(|encoded| - 1) == |encoded| - 1 && encoded != []
  {
  }

  lemma OneLittleByte(b: byte)
    ensures FromLittleEndian([b] + Zeros(7)) == b
  {
    assert Pow256(1) == 256 * Pow256(0);
    assert LittleEndian(b, 1) == [b % 256] + LittleEndian(b / 256, 0);
    LittleEndianInverse(b, 1, 7);
  }

  /** What a receiver makes of the bytes; the old ids matter only for malformed input. */
  function Received(s: seq<byte>, txid0: seq<byte>, blockId0: seq<byte>, useOldTableMapping: bool): Option<Claim>
    requires |s| >= 13 && 13 + (s[12] as nat + 1) <= |s|
  {
    var n := s[12] as nat + 1;
    var txid := DecodeBest(s[13..13 + n], txid0, useOldTableMapping);
    var blockId := DecodeBest(s[13 + n..], blockId0, useOldTableMapping);
    if txid.rc != 0 || blockId.rc != 0 then None
    else
      Some(Claim(FromLittleEndian(s[..8]), FromLittleEndian(s[8..12] + Zeros(4)), txid.outs, blockId.outs))
  }

  lemma ReceivedIs(s: seq<byte>, txid0: seq<byte>, blockId0: seq<byte>, useOldTableMapping: bool)
    requires |s| >= 13 && 13 + (s[12] as nat + 1) <= |s|
    ensures var n := s[12] as nat + 1;
      var txid := DecodeBest(s[13..13 + n], txid0, useOldTableMapping);
      var blockId := DecodeBest(s[13 + n..|s|], blockId0, useOldTableMapping);
      Received(s, txid0, blockId0, useOldTableMapping) ==
        if txid.rc != 0 || blockId.rc != 0 then None
        else Some(Claim(FromLittleEndian(s[..8]), FromLittleEndian(s[8..12] + Zeros(4)), txid.outs, blockId.outs))
  {
    hide DecodeBest, FromLittleEndian, Zeros;
    var n := s[12] as nat + 1;
    assert s[13 + n..|s|] == s[13 + n..];
  }

  /** Round trip: what was written is received, under either table mapping and
      whatever the receiver's fields held before. */
  lemma WireRoundTrip(c: Claim, txid0: seq<byte>, blockId0: seq<byte>, useOldTableMapping: bool)
    requires IsClaim(c) && CanSend(c) && FitsReceiver(c)
    ensures var s := Wire(c);
      && |s| >= 13 && 13 + (s[12] as nat + 1) <= |s|
      && Received(s, txid0, blockId0, useOldTableMapping) == Some(c)
  {
    hide EncodeBest, DecodeBest, LittleEndian, FromLittleEndian, U32, Zeros, Pow256;
    var txid, blockId := EncodeBest(c.txid).value, EncodeBest(c.blockId).value;
    BestLength(c.txid);
    EncodedSize(txid);
    var a, b, d := LittleEndian(c.matchNum, 8), LittleEndian(c.amountWord, 4), LittleEndian(|txid| - 1, 1);
    var s := Wire(c);
    assert s == a + b + d + txid + blockId;
    LastByte(|txid| - 1);
    SplitWire(a, b, d, txid, blockId);
    WordSizes();
    LittleEndianInverse(c.matchNum, 8, 0);
    NoPadding(a);
    LittleEndianInverse(c.amountWord, 4, 4);
    ShortEncodingDecodes(c.txid, txid0, useOldTableMapping);
    ShortEncodingDecodes(c.blockId, blockId0, useOldTableMapping);
  }

  lemma SplitWire(a: seq<byte>, b: seq<byte>, d: seq<byte>, txid: seq<byte>, blockId: seq<byte>)
    requires |a| == 8 && |b| == 4 && |d| == 1
    ensures var s := a + b + d + txid + blockId;
      && s[..8] == a && s[8..12] == b && s[12] == d[0]
      && s[13..13 + |txid|] == txid && s[13 + |txid|..] == blockId
  {
  }

  lemma LastByte(b: byte)
    ensures LittleEndian(b, 1) == [b]
  {
    assert LittleEndian(b, 1) == [b % 256] + LittleEndian(b / 256, 0);
  }

  lemma WordSizes()
    ensures Pow256(4) == 0x1_0000_0000 && Pow256(8) == 0x1_0000_0000_0000_0000
  {
    assert Pow256(4) == 256 * (256 * (256 * (256 * Pow256(0))));
    assert Pow256(8) == 256 * (256 * (256 * (256 * Pow256(4))));
  }

  /** Every claim with ids of ordinary length can be sent, fits, and is received. */
  lemma ShortIdsRoundTrip(c: Claim, txid0: seq<byte>, blockId0: seq<byte>, useOldTableMapping: bool)
    requires IsClaim(c) && 1 <= |c.txid| <= 241 && |c.blockId| <= 281
    ensures CanSend(c) && FitsReceiver(c)
    ensures var s := Wire(c);
      && |s| >= 13 && 13 + (s[12] as nat + 1) <= |s|
      && Received(s, txid0, blockId0, useOldTableMapping) == Some(c)
  {
    hide EncodeBest, DecodeBest, LittleEndian, FromLittleEndian, Zeros;
    BestRoundTrip(c.txid, txid0, useOldTableMapping);
    BestRoundTrip(c.blockId, blockId0, useOldTableMapping);
    BestLength(c.txid);
    BestLength(c.blockId);
    WireRoundTrip(c, txid0, blockId0, useOldTableMapping);
  }

  // ---- The bytes of a claim ----

  lemma {:induction false} Pow256Positive(k: nat)
    ensures Pow256(k) > 0
  {
    if k > 0 {
      Pow256Positive(k - 1);
    }
  }

  /** Byte i of x, the lowest one first. */
  function ByteAt(x: nat, i: nat): byte {
    Pow256Positive(i);
    x / Pow256(i) % 256
  }

  lemma {:induction false} LittleEndianAt(x: nat, n: nat, i: nat)
    requires i < n
    ensures LittleEndian(x, n)[i] == ByteAt(x, i)
    decreases n
  {
    if i > 0 {
      LittleEndianAt(x / 256, n - 1, i - 1);
      Pow256Positive(i - 1);
      DivideTwice(x, 256, Pow256(i - 1));
    } else {
      assert x / 1 == x;
    }
  }

  /** Byte for byte: both words with the lowest byte first, one less than the length of
      the encoded transaction id, that id, and the encoded block id. */
  lemma WireLayout(c: Claim)
    requires IsClaim(c) && CanSend(c)
    ensures var s, txid := Wire(c), EncodeBest(c.txid).value;
      && |s| >= 13 + |txid|
      && (forall i :: 0 <= i < 8 ==> s[i] == ByteAt(c.matchNum, i))
      && (forall i :: 0 <= i < 4 ==> s[8 + i] == ByteAt(c.amountWord, i))
      && s[12] as int == |txid| - 1 && s[13..13 + |txid|] == txid
      && Some(s[13 + |txid|..]) == EncodeBest(c.blockId)
  {
    hide EncodeBest, LittleEndian, U32, Pow256, ByteAt;
    var txid, blockId := EncodeBest(c.txid).value, EncodeBest(c.blockId).value;
    BestLength(c.txid);
    EncodedSize(txid);
    var a, b, d := LittleEndian(c.matchNum, 8), LittleEndian(c.amountWord, 4), LittleEndian(|txid| - 1, 1);
    LastByte(|txid| - 1);
    SplitWire(a, b, d, txid, blockId);
    var s := Wire(c);
    assert s == a + b + d + txid + blockId;
    forall i | 0 <= i < 8
      ensures s[i] == ByteAt(c.matchNum, i)
    {
      LittleEndianAt(c.matchNum, 8, i);
      assert s[..8][i] == s[i];
    }
    forall i | 0 <= i < 4
      ensures s[8 + i] == ByteAt(c.amountWord, i)
    {
      LittleEndianAt(c.amountWord, 4, i);
      assert s[8..12][i] == s[8 + i];
    }
  }

  /** A claim can be sent unless its transaction id is empty or takes more than 248 bytes,
      or one of its ids cannot be encoded. */
  lemma CanSendIff(c: Claim)
    requires IsClaim(c)
    ensures CanSend(c) <==>
      && c.txid != [] && EncodeBest(c.txid).Some? && |EncodeBest(c.txid).value| <= 248
      && EncodeBest(c.blockId).Some?
  {
    hide TrySlots;
    if EncodeBest(c.txid).Some? {
      BestLength(c.txid);
      if c.txid != [] {
        SomethingSent(c.txid);
      }
    }
  }

  lemma SomethingSent(data: seq<byte>)
    requires data != [] && EncodeBest(data).Some?
    ensures EncodeBest(data).value != []
  {
    SlotsSend(0, data);
  }

  lemma {:induction false} SlotsSend(slot: nat, data: seq<byte>)
    requires slot <= TABLES && TrySlots(slot, data).Some?
    ensures TrySlots(slot, data).value != []
    decreases TABLES - slot
  {
    hide TrySlot;
    if TrySlot(slot, data).Some? {
      SlotHeader(slot, data);
    } else {
      SlotsSend(slot + 1, data);
    }
  }

  /** What a receiver refuses: an id whose first byte is 176 or more. */
  lemma RefusedIff(s: seq<byte>, txid0: seq<byte>, blockId0: seq<byte>, useOldTableMapping: bool)
    requires |s| >= 13 && 13 + (s[12] as nat + 1) <= |s|
    ensures var n := 13 + (s[12] as nat + 1);
      Received(s, txid0, blockId0, useOldTableMapping) == None <==> s[13] >= 176 || (n < |s| && s[n] >= 176)
  {
    hide DecodeBest, FromLittleEndian;
    var n := 13 + (s[12] as nat + 1);
    RefusedId(s[13..n], txid0, useOldTableMapping);
    RefusedId(s[n..], blockId0, useOldTableMapping);
  }

  lemma RefusedId(bs: seq<byte>, outs: seq<byte>, useOldTableMapping: bool)
    ensures DecodeBest(bs, outs, useOldTableMapping).rc != 0 <==> bs != [] && bs[0] >= 176
  {
    hide U32;
    if bs != [] {
      DecodedLength(bs, outs, useOldTableMapping);
    }
  }
}
