/** The reference-counted buffers of source/cccommon/src/SmartBuf.cpp: a heap
    of buffers with counts and owning aux slots, the recursive release, and the
    handle operations. */
module SmartBuf {

  /** A buffer address; 0 is NULL. */
  type Ptr = nat

  const NULL: Ptr := 0

  /** The largest count that CheckGuard accepts. */
  const MAX_REFCOUNT: nat := 0xFFFF_0000

  /** A buffer: its count and its aux slots. Slot 0 is a plain malloc'ed pointer;
      the others own a reference to another buffer, or are NULL. */
  datatype Buf = Buf(refcount: nat, aux: seq<Ptr>)

  /** The references that the slots of a buffer own. */
  function Owned(aux: seq<Ptr>): multiset<Ptr> {
    if |aux| <= 1 then multiset{} else multiset(aux[1..])[NULL := 0]
  }

  /** The references owned by the slots of the buffers in `live` below address n. */
  function SlotRefs(bufs: map<Ptr, Buf>, live: set<Ptr>, n: nat): multiset<Ptr> {
    if n == 0 then multiset{}
    else SlotRefs(bufs, live, n - 1) + if n - 1 in bufs && n - 1 in live then Owned(bufs[n - 1].aux) else multiset{}
  }

  /** Only the aux slots of live buffers matter. */
  lemma {:induction false} SlotRefsSame(bufs: map<Ptr, Buf>, live: set<Ptr>, bufs': map<Ptr, Buf>, live': set<Ptr>,
                                        n: nat)
    requires forall b :: (b in bufs && b in live) <==> (b in bufs' && b in live')
    requires forall b :: b in bufs && b in live ==> bufs'[b].aux == bufs[b].aux
    ensures SlotRefs(bufs, live, n) == SlotRefs(bufs', live', n)
  {
    if n > 0 {
      SlotRefsSame(bufs, live, bufs', live', n - 1);
    }
  }

  /** Taking a buffer out of the live ones takes out what its slots own. */
  lemma {:induction false} SlotRefsDrop(bufs: map<Ptr, Buf>, live: set<Ptr>, p: Ptr, n: nat)
    requires p in bufs && p in live
    ensures SlotRefs(bufs, live, n) == SlotRefs(bufs, live - {p}, n) + if p < n then Owned(bufs[p].aux) else multiset{}
  {
    hide Owned;
    if n > 0 {
      SlotRefsDrop(bufs, live, p, n - 1);
      if p == n - 1 {
        assert SlotRefs(bufs, live - {p}, n) == SlotRefs(bufs, live - {p}, n - 1);
      } else {
        var last := if n - 1 in bufs && n - 1 in live then Owned(bufs[n - 1].aux) else multiset{};
        SumShuffle(SlotRefs(bufs, live - {p}, n - 1), if p < n - 1 then Owned(bufs[p].aux) else multiset{}, last);
      }
    }
  }

  lemma SumShuffle(x: multiset<Ptr>, y: multiset<Ptr>, z: multiset<Ptr>)
    ensures (x + y) + z == (x + z) + y
  {
  }

  /** Changing a live buffer's slots exchanges what they own. */
  lemma SlotRefsChange(bufs: map<Ptr, Buf>, live: set<Ptr>, p: Ptr, buf: Buf, n: nat)
    requires p in bufs && p in live && p < n
    ensures SlotRefs(bufs[p := buf], live, n) + Owned(bufs[p].aux) == SlotRefs(bufs, live, n) + Owned(buf.aux)
  {
    SlotRefsDrop(bufs, live, p, n);
    SlotRefsDrop(bufs[p := buf], live, p, n);
    SlotRefsSame(bufs, live - {p}, bufs[p := buf], live - {p}, n);
  }

  lemma {:induction false} NoSlotRefs(bufs: map<Ptr, Buf>, live: set<Ptr>, n: nat)
    requires forall b :: b in bufs && b in live ==> Owned(bufs[b].aux) == multiset{}
    ensures SlotRefs(bufs, live, n) == multiset{}
  {
    if n > 0 {
      NoSlotRefs(bufs, live, n - 1);
    }
  }

  // ---- The state of the heap, and its steps ----

  /** The buffers; the next address; every owning reference that is not in a
      slot; the buffers whose count is 0 and whose slots are being released; and
      every address ever freed. */
  datatype State = State(bufs: map<Ptr, Buf>, nextAddr: nat, refs: multiset<Ptr>, dying: set<Ptr>, freed: set<Ptr>)

  predicate Alive(s: State, p: Ptr) { p in s.bufs && p !in s.dying }

  function Live(s: State): set<Ptr> { s.bufs.Keys - s.dying }

  /** Every owning reference, in a slot or not. */
  function AllRefs(s: State): multiset<Ptr> { s.refs + SlotRefs(s.bufs, Live(s), s.nextAddr) }

  /** Every count is exact and positive, every reference leads to a live buffer,
      and no freed address is in use. */
  ghost predicate IsValid(s: State) {
    && NULL !in s.bufs && NULL !in s.refs && 0 < s.nextAddr
    && (forall p :: p in s.bufs || p in s.freed ==> p < s.nextAddr)
    && s.bufs.Keys !! s.freed && s.dying <= s.bufs.Keys
    && (forall p :: p in AllRefs(s) ==> Alive(s, p))
    && (forall p :: Alive(s, p) ==> s.bufs[p].refcount == AllRefs(s)[p] && 0 < s.bufs[p].refcount)
    && (forall p :: p in s.dying ==> s.bufs[p].refcount == 0)
  }

  /** No count is so large that one more reference would trip CheckGuard. */
  predicate IsBounded(s: State) {
    forall p :: p in s.bufs && p !in s.dying ==> s.bufs[p].refcount < MAX_REFCOUNT
  }

  function WithCount(s: State, p: Ptr, count: nat): map<Ptr, Buf>
    requires p in s.bufs
  {
    s.bufs[p := Buf(count, s.bufs[p].aux)]
  }

  /** One more reference to p outside the slots. */
  function Inc(s: State, p: Ptr): State
    requires p == NULL || p in s.bufs
  {
    if p == NULL then s
    else s.(bufs := WithCount(s, p, s.bufs[p].refcount + 1), refs := s.refs + multiset{p})
  }

  lemma IncRefs(s: State, p: Ptr)
    requires Alive(s, p) && p != NULL
    ensures AllRefs(Inc(s, p)) == AllRefs(s) + multiset{p}
  {
    var t := Inc(s, p);
    SlotRefsSame(s.bufs, Live(s), t.bufs, Live(t), s.nextAddr);
  }

  lemma IncValid(s: State, p: Ptr)
    requires IsValid(s) && Alive(s, p)
    ensures IsValid(Inc(s, p)) && AllRefs(Inc(s, p)) == AllRefs(s) + multiset{p}
  {
    hide AllRefs;
    IncRefs(s, p);
  }

  /** One reference fewer to p, which has others. */
  function Dec(s: State, p: Ptr): State
    requires p in s.bufs && s.bufs[p].refcount > 0
  {
    s.(bufs := WithCount(s, p, s.bufs[p].refcount - 1), refs := s.refs - multiset{p})
  }

  lemma DecRefs(s: State, p: Ptr)
    requires Alive(s, p) && p in s.refs && s.bufs[p].refcount > 1
    ensures AllRefs(Dec(s, p)) == AllRefs(s) - multiset{p}
  {
    var t := Dec(s, p);
    SlotRefsSame(s.bufs, Live(s), t.bufs, Live(t), s.nextAddr);
  }

  lemma RefsAreCounted(s: State, p: Ptr)
    ensures AllRefs(s)[p] >= s.refs[p]
  {
  }

  lemma DecValid(s: State, p: Ptr)
    requires IsValid(s) && Alive(s, p) && p in s.refs && s.bufs[p].refcount > 1
    ensures IsValid(Dec(s, p))
  {
    hide AllRefs;
    DecRefs(s, p);
    RefsAreCounted(s, p);
  }

  /** The last reference to p goes: what its slots own now has to be released. */
  function BeginFree(s: State, p: Ptr): State
    requires p in s.bufs
  {
    s.(bufs := WithCount(s, p, 0), refs := s.refs - multiset{p} + Owned(s.bufs[p].aux), dying := s.dying + {p})
  }

  lemma BeginFreeRefs(s: State, p: Ptr)
    requires Alive(s, p) && p in s.refs && p < s.nextAddr
    ensures AllRefs(BeginFree(s, p)) == AllRefs(s) - multiset{p}
  {
    var t := BeginFree(s, p);
    SlotRefsDrop(s.bufs, Live(s), p, s.nextAddr);
    assert Live(t) == Live(s) - {p};
    SlotRefsSame(s.bufs, Live(s) - {p}, t.bufs, Live(t), s.nextAddr);
  }

  lemma BeginFreeValid(s: State, p: Ptr)
    requires IsValid(s) && Alive(s, p) && p in s.refs && s.bufs[p].refcount == 1
    ensures IsValid(BeginFree(s, p))
  {
    hide AllRefs;
    BeginFreeRefs(s, p);
    RefsAreCounted(s, p);
    var all := AllRefs(BeginFree(s, p));
    assert p !in all;
    OwnedIsNotNull(s.bufs[p].aux);
  }

  lemma OwnedIsNotNull(aux: seq<Ptr>)
    ensures NULL !in Owned(aux)
  {
  }

  /** The memory of a dying buffer is given back. */
  function EndFree(s: State, p: Ptr): State {
    s.(bufs := s.bufs - {p}, dying := s.dying - {p}, freed := s.freed + {p})
  }

  lemma EndFreeRefs(s: State, p: Ptr)
    requires p in s.dying
    ensures AllRefs(EndFree(s, p)) == AllRefs(s)
  {
    var t := EndFree(s, p);
    assert Live(t) == Live(s);
    SlotRefsSame(s.bufs, Live(s), t.bufs, Live(t), s.nextAddr);
  }

  lemma EndFreeValid(s: State, p: Ptr)
    requires IsValid(s) && p in s.dying
    ensures IsValid(EndFree(s, p))
  {
    hide AllRefs;
    EndFreeRefs(s, p);
  }

  /** A new buffer with one reference and no slots. */
  function Alloc(s: State): State {
    s.(bufs := s.bufs[s.nextAddr := Buf(1, [])], nextAddr := s.nextAddr + 1, refs := s.refs + multiset{s.nextAddr})
  }

  lemma AllocRefs(s: State)
    requires s.nextAddr !in s.bufs && s.nextAddr !in s.dying
    ensures AllRefs(Alloc(s)) == AllRefs(s) + multiset{s.nextAddr}
  {
    var t, p := Alloc(s), s.nextAddr;
    SlotRefsDrop(t.bufs, Live(t), p, p);
    assert Live(t) - {p} == Live(s);
    SlotRefsSame(s.bufs, Live(s), t.bufs, Live(s), p);
  }

  lemma AllocValid(s: State)
    requires IsValid(s)
    ensures IsValid(Alloc(s))
  {
    hide AllRefs;
    AllocRefs(s);
    var p := s.nextAddr;
    assert p !in s.bufs && p !in AllRefs(s);
    forall q | Alive(Alloc(s), q)
      ensures Alloc(s).bufs[q].refcount == AllRefs(Alloc(s))[q] && 0 < Alloc(s).bufs[q].refcount
    {
      if q != p {
        assert Alive(s, q);
      }
    }
  }

  /** Slot i of the live buffer p gives up what it owned to the caller and takes
      over the caller's reference to q. */
  function Swap(s: State, p: Ptr, i: nat, q: Ptr): State
    requires p in s.bufs && i < |s.bufs[p].aux|
  {
    var was := s.bufs[p].aux[i];
    s.(bufs := s.bufs[p := Buf(s.bufs[p].refcount, s.bufs[p].aux[i := q])],
       refs := (s.refs - multiset{q} + multiset{was})[NULL := 0])
  }

  lemma SwapRefs(s: State, p: Ptr, i: nat, q: Ptr)
    requires Alive(s, p) && p < s.nextAddr && 1 <= i < |s.bufs[p].aux| && (q == NULL || q in s.refs) && NULL !in s.refs
    ensures AllRefs(Swap(s, p, i, q)) == AllRefs(s)
  {
    var t, was := Swap(s, p, i, q), s.bufs[p].aux[i];
    SlotRefsChange(s.bufs, Live(s), p, t.bufs[p], s.nextAddr);
    OwnedChange(s.bufs[p].aux, i, q);
    assert Live(t) == Live(s);
    var x, y := SlotRefs(s.bufs, Live(s), s.nextAddr), SlotRefs(t.bufs, Live(t), s.nextAddr);
    var gone, got := multiset{was}[NULL := 0], multiset{q}[NULL := 0];
    assert y + gone == x + got by { ExchangeOwned(x, y, Owned(s.bufs[p].aux), Owned(t.bufs[p].aux), gone, got); }
    assert t.refs + got == s.refs + gone;
    ExchangeRefs(x, y, s.refs, t.refs, gone, got);
  }

  lemma ExchangeOwned(x: multiset<Ptr>, y: multiset<Ptr>, a: multiset<Ptr>, b: multiset<Ptr>,
                      gone: multiset<Ptr>, got: multiset<Ptr>)
    requires y + a == x + b && b + gone == a + got
    ensures y + gone == x + got
  {
    forall r: Ptr
      ensures (y + gone)[r] == (x + got)[r]
    {
      assert (y + a)[r] == (x + b)[r] && (b + gone)[r] == (a + got)[r];
    }
  }

  lemma ExchangeRefs(x: multiset<Ptr>, y: multiset<Ptr>, r: multiset<Ptr>, t: multiset<Ptr>,
                     gone: multiset<Ptr>, got: multiset<Ptr>)
    requires y + gone == x + got && t + got == r + gone
    ensures t + y == r + x
  {
    forall q: Ptr
      ensures (t + y)[q] == (r + x)[q]
    {
      assert (y + gone)[q] == (x + got)[q] && (t + got)[q] == (r + gone)[q];
    }
  }

  lemma SwapValid(s: State, p: Ptr, i: nat, q: Ptr)
    requires IsValid(s) && Alive(s, p) && 1 <= i < |s.bufs[p].aux| && (q == NULL || q in s.refs)
    ensures IsValid(Swap(s, p, i, q)) && AllRefs(Swap(s, p, i, q)) == AllRefs(s)
    ensures s.bufs[p].aux[i] != NULL ==> s.bufs[p].aux[i] in Swap(s, p, i, q).refs
  {
    hide AllRefs;
    SwapRefs(s, p, i, q);
  }

  lemma OwnedChange(aux: seq<Ptr>, i: nat, q: Ptr)
    requires 1 <= i < |aux|
    ensures Owned(aux[i := q]) + multiset{aux[i]}[NULL := 0] == Owned(aux) + multiset{q}[NULL := 0]
  {
    assert aux[i := q][1..] == aux[1..][i - 1 := q];
  }

  // ---- The heap ----

  /** From s to t buffers may only disappear, and those that do are freed. */
  predicate Shrunk(s: State, t: State) {
    && t.bufs.Keys <= s.bufs.Keys && t.freed == s.freed + (s.bufs.Keys - t.bufs.Keys) && t.nextAddr == s.nextAddr
    && (forall p :: p in t.bufs ==> t.bufs[p].aux == s.bufs[p].aux)
    && (forall p :: p in s.dying ==> p in t.bufs && t.bufs[p] == s.bufs[p])
  }

  lemma ShrunkTrans(s: State, t: State, u: State)
    requires Shrunk(s, t) && Shrunk(t, u) && s.dying <= t.dying
    ensures Shrunk(s, u)
  {
  }

  // ---- What a buffer leads to ----

  predicate SlotsIn(aux: seq<Ptr>, reach: set<Ptr>) {
    forall i :: 1 <= i < |aux| && aux[i] != NULL ==> aux[i] in reach
  }

  /** The slots of the live buffers in reach lead nowhere else. */
  predicate IsClosed(s: State, reach: set<Ptr>) {
    forall p :: p in s.bufs && p !in s.dying && p in reach ==> SlotsIn(s.bufs[p].aux, reach)
  }

  /** Nothing outside reach has gone. */
  predicate OnlyFrom(s: State, t: State, reach: set<Ptr>) { s.bufs.Keys - reach <= t.bufs.Keys }

  lemma ClosedShrunk(s: State, t: State, reach: set<Ptr>)
    requires IsClosed(s, reach) && Shrunk(s, t) && s.dying <= t.dying
    ensures IsClosed(t, reach)
  {
    hide SlotsIn;
  }

  lemma ClosedSteps(s: State, p: Ptr, reach: set<Ptr>)
    requires IsClosed(s, reach) && Alive(s, p) && p in reach
    ensures SlotsIn(s.bufs[p].aux, reach)
    ensures IsClosed(Inc(s, p), reach) && IsClosed(BeginFree(s, p), reach)
  {
    hide SlotsIn;
  }

  /** Everything is in the set of all buffers. */
  lemma AllClosed(s: State)
    requires IsValid(s)
    ensures IsClosed(s, s.bufs.Keys)
  {
    hide AllRefs;
    forall p, i | Alive(s, p) && 1 <= i < |s.bufs[p].aux| && s.bufs[p].aux[i] != NULL
      ensures s.bufs[p].aux[i] in s.bufs
    {
      SlotIsRef(s, p, i);
    }
  }

  lemma SlotIsRef(s: State, p: Ptr, i: nat)
    requires Alive(s, p) && p < s.nextAddr && 1 <= i < |s.bufs[p].aux| && s.bufs[p].aux[i] != NULL
    ensures s.bufs[p].aux[i] in AllRefs(s)
  {
    SlotRefsDrop(s.bufs, Live(s), p, s.nextAddr);
    assert s.bufs[p].aux[i] in s.bufs[p].aux[1..] by {
      assert s.bufs[p].aux[1..][i - 1] == s.bufs[p].aux[i];
    }
    assert s.bufs[p].aux[i] in Owned(s.bufs[p].aux);
  }

  lemma OnlyFromSelf(s: State, reach: set<Ptr>)
    ensures OnlyFrom(s, s, reach)
  {
  }

  lemma OnlyFromTrans(s: State, t: State, u: State, reach: set<Ptr>)
    requires OnlyFrom(s, t, reach) && OnlyFrom(t, u, reach)
    ensures OnlyFrom(s, u, reach)
  {
  }

  /** Bounded, except that p may have reached the largest count. */
  predicate IsBoundedBut(s: State, p: Ptr) {
    forall q :: q in s.bufs && q !in s.dying ==> s.bufs[q].refcount < MAX_REFCOUNT + if q == p then 1 else 0
  }

  /** The references still to be released from slot i of a dying buffer on. */
  function Remaining(aux: seq<Ptr>, i: nat): multiset<Ptr>
    requires i <= |aux|
  {
    multiset(aux[i..])[NULL := 0]
  }

  lemma RemainingStep(aux: seq<Ptr>, i: nat)
    requires i < |aux|
    ensures Remaining(aux, i) == Remaining(aux, i + 1) + One(aux[i])
  {
    assert aux[i..] == [aux[i]] + aux[i + 1..];
  }

  /** The reference that a pointer holds. */
  function One(p: Ptr): multiset<Ptr> { if p == NULL then multiset{} else multiset{p} }

  class Heap {
    var bufs: map<Ptr, Buf>
    var objcount: int
    var nextAddr: nat
    ghost var refs: multiset<Ptr>
    ghost var dying: set<Ptr>
    ghost var freed: set<Ptr>

    ghost function Now(): State
      reads this
    {
      State(bufs, nextAddr, refs, dying, freed)
    }

    ghost predicate Valid()
      reads this
    {
      IsValid(Now()) && objcount == |bufs|
    }

    constructor ()
      ensures Valid() && Now() == State(map[], 1, multiset{}, {}, {})
    {
      bufs, objcount, nextAddr, refs, dying, freed := map[], 0, 1, multiset{}, {}, {};
      new;
      NoSlotRefs(bufs, Live(Now()), 1);
    }

    /** Takes fresh, zeroed memory. */
    method Malloc() returns (p: Ptr)
      requires Valid()
      modifies this
      ensures Valid() && Now() == Alloc(old(Now())) && p == old(nextAddr) && objcount == old(objcount) + 1
    {
      hide IsValid, SlotRefs;
      FreshAddress(Now());
      AllocValid(Now());
      p := nextAddr;
      bufs := bufs[p := Buf(1, [])];
      nextAddr := nextAddr + 1;
      refs := refs + multiset{p};
      objcount := objcount + 1;
    }

    /** One more reference, which the caller holds. */
    method IncRef(p: Ptr)
      requires Valid() && (p != NULL ==> Alive(Now(), p) && bufs[p].refcount < MAX_REFCOUNT)
      modifies this
      ensures Valid() && Now() == Inc(old(Now()), p)
    {
      hide IsValid, AllRefs, SlotRefs;
      if p == NULL {
        return;
      }
      IncValid(Now(), p);
      var refcount := bufs[p].refcount + 1;
      KeysUpdate(bufs, p, Buf(refcount, bufs[p].aux));
      bufs := bufs[p := Buf(refcount, bufs[p].aux)];
      refs := refs + multiset{p};
      assert 1 <= refcount <= MAX_REFCOUNT;
    }

    /** Slot i of p takes over the caller's reference to q, and the caller the
        reference that was in the slot. */
    method StoreSlot(p: Ptr, i: nat, q: Ptr)
      requires Valid() && Alive(Now(), p) && 1 <= i < |bufs[p].aux| && (q == NULL || q in refs)
      modifies this
      ensures Valid() && Now() == Swap(old(Now()), p, i, q)
    {
      hide IsValid, AllRefs;
      SwapValid(Now(), p, i, q);
      ghost var t := Swap(Now(), p, i, q);
      KeysUpdate(bufs, p, t.bufs[p]);
      bufs := bufs[p := Buf(bufs[p].refcount, bufs[p].aux[i := q])];
      refs := t.refs;
    }

    /** Decrements p's count; when it reaches 0, the references that its slots own
        are the caller's to release. */
    method Decrement(p: Ptr) returns (refcount: nat)
      requires Valid() && IsBoundedBut(Now(), p) && p in refs && p in bufs
      modifies this
      ensures Valid() && IsBounded(Now()) && refcount + 1 == old(bufs[p].refcount)
      ensures Now() == if refcount > 0 then Dec(old(Now()), p) else BeginFree(old(Now()), p)
      ensures Live(Now()) <= old(Live(Now())) && (refcount == 0 ==> Live(Now()) < old(Live(Now())))
      ensures refcount > 0 ==> Shrunk(old(Now()), Now())
    {
      hide IsValid, SlotRefs, AllRefs, Owned, Shrunk, IsBounded, IsBoundedBut;
      ghost var s := Now();
      InRefsIsAlive(s, p);
      AtMostMax(s, p);
      assert 1 <= bufs[p].refcount <= MAX_REFCOUNT;
      refcount := bufs[p].refcount - 1;
      var aux := bufs[p].aux;
      KeysUpdate(bufs, p, Buf(refcount, aux));
      bufs := bufs[p := Buf(refcount, aux)];
      refs := refs - multiset{p};
      if refcount > 0 {
        assert Now() == Dec(s, p);
        DecValid(s, p);
        DecShrunk(s, p);
        ShrunkLive(s, Now());
      } else {
        BeginFreeValid(s, p);
        BeginFreeBounded(s, p);
        refs := refs + Owned(aux);
        dying := dying + {p};
        assert Now() == BeginFree(s, p);
      }
    }

    /** Gives one reference back; the last one frees the buffer, after releasing
        what its slots own. Whatever set p leads to, nothing outside it goes. */
    method DecRef(p: Ptr, ghost reach: set<Ptr>)
      requires Valid() && IsBoundedBut(Now(), p) && (p != NULL ==> p in refs)
      requires IsClosed(Now(), reach) && (p != NULL ==> p in reach)
      modifies this
      ensures Valid() && IsBounded(Now())
      ensures refs == old(refs) - One(p) && dying == old(dying) && Shrunk(old(Now()), Now())
      ensures OnlyFrom(old(Now()), Now(), reach)
      decreases Live(Now()), 0
    {
      hide IsValid, SlotRefs, AllRefs, Owned, Shrunk, IsBounded, IsBoundedBut, IsClosed, OnlyFrom;
      ghost var s := Now();
      OnlyFromSelf(s, reach);
      if p == NULL {
        NullHoldsNothing(s);
        return;
      }
      InRefsIsAlive(s, p);
      ClosedSteps(s, p, reach);
      var aux := bufs[p].aux;
      var refcount := Decrement(p);
      SameKeysOnly(s, p, Now(), refcount, reach);
      if refcount == 0 {
        assert s.dying + {p} - {p} == s.dying;
        ghost var t := Now();
        Free(p, aux, reach);
        FreeShrunk(s, p, Now());
        OnlyFromTrans(s, t, Now(), reach);
        assert s.refs - multiset{p} + Owned(aux) - Owned(aux) == s.refs - multiset{p};
      }
    }

    /** Frees the dying buffer p, once what its slots own is released. */
    method Free(p: Ptr, aux: seq<Ptr>, ghost reach: set<Ptr>)
      requires Valid() && IsBounded(Now()) && p in dying && p in bufs && bufs[p].aux == aux && Owned(aux) <= refs
      requires IsClosed(Now(), reach) && SlotsIn(aux, reach) && p in reach
      modifies this
      ensures OnlyFrom(old(Now()), Now(), reach)
      ensures Valid() && IsBounded(Now())
      ensures refs == old(refs) - Owned(aux) && dying == old(dying) - {p}
      ensures Shrunk(old(Now()).(dying := old(dying) - {p}), Now())
      decreases Live(Now()), 3
    {
      hide IsValid, SlotRefs, AllRefs, Owned, Shrunk, IsBounded, IsBoundedBut, IsClosed, OnlyFrom, SlotsIn;
      ghost var s := Now();
      ReleaseSlots(p, aux, reach);
      ghost var t := Now();
      EndFreeValid(t, p);
      EndFreeShrunk(s, t, p);
      EndFreeOnly(s, t, p, reach);
      RemoveKey(bufs, p);
      bufs := bufs - {p};
      objcount := objcount - 1;
      dying := dying - {p};
      freed := freed + {p};
    }

    /** Releases the references that the slots of the dying buffer p own. */
    method ReleaseSlots(p: Ptr, aux: seq<Ptr>, ghost reach: set<Ptr>)
      requires Valid() && IsBounded(Now()) && p in dying && bufs[p].aux == aux && Owned(aux) <= refs
      requires IsClosed(Now(), reach) && SlotsIn(aux, reach)
      modifies this
      ensures Valid() && IsBounded(Now())
      ensures refs == old(refs) - Owned(aux) && dying == old(dying) && Shrunk(old(Now()), Now())
      ensures OnlyFrom(old(Now()), Now(), reach)
      decreases Live(Now()), 2
    {
      hide IsValid, SlotRefs, AllRefs, Owned, Remaining, Shrunk, IsBounded, IsBoundedBut, IsClosed, OnlyFrom;
      var naux := |aux|;
      ShrunkSelf(Now());
      OnlyFromSelf(Now(), reach);
      OwnedIsRemaining(aux);
      if naux == 0 {
        return;
      }
      ghost var rest := refs - Owned(aux);
      for i := 1 to naux
        invariant Valid() && IsBounded(Now()) && dying == old(dying) && Shrunk(old(Now()), Now())
        invariant refs == rest + Remaining(aux, i)
        invariant Live(Now()) <= old(Live(Now()))
        invariant IsClosed(Now(), reach) && OnlyFrom(old(Now()), Now(), reach)
      {
        RemainingStep(aux, i);
        if aux[i] != NULL {
          ghost var s := Now();
          ReleaseOne(aux[i], reach);
          ShrunkLive(s, Now());
          ShrunkTrans(old(Now()), s, Now());
          ClosedShrunk(s, Now(), reach);
          OnlyFromTrans(old(Now()), s, Now(), reach);
        }
      }
    }

    /** A handle made from a pointer in a slot, which gives the slot's reference
        back and then its own. */
    method ReleaseOne(p: Ptr, ghost reach: set<Ptr>)
      requires Valid() && IsBounded(Now()) && p in refs && IsClosed(Now(), reach) && p in reach
      modifies this
      ensures Valid() && IsBounded(Now())
      ensures refs == old(refs) - multiset{p} && dying == old(dying) && Shrunk(old(Now()), Now())
      ensures OnlyFrom(old(Now()), Now(), reach)
      decreases Live(Now()), 1
    {
      hide IsValid, SlotRefs, AllRefs, Owned, Shrunk, IsBounded, IsBoundedBut, IsClosed, OnlyFrom;
      ghost var s := Now();
      NullIsNotHeld(s);
      InRefsIsAlive(s, p);
      AllBounded(s, p);
      ClosedSteps(s, p, reach);
      IncRef(p);
      ghost var t := Now();
      assert Live(t) == Live(s);
      DecRef(p, reach);
      ghost var u := Now();
      ShrunkLive(t, u);
      AllBounded(u, p);
      ClosedShrunk(t, u, reach);
      DecRef(p, reach);
      ShrunkTrans(t, u, Now());
      OnlyFromTrans(t, u, Now(), reach);
      OnlyFromInc(s, p, Now(), reach);
      ShrunkInc(s, p, Now());
    }

    /** Slot i of p gets a new reference to q, and the one it had is given back. */
    method ExchangeSlot(p: Ptr, i: nat, q: Ptr)
      requires Valid() && IsBounded(Now()) && p in refs && p in bufs && 1 <= i < |bufs[p].aux|
      requires q != NULL ==> q in refs && q in bufs && bufs[q].refcount + 1 < MAX_REFCOUNT
      modifies this
      ensures Valid() && IsBounded(Now()) && refs == old(refs) && dying == old(dying)
      ensures bufs.Keys <= old(bufs.Keys) && p in bufs && bufs[p].aux == old(bufs[p].aux)[i := q]
    {
      hide IsValid, SlotRefs, AllRefs, Owned, Shrunk, IsBounded, IsBoundedBut, Swap;
      ghost var before := refs;
      var was := PutSlot(p, i, q);
      ghost var u := Now();
      if was != NULL {
        AllClosed(u);
        InRefsIsAlive(u, was);
        ReleaseOne(was, u.bufs.Keys);
        ShrunkKeys(u, Now());
      }
      InRefsIsAlive(Now(), p);
    }

    /** Slot i of p gets a new reference to q; the caller has the one it had. */
    method PutSlot(p: Ptr, i: nat, q: Ptr) returns (was: Ptr)
      requires Valid() && IsBounded(Now()) && p in refs && p in bufs && 1 <= i < |bufs[p].aux|
      requires q != NULL ==> q in refs && q in bufs && bufs[q].refcount + 1 < MAX_REFCOUNT
      modifies this
      ensures Valid() && IsBounded(Now()) && dying == old(dying)
      ensures refs - One(was) == old(refs) && (was != NULL ==> was in refs)
      ensures bufs.Keys == old(bufs.Keys) && p in bufs && bufs[p].aux == old(bufs[p].aux)[i := q]
    {
      hide IsValid, SlotRefs, AllRefs, Owned, Shrunk, IsBounded, IsBoundedBut, Swap, Inc, One;
      ghost var s := Now();
      was := bufs[p].aux[i];
      PutFacts(s, p, i, q);
      IncRef(q);
      StoreSlot(p, i, q);
    }
  }

  lemma SameKeysOnly(s: State, p: Ptr, t: State, refcount: nat, reach: set<Ptr>)
    requires Alive(s, p) && s.bufs[p].refcount > 0 && t == if refcount > 0 then Dec(s, p) else BeginFree(s, p)
    ensures OnlyFrom(s, t, reach)
  {
  }

  lemma OnlyFromInc(s: State, p: Ptr, t: State, reach: set<Ptr>)
    requires Alive(s, p) && OnlyFrom(Inc(s, p), t, reach)
    ensures OnlyFrom(s, t, reach)
  {
    assert Inc(s, p).bufs.Keys == s.bufs.Keys;
  }

  lemma EndFreeOnly(s: State, t: State, p: Ptr, reach: set<Ptr>)
    requires OnlyFrom(s, t, reach) && p in reach
    ensures OnlyFrom(s, EndFree(t, p), reach)
  {
  }

  lemma PutAlive(s: State, p: Ptr, i: nat, q: Ptr)
    requires IsValid(s) && p in s.refs && p in s.bufs && 1 <= i < |s.bufs[p].aux|
    requires q != NULL ==> q in s.refs && q in s.bufs
    ensures Alive(s, p) && (q != NULL ==> Alive(s, q))
    ensures var t := Inc(s, q);
      && Alive(t, p) && t.bufs[p].aux == s.bufs[p].aux && t.bufs.Keys == s.bufs.Keys
      && t.dying == s.dying && (q == NULL || q in t.refs)
  {
    InRefsIsAlive(s, p);
    if q != NULL {
      InRefsIsAlive(s, q);
    }
  }

  lemma PutFacts(s: State, p: Ptr, i: nat, q: Ptr)
    requires IsValid(s) && IsBounded(s) && p in s.refs && p in s.bufs && 1 <= i < |s.bufs[p].aux|
    requires q != NULL ==> q in s.refs && q in s.bufs && s.bufs[q].refcount + 1 < MAX_REFCOUNT
    ensures Alive(s, p) && (q != NULL ==> Alive(s, q))
    ensures var t := Inc(s, q);
      && Alive(t, p) && t.bufs[p].aux == s.bufs[p].aux && t.bufs.Keys == s.bufs.Keys
      && t.dying == s.dying && (q == NULL || q in t.refs)
    ensures var u, was := Swap(Inc(s, q), p, i, q), s.bufs[p].aux[i];
      && IsBounded(u) && u.dying == s.dying
      && u.refs - One(was) == s.refs && (was != NULL ==> was in u.refs)
      && u.bufs.Keys == s.bufs.Keys && p in u.bufs && u.bufs[p].aux == s.bufs[p].aux[i := q]
  {
    hide IsValid, IsBounded, Inc, One;
    PutAlive(s, p, i, q);
    StaysBounded(s, q);
    var t := Inc(s, q);
    StoreBounded(t, p, i, q);
    SwapRefsOf(t, p, i, q);
    IncRefsOf(s, q);
    NullIsNotHeld(s);
    SwapBalance(s.refs, q, s.bufs[p].aux[i]);
  }

  lemma IncRefsOf(s: State, q: Ptr)
    requires q == NULL || q in s.bufs
    ensures Inc(s, q).refs == s.refs + One(q)
  {
  }

  lemma SwapRefsOf(t: State, p: Ptr, i: nat, q: Ptr)
    requires p in t.bufs && i < |t.bufs[p].aux|
    ensures Swap(t, p, i, q).refs == (t.refs - multiset{q} + multiset{t.bufs[p].aux[i]})[NULL := 0]
    ensures Swap(t, p, i, q).bufs.Keys == t.bufs.Keys
    ensures Swap(t, p, i, q).bufs[p].aux == t.bufs[p].aux[i := q]
  {
  }

  lemma FreshAddress(s: State)
    requires IsValid(s)
    ensures s.nextAddr !in s.bufs && |s.bufs[s.nextAddr := Buf(1, [])]| == |s.bufs| + 1
  {
    var t := s.bufs[s.nextAddr := Buf(1, [])];
    assert t.Keys == s.bufs.Keys + {s.nextAddr};
    assert |t.Keys| == |t| && |s.bufs.Keys| == |s.bufs|;
  }

  lemma ShrunkSelf(s: State)
    requires IsValid(s)
    ensures Shrunk(s, s)
  {
  }

  lemma OwnedIsRemaining(aux: seq<Ptr>)
    ensures |aux| >= 1 ==> Owned(aux) == Remaining(aux, 1)
    ensures |aux| == 0 ==> Owned(aux) == multiset{}
    ensures Remaining(aux, |aux|) == multiset{}
  {
  }

  /** A bounded heap leaves room for one more reference to a live buffer. */
  lemma AllBounded(s: State, p: Ptr)
    requires IsBounded(s)
    ensures Alive(s, p) ==> s.bufs[p].refcount < MAX_REFCOUNT && IsBoundedBut(Inc(s, p), p)
    ensures IsBoundedBut(s, p)
  {
  }

  lemma ShrunkInc(s: State, p: Ptr, t: State)
    requires IsValid(s) && Alive(s, p) && Shrunk(Inc(s, p), t)
    ensures Shrunk(s, t)
  {
  }

  lemma ShrunkLive(s: State, t: State)
    requires Shrunk(s, t) && s.dying == t.dying
    ensures Live(t) <= Live(s)
  {
  }

  lemma NullHoldsNothing(s: State)
    requires IsValid(s) && IsBoundedBut(s, NULL)
    ensures IsBounded(s) && Shrunk(s, s)
  {
  }

  lemma DecShrunk(s: State, p: Ptr)
    requires IsValid(s) && Alive(s, p) && s.bufs[p].refcount > 1 && IsBoundedBut(s, p)
    ensures IsBounded(Dec(s, p)) && Shrunk(s, Dec(s, p))
  {
    KeysUpdate(s.bufs, p, Buf(s.bufs[p].refcount - 1, s.bufs[p].aux));
  }

  lemma BeginFreeBounded(s: State, p: Ptr)
    requires IsValid(s) && Alive(s, p) && IsBoundedBut(s, p)
    ensures IsBounded(BeginFree(s, p)) && Live(BeginFree(s, p)) < Live(s)
  {
    assert p in Live(s) && p !in Live(BeginFree(s, p));
  }

  lemma EndFreeShrunk(s: State, t: State, p: Ptr)
    requires IsValid(t) && p in s.dying && p in s.bufs && Shrunk(s, t) && t.dying == s.dying && IsBounded(t)
    ensures p in t.bufs && IsBounded(EndFree(t, p)) && Shrunk(s.(dying := s.dying - {p}), EndFree(t, p))
  {
    assert EndFree(t, p).bufs.Keys == t.bufs.Keys - {p};
  }

  lemma FreeShrunk(s: State, p: Ptr, t: State)
    requires Alive(s, p) && Shrunk(BeginFree(s, p).(dying := s.dying), t)
    ensures Shrunk(s, t)
  {
    assert BeginFree(s, p).bufs.Keys == s.bufs.Keys;
  }

  lemma AtMostMax(s: State, p: Ptr)
    requires Alive(s, p) && IsBoundedBut(s, p)
    ensures s.bufs[p].refcount <= MAX_REFCOUNT
  {
  }

  lemma NullIsNotHeld(s: State)
    requires IsValid(s)
    ensures NULL !in s.refs
  {
  }

  lemma ShrunkKeys(s: State, t: State)
    ensures Shrunk(s, t) ==> t.bufs.Keys <= s.bufs.Keys && forall p :: p in t.bufs ==> t.bufs[p].aux == s.bufs[p].aux
  {
  }

  lemma StaysBounded(s: State, q: Ptr)
    requires IsBounded(s) && (q != NULL ==> Alive(s, q) && s.bufs[q].refcount + 1 < MAX_REFCOUNT)
    ensures IsBounded(Inc(s, q)) && (q != NULL ==> s.bufs[q].refcount < MAX_REFCOUNT)
  {
  }

  lemma StoreBounded(s: State, p: Ptr, i: nat, q: Ptr)
    requires IsBounded(s) && Alive(s, p) && i < |s.bufs[p].aux|
    ensures IsBounded(Swap(s, p, i, q))
  {
  }

  /** Storing q and giving the old content back leaves the other references as they were. */
  lemma SwapBalance(refs: multiset<Ptr>, q: Ptr, was: Ptr)
    requires NULL !in refs
    ensures (refs + One(q) - multiset{q} + multiset{was})[NULL := 0] - One(was) == refs
    ensures was != NULL ==> was in (refs + One(q) - multiset{q} + multiset{was})[NULL := 0]
  {
  }

  lemma InRefsIsAlive(s: State, p: Ptr)
    requires IsValid(s) && p in s.refs
    ensures Alive(s, p) && s.bufs[p].refcount > 0
  {
    RefsAreCounted(s, p);
  }

  lemma RemoveKey(bufs: map<Ptr, Buf>, p: Ptr)
    requires p in bufs
    ensures |bufs - {p}| == |bufs| - 1
  {
    assert (bufs - {p}).Keys == bufs.Keys - {p};
    assert |(bufs - {p}).Keys| == |bufs - {p}| && |bufs.Keys| == |bufs|;
  }

  lemma KeysUpdate(bufs: map<Ptr, Buf>, p: Ptr, buf: Buf)
    requires p in bufs
    ensures bufs[p := buf].Keys == bufs.Keys && |bufs[p := buf]| == |bufs|
  {
    assert bufs[p := buf].Keys == bufs.Keys;
    assert |bufs[p := buf].Keys| == |bufs[p := buf]| && |bufs.Keys| == |bufs|;
  }
}
