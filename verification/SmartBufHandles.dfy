/** The handle operations of source/cccommon/src/SmartBuf.cpp: constructors,
    assignments, clearing, and the exchange of an aux slot. */
module SmartBufHandles {
  import opened SmartBuf

  /** The references that a table of handles holds. */
  function HandleRefs(handles: seq<Ptr>): multiset<Ptr> { multiset(handles)[NULL := 0] }

  lemma HandleUpdate(handles: seq<Ptr>, h: nat, p: Ptr)
    requires h < |handles|
    ensures HandleRefs(handles[h := p]) + One(handles[h]) == HandleRefs(handles) + One(p)
    ensures HandleRefs(handles[h := p]) == HandleRefs(handles) - One(handles[h]) + One(p)
    ensures One(handles[h]) <= HandleRefs(handles)
  {
    var was := handles[h];
    assert multiset(handles[h := p]) == multiset(handles) - multiset{was} + multiset{p};
    assert was in multiset(handles);
    NullFree(multiset(handles), was, p);
  }

  lemma NullFree(m: multiset<Ptr>, was: Ptr, p: Ptr)
    requires was in m
    ensures var after := (m - multiset{was} + multiset{p})[NULL := 0];
      && after + One(was) == m[NULL := 0] + One(p)
      && after == m[NULL := 0] - One(was) + One(p)
      && One(was) <= m[NULL := 0]
  {
  }

  lemma HandleAppend(handles: seq<Ptr>, p: Ptr)
    ensures HandleRefs(handles + [p]) == HandleRefs(handles) + One(p)
  {
  }

  /** A handle other than h keeps what it points to alive when h gives its reference up. */
  lemma OtherHandle(handles: seq<Ptr>, h: nat, g: nat)
    requires h < |handles| && g < |handles| && handles[g] != NULL && g != h
    ensures handles[g] in HandleRefs(handles) - One(handles[h])
  {
    var rest := handles[h := NULL];
    HandleUpdate(handles, h, NULL);
    assert rest[g] == handles[g];
    assert handles[g] in HandleRefs(rest);
    assert HandleRefs(rest) == HandleRefs(handles) - One(handles[h]);
  }

  /** A slot of b owns a reference to p. */
  predicate LeadsTo(s: State, b: Ptr, p: Ptr) {
    b in s.bufs && p != NULL && exists i :: 1 <= i < |s.bufs[b].aux| && s.bufs[b].aux[i] == p
  }

  predicate IsPath(s: State, path: seq<Ptr>) {
    forall k :: 0 < k < |path| ==> LeadsTo(s, path[k - 1], path[k])
  }

  lemma PathStart(s: State, path: seq<Ptr>)
    requires IsValid(s) && IsPath(s, path) && path != [] && path[|path| - 1] != NULL
    ensures path[0] != NULL
  {
    if |path| > 1 {
      assert LeadsTo(s, path[0], path[1]);
    }
  }

  lemma IncKeeps(s: State, p: Ptr)
    requires p == NULL || p in s.bufs
    ensures var t := Inc(s, p); t.refs == s.refs + One(p) && t.bufs.Keys == s.bufs.Keys && t.dying == s.dying
  {
  }

  /** When references are given back, a path from one that is left stays alive. */
  lemma {:induction false} KeptAlive(s: State, t: State, path: seq<Ptr>, k: nat)
    requires IsValid(t) && Shrunk(s, t) && IsPath(s, path) && k < |path| && path[0] in t.refs
    ensures Alive(t, path[k])
  {
    if k == 0 {
      InRefsIsAlive(t, path[0]);
    } else {
      KeptAlive(s, t, path, k - 1);
      var b := path[k - 1];
      assert LeadsTo(s, b, path[k]);
      var i :| 1 <= i < |s.bufs[b].aux| && s.bufs[b].aux[i] == path[k];
      SlotIsRef(t, b, i);
    }
  }

  /** The handles of a program, by number; a dead or empty handle is NULL. */
  class Handles {
    const heap: Heap
    var handles: seq<Ptr>

    /** Each live buffer's count is exactly its handles plus its owning slots. */
    ghost predicate Valid()
      reads this, heap
    {
      heap.Valid() && heap.dying == {} && heap.refs == HandleRefs(handles)
    }

    ghost predicate Holds(h: nat)
      reads this
    {
      h < |handles| && handles[h] != NULL
    }

    constructor (heap: Heap)
      requires heap.Valid() && heap.Now() == State(map[], 1, multiset{}, {}, {})
      ensures Valid() && handles == [] && this.heap == heap
    {
      this.heap := heap;
      handles := [];
    }

    /** SmartBuf(size_t): a buffer of its own, or NULL for a size of 0 or over
        258 MB and when malloc fails. */
    method Create(bufsize: nat, mallocOk: bool) returns (h: nat)
      requires Valid()
      modifies this, heap
      ensures Valid() && h == |old(handles)|
      ensures var ok := 0 < bufsize <= 258 * 1024 * 1024 && mallocOk;
        && handles == old(handles) + [if ok then old(heap.nextAddr) else NULL]
        && heap.objcount == old(heap.objcount) + if ok then 1 else 0
    {
      h := |handles|;
      var p := NULL;
      if !(bufsize == 0 || bufsize > 258 * 1024 * 1024) && mallocOk {
        p := heap.Malloc();
      }
      HandleAppend(handles, p);
      handles := handles + [p];
    }

    /** SmartBuf(void*) and the copy constructor: shares p. */
    method FromPointer(p: Ptr) returns (h: nat)
      requires Valid() && IsBounded(heap.Now()) && (p != NULL ==> Alive(heap.Now(), p))
      modifies this, heap
      ensures Valid() && h == |old(handles)| && handles == old(handles) + [p]
      ensures heap.bufs.Keys == old(heap.bufs.Keys)
    {
      h := |handles|;
      HandleAppend(handles, p);
      handles := handles + [p];
      heap.IncRef(p);
    }

    /** The destructor and ClearRef: gives the handle's reference up. Whatever set
        its buffer leads to, nothing outside it goes. */
    method ClearRef(h: nat, ghost reach: set<Ptr>)
      requires Valid() && IsBounded(heap.Now()) && h < |handles|
      requires IsClosed(heap.Now(), reach) && (handles[h] != NULL ==> handles[h] in reach)
      modifies this, heap
      ensures Valid() && handles == old(handles)[h := NULL]
      ensures Shrunk(old(heap.Now()), heap.Now()) && OnlyFrom(old(heap.Now()), heap.Now(), reach)
    {
      HandleUpdate(handles, h, NULL);
      HeldAlive(h);
      heap.DecRef(handles[h], reach);
      handles := handles[h := NULL];
    }

    lemma HeldAlive(h: nat)
      requires Valid() && h < |handles| && IsBounded(heap.Now())
      ensures handles[h] != NULL ==> handles[h] in heap.refs
      ensures IsBoundedBut(heap.Now(), handles[h]) && Shrunk(heap.Now(), heap.Now())
      ensures IsClosed(heap.Now(), heap.bufs.Keys) && (handles[h] != NULL ==> handles[h] in heap.bufs)
    {
      HandleUpdate(handles, h, NULL);
      AllBounded(heap.Now(), handles[h]);
      ShrunkSelf(heap.Now());
      AllClosed(heap.Now());
      if handles[h] != NULL {
        InRefsIsAlive(heap.Now(), handles[h]);
      }
    }

    /** operator=(const SmartBuf&) and SetBasePtr: handle h shares p instead. The
        old reference is given up before the new one is taken, so p has to be kept
        alive by another handle g, through a path of slots or directly. */
    method Share(h: nat, p: Ptr, ghost g: nat, ghost path: seq<Ptr>)
      requires Valid() && IsBounded(heap.Now()) && h < |handles|
      requires p == NULL || p == handles[h]
               || (g < |handles| && g != h && path != [] && path[0] == handles[g] && path[|path| - 1] == p
                   && IsPath(heap.Now(), path))
      modifies this, heap
      ensures Valid() && handles == old(handles)[h := p]
      ensures heap.bufs.Keys <= old(heap.bufs.Keys)
    {
      hide IsValid, Shrunk, IsBounded, IsBoundedBut, HandleRefs, IsClosed, OnlyFrom, IsPath, Inc, One;
      if p != handles[h] {
        HeldAlive(h);
        HandleUpdate(handles, h, p);
        if p != NULL {
          PathStart(heap.Now(), path);
          OtherHandle(handles, h, g);
        }
        heap.DecRef(handles[h], heap.bufs.Keys);
        ghost var t := heap.Now();
        ShrunkKeys(old(heap.Now()), t);
        if p != NULL {
          KeptAlive(old(heap.Now()), t, path, |path| - 1);
          AllBounded(t, p);
        }
        IncKeeps(t, p);
        handles := handles[h := p];
        heap.IncRef(p);
      }
    }

    /** operator=(SmartBuf&&): handle h takes over what g holds. */
    method MoveAssign(h: nat, g: nat)
      requires Valid() && IsBounded(heap.Now()) && h < |handles| && g < |handles|
      modifies this, heap
      ensures Valid()
      ensures handles == if h == g then old(handles) else old(handles)[h := old(handles)[g]][g := NULL]
      ensures heap.bufs.Keys <= old(heap.bufs.Keys)
    {
      hide IsValid, Shrunk, IsBounded, IsBoundedBut, HandleRefs;
      if h != g {
        HeldAlive(h);
        MoveRefs(handles, h, g);
        heap.DecRef(handles[h], heap.bufs.Keys);
        ShrunkKeys(old(heap.Now()), heap.Now());
        handles := handles[h := handles[g]];
        handles := handles[g := NULL];
      } else {
        ShrunkKeys(heap.Now(), heap.Now());
      }
    }

    /** SmartBuf(SmartBuf&&): a new handle takes over what g holds. */
    method MoveConstruct(g: nat) returns (h: nat)
      requires Valid() && g < |handles|
      modifies this
      ensures Valid() && h == |old(handles)| && handles == (old(handles) + [old(handles)[g]])[g := NULL]
    {
      h := |handles|;
      HandleAppend(handles, handles[g]);
      HandleUpdate(handles + [handles[g]], g, NULL);
      handles := handles + [handles[g]];
      handles := handles[g := NULL];
    }

    /** SetAuxPtrCount on a new buffer, whose memory is zeroed. */
    method SetAuxPtrCount(h: nat, count: nat)
      requires Valid() && Holds(h) && count <= 20 && handles[h] in heap.bufs && heap.bufs[handles[h]].aux == []
      modifies heap
      ensures Valid() && heap.bufs.Keys == old(heap.bufs.Keys)
      ensures handles[h] in heap.bufs && heap.bufs[handles[h]].aux == NoSlots(count)
    {
      var p := handles[h];
      HandleUpdate(handles, h, NULL);
      InRefsIsAlive(heap.Now(), p);
      var buf := Buf(heap.bufs[p].refcount, NoSlots(count));
      EmptySlots(heap.Now(), p, count);
      KeysUpdate(heap.bufs, p, buf);
      heap.bufs := heap.bufs[p := buf];
    }

    /** Block::SetPriorBlock: slot i of h's buffer gets a reference to g's buffer
        and gives up the one it had. */
    method SetSlot(h: nat, i: nat, g: nat)
      requires Valid() && IsBounded(heap.Now()) && Holds(h) && g < |handles|
      requires handles[h] in heap.bufs && 1 <= i < |heap.bufs[handles[h]].aux|
      requires handles[g] in heap.bufs ==> heap.bufs[handles[g]].refcount + 1 < MAX_REFCOUNT
      modifies heap
      ensures Valid() && heap.bufs.Keys <= old(heap.bufs.Keys)
      ensures handles[h] in heap.bufs
      ensures heap.bufs[handles[h]].aux == old(heap.bufs[handles[h]].aux)[i := handles[g]]
    {
      var p, q := handles[h], handles[g];
      HandleUpdate(handles, h, NULL);
      HandleUpdate(handles, g, NULL);
      InRefsIsAlive(heap.Now(), p);
      if q != NULL {
        InRefsIsAlive(heap.Now(), q);
      }
      heap.ExchangeSlot(p, i, q);
    }
  }

  /** The references after a move: the old one of h is gone, nothing else changed. */
  lemma MoveRefs(handles: seq<Ptr>, h: nat, g: nat)
    requires h < |handles| && g < |handles| && h != g
    ensures HandleRefs(handles[h := handles[g]][g := NULL]) == HandleRefs(handles) - One(handles[h])
  {
    HandleUpdate(handles, h, handles[g]);
    HandleUpdate(handles[h := handles[g]], g, NULL);
  }

  /** Zeroed memory: all slots are NULL. */
  function NoSlots(count: nat): (aux: seq<Ptr>)
    ensures |aux| == count && forall i :: 0 <= i < count ==> aux[i] == NULL
  {
    seq(count, i => NULL)
  }

  lemma EmptySlotsRefs(s: State, p: Ptr, count: nat)
    requires Alive(s, p) && p < s.nextAddr && s.bufs[p].aux == []
    ensures AllRefs(s.(bufs := s.bufs[p := Buf(s.bufs[p].refcount, NoSlots(count))])) == AllRefs(s)
  {
    var aux := NoSlots(count);
    var t := s.(bufs := s.bufs[p := Buf(s.bufs[p].refcount, aux)]);
    assert Live(t) == Live(s);
    SlotRefsChange(s.bufs, Live(s), p, t.bufs[p], s.nextAddr);
    if count > 1 {
      assert forall x :: x in aux[1..] ==> x == NULL;
    }
    assert Owned(aux) == multiset{} && Owned(s.bufs[p].aux) == multiset{};
    assert t.bufs[p].aux == aux;
    var x, y := SlotRefs(s.bufs, Live(s), s.nextAddr), SlotRefs(t.bufs, Live(s), s.nextAddr);
    assert y + multiset{} == x + multiset{};
    assert y == y + multiset{} && x == x + multiset{};
  }

  lemma EmptySlots(s: State, p: Ptr, count: nat)
    requires IsValid(s) && Alive(s, p) && s.bufs[p].aux == []
    ensures IsValid(s.(bufs := s.bufs[p := Buf(s.bufs[p].refcount, NoSlots(count))]))
  {
    hide AllRefs;
    EmptySlotsRefs(s, p, count);
  }

  // ---- Nothing leaks ----

  /** A reference in a slot is owned by a live buffer. */
  lemma {:induction false} SlotOwner(bufs: map<Ptr, Buf>, live: set<Ptr>, q: Ptr, n: nat) returns (p: Ptr, i: nat)
    requires q in SlotRefs(bufs, live, n)
    ensures p in bufs && p in live && 1 <= i < |bufs[p].aux| && bufs[p].aux[i] == q && q != NULL
  {
    if n - 1 in bufs && n - 1 in live && q in Owned(bufs[n - 1].aux) {
      p := n - 1;
      assert q in bufs[p].aux[1..];
      i :| 1 <= i < |bufs[p].aux| && bufs[p].aux[i] == q;
    } else {
      p, i := SlotOwner(bufs, live, q, n - 1);
    }
  }

  /** The buffers can be ranked so that every slot leads to a lower rank: slots
      form no cycle. A block's slot leads to the block before it. */
  ghost predicate IsRanked(s: State, rank: Ptr -> nat) {
    forall p, i :: p in s.bufs && 1 <= i < |s.bufs[p].aux| && s.bufs[p].aux[i] != NULL ==>
      rank(s.bufs[p].aux[i]) < rank(p)
  }

  /** Without references from outside, a live buffer leads up to ever higher ranks. */
  lemma {:induction false} Climb(s: State, rank: Ptr -> nat, p: Ptr, higher: set<Ptr>)
    requires IsValid(s) && IsRanked(s, rank) && s.refs == multiset{} && Alive(s, p)
    requires forall q :: Alive(s, q) && rank(q) > rank(p) ==> q in higher
    ensures false
    decreases higher
  {
    assert p in AllRefs(s) by {
      assert s.bufs[p].refcount == AllRefs(s)[p];
    }
    var owner, i := SlotOwner(s.bufs, Live(s), p, s.nextAddr);
    Climb(s, rank, owner, higher - {owner});
  }

  /** When no handle is left, every buffer that the slots reach without a cycle
      has been freed. */
  lemma NothingLeaks(s: State, rank: Ptr -> nat)
    requires IsValid(s) && IsRanked(s, rank) && s.refs == multiset{} && s.dying == {}
    ensures s.bufs == map[]
  {
    hide IsValid, IsRanked;
    if s.bufs != map[] {
      var p :| p in s.bufs;
      Climb(s, rank, p, Live(s));
    }
  }
}
