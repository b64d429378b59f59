/** The re-entrant lock of source/cccommon/src/SpinLock.hpp as interleaved atomic
    steps: one step is one access to an atomic field. */
module SpinLock {
  import opened Options

  type Thread = int

  /** What a thread is about to do. The Lock points follow lock(), the Unlock
      points follow unlock(). */
  datatype Point =
    | Idle
    | LockFlag       // while (mutex.test_and_set())
    | LockCount      // if (!count.load())
    | LockTake       // count.store(1)
    | LockName       // threadid.store(this thread)
    | LockOwner      // if (threadid.load() == this thread)
    | LockNest       // count.fetch_add(1)
    | LockDone       // mutex.clear(); return
    | LockBackOff    // mutex.clear(); try again
    | UnlockFlag     // while (mutex.test_and_set())
    | UnlockOwner    // CCASSERT(threadid.load() == this thread)
    | UnlockCount    // CCASSERT(count.fetch_sub(1))
    | UnlockDone     // mutex.clear(); return

  /** The atomic fields, the inner flag with a note of who set it; every thread's
      next step; how many lock() calls of each thread have returned without their
      unlock() having returned; whether an assertion has failed. */
  datatype State = State(setBy: Option<Thread>, count: int, threadid: Thread, at: Thread -> Point,
                         depth: Thread -> nat, failed: bool)
  {
    predicate Flag() { setBy.Some? }
  }

  /** What an idle thread calls next. */
  datatype Call = Lock | Unlock

  const WORD: int := 0x1_0000_0000

  function Initial(threadid: Thread): State { State(None, 0, threadid, t => Idle, t => 0, false) }

  function Goto(s: State, t: Thread, p: Point): State {
    s.(at := (x: Thread) => if x == t then p else s.at(x))
  }

  function Deepen(s: State, t: Thread, change: int): State
    requires s.depth(t) + change >= 0
  {
    s.(depth := (x: Thread) => if x == t then s.depth(t) + change else s.depth(x))
  }

  /** The next step of thread t. An idle thread makes the call; it unlocks only
      what it has locked, and nests fewer than 2^32 locks. */
  function Step(s: State, t: Thread, call: Call): State {
    match s.at(t)
    case Idle =>
      (match call
       case Lock => if s.depth(t) < WORD - 1 then Goto(s, t, LockFlag) else s
       case Unlock => if s.depth(t) > 0 then Goto(s, t, UnlockFlag) else s)
    case LockFlag => if s.Flag() then s else Goto(s.(setBy := Some(t)), t, LockCount)
    case LockCount => Goto(s, t, if s.count == 0 then LockTake else LockOwner)
    case LockTake => Goto(s.(count := 1), t, LockName)
    case LockName => Goto(s.(threadid := t), t, LockDone)
    case LockOwner => Goto(s, t, if s.threadid == t then LockNest else LockBackOff)
    case LockNest => Goto(s.(count := (s.count + 1) % WORD), t, LockDone)
    case LockDone => Deepen(Goto(s.(setBy := None), t, Idle), t, 1)
    case LockBackOff => Goto(s.(setBy := None), t, LockFlag)
    case UnlockFlag => if s.Flag() then s else Goto(s.(setBy := Some(t)), t, UnlockOwner)
    case UnlockOwner => Goto(s.(failed := s.failed || s.threadid != t), t, UnlockCount)
    case UnlockCount => Goto(s.(failed := s.failed || s.count == 0, count := (s.count - 1) % WORD), t, UnlockDone)
    case UnlockDone =>
      if s.depth(t) > 0 then Deepen(Goto(s.(setBy := None), t, Idle), t, -1) else Goto(s.(setBy := None), t, Idle)
  }

  /** A schedule: which thread steps, and what it calls if it is idle. */
  datatype Turn = Turn(thread: Thread, call: Call)

  function Run(s: State, turns: seq<Turn>): State
    decreases |turns|
  {
    if turns == [] then s
    else
      var last := turns[|turns| - 1];
      Step(Run(s, turns[..|turns| - 1]), last.thread, last.call)
  }

  // ---- The invariant ----

  predicate HoldsFlag(p: Point) { p != Idle && p != LockFlag && p != UnlockFlag }

  /** The depths are accounted for by count and threadid. */
  ghost predicate IsSettled(s: State, count: int) {
    && 0 <= count < WORD
    && (forall t :: s.depth(t) == if count > 0 && t == s.threadid then count else 0)
  }

  /** What holds while thread h is inside the inner flag. */
  ghost predicate InsideOk(s: State, h: Thread) {
    match s.at(h)
    case LockCount => IsSettled(s, s.count) && s.depth(h) < WORD - 1
    case LockTake => IsSettled(s, 0) && s.count == 0
    case LockName => s.count == 1 && forall t :: s.depth(t) == 0
    case LockOwner => IsSettled(s, s.count) && s.count > 0 && s.depth(h) < WORD - 1
    case LockNest => IsSettled(s, s.count) && s.count > 0 && s.threadid == h && s.depth(h) < WORD - 1
    case LockDone => s.threadid == h && s.count > 0 && IsSettled(s, s.count - 1) && s.count < WORD
    case LockBackOff => IsSettled(s, s.count) && s.depth(h) < WORD - 1
    case UnlockOwner => IsSettled(s, s.count) && s.depth(h) > 0
    case UnlockCount => IsSettled(s, s.count) && s.depth(h) > 0
    case UnlockDone => s.threadid == h && s.depth(h) > 0 && s.count == s.depth(h) - 1 && IsSettled(s, s.count + 1)
    case _ => false
  }

  ghost predicate Inv(s: State) {
    && !s.failed
    && (forall t :: HoldsFlag(s.at(t)) <==> s.setBy == Some(t))
    && (match s.setBy case None => IsSettled(s, s.count) case Some(h) => InsideOk(s, h))
    && (forall t :: s.at(t) == UnlockFlag ==> s.depth(t) > 0)
    && (forall t :: s.at(t) == LockFlag ==> s.depth(t) < WORD - 1)
  }

  lemma InitialInv(threadid: Thread)
    ensures Inv(Initial(threadid))
  {
  }

  predicate Releases(p: Point) { p == LockDone || p == LockBackOff || p == UnlockDone }

  /** A thread outside the inner flag calls, waits, or gets the flag. */
  lemma OutsideStepInv(s: State, t: Thread, call: Call)
    requires Inv(s) && !HoldsFlag(s.at(t))
    ensures Inv(Step(s, t, call))
  {
    if s.at(t) == Idle {
      CallInv(s, t, call);
    } else if s.Flag() {
      assert Step(s, t, call) == s;
    } else {
      EnterInv(s, t, call);
    }
  }

  lemma CallInv(s: State, t: Thread, call: Call)
    requires Inv(s) && s.at(t) == Idle
    ensures Inv(Step(s, t, call))
  {
  }

  lemma EnterInv(s: State, t: Thread, call: Call)
    requires Inv(s) && (s.at(t) == LockFlag || s.at(t) == UnlockFlag) && !s.Flag()
    ensures Inv(Step(s, t, call))
  {
  }

  /** What one step changes for the others: nothing but, maybe, who set the flag. */
  lemma OthersStay(s: State, t: Thread, call: Call)
    ensures forall u :: u != t ==> Step(s, t, call).at(u) == s.at(u) && Step(s, t, call).depth(u) == s.depth(u)
  {
  }

  /** A thread inside the inner flag goes on inside. */
  lemma InsideStepInv(s: State, t: Thread, call: Call)
    requires Inv(s) && HoldsFlag(s.at(t)) && !Releases(s.at(t))
    ensures Inv(Step(s, t, call))
  {
    hide Step, Inv;
    var s' := Step(s, t, call);
    OthersStay(s, t, call);
    InvInside(s, t);
    assert !s.failed by { InvNotFailed(s); }
    InsideOkStep(s, t, call);
    InsideInv(s, t, s');
  }

  lemma InvNotFailed(s: State)
    requires Inv(s)
    ensures !s.failed
  {
  }

  lemma InvInside(s: State, t: Thread)
    requires Inv(s) && HoldsFlag(s.at(t))
    ensures s.setBy == Some(t) && InsideOk(s, t)
  {
  }

  lemma InsideOkStep(s: State, t: Thread, call: Call)
    requires s.setBy == Some(t) && InsideOk(s, t) && !Releases(s.at(t)) && !s.failed
    ensures var s' := Step(s, t, call);
      s'.setBy == Some(t) && HoldsFlag(s'.at(t)) && InsideOk(s', t) && !s'.failed
  {
  }

  lemma InsideInv(s: State, t: Thread, s': State)
    requires Inv(s) && s.setBy == s'.setBy == Some(t) && HoldsFlag(s'.at(t)) && InsideOk(s', t) && !s'.failed
    requires forall u :: u != t ==> s'.at(u) == s.at(u) && s'.depth(u) == s.depth(u)
    ensures Inv(s')
  {
    hide InsideOk;
  }

  /** A thread inside the inner flag gives it back. */
  lemma ReleaseStepInv(s: State, t: Thread, call: Call)
    requires Inv(s) && Releases(s.at(t))
    ensures Inv(Step(s, t, call))
  {
  }

  lemma StepInv(s: State, t: Thread, call: Call)
    requires Inv(s)
    ensures Inv(Step(s, t, call))
  {
    hide Inv, Step;
    if !HoldsFlag(s.at(t)) {
      OutsideStepInv(s, t, call);
    } else if Releases(s.at(t)) {
      ReleaseStepInv(s, t, call);
    } else {
      InsideStepInv(s, t, call);
    }
  }

  lemma {:induction false} RunKeeps(s: State, turns: seq<Turn>)
    requires Inv(s)
    ensures Inv(Run(s, turns))
    decreases |turns|
  {
    if turns != [] {
      var last := turns[|turns| - 1];
      RunKeeps(s, turns[..|turns| - 1]);
      StepInv(Run(s, turns[..|turns| - 1]), last.thread, last.call);
    }
  }

  /** In every interleaving: no assertion of unlock() has failed, at most one
      thread is inside the lock, and whenever the inner flag is free, count is
      that thread's nesting depth. */
  lemma LockIsSafe(threadid: Thread, turns: seq<Turn>)
    ensures var s := Run(Initial(threadid), turns);
      && !s.failed
      && (forall t, u :: s.depth(t) > 0 && s.depth(u) > 0 ==> t == u)
      && (forall t :: !s.Flag() && s.depth(t) > 0 ==> s.count == s.depth(t) && s.threadid == t)
      && (!s.Flag() && s.count == 0 ==> forall t :: s.depth(t) == 0)
  {
    InitialInv(threadid);
    RunKeeps(Initial(threadid), turns);
    var s := Run(Initial(threadid), turns);
  }

  // ---- What a call does ----

  /** The schedule in which thread t takes n steps in a row. */
  function Alone(t: Thread, call: Call, n: nat): seq<Turn> { seq(n, i => Turn(t, call)) }

  lemma {:induction false} RunFirst(s: State, turn: Turn, turns: seq<Turn>)
    ensures Run(s, [turn] + turns) == Run(Step(s, turn.thread, turn.call), turns)
    decreases |turns|
  {
    var all := [turn] + turns;
    if turns != [] {
      RunFirst(s, turn, turns[..|turns| - 1]);
      assert all[..|all| - 1] == [turn] + turns[..|turns| - 1];
    } else {
      assert all[..0] == [];
    }
  }

  lemma AloneNext(s: State, t: Thread, call: Call, n: nat)
    ensures Run(s, Alone(t, call, n + 1)) == Run(Step(s, t, call), Alone(t, call, n))
    ensures Run(s, Alone(t, call, 0)) == s
  {
    RunFirst(s, Turn(t, call), Alone(t, call, n));
    assert Alone(t, call, n + 1) == [Turn(t, call)] + Alone(t, call, n);
  }

  lemma {:induction false} RunAppend(s: State, turns: seq<Turn>, more: seq<Turn>)
    ensures Run(s, turns + more) == Run(Run(s, turns), more)
    decreases |more|
  {
    hide Step;
    var all := turns + more;
    if more == [] {
      assert all == turns;
    } else {
      RunAppend(s, turns, more[..|more| - 1]);
      assert all[..|all| - 1] == turns + more[..|more| - 1];
    }
  }

  /** The fields, and where thread t is; all other threads are as in s0. */
  ghost predicate IsAt(s: State, s0: State, t: Thread, p: Point, flag: bool, count: int, threadid: Thread, depth: nat) {
    && s.at(t) == p && s.Flag() == flag && s.count == count && s.threadid == threadid && s.depth(t) == depth
    && s.failed == s0.failed && forall u :: u != t ==> s.at(u) == s0.at(u) && s.depth(u) == s0.depth(u)
  }

  /** Undisturbed, a thread that finds the flag free, and nobody else inside, has
      the lock, or one more level of it, after six steps; both ways take six. */
  lemma LockSucceeds(s: State, t: Thread)
    requires Inv(s) && !s.Flag() && s.at(t) == Idle && s.depth(t) < WORD - 1 && (s.count == 0 || s.threadid == t)
    ensures IsAt(Run(s, Alone(t, Lock, 6)), s, t, Idle, false, s.count + 1, t, s.depth(t) + 1)
  {
    hide Inv, Run, Alone;
    var c, d := s.count, s.depth(t);
    assert IsSettled(s, c) by { FreeIsSettled(s); }
    var s1 := Step(s, t, Lock);
    assert IsAt(s1, s, t, LockFlag, false, c, s.threadid, d);
    var s2 := Step(s1, t, Lock);
    assert IsAt(s2, s, t, LockCount, true, c, s.threadid, d);
    var s3 := Step(s2, t, Lock);
    assert IsAt(s3, s, t, if c == 0 then LockTake else LockOwner, true, c, s.threadid, d);
    LockFromThree(s, s3, t, c, d);
    AloneNext(s, t, Lock, 5);
    AloneNext(s1, t, Lock, 4);
    AloneNext(s2, t, Lock, 3);
  }

  lemma LockFromThree(s: State, s3: State, t: Thread, c: int, d: nat)
    requires IsAt(s3, s, t, if c == 0 then LockTake else LockOwner, true, c, s.threadid, d)
    requires c == 0 || (s.threadid == t && 0 < c < WORD - 1)
    ensures IsAt(Run(s3, Alone(t, Lock, 3)), s, t, Idle, false, c + 1, t, d + 1)
  {
    hide Run, Alone;
    var s4 := Step(s3, t, Lock);
    assert IsAt(s4, s, t, if c == 0 then LockName else LockNest, true, if c == 0 then 1 else c, s.threadid, d);
    var s5 := Step(s4, t, Lock);
    assert IsAt(s5, s, t, LockDone, true, c + 1, t, d);
    var s6 := Step(s5, t, Lock);
    assert IsAt(s6, s, t, Idle, false, c + 1, t, d + 1);
    AloneNext(s3, t, Lock, 2);
    AloneNext(s4, t, Lock, 1);
    AloneNext(s5, t, Lock, 0);
    AloneNext(s6, t, Lock, 0);
  }

  lemma FreeIsSettled(s: State)
    requires Inv(s) && !s.Flag()
    ensures IsSettled(s, s.count)
  {
  }

  /** Undisturbed, unlock() takes one level back in five steps. */
  lemma UnlockSucceeds(s: State, t: Thread)
    requires Inv(s) && !s.Flag() && s.at(t) == Idle && s.depth(t) > 0
    ensures IsAt(Run(s, Alone(t, Unlock, 5)), s, t, Idle, false, s.count - 1, t, s.depth(t) - 1)
  {
    hide Inv, Run, Alone;
    var c, d := s.count, s.depth(t);
    assert IsSettled(s, c) by { FreeIsSettled(s); }
    var s1 := Step(s, t, Unlock);
    assert IsAt(s1, s, t, UnlockFlag, false, c, t, d);
    var s2 := Step(s1, t, Unlock);
    assert IsAt(s2, s, t, UnlockOwner, true, c, t, d);
    UnlockFromTwo(s, s2, t, c, d);
    AloneNext(s, t, Unlock, 4);
    AloneNext(s1, t, Unlock, 3);
  }

  lemma UnlockFromTwo(s: State, s2: State, t: Thread, c: int, d: nat)
    requires IsAt(s2, s, t, UnlockOwner, true, c, t, d) && 0 < c < WORD && d > 0
    ensures IsAt(Run(s2, Alone(t, Unlock, 3)), s, t, Idle, false, c - 1, t, d - 1)
  {
    hide Run, Alone;
    var s3 := Step(s2, t, Unlock);
    assert IsAt(s3, s, t, UnlockCount, true, c, t, d);
    var s4 := Step(s3, t, Unlock);
    assert IsAt(s4, s, t, UnlockDone, true, c - 1, t, d);
    var s5 := Step(s4, t, Unlock);
    assert IsAt(s5, s, t, Idle, false, c - 1, t, d - 1);
    AloneNext(s2, t, Unlock, 2);
    AloneNext(s3, t, Unlock, 1);
    AloneNext(s4, t, Unlock, 0);
    AloneNext(s5, t, Unlock, 0);
  }

  /** A thread that finds another one inside backs off and leaves no trace. */
  lemma LockBacksOff(s: State, t: Thread)
    requires Inv(s) && !s.Flag() && s.at(t) == LockFlag && s.count > 0 && s.threadid != t
    ensures IsAt(Run(s, Alone(t, Lock, 4)), s, t, LockFlag, false, s.count, s.threadid, s.depth(t))
  {
    hide Inv, Run, Alone;
    var c, d := s.count, s.depth(t);
    var s1 := Step(s, t, Lock);
    assert IsAt(s1, s, t, LockCount, true, c, s.threadid, d);
    var s2 := Step(s1, t, Lock);
    assert IsAt(s2, s, t, LockOwner, true, c, s.threadid, d);
    var s3 := Step(s2, t, Lock);
    assert IsAt(s3, s, t, LockBackOff, true, c, s.threadid, d);
    var s4 := Step(s3, t, Lock);
    assert IsAt(s4, s, t, LockFlag, false, c, s.threadid, d);
    AloneNext(s, t, Lock, 3);
    AloneNext(s1, t, Lock, 2);
    AloneNext(s2, t, Lock, 1);
    AloneNext(s3, t, Lock, 0);
    AloneNext(s4, t, Lock, 0);
  }

  /** lock() and unlock() in a row, first or nested, leave all counts as they were. */
  lemma LockUnlock(s: State, t: Thread)
    requires Inv(s) && !s.Flag() && s.at(t) == Idle && s.depth(t) < WORD - 1 && (s.count == 0 || s.threadid == t)
    ensures IsAt(Run(s, Alone(t, Lock, 6) + Alone(t, Unlock, 5)), s, t, Idle, false, s.count, t, s.depth(t))
  {
    hide Inv, Run, Alone;
    LockSucceeds(s, t);
    RunKeeps(s, Alone(t, Lock, 6));
    RunAppend(s, Alone(t, Lock, 6), Alone(t, Unlock, 5));
    UnlockSucceeds(Run(s, Alone(t, Lock, 6)), t);
  }

  /** In any state in which the flag is free, whether the invariant holds there or not, the
      assertions of unlock() fail if and only if another thread is inside, or none. */
  lemma UnlockFailsIff(s: State, t: Thread)
    requires !s.Flag() && !s.failed && s.at(t) == UnlockFlag
    ensures Run(s, Alone(t, Unlock, 3)).failed <==> s.threadid != t || s.count == 0
  {
    hide Run, Alone;
    var s1 := Step(s, t, Unlock);
    var s2 := Step(s1, t, Unlock);
    var s3 := Step(s2, t, Unlock);
    AloneNext(s, t, Unlock, 2);
    AloneNext(s1, t, Unlock, 1);
    AloneNext(s2, t, Unlock, 0);
    AloneNext(s3, t, Unlock, 0);
  }
}
