/** The reference count of source/cccommon/src/SmartBuf.cpp under several threads, as
    interleaved steps: one step is one access to the buffer's count or to one of its
    guard words. */
module BufferRace {
  import opened Options

  type Thread = int

  /** What a thread is about to do: the Inc points follow IncRef, the Dec points DecRef,
      and the others what DecRef does when the count has become 0. */
  datatype Point =
    | Idle
    | IncAdd         // fetch_add(1) + 1, not 0
    | IncCount       // CheckGuard: the count is valid,
    | IncLow         //   the front guard is,
    | IncHigh        //   the back guard is
    | DecCount       // CheckGuard
    | DecLow
    | DecHigh
    | DecSub         // fetch_sub(1) - 1: done unless it is 0
    | ZeroCount      // CheckGuard: the count is 0
    | ZeroLow
    | ZeroHigh
    | MarkLow        // the guards are marked as free
    | MarkHigh
    | ReleaseSlots   // the slots are given back
    | FreeBuf        // free(bufp)

  /** The count and whether the guard words are in place; who owns how many references;
      every thread's next step; which thread has brought the count to 0; how often the
      buffer has been freed; whether an assertion has failed or a thread has touched the
      buffer after it was freed. */
  datatype State = State(count: int, low: bool, high: bool, refs: multiset<Thread>, at: Thread -> Point,
                         last: Option<Thread>, frees: nat, failed: bool)

  /** What an idle thread does next with a reference of its own: makes another, gives it
      back, or passes it on to a thread. */
  datatype Call = Copy | Drop | Give(to: Thread)

  const WORD: int := 0x1_0000_0000

  /** The largest count that CheckGuard accepts. */
  const MAX_COUNT: int := 0xFFFF_0000

  /** A new buffer, with one reference. */
  function Initial(t: Thread): State { State(1, true, true, multiset{t}, u => Idle, None, 0, false) }

  function Goto(s: State, t: Thread, p: Point): State {
    s.(at := (u: Thread) => if u == t then p else s.at(u))
  }

  /** On to p; a failure unless ok holds. */
  function Check(s: State, t: Thread, ok: bool, p: Point): State { Goto(s.(failed := s.failed || !ok), t, p) }

  predicate IsValidCount(count: int) { 1 <= count <= MAX_COUNT }

  /** One step of thread t. Without a reference a thread leaves the buffer alone; there
      are at most MAX_COUNT references. */
  function Step(s0: State, t: Thread, call: Call): State {
    var s := if s0.at(t) == Idle then s0 else s0.(failed := s0.failed || s0.frees > 0);
    match s.at(t)
    case Idle =>
      if s.refs[t] == 0 then s
      else
        (match call
         case Copy => Goto(s, t, IncAdd)
         case Drop => Goto(s, t, DecCount)
         case Give(u) => s.(refs := s.refs - multiset{t} + multiset{u}))
    case IncAdd =>
      if s.count >= MAX_COUNT then s
      else
        var count := (s.count + 1) % WORD;
        Check(s.(count := count, refs := s.refs + multiset{t}), t, count != 0, IncCount)
    case IncCount => Check(s, t, IsValidCount(s.count), IncLow)
    case IncLow => Check(s, t, s.low, IncHigh)
    case IncHigh => Check(s, t, s.high, Idle)
    case DecCount => Check(s, t, IsValidCount(s.count), DecLow)
    case DecLow => Check(s, t, s.low, DecHigh)
    case DecHigh => Check(s, t, s.high, DecSub)
    case DecSub =>
      var count := (s.count - 1) % WORD;
      var dropped := s.(count := count, refs := s.refs - multiset{t});
      if count == 0 then Goto(dropped.(last := Some(t)), t, ZeroCount) else Goto(dropped, t, Idle)
    case ZeroCount => Check(s, t, s.count == 0, ZeroLow)
    case ZeroLow => Check(s, t, s.low, ZeroHigh)
    case ZeroHigh => Check(s, t, s.high, MarkLow)
    case MarkLow => Goto(s.(low := false), t, MarkHigh)
    case MarkHigh => Goto(s.(high := false), t, ReleaseSlots)
    case ReleaseSlots => Goto(s, t, FreeBuf)
    case FreeBuf => Goto(s.(frees := s.frees + 1), t, Idle)
  }

  datatype Turn = Turn(thread: Thread, call: Call)

  function Run(s: State, turns: seq<Turn>): State
    decreases |turns|
  {
    if turns == [] then s else Run(Step(s, turns[0].thread, turns[0].call), turns[1..])
  }

  // ---- The invariant ----

  /** Inside IncRef, or inside DecRef before its reference is gone. */
  predicate IsInUse(p: Point) {
    p in {IncAdd, IncCount, IncLow, IncHigh, DecCount, DecLow, DecHigh, DecSub}
  }

  predicate IsReleasing(p: Point) { p != Idle && !IsInUse(p) }

  /** The buffer is whole and referenced; or one thread is on its way to free it, or has. */
  ghost predicate IsLife(s: State) {
    match s.last
    case None => |s.refs| > 0 && s.low && s.high && s.frees == 0
    case Some(h) =>
      && |s.refs| == 0
      && (if IsReleasing(s.at(h)) then s.frees == 0 else s.frees == 1)
      && (s.at(h) in {ZeroCount, ZeroLow, ZeroHigh, MarkLow} ==> s.low)
      && (s.at(h) in {ZeroCount, ZeroLow, ZeroHigh, MarkLow, MarkHigh} ==> s.high)
  }

  ghost predicate Inv(s: State) {
    && !s.failed && s.count == |s.refs| <= MAX_COUNT
    && (forall t :: IsInUse(s.at(t)) ==> s.refs[t] > 0)
    && (forall t :: IsReleasing(s.at(t)) ==> s.last == Some(t))
    && IsLife(s)
  }

  lemma InitialInv(t: Thread)
    ensures Inv(Initial(t))
  {
  }

  lemma OwnersCount(refs: multiset<Thread>, t: Thread)
    requires refs[t] > 0
    ensures |refs| > 0 && |refs - multiset{t}| == |refs| - 1
  {
    assert refs == refs - multiset{t} + multiset{t};
  }

  lemma CallStep(s: State, t: Thread, call: Call)
    requires Inv(s) && s.at(t) == Idle
    ensures Inv(Step(s, t, call))
  {
    hide Inv;
    if s.refs[t] > 0 {
      match call {
        case Copy => MoveOn(s, t, IncAdd);
        case Drop => MoveOn(s, t, DecCount);
        case Give(u) => GiveStep(s, t, u);
      }
    }
  }

  lemma GiveStep(s: State, t: Thread, u: Thread)
    requires Inv(s) && s.refs[t] > 0 && s.at(t) == Idle
    ensures Inv(s.(refs := s.refs - multiset{t} + multiset{u}))
  {
    OwnersCount(s.refs, t);
    var refs := s.refs - multiset{t} + multiset{u};
    assert |refs| == |s.refs|;
    OwnerSees(s, t);
  }

  lemma IncrementStep(s: State, t: Thread, call: Call)
    requires Inv(s) && s.at(t) == IncAdd
    ensures Inv(Step(s, t, call))
  {
    OwnersCount(s.refs, t);
  }

  /** A thread that holds a reference finds the buffer whole. */
  lemma OwnerSees(s: State, t: Thread)
    requires Inv(s) && s.refs[t] > 0
    ensures IsValidCount(s.count) && s.low && s.high && s.frees == 0 && s.last == None
  {
    OwnersCount(s.refs, t);
  }

  /** Whoever goes on with the buffer as it is keeps it so. */
  lemma GuardStep(s: State, t: Thread, call: Call)
    requires Inv(s) && IsInUse(s.at(t)) && s.at(t) != IncAdd && s.at(t) != DecSub
    ensures Inv(Step(s, t, call))
  {
    hide Inv, IsLife;
    InUseOwns(s, t);
    OwnerSees(s, t);
    var s' := Step(s, t, call);
    assert s' == Goto(s, t, s'.at(t));
    MoveOn(s, t, s'.at(t));
  }

  lemma InUseOwns(s: State, t: Thread)
    requires Inv(s) && IsInUse(s.at(t))
    ensures s.refs[t] > 0 && !s.failed
  {
    hide IsLife;
  }

  lemma MoveOn(s: State, t: Thread, p: Point)
    requires Inv(s) && s.refs[t] > 0 && (IsInUse(p) || p == Idle)
    ensures Inv(Goto(s, t, p))
  {
    OwnerSees(s, t);
  }

  /** One of several references goes. */
  lemma DecrementStep(s: State, t: Thread)
    requires Inv(s) && s.at(t) == DecSub && s.count > 1
    ensures Inv(Goto(s.(count := s.count - 1, refs := s.refs - multiset{t}), t, Idle))
  {
    OwnersCount(s.refs, t);
    OwnerSees(s, t);
  }

  /** The last reference goes. */
  lemma LastStep(s: State, t: Thread)
    requires Inv(s) && s.at(t) == DecSub && s.count == 1
    ensures Inv(Goto(s.(count := 0, refs := s.refs - multiset{t}, last := Some(t)), t, ZeroCount))
  {
    OwnersCount(s.refs, t);
    OwnerSees(s, t);
  }

  lemma SubStep(s: State, t: Thread, call: Call)
    requires Inv(s) && s.at(t) == DecSub
    ensures Inv(Step(s, t, call))
    ensures |s.refs| == 1 ==> Step(s, t, call).at(t) == ZeroCount && |Step(s, t, call).refs| == 0
    ensures Step(s, t, call).low == s.low && Step(s, t, call).high == s.high
  {
    hide Inv;
    InUseOwns(s, t);
    OwnerSees(s, t);
    OwnersCount(s.refs, t);
    CountIsRefs(s);
    if s.count == 1 {
      LastStep(s, t);
    } else {
      DecrementStep(s, t);
    }
  }

  lemma CountIsRefs(s: State)
    requires Inv(s)
    ensures s.count == |s.refs|
    ensures forall t :: IsReleasing(s.at(t)) ==> s.frees == 0 && |s.refs| == 0
  {
  }

  lemma ReleaseStep(s: State, t: Thread, call: Call)
    requires Inv(s) && IsReleasing(s.at(t))
    ensures Inv(Step(s, t, call))
  {
  }

  lemma StepInv(s: State, t: Thread, call: Call)
    requires Inv(s)
    ensures Inv(Step(s, t, call))
  {
    hide Inv, Step;
    if IsReleasing(s.at(t)) {
      ReleaseStep(s, t, call);
    } else if s.at(t) == DecSub {
      SubStep(s, t, call);
    } else if s.at(t) == IncAdd {
      IncrementStep(s, t, call);
    } else if s.at(t) == Idle {
      CallStep(s, t, call);
    } else {
      GuardStep(s, t, call);
    }
  }

  lemma {:induction false} RunInv(s: State, turns: seq<Turn>)
    requires Inv(s)
    ensures Inv(Run(s, turns))
    decreases |turns|
  {
    hide Inv, Step;
    if turns != [] {
      StepInv(s, turns[0].thread, turns[0].call);
      RunInv(Step(s, turns[0].thread, turns[0].call), turns[1..]);
    }
  }

  /** In every interleaving: no guard check fails and nothing touches the buffer after it
      was freed; it is not freed as long as there is a reference; and once the references
      are gone and no thread is on its way to free it, it has been freed exactly once. */
  lemma FreedOnce(t: Thread, turns: seq<Turn>)
    ensures var s := Run(Initial(t), turns);
      && !s.failed && s.count == |s.refs|
      && (|s.refs| > 0 ==> s.frees == 0)
      && (|s.refs| == 0 && (forall u :: !IsReleasing(s.at(u))) ==> s.frees == 1)
      && s.frees <= 1
  {
    InitialInv(t);
    RunInv(Initial(t), turns);
  }

  // ---- The last reference ----

  /** The steps that DecRef still takes if it finds the last reference. */
  function Left(p: Point): nat {
    match p
    case DecCount => 11
    case DecLow => 10
    case DecHigh => 9
    case DecSub => 8
    case ZeroCount => 7
    case ZeroLow => 6
    case ZeroHigh => 5
    case MarkLow => 4
    case MarkHigh => 3
    case ReleaseSlots => 2
    case FreeBuf => 1
    case _ => 0
  }

  function Repeat(turn: Turn, n: nat): (turns: seq<Turn>)
    ensures |turns| == n
  {
    seq(n, i => turn)
  }

  lemma StepMoves(s: State, t: Thread, call: Call)
    requires Left(s.at(t)) > 0 && s.at(t) != DecSub
    ensures var s' := Step(s, t, call);
      && Left(s'.at(t)) == Left(s.at(t)) - 1 && s'.refs == s.refs
      && (Left(s.at(t)) == 1 ==> s'.frees == s.frees + 1)
      && s'.low == (s.low && s.at(t) != MarkLow) && s'.high == (s.high && s.at(t) != MarkHigh)
  {
  }

  lemma OneStepNearer(s: State, t: Thread, call: Call)
    requires Inv(s) && Left(s.at(t)) > 0 && |s.refs| <= 1
    ensures var s' := Step(s, t, call);
      Inv(s') && Left(s'.at(t)) == Left(s.at(t)) - 1 && |s'.refs| <= 1 && (Left(s'.at(t)) == 0 ==> s'.frees == 1)
      && (s'.low ==> s.low && Left(s.at(t)) != 4) && (s'.high ==> s.high && Left(s.at(t)) != 3)
  {
    hide Inv, Step;
    StepInv(s, t, call);
    CountIsRefs(s);
    if s.at(t) == DecSub {
      InUseOwns(s, t);
      OwnersCount(s.refs, t);
      SubStep(s, t, call);
    } else {
      StepMoves(s, t, call);
    }
  }

  /** With the last reference, DecRef marks both guards and frees the buffer, and is done. */
  lemma {:induction false} LastDropFrees(s: State, t: Thread, call: Call)
    requires Inv(s) && Left(s.at(t)) > 0 && |s.refs| <= 1
    ensures var s' := Run(s, Repeat(Turn(t, call), Left(s.at(t)))); s'.frees == 1 && Left(s'.at(t)) == 0
    ensures var s' := Run(s, Repeat(Turn(t, call), Left(s.at(t))));
      (s'.low ==> s.low && Left(s.at(t)) < 4) && (s'.high ==> s.high && Left(s.at(t)) < 3)
    decreases Left(s.at(t))
  {
    hide Inv, Step;
    var turn, s1 := Turn(t, call), Step(s, t, call);
    OneStepNearer(s, t, call);
    assert Repeat(turn, Left(s.at(t)))[1..] == Repeat(turn, Left(s1.at(t)));
    if Left(s1.at(t)) > 0 {
      LastDropFrees(s1, t, call);
    }
  }

  // ---- What the checks see ----

  /** What the check at this point is there to find. */
  predicate IsDamaged(s: State, p: Point) {
    || (p in {IncCount, DecCount} && !(1 <= s.count <= 0xFFFF_0000))
    || (p == ZeroCount && s.count != 0)
    || (p in {IncLow, DecLow, ZeroLow} && !s.low)
    || (p in {IncHigh, DecHigh, ZeroHigh} && !s.high)
  }

  /** In any state, whether the invariant holds there or not: a step fails if and only if
      its check finds damage or the buffer has been freed. */
  lemma FailsIff(s: State, t: Thread, call: Call)
    requires 0 <= s.count < WORD && !s.failed
    ensures Step(s, t, call).failed <==> s.at(t) != Idle && (s.frees > 0 || IsDamaged(s, s.at(t)))
  {
    var p := s.at(t);
    if p == IncAdd && s.count < MAX_COUNT {
      assert (s.count + 1) % WORD == s.count + 1;
    }
  }

  // ---- What a call does ----

  /** The count, the references and where thread t is; nothing else differs from s0. */
  ghost predicate IsAt(s: State, s0: State, t: Thread, p: Point, count: int, refs: multiset<Thread>) {
    && s.at(t) == p && s.count == count && s.refs == refs
    && s.low == s0.low && s.high == s0.high && s.last == s0.last && s.frees == s0.frees && s.failed == s0.failed
    && forall u :: u != t ==> s.at(u) == s0.at(u)
  }

  lemma RepeatNext(s: State, turn: Turn, n: nat)
    ensures Run(s, Repeat(turn, n + 1)) == Run(Step(s, turn.thread, turn.call), Repeat(turn, n))
    ensures Run(s, Repeat(turn, 0)) == s
  {
    hide Step;
    assert Repeat(turn, n + 1)[1..] == Repeat(turn, n);
  }

  lemma FiveSteps(s: State, turn: Turn) returns (s1: State, s2: State, s3: State, s4: State, s5: State)
    ensures s1 == Step(s, turn.thread, turn.call) && s2 == Step(s1, turn.thread, turn.call)
    ensures s3 == Step(s2, turn.thread, turn.call) && s4 == Step(s3, turn.thread, turn.call)
    ensures s5 == Step(s4, turn.thread, turn.call) && Run(s, Repeat(turn, 5)) == s5
  {
    hide Run, Repeat, Step;
    s1 := Step(s, turn.thread, turn.call);
    s2 := Step(s1, turn.thread, turn.call);
    s3 := Step(s2, turn.thread, turn.call);
    s4 := Step(s3, turn.thread, turn.call);
    s5 := Step(s4, turn.thread, turn.call);
    RepeatNext(s, turn, 4);
    RepeatNext(s1, turn, 3);
    RepeatNext(s2, turn, 2);
    RepeatNext(s3, turn, 1);
    RepeatNext(s4, turn, 0);
    RepeatNext(s5, turn, 0);
  }

  /** Undisturbed, IncRef adds one reference in five steps. */
  lemma CopyAdds(s: State, t: Thread)
    requires Inv(s) && s.at(t) == Idle && s.refs[t] > 0 && s.count < MAX_COUNT
    ensures IsAt(Run(s, Repeat(Turn(t, Copy), 5)), s, t, Idle, s.count + 1, s.refs + multiset{t})
  {
    hide Run, Repeat, Inv;
    OwnerSees(s, t);
    var c, refs := s.count + 1, s.refs + multiset{t};
    var s1, s2, s3, s4, s5 := FiveSteps(s, Turn(t, Copy));
    assert !s.failed by { NotFailed(s); }
    assert IsAt(s1, s, t, IncAdd, s.count, s.refs);
    assert IsAt(s2, s, t, IncCount, c, refs);
    assert IsAt(s3, s, t, IncLow, c, refs);
    assert IsAt(s4, s, t, IncHigh, c, refs);
    assert IsAt(s5, s, t, Idle, c, refs);
  }

  /** Undisturbed, DecRef takes one of several references back in five steps. */
  lemma DropTakesOne(s: State, t: Thread)
    requires Inv(s) && s.at(t) == Idle && s.refs[t] > 0 && s.count > 1
    ensures IsAt(Run(s, Repeat(Turn(t, Drop), 5)), s, t, Idle, s.count - 1, s.refs - multiset{t})
  {
    hide Run, Repeat, Inv;
    OwnerSees(s, t);
    var c, refs := s.count, s.refs;
    var s1, s2, s3, s4, s5 := FiveSteps(s, Turn(t, Drop));
    assert !s.failed by { NotFailed(s); }
    assert IsAt(s1, s, t, DecCount, c, refs);
    assert IsAt(s2, s, t, DecLow, c, refs);
    DropEnds(s, s2, t);
  }

  lemma DropEnds(s: State, s2: State, t: Thread)
    requires IsAt(s2, s, t, DecLow, s.count, s.refs) && 1 < s.count <= MAX_COUNT && s.low && s.high && s.frees == 0
    ensures IsAt(Step(Step(Step(s2, t, Drop), t, Drop), t, Drop), s, t, Idle, s.count - 1, s.refs - multiset{t})
  {
    var s3 := Step(s2, t, Drop);
    assert IsAt(s3, s, t, DecHigh, s.count, s.refs);
    var s4 := Step(s3, t, Drop);
    assert IsAt(s4, s, t, DecSub, s.count, s.refs);
    hide Step;
    SubTakes(s4, t);
  }

  lemma SubTakes(s: State, t: Thread)
    requires s.at(t) == DecSub && 1 < s.count <= MAX_COUNT && s.frees == 0
    ensures Step(s, t, Drop) == Goto(s.(count := s.count - 1, refs := s.refs - multiset{t}), t, Idle)
  {
    hide Goto;
    assert (s.count - 1) % WORD == s.count - 1;
    assert s.(failed := s.failed || s.frees > 0) == s;
  }

  lemma NotFailed(s: State)
    requires Inv(s)
    ensures !s.failed
  {
  }

  /** A copy and a drop in a row leave the count and all references as they were. */
  lemma CopyDrop(s: State, t: Thread)
    requires Inv(s) && s.at(t) == Idle && s.refs[t] > 0 && s.count < MAX_COUNT
    ensures IsAt(Run(Run(s, Repeat(Turn(t, Copy), 5)), Repeat(Turn(t, Drop), 5)), s, t, Idle, s.count, s.refs)
  {
    hide Run, Repeat, Inv;
    var turns := Repeat(Turn(t, Copy), 5);
    CopyAdds(s, t);
    RunInv(s, turns);
    OwnerSees(s, t);
    DropTakesOne(Run(s, turns), t);
    assert s.refs + multiset{t} - multiset{t} == s.refs;
  }
}
