/** kernel/spinlock.c on one CPU, instruction by instruction: interrupts may arrive between any two
    instructions while IF is set, and clear IF on entry (the gates are interrupt gates). */
module Spinlock {

  type LockId = nat

  // irqFlags is the IF bit of the saved RFLAGS.
  datatype Lock = Lock(locked: bool, irqFlags: bool)

  datatype Op = Acquire(l: LockId) | Release(l: LockId) | Work

  // Where inside spin_lock or spin_unlock the next instruction is.
  datatype Phase =
    | Start                                       // about to enter the next operation
    | Saved | Cleared | Checked | Marked          // spin_lock: RFLAGS read, cli done, not locked, locked = 1
    | Tested | Freed | Fetched                    // spin_unlock: locked, locked = 0, irq_flags read

  /** A context: the interrupted kernel code, or an interrupt handler above it.
      `held` is the history of its critical sections, `home` the value of IF outside of them. */
  datatype Frame = Frame(todo: seq<Op>, phase: Phase, flags: bool, held: seq<LockId>, home: bool)

  // `below` is the interrupted stack of contexts.
  datatype State = State(interrupts: bool, locks: map<LockId, Lock>, top: Frame, below: seq<Frame>, panicked: bool)

  // spinlock_init
  const FREE := Lock(false, false)

  function Get(s: State, l: LockId): Lock {
    if l in s.locks then s.locks[l] else FREE
  }

  function Remove(held: seq<LockId>, l: LockId): seq<LockId> {
    if held == [] then []
    else (if held[0] == l then [] else [held[0]]) + Remove(held[1..], l)
  }

  function After(op: Op, held: seq<LockId>): seq<LockId> {
    match op
    case Acquire(l) => held + [l]
    case Release(l) => Remove(held, l)
    case Work => held
  }

  // ----- one instruction of the running context

  function Finish(f: Frame): Frame
    requires f.todo != []
  {
    f.(todo := f.todo[1..], phase := Start)
  }

  function LockStep(s: State, l: LockId): State
    requires s.top.todo != []
  {
    var f, lk := s.top, Get(s, l);
    match f.phase
    case Start => s.(top := f.(phase := Saved, flags := s.interrupts))
    case Saved => s.(interrupts := false, top := f.(phase := Cleared))
    case Cleared => if lk.locked then s.(panicked := true) else s.(top := f.(phase := Checked))
    case Checked => s.(locks := s.locks[l := lk.(locked := true)], top := f.(phase := Marked, held := f.held + [l]))
    case _ => s.(locks := s.locks[l := lk.(irqFlags := f.flags)], top := Finish(f))
  }

  function UnlockStep(s: State, l: LockId): State
    requires s.top.todo != []
  {
    var f, lk := s.top, Get(s, l);
    match f.phase
    case Start => if !lk.locked then s.(panicked := true) else s.(top := f.(phase := Tested))
    case Tested => s.(locks := s.locks[l := lk.(locked := false)], top := f.(phase := Freed, held := Remove(f.held, l)))
    case Freed => s.(top := f.(phase := Fetched, flags := lk.irqFlags))
    case _ => s.(interrupts := f.flags, top := Finish(f))
  }

  datatype Event = Run | Interrupt(handler: seq<Op>)

  // An interrupt that arrives while IF is clear waits; a finished handler returns with iretq, to a
  // context that was interrupted with IF set.
  function Next(s: State, ev: Event): State {
    if s.panicked then s
    else match ev
      case Interrupt(handler) =>
        if !s.interrupts then s
        else s.(interrupts := false, top := Frame(handler, Start, false, [], false), below := s.below + [s.top])
      case Run =>
        if s.top.todo == [] then
          if s.below == [] then s
          else s.(interrupts := true, top := s.below[|s.below| - 1], below := s.below[..|s.below| - 1])
        else match s.top.todo[0]
          case Acquire(l) => LockStep(s, l)
          case Release(l) => UnlockStep(s, l)
          case Work => s.(top := Finish(s.top))
  }

  function RunAll(s: State, schedule: seq<Event>): State
    decreases |schedule|
  {
    if schedule == [] then s else RunAll(Next(s, schedule[0]), schedule[1..])
  }

  function Boot(program: seq<Op>, home: bool): State {
    State(home, map[], Frame(program, Start, false, [], home), [], false)
  }

  // ----- what is asked of a context

  // No lock is taken twice or released unheld, and code that runs with interrupts on releases
  // the lock it took first after all the others.
  predicate OpOk(op: Op, held: seq<LockId>, home: bool) {
    match op
    case Acquire(l) => l !in held
    case Release(l) => l in held && (home && l == held[0] ==> |held| == 1)
    case Work => true
  }

  predicate Disciplined(todo: seq<Op>, held: seq<LockId>, home: bool)
    decreases |todo|
  {
    todo == [] || (OpOk(todo[0], held, home) && Disciplined(todo[1..], After(todo[0], held), home))
  }

  function HeldAtEnd(todo: seq<Op>, held: seq<LockId>): seq<LockId>
    decreases |todo|
  {
    if todo == [] then held else HeldAtEnd(todo[1..], After(todo[0], held))
  }

  // A handler keeps the discipline and holds nothing when it returns.
  predicate GoodHandler(handler: seq<Op>) {
    Disciplined(handler, [], false) && HeldAtEnd(handler, []) == []
  }

  predicate GoodSchedule(schedule: seq<Event>) {
    forall i :: 0 <= i < |schedule| && schedule[i].Interrupt? ==> GoodHandler(schedule[i].handler)
  }

  // Last-in first-out use, the usual way to keep the discipline.
  predicate Nested(todo: seq<Op>, held: seq<LockId>)
    decreases |todo|
  {
    todo == [] ||
    (match todo[0]
     case Acquire(l) => l !in held && Nested(todo[1..], held + [l])
     case Release(l) => held != [] && l == held[|held| - 1] && Nested(todo[1..], held[..|held| - 1])
     case Work => Nested(todo[1..], held))
  }

  // ----- the invariant

  ghost predicate Distinct(held: seq<LockId>) {
    forall i, j :: 0 <= i < j < |held| ==> held[i] != held[j]
  }

  // What IF is, or will be restored to, outside spin_lock and spin_unlock.
  function Resting(f: Frame): bool {
    f.home && f.held == []
  }

  // The operations whose effect on `held` is still to come.
  function Ahead(f: Frame): seq<Op> {
    if f.phase in {Marked, Freed, Fetched} && f.todo != [] then f.todo[1..] else f.todo
  }

  ghost predicate FrameOk(s: State, f: Frame) {
    && Distinct(f.held)
    && (forall l :: Get(s, l).locked <==> l in f.held)
    && (forall l :: l in f.held && !(f.phase == Marked && l == f.held[|f.held| - 1]) ==>
          Get(s, l).irqFlags == (f.home && l == f.held[0]))
    && match f.phase
       case Start => s.interrupts == Resting(f)
       case Saved => f.todo != [] && f.todo[0].Acquire? && s.interrupts == f.flags == Resting(f)
       case Cleared => f.todo != [] && f.todo[0].Acquire? && !s.interrupts && f.flags == Resting(f)
       case Checked => f.todo != [] && f.todo[0].Acquire? && !s.interrupts && f.flags == Resting(f)
                       && f.todo[0].l !in f.held
       case Marked => f.todo != [] && f.held != [] && f.todo[0] == Acquire(f.held[|f.held| - 1])
                      && !s.interrupts && f.flags == (f.home && |f.held| == 1)
       case Tested => f.todo != [] && f.todo[0].Release? && f.todo[0].l in f.held && !s.interrupts
       case Freed => f.todo != [] && f.todo[0].Release? && !s.interrupts
                     && Get(s, f.todo[0].l).irqFlags == Resting(f)
       case Fetched => f.todo != [] && f.todo[0].Release? && !s.interrupts && f.flags == Resting(f)
  }

  // Below a handler there is only the code it interrupted, which held no lock.
  ghost predicate Interrupted(f: Frame) {
    && f.home && f.held == []
    && (f.phase == Start || (f.phase == Saved && f.todo != [] && f.todo[0].Acquire? && f.flags))
    && Disciplined(f.todo, [], true)
  }

  ghost predicate Inv(s: State) {
    && !s.panicked
    && FrameOk(s, s.top)
    && Disciplined(Ahead(s.top), s.top.held, s.top.home)
    && (s.below == [] || (|s.below| == 1 && Interrupted(s.below[0]) && !s.top.home
                          && HeldAtEnd(Ahead(s.top), s.top.held) == []))
  }

  lemma {:induction false} RemoveMembers(held: seq<LockId>, l: LockId)
    ensures forall x :: x in Remove(held, l) <==> x in held && x != l
    decreases |held|
  {
    if held != [] {
      RemoveMembers(held[1..], l);
      assert forall x :: x in held <==> x == held[0] || x in held[1..];
    }
  }

  lemma {:induction false} RemoveDistinct(held: seq<LockId>, l: LockId)
    requires Distinct(held)
    ensures Distinct(Remove(held, l))
    decreases |held|
  {
    if held != [] {
      RemoveDistinct(held[1..], l);
      RemoveMembers(held[1..], l);
      var r := Remove(held[1..], l);
      forall j | 0 <= j < |r|
        ensures r[j] != held[0]
      {
        assert r[j] in held[1..];
      }
    }
  }

  lemma RemoveFacts(held: seq<LockId>, l: LockId)
    requires Distinct(held)
    ensures Distinct(Remove(held, l))
    ensures forall x :: x in Remove(held, l) <==> x in held && x != l
    ensures held != [] && held[0] != l ==> Remove(held, l) != [] && Remove(held, l)[0] == held[0]
    ensures |held| == 1 && held[0] == l ==> Remove(held, l) == []
  {
    RemoveDistinct(held, l);
    RemoveMembers(held, l);
  }

  // One instruction of a lock operation: the frame stays consistent, and moves on to the next
  // operation when it is back at Start.
  ghost predicate Kept(s: State, held: seq<LockId>)
    requires s.top.todo != []
  {
    var s' := Next(s, Run);
    && !s'.panicked && FrameOk(s', s'.top)
    && s'.below == s.below && s'.top.home == s.top.home && s'.top.held == held
    && s'.top.todo == (if s'.top.phase == Start then s.top.todo[1..] else s.top.todo)
  }

  ghost predicate Running(s: State) {
    !s.panicked && s.top.todo != [] && FrameOk(s, s.top)
  }

  lemma LockStepKeeps(s: State)
    requires Running(s) && s.top.todo[0].Acquire?
    requires s.top.phase in {Start, Saved, Cleared, Checked} ==> s.top.todo[0].l !in s.top.held
    ensures Kept(s, if s.top.phase == Checked then s.top.held + [s.top.todo[0].l] else s.top.held)
  {
    if s.top.phase == Checked {
      MarkKeeps(s);
    } else if s.top.phase == Marked {
      StoreFlagsKeeps(s);
    } else {
      assert forall x :: Get(Next(s, Run), x) == Get(s, x);
    }
  }

  lemma MarkKeeps(s: State)
    requires Running(s) && s.top.todo[0].Acquire? && s.top.phase == Checked
    ensures Kept(s, s.top.held + [s.top.todo[0].l])
  {
    var s', l := Next(s, Run), s.top.todo[0].l;
    assert forall x :: x != l ==> Get(s', x) == Get(s, x);
    assert forall x :: x in s'.top.held <==> x in s.top.held || x == l;
  }

  lemma StoreFlagsKeeps(s: State)
    requires Running(s) && s.top.todo[0].Acquire? && s.top.phase == Marked
    ensures Kept(s, s.top.held)
  {
    var s', l := Next(s, Run), s.top.todo[0].l;
    assert forall x :: x != l ==> Get(s', x) == Get(s, x);
  }

  lemma UnlockStepKeeps(s: State)
    requires Running(s) && s.top.todo[0].Release?
    requires s.top.phase in {Start, Tested} ==> OpOk(s.top.todo[0], s.top.held, s.top.home)
    ensures Kept(s, if s.top.phase == Tested then Remove(s.top.held, s.top.todo[0].l) else s.top.held)
  {
    if s.top.phase == Tested {
      FreeKeeps(s);
    } else {
      assert forall x :: Get(Next(s, Run), x) == Get(s, x);
    }
  }

  lemma FreeKeeps(s: State)
    requires Running(s) && s.top.todo[0].Release? && s.top.phase == Tested
    requires OpOk(s.top.todo[0], s.top.held, s.top.home)
    ensures Kept(s, Remove(s.top.held, s.top.todo[0].l))
  {
    var s', l := Next(s, Run), s.top.todo[0].l;
    RemoveFacts(s.top.held, l);
    assert forall x :: x != l ==> Get(s', x) == Get(s, x);
  }

  lemma AcquireKeeps(s: State)
    requires Inv(s) && s.top.todo != [] && s.top.todo[0].Acquire?
    ensures Inv(Next(s, Run))
  {
    LockStepKeeps(s);
  }

  lemma ReleaseKeeps(s: State)
    requires Inv(s) && s.top.todo != [] && s.top.todo[0].Release?
    ensures Inv(Next(s, Run))
  {
    UnlockStepKeeps(s);
  }

  lemma WorkKeeps(s: State)
    requires Inv(s) && s.top.todo != [] && s.top.todo[0].Work?
    ensures Inv(Next(s, Run))
  {
    assert s.top.phase == Start;
    assert forall x :: Get(Next(s, Run), x) == Get(s, x);
  }

  lemma ReturnKeeps(s: State)
    requires Inv(s) && s.top.todo == []
    ensures Inv(Next(s, Run))
  {
    assert forall x :: Get(Next(s, Run), x) == Get(s, x);
  }

  lemma InterruptKeeps(s: State, handler: seq<Op>)
    requires Inv(s) && GoodHandler(handler)
    ensures Inv(Next(s, Interrupt(handler)))
  {
    assert forall x :: Get(Next(s, Interrupt(handler)), x) == Get(s, x);
  }

  // Every instruction and every interrupt keeps the invariant.
  lemma StepKeeps(s: State, ev: Event)
    requires Inv(s) && (ev.Interrupt? ==> GoodHandler(ev.handler))
    ensures Inv(Next(s, ev))
  {
    if ev.Interrupt? {
      InterruptKeeps(s, ev.handler);
    } else if s.top.todo == [] {
      ReturnKeeps(s);
    } else if s.top.todo[0].Acquire? {
      AcquireKeeps(s);
    } else if s.top.todo[0].Release? {
      ReleaseKeeps(s);
    } else {
      WorkKeeps(s);
    }
  }

  lemma {:induction false} RunKeeps(s: State, schedule: seq<Event>)
    requires Inv(s) && GoodSchedule(schedule)
    ensures Inv(RunAll(s, schedule))
    decreases |schedule|
  {
    if schedule != [] {
      StepKeeps(s, schedule[0]);
      RunKeeps(Next(s, schedule[0]), schedule[1..]);
    }
  }

  // ----- what it gives

  // No panic, and IF is clear while any lock is held.
  ghost predicate Safe(s: State) {
    !s.panicked && forall l :: Get(s, l).locked ==> !s.interrupts
  }

  lemma InvSafe(s: State)
    requires Inv(s)
    ensures Safe(s)
  {
  }

  lemma BootOk(program: seq<Op>, home: bool)
    ensures FrameOk(Boot(program, home), Boot(program, home).top)
    ensures Disciplined(program, [], home) ==> Inv(Boot(program, home))
  {
  }

  // An interrupt is taken only when no lock is held, never above a handler, and it finds and leaves
  // the interrupted code with IF set.
  lemma InterruptsOutsideLocks(program: seq<Op>, home: bool, schedule: seq<Event>, handler: seq<Op>)
    requires Disciplined(program, [], home) && GoodSchedule(schedule)
    ensures var s := RunAll(Boot(program, home), schedule);
      && |s.below| <= 1
      && (Next(s, Interrupt(handler)) != s ==>
            s.below == [] && s.interrupts && forall l :: !Get(s, l).locked)
  {
    BootOk(program, home);
    RunKeeps(Boot(program, home), schedule);
  }

  // The value of IF outside critical sections in the interruptible code at the bottom of the stack.
  function BottomHome(s: State): bool {
    if s.below == [] then s.top.home else s.below[0].home
  }

  lemma {:induction false} RunKeepsHome(s: State, schedule: seq<Event>)
    ensures BottomHome(RunAll(s, schedule)) == BottomHome(s)
    decreases |schedule|
  {
    if schedule != [] {
      var s' := Next(s, schedule[0]);
      assert BottomHome(s') == BottomHome(s);
      RunKeepsHome(s', schedule[1..]);
    }
  }

  // Whenever the kernel code is between operations with no lock held, IF is what it was at the start.
  lemma InterruptFlagRestored(program: seq<Op>, home: bool, schedule: seq<Event>)
    requires Disciplined(program, [], home) && GoodSchedule(schedule)
    ensures var s := RunAll(Boot(program, home), schedule);
      s.below == [] && s.top.phase == Start && (forall l :: !Get(s, l).locked) ==> s.interrupts == home
  {
    BootOk(program, home);
    RunKeeps(Boot(program, home), schedule);
    RunKeepsHome(Boot(program, home), schedule);
    var s := RunAll(Boot(program, home), schedule);
    if s.top.held != [] {
      assert Get(s, s.top.held[0]).locked;
    }
  }

  // While a lock stays held its saved flags are not overwritten, once spin_lock has stored them.
  lemma SavedFlagsKept(s: State, ev: Event, l: LockId)
    requires Inv(s) && (ev.Interrupt? ==> GoodHandler(ev.handler))
    requires Get(s, l).locked && Get(Next(s, ev), l).locked
    ensures Get(Next(s, ev), l).irqFlags == Get(s, l).irqFlags || (s.top.phase == Marked && s.top.todo[0] == Acquire(l))
  {
  }

  // ----- the discipline is also necessary

  lemma {:induction false} RunAllConcat(s: State, a: seq<Event>, b: seq<Event>)
    ensures RunAll(s, a + b) == RunAll(RunAll(s, a), b)
    decreases |a|
  {
    if a == [] {
      assert a + b == b;
    } else {
      assert (a + b)[0] == a[0] && (a + b)[1..] == a[1..] + b;
      RunAllConcat(Next(s, a[0]), a[1..], b);
    }
  }

  // One whole operation without interrupts.
  function Steps(op: Op): seq<Event> {
    match op
    case Acquire(_) => [Run, Run, Run, Run, Run]
    case Release(_) => [Run, Run, Run, Run]
    case Work => [Run]
  }

  lemma FourRuns(s: State)
    ensures RunAll(s, [Run, Run, Run, Run]) == Next(Next(Next(Next(s, Run), Run), Run), Run)
    ensures RunAll(s, [Run, Run, Run, Run, Run]) == Next(Next(Next(Next(Next(s, Run), Run), Run), Run), Run)
  {
    var one := [Run];
    assert RunAll(s, [Run, Run, Run, Run]) == RunAll(Next(s, Run), [Run, Run, Run]);
    var s1 := Next(s, Run);
    assert RunAll(s1, [Run, Run, Run]) == RunAll(Next(s1, Run), [Run, Run]);
  }

  ghost predicate AtStart(s: State) {
    !s.panicked && FrameOk(s, s.top) && s.top.phase == Start && s.top.todo != []
  }

  ghost predicate Moved(s: State, s': State, phase: Phase, todo: seq<Op>, held: seq<LockId>) {
    && !s'.panicked && FrameOk(s', s'.top) && s'.below == s.below && s'.top.home == s.top.home
    && s'.top.phase == phase && s'.top.todo == todo && s'.top.held == held
  }

  lemma AcquireRuns(s: State, l: LockId)
    requires AtStart(s) && s.top.todo[0] == Acquire(l) && l !in s.top.held
    ensures Moved(s, RunAll(s, Steps(Acquire(l))), Start, s.top.todo[1..], s.top.held + [l])
  {
    var todo, held := s.top.todo, s.top.held;
    FourRuns(s);
    LockStepKeeps(s);
    var s1 := Next(s, Run);
    assert Moved(s, s1, Saved, todo, held);
    LockStepKeeps(s1);
    var s2 := Next(s1, Run);
    assert Moved(s, s2, Cleared, todo, held);
    LockStepKeeps(s2);
    var s3 := Next(s2, Run);
    assert Moved(s, s3, Checked, todo, held);
    LockStepKeeps(s3);
    var s4 := Next(s3, Run);
    assert Moved(s, s4, Marked, todo, held + [l]);
    LockStepKeeps(s4);
  }

  lemma ReleaseRuns(s: State, l: LockId)
    requires AtStart(s) && s.top.todo[0] == Release(l) && OpOk(Release(l), s.top.held, s.top.home)
    ensures Moved(s, RunAll(s, Steps(Release(l))), Start, s.top.todo[1..], Remove(s.top.held, l))
  {
    var todo, held := s.top.todo, s.top.held;
    FourRuns(s);
    UnlockStepKeeps(s);
    var s1 := Next(s, Run);
    assert Moved(s, s1, Tested, todo, held);
    UnlockStepKeeps(s1);
    var s2 := Next(s1, Run);
    assert Moved(s, s2, Freed, todo, Remove(held, l));
    UnlockStepKeeps(s2);
    var s3 := Next(s2, Run);
    assert Moved(s, s3, Fetched, todo, Remove(held, l));
    UnlockStepKeeps(s3);
  }

  lemma OperationRuns(s: State)
    requires AtStart(s) && OpOk(s.top.todo[0], s.top.held, s.top.home)
    ensures var op := s.top.todo[0];
      Moved(s, RunAll(s, Steps(op)), Start, s.top.todo[1..], After(op, s.top.held))
  {
    match s.top.todo[0]
    case Acquire(l) => AcquireRuns(s, l);
    case Release(l) => ReleaseRuns(s, l);
    case Work =>
  }

  lemma BadOperationUnsafe(s: State) returns (schedule: seq<Event>)
    requires AtStart(s) && !OpOk(s.top.todo[0], s.top.held, s.top.home)
    ensures GoodSchedule(schedule) && !Safe(RunAll(s, schedule))
  {
    schedule := Steps(s.top.todo[0]);
    FourRuns(s);
    if s.top.todo[0].Release? && s.top.todo[0].l in s.top.held {
      EarlyRestore(s);
    }
  }

  // Releasing the lock that was taken first before the others sets IF while they are held.
  lemma EarlyRestore(s: State)
    requires AtStart(s) && !OpOk(s.top.todo[0], s.top.held, s.top.home)
    requires s.top.todo[0].Release? && s.top.todo[0].l in s.top.held
    ensures !Safe(Next(Next(Next(Next(s, Run), Run), Run), Run))
  {
    var l, other := s.top.todo[0].l, s.top.held[1];
    RemoveFacts(s.top.held, l);
    assert other in s.top.held && Get(s, other).locked;
    var s2 := Next(Next(s, Run), Run);
    assert Get(s2, l).irqFlags && Get(s2, other).locked;
    var s' := Next(Next(s2, Run), Run);
    assert s'.interrupts && Get(s', other).locked;
  }

  lemma {:induction false} UndisciplinedUnsafe(s: State) returns (schedule: seq<Event>)
    requires !s.panicked && FrameOk(s, s.top) && s.top.phase == Start && s.below == []
    requires !Disciplined(s.top.todo, s.top.held, s.top.home)
    ensures GoodSchedule(schedule) && !Safe(RunAll(s, schedule))
    decreases |s.top.todo|
  {
    var op := s.top.todo[0];
    if OpOk(op, s.top.held, s.top.home) {
      OperationRuns(s);
      var rest := UndisciplinedUnsafe(RunAll(s, Steps(op)));
      schedule := Steps(op) + rest;
      RunAllConcat(s, Steps(op), rest);
    } else {
      schedule := BadOperationUnsafe(s);
    }
  }

  // The kernel code is safe under every interleaving with well-behaved handlers exactly when it
  // keeps the discipline.
  lemma SafeIffDisciplined(program: seq<Op>, home: bool)
    ensures (forall schedule :: GoodSchedule(schedule) ==> Safe(RunAll(Boot(program, home), schedule)))
       <==> Disciplined(program, [], home)
  {
    BootOk(program, home);
    if Disciplined(program, [], home) {
      forall schedule | GoodSchedule(schedule)
        ensures Safe(RunAll(Boot(program, home), schedule))
      {
        RunKeeps(Boot(program, home), schedule);
        InvSafe(RunAll(Boot(program, home), schedule));
      }
    } else {
      var schedule := UndisciplinedUnsafe(Boot(program, home));
    }
  }

  // Disciplined code does not get stuck: left alone it comes to its end.
  lemma {:induction false} DisciplinedCompletes(s: State) returns (schedule: seq<Event>)
    requires !s.panicked && FrameOk(s, s.top) && s.top.phase == Start
    requires Disciplined(s.top.todo, s.top.held, s.top.home)
    ensures var s' := RunAll(s, schedule);
      && !s'.panicked && FrameOk(s', s'.top) && s'.below == s.below
      && s'.top.todo == [] && s'.top.held == HeldAtEnd(s.top.todo, s.top.held)
    ensures forall i :: 0 <= i < |schedule| ==> schedule[i] == Run
    decreases |s.top.todo|
  {
    schedule := [];
    if s.top.todo != [] {
      var op := s.top.todo[0];
      OperationRuns(s);
      var rest := DisciplinedCompletes(RunAll(s, Steps(op)));
      schedule := Steps(op) + rest;
      RunAllConcat(s, Steps(op), rest);
    }
  }

  // An interrupt is taken exactly while IF is set, and its handler then starts with IF clear.
  lemma InterruptTaken(s: State, handler: seq<Op>)
    requires !s.panicked
    ensures var s' := Next(s, Interrupt(handler));
      if s.interrupts then
        && s'.top.todo == handler && s'.top.phase == Start && s'.top.held == [] && !s'.interrupts
        && s'.below == s.below + [s.top] && s'.locks == s.locks && !s'.panicked
      else s' == s
  {
  }

  // An interrupt leaves no trace: its handler runs to its end and returns, and the interrupted code goes on at the
  // instruction it was at, with IF set and the same locks held, which are none.
  lemma InterruptLeavesNoTrace(s: State, handler: seq<Op>) returns (schedule: seq<Event>)
    requires Inv(s) && s.interrupts && GoodHandler(handler)
    ensures forall i :: 0 <= i < |schedule| ==> schedule[i] == Run
    ensures var s' := RunAll(Next(s, Interrupt(handler)), schedule);
      && !s'.panicked && s'.interrupts && s'.top == s.top && s'.below == s.below
      && forall l :: !Get(s', l).locked && !Get(s, l).locked
  {
    var s1 := Next(s, Interrupt(handler));
    StepKeeps(s, Interrupt(handler));
    var runs := DisciplinedCompletes(s1);
    schedule := runs + [Run];
    RunAllConcat(s1, runs, [Run]);
    var s2 := RunAll(s1, runs);
    assert RunAll(s2, [Run]) == RunAll(Next(s2, Run), []);
    assert s2.below == s.below + [s.top];
    assert (s.below + [s.top])[..|s.below|] == s.below;
    assert forall l :: Get(Next(s2, Run), l) == Get(s2, l);
  }

  // Well-nested code that leaves no lock behind may run as a handler.
  lemma NestedHandlerIsGood(handler: seq<Op>)
    requires Nested(handler, []) && HeldAtEnd(handler, []) == []
    ensures GoodHandler(handler)
  {
    NestedIsDisciplined(handler, [], false);
  }

  lemma {:induction false} RemoveLast(held: seq<LockId>)
    requires held != [] && Distinct(held)
    ensures Remove(held, held[|held| - 1]) == held[..|held| - 1]
    decreases |held|
  {
    if |held| > 1 {
      RemoveLast(held[1..]);
      assert held[..|held| - 1] == [held[0]] + held[1..][..|held| - 2];
    } else {
      assert held[1..] == [];
    }
  }

  // Well-nested use keeps the discipline, in interruptible code and in handlers.
  lemma {:induction false} NestedIsDisciplined(todo: seq<Op>, held: seq<LockId>, home: bool)
    requires Nested(todo, held) && Distinct(held)
    ensures Disciplined(todo, held, home)
    decreases |todo|
  {
    if todo != [] {
      if todo[0].Release? {
        RemoveLast(held);
      }
      NestedIsDisciplined(todo[1..], After(todo[0], held), home);
    }
  }

  // ----- the two functions as ordinary code

  // Run without an interruption, the instructions of spin_lock and spin_unlock have the effect that
  // the methods below promise.
  lemma UninterruptedLock(s: State, l: LockId)
    requires !s.panicked && s.top.phase == Start && s.top.todo != [] && s.top.todo[0] == Acquire(l)
    ensures var s' := RunAll(s, Steps(Acquire(l)));
      if Get(s, l).locked then s'.panicked && !s'.interrupts && s'.locks == s.locks
      else !s'.panicked && !s'.interrupts && s'.locks == s.locks[l := Lock(true, s.interrupts)]
  {
    FourRuns(s);
    var s3 := Next(Next(Next(s, Run), Run), Run);
    assert s3 == if Get(s, l).locked then s.(interrupts := false, panicked := true, top := s.top.(phase := Cleared, flags := s.interrupts))
                 else s.(interrupts := false, top := s.top.(phase := Checked, flags := s.interrupts));
  }

  lemma UninterruptedUnlock(s: State, l: LockId)
    requires !s.panicked && s.top.phase == Start && s.top.todo != [] && s.top.todo[0] == Release(l)
    ensures var s', flags := RunAll(s, Steps(Release(l))), Get(s, l).irqFlags;
      if !Get(s, l).locked then s'.panicked && s'.interrupts == s.interrupts && s'.locks == s.locks
      else !s'.panicked && s'.interrupts == flags && s'.locks == s.locks[l := Lock(false, flags)]
  {
    FourRuns(s);
  }

  class Cpu {
    var interrupts: bool

    constructor (interrupts: bool)
      ensures this.interrupts == interrupts
    {
      this.interrupts := interrupts;
    }
  }

  class SpinLock {
    var locked: bool
    var irqFlags: bool

    // spinlock_init
    constructor ()
      ensures !locked && !irqFlags
    {
      locked, irqFlags := false, false;
    }

    // A lock that is already held panics, with interrupts off and the lock as it was.
    method Lock(cpu: Cpu) returns (ok: bool)
      modifies this, cpu
      ensures ok == !old(locked) && locked && !cpu.interrupts
      ensures irqFlags == if ok then old(cpu.interrupts) else old(irqFlags)
    {
      var flags := cpu.interrupts;
      cpu.interrupts := false;
      if locked {
        return false;
      }
      locked := true;
      irqFlags := flags;
      return true;
    }

    // A lock that is free panics, and nothing changes.
    method Unlock(cpu: Cpu) returns (ok: bool)
      modifies this, cpu
      ensures ok == old(locked) && !locked && irqFlags == old(irqFlags)
      ensures cpu.interrupts == if ok then old(irqFlags) else old(cpu.interrupts)
    {
      if !locked {
        return false;
      }
      locked := false;
      cpu.interrupts := irqFlags;
      return true;
    }
  }
}
