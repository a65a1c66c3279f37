/** kernel/irq.c: the handler table, registration and dispatch; and registration as a sequence of
    single writes with interrupts arriving in between. */
module Irq {
  import opened Pic8259
  import opened Options

  // A table entry: the handler (None is NULL) and the cookie passed to it.
  datatype Desc = Desc(handler: Option<nat>, dev: nat)

  datatype Call = Called(irq: nat, handler: nat, dev: nat) | Unhandled(irq: nat)

  const EMPTY := Desc(None, 0)

  type Table = t: seq<Desc> | |t| == LINES witness seq(LINES, _ => EMPTY)

  function CallOf(table: Table, irq: nat): Call
    requires irq < LINES
  {
    if table[irq].handler.Some? then Called(irq, table[irq].handler.value, table[irq].dev) else Unhandled(irq)
  }

  predicate InRange(irq: int) {
    0 <= irq < LINES
  }

  // Which operations the registered chip offers.
  datatype ChipOps = ChipOps(init: bool, unmask: bool, eoi: bool)

  // ----- the code

  class IrqCore {
    const table: array<Desc>
    const ports: Ports
    var chip: Option<ChipOps>
    var calls: seq<Call>  // what handlers have been run, newest last
    var halted: bool

    ghost predicate Valid()
      reads this, ports
    {
      table.Length == LINES && Ready(ports.pics)
    }

    // The firmware leaves both controllers initialized.
    constructor (ports: Ports)
      requires Ready(ports.pics)
      ensures Valid() && this.ports == ports && table[..] == seq(LINES, _ => EMPTY)
      ensures chip == None && calls == [] && !halted && fresh(table)
    {
      this.ports := ports;
      table := new Desc[LINES](_ => EMPTY);
      chip, calls, halted := None, [], false;
    }

    // irq_handle: an unknown number stops the machine; a known one always ends with an end-of-interrupt.
    method HandleIrq(irq: int)
      requires Valid()
      modifies this`calls, this`halted, ports
      ensures Valid()
      ensures halted == (old(halted) || !InRange(irq))
      ensures calls == if InRange(irq) then old(calls) + [CallOf(table[..], irq)] else old(calls)
      ensures 0 <= irq < 16 ==>
        var d := table[irq];
        calls == old(calls) + [if d.handler.Some? then Called(irq, d.handler.value, d.dev) else Unhandled(irq)]
      ensures InRange(irq) && chip.Some? && chip.value.eoi ==> ports.pics == SendEoi(old(ports.pics), irq)
      ensures !InRange(irq) || chip.None? || !chip.value.eoi ==> ports.pics == old(ports.pics)
    {
      if irq < 0 || irq >= LINES {
        halted := true;
        return;
      }
      if table[irq].handler.Some? {
        calls := calls + [Called(irq, table[irq].handler.value, table[irq].dev)];
      } else {
        calls := calls + [Unhandled(irq)];
      }
      if chip.Some? && chip.value.eoi {
        ports.EndOfInterrupt(irq);
      }
    }

    // irq_set_chip: a chip without init stays registered although the call fails.
    method SetChip(newChip: Option<ChipOps>) returns (status: int)
      requires Valid()
      modifies this`chip, ports
      ensures Valid()
      ensures status == if newChip.Some? && newChip.value.init then 0 else 1
      ensures chip == if newChip.Some? then newChip else old(chip)
      ensures ports.pics == if status == 0 then INITIAL else old(ports.pics)
    {
      if newChip.None? {
        return 1;
      }
      chip := newChip;
      if chip.value.init {
        ports.Init();
        return 0;
      } else {
        return 1;
      }
    }

    // irq_request: the table entry is complete before the line is unmasked.
    method Request(irq: int, handler: Option<nat>, dev: nat) returns (status: int)
      requires Valid()
      modifies table, ports
      ensures Valid()
      ensures status == if InRange(irq) && chip.Some? && chip.value.unmask then 0 else 1
      ensures status == 0 ==> table[..] == old(table[..])[irq := Desc(handler, dev)]
                              && ports.pics == Unmask(old(ports.pics), irq)
      ensures status != 0 ==> table[..] == old(table[..]) && ports.pics == old(ports.pics)
    {
      if irq < 0 || irq >= LINES {
        return 1;
      }
      if chip.None? || !chip.value.unmask {
        return 1;
      }
      table[irq] := Desc(handler, dev);
      ports.UnmaskIrq(irq);
      return 0;
    }
  }

  ghost predicate NothingInService(p: Pics) {
    forall i :: 0 <= i < 8 ==> !p.master.isr[i] && !p.slave.isr[i]
  }

  ghost predicate AllMasked(p: Pics) {
    (forall irq: nat :: irq < LINES ==> Masked(p, irq)) && NothingInService(p)
  }

  lemma InitialAllMasked()
    ensures AllMasked(INITIAL) && Ready(INITIAL)
  {
    AllAndNone();
  }

  // ----- registration in single writes

  datatype Request = Request(irq: int, handler: Option<nat>, dev: nat)

  // Writes already made for the request at the head: handler, cookie, mask register read.
  datatype Phase = Idle | HandlerStored | DevStored | MaskRead(value: Reg)

  datatype State = State(table: Table, pics: Pics, todo: seq<Request>, phase: Phase, calls: seq<Call>)

  datatype Event = Step | Interrupt(irq: nat)

  function Line(irq: nat): nat
    requires irq < LINES
    ensures Line(irq) < 8
  {
    if irq < 8 then irq else irq - 8
  }

  function StepRequest(s: State): State {
    if s.todo == [] then s
    else
      var r := s.todo[0];
      if !InRange(r.irq) then s.(todo := s.todo[1..], phase := Idle)
      else match s.phase
        case Idle => s.(table := s.table[r.irq := s.table[r.irq].(handler := r.handler)], phase := HandlerStored)
        case HandlerStored => s.(table := s.table[r.irq := s.table[r.irq].(dev := r.dev)], phase := DevStored)
        case DevStored => s.(phase := MaskRead(Imr(s.pics, r.irq)))
        case MaskRead(value) =>
          s.(pics := SetImr(s.pics, r.irq, value[Line(r.irq) := false]), todo := s.todo[1..], phase := Idle)
  }

  // The handler runs to its end-of-interrupt with interrupts off.
  function Dispatch(s: State, irq: nat): State
    requires irq < LINES
  {
    s.(pics := SendEoi(Acknowledge(s.pics, irq), irq), calls := s.calls + [CallOf(s.table, irq)])
  }

  function Next(s: State, ev: Event): State {
    match ev
    case Step => StepRequest(s)
    case Interrupt(irq) => if irq < LINES && Deliverable(s.pics, irq) then Dispatch(s, irq) else s
  }

  function RunAll(s: State, schedule: seq<Event>): State
    decreases |schedule|
  {
    if schedule == [] then s else RunAll(Next(s, schedule[0]), schedule[1..])
  }

  // The state irq_set_chip leaves.
  function Fresh(p: Pics, requests: seq<Request>): State {
    State(seq(LINES, _ => EMPTY), p, requests, Idle, [])
  }

  // ----- every step

  predicate Requested(requests: seq<Request>, irq: nat) {
    exists i :: 0 <= i < |requests| && requests[i].irq == irq
  }

  // The descriptor of the last request for a line, if any.
  function LastEntry(requests: seq<Request>, irq: nat): Desc
    decreases |requests|
  {
    if requests == [] then EMPTY
    else
      var r := requests[|requests| - 1];
      if r.irq == irq then Desc(r.handler, r.dev) else LastEntry(requests[..|requests| - 1], irq)
  }

  // The i-th request is the last one for the line.
  predicate IsLast(requests: seq<Request>, i: int, irq: nat) {
    0 <= i < |requests| && requests[i].irq == irq && forall h :: i < h < |requests| ==> requests[h].irq != irq
  }

  lemma {:induction false} LastEntryIsLast(requests: seq<Request>, irq: nat)
    ensures !Requested(requests, irq) ==> LastEntry(requests, irq) == EMPTY
    ensures forall i :: IsLast(requests, i, irq) ==> LastEntry(requests, irq) == Desc(requests[i].handler, requests[i].dev)
    decreases |requests|
  {
    if requests != [] {
      var last, before := |requests| - 1, requests[..|requests| - 1];
      LastEntryIsLast(before, irq);
      if requests[last].irq != irq {
        assert Requested(before, irq) ==> Requested(requests, irq);
        forall i | IsLast(requests, i, irq)
          ensures LastEntry(requests, irq) == Desc(requests[i].handler, requests[i].dev)
        {
          assert IsLast(before, i, irq);
        }
      }
    }
  }

  lemma OneMoreRequest(done: seq<Request>, r: Request, irq: nat)
    ensures LastEntry(done + [r], irq) == if r.irq == irq then Desc(r.handler, r.dev) else LastEntry(done, irq)
    ensures Requested(done + [r], irq) <==> r.irq == irq || Requested(done, irq)
  {
    assert (done + [r])[..|done|] == done;
    assert (done + [r])[|done|] == r;
    assert forall i :: 0 <= i < |done| ==> (done + [r])[i] == done[i];
  }

  // The table entry of a line between any two stores.
  function EntryNow(s: State, done: seq<Request>, irq: nat): Desc {
    var entry := LastEntry(done, irq);
    if s.todo == [] || s.todo[0].irq != irq then entry
    else match s.phase
      case Idle => entry
      case HandlerStored => entry.(handler := s.todo[0].handler)
      case _ => Desc(s.todo[0].handler, s.todo[0].dev)
  }

  // Every request for the line brings a handler.
  predicate HandlersGiven(requests: seq<Request>, irq: nat) {
    forall i :: 0 <= i < |requests| && requests[i].irq == irq ==> requests[i].handler.Some?
  }

  ghost predicate LineAsDone(s: State, done: seq<Request>, irq: nat)
    requires irq < LINES
  {
    && (!Masked(s.pics, irq) <==> Requested(done, irq))
    && s.table[irq] == EntryNow(s, done, irq)
  }

  // The requests split into those done, which determine table and masks, and those to do; a call without
  // a handler is for a line of which some request brings none.
  ghost predicate Inv(s: State, done: seq<Request>) {
    && NothingInService(s.pics)
    && (s.phase != Idle ==> s.todo != [] && InRange(s.todo[0].irq))
    && (s.phase.MaskRead? ==> s.phase.value == Imr(s.pics, s.todo[0].irq))
    && (forall irq: nat :: irq < LINES ==> LineAsDone(s, done, irq))
    && (forall i :: 0 <= i < |s.calls| && s.calls[i].Unhandled? ==> !HandlersGiven(done + s.todo, s.calls[i].irq))
  }

  // The requests done after an event.
  function DoneAfter(s: State, done: seq<Request>, ev: Event): seq<Request> {
    if |Next(s, ev).todo| < |s.todo| then done + [s.todo[0]] else done
  }

  lemma {:induction false} LastEntryHandled(done: seq<Request>, irq: nat)
    requires HandlersGiven(done, irq) && Requested(done, irq)
    ensures LastEntry(done, irq).handler.Some?
    decreases |done|
  {
    var last := |done| - 1;
    if done[last].irq != irq {
      assert done[..last] + [done[last]] == done;
      OneMoreRequest(done[..last], done[last], irq);
      LastEntryHandled(done[..last], irq);
    }
  }

  // An unmasked line has a handler if every request for it brings one.
  lemma UnmaskedHandled(s: State, done: seq<Request>, irq: nat)
    requires Inv(s, done) && irq < LINES && !Masked(s.pics, irq) && HandlersGiven(done + s.todo, irq)
    ensures s.table[irq].handler.Some?
  {
    var requests := done + s.todo;
    assert LineAsDone(s, done, irq);
    assert forall i :: 0 <= i < |done| ==> requests[i] == done[i];
    LastEntryHandled(done, irq);
    assert s.todo != [] ==> requests[|done|] == s.todo[0];
  }

  lemma StoreKeepsLine(s: State, done: seq<Request>, irq: nat)
    requires Inv(s, done) && irq < LINES
    ensures LineAsDone(Next(s, Step), DoneAfter(s, done, Step), irq)
  {
    assert LineAsDone(s, done, irq);
    if s.todo != [] {
      var r := s.todo[0];
      OneMoreRequest(done, r, irq);
      if s.phase.MaskRead? {
        MaskWriteIsUnmask(s);
        MaskFrame(s.pics, r.irq, irq);
      } else if s.phase != Idle || !InRange(r.irq) {
        assert Next(s, Step).pics == s.pics;
      }
    }
  }

  lemma MaskWriteIsUnmask(s: State)
    requires s.phase.MaskRead? && s.todo != [] && InRange(s.todo[0].irq)
    requires s.phase.value == Imr(s.pics, s.todo[0].irq)
    ensures StepRequest(s).pics == Unmask(s.pics, s.todo[0].irq)
  {
  }

  lemma StoreSplits(s: State, done: seq<Request>)
    ensures DoneAfter(s, done, Step) + Next(s, Step).todo == done + s.todo && Next(s, Step).calls == s.calls
  {
    if s.todo != [] {
      assert s.todo == [s.todo[0]] + s.todo[1..];
    }
  }

  lemma StepKeeps(s: State, done: seq<Request>, ev: Event)
    requires Inv(s, done)
    ensures Inv(Next(s, ev), DoneAfter(s, done, ev))
    ensures DoneAfter(s, done, ev) + Next(s, ev).todo == done + s.todo
  {
    match ev
    case Step =>
      forall irq: nat | irq < LINES
        ensures LineAsDone(Next(s, Step), DoneAfter(s, done, Step), irq)
      {
        StoreKeepsLine(s, done, irq);
      }
      StoreSplits(s, done);
    case Interrupt(irq) =>
      if irq < LINES && Deliverable(s.pics, irq) {
        EoiUndoesAcknowledge(s.pics, irq);
        var s' := Dispatch(s, irq);
        assert forall line: nat | line < LINES :: LineAsDone(s, done, line) ==> LineAsDone(s', done, line);
        if HandlersGiven(done + s.todo, irq) {
          UnmaskedHandled(s, done, irq);
        }
      }
  }

  // Between any two stores of any requests, with interrupts anywhere: table and masks are those of the
  // requests done and of the stores made for the next one, and nothing is left in service.
  lemma {:induction false} RegistrationSafe(s: State, done: seq<Request>, schedule: seq<Event>)
    returns (done': seq<Request>)
    requires Inv(s, done)
    ensures var s' := RunAll(s, schedule); Inv(s', done') && done' + s'.todo == done + s.todo
    decreases |schedule|
  {
    done' := done;
    if schedule != [] {
      StepKeeps(s, done, schedule[0]);
      done' := RegistrationSafe(Next(s, schedule[0]), DoneAfter(s, done, schedule[0]), schedule[1..]);
    }
  }

  lemma FreshInv(p: Pics, requests: seq<Request>)
    requires AllMasked(p)
    ensures Inv(Fresh(p, requests), [])
  {
  }

  // ----- a request without a handler

  lemma RunCons(s: State, ev: Event, rest: seq<Event>)
    ensures RunAll(s, [ev] + rest) == RunAll(Next(s, ev), rest)
  {
    assert ([ev] + rest)[1..] == rest;
  }

  // The four steps of one request, left alone.
  function OneRequest(s: State): State {
    Next(Next(Next(Next(s, Step), Step), Step), Step)
  }

  const FOUR_STEPS: seq<Event> := [Step] + ([Step] + ([Step] + [Step]))

  lemma FourSteps(s: State, rest: seq<Event>)
    ensures RunAll(s, [Step] + ([Step] + ([Step] + ([Step] + rest)))) == RunAll(OneRequest(s), rest)
  {
    var s1 := Next(s, Step);
    var s2 := Next(s1, Step);
    RunCons(s, Step, [Step] + ([Step] + ([Step] + rest)));
    RunCons(s1, Step, [Step] + ([Step] + rest));
    RunCons(s2, Step, [Step] + rest);
    RunCons(Next(s2, Step), Step, rest);
  }

  lemma OneRequestDone(s: State)
    requires s.phase == Idle && s.todo != [] && InRange(s.todo[0].irq)
    ensures var r, s' := s.todo[0], OneRequest(s);
      && s'.phase == Idle && s'.todo == s.todo[1..] && s'.calls == s.calls
      && s'.table == s.table[r.irq := Desc(r.handler, r.dev)] && s'.pics == Unmask(s.pics, r.irq)
  {
    var r := s.todo[0];
    assert s.table[r.irq := s.table[r.irq].(handler := r.handler)][r.irq := Desc(r.handler, r.dev)]
        == s.table[r.irq := Desc(r.handler, r.dev)];
  }

  // No interrupt of the line goes unhandled.
  ghost predicate LineHandled(s: State, irq: nat)
    requires irq < LINES
  {
    !Masked(s.pics, irq) ==> s.table[irq].handler.Some?
  }

  lemma {:induction false} MissingHandlerShows(s: State, irq: nat) returns (schedule: seq<Event>)
    requires s.phase == Idle && irq < LINES && !HandlersGiven(s.todo, irq)
    ensures !LineHandled(RunAll(s, schedule), irq)
    ensures forall i :: 0 <= i < |schedule| ==> schedule[i] == Step
    decreases |s.todo|
  {
    var r := s.todo[0];
    if r.irq == irq && r.handler.None? {
      schedule := [];
      OneRequestDone(s);
      MaskFrame(s.pics, irq, irq);
    } else {
      assert !HandlersGiven(s.todo[1..], irq);
      if !InRange(r.irq) {
        schedule := MissingHandlerShows(Next(s, Step), irq);
        RunCons(s, Step, schedule);
        schedule := [Step] + schedule;
        return;
      }
      OneRequestDone(s);
      schedule := MissingHandlerShows(OneRequest(s), irq);
    }
    FourSteps(s, schedule);
    schedule := [Step] + ([Step] + ([Step] + ([Step] + schedule)));
  }

  // A line has a handler whenever it is unmasked, at every moment of every schedule, exactly if every
  // request for it brings one; irq_request itself does not ask.
  lemma HandledIffGiven(p: Pics, requests: seq<Request>, irq: nat)
    requires AllMasked(p) && irq < LINES
    ensures (forall schedule :: LineHandled(RunAll(Fresh(p, requests), schedule), irq)) <==> HandlersGiven(requests, irq)
  {
    if HandlersGiven(requests, irq) {
      forall schedule
        ensures LineHandled(RunAll(Fresh(p, requests), schedule), irq)
      {
        FreshInv(p, requests);
        var done := RegistrationSafe(Fresh(p, requests), [], schedule);
        assert [] + requests == requests;
        var s := RunAll(Fresh(p, requests), schedule);
        if !Masked(s.pics, irq) {
          UnmaskedHandled(s, done, irq);
        }
      }
    } else {
      var schedule := MissingHandlerShows(Fresh(p, requests), irq);
    }
  }

  // A NULL handler for line 1: four steps leave the line unmasked, and its next interrupt unhandled.
  lemma NullHandlerExample(p: Pics)
    requires AllMasked(p)
    ensures var s := RunAll(Fresh(p, [Request(1, None, 0)]), FOUR_STEPS);
      && !Masked(s.pics, 1) && s.table[1].handler == None
      && Next(s, Interrupt(1)).calls == [Unhandled(1)]
  {
    var s := Fresh(p, [Request(1, None, 0)]);
    OneRequestDone(s);
    FourSteps(s, []);
    assert [Step] + [] == [Step];
    MaskFrame(p, 1, 1);
  }

  // ----- what a completed run has registered

  // When all requests are done, interrupts have not disturbed the result: the entry of a line is that of the
  // last request for it, the line is unmasked exactly if it was requested, and gets its interrupts through
  // exactly if it was requested and, on the slave, line 2 was requested as well.
  lemma RegistrationResult(p: Pics, requests: seq<Request>, schedule: seq<Event>, irq: nat)
    requires AllMasked(p) && irq < LINES
    requires RunAll(Fresh(p, requests), schedule).todo == []
    ensures var s := RunAll(Fresh(p, requests), schedule);
      && (!Requested(requests, irq) ==> s.table[irq] == EMPTY)
      && (forall i :: IsLast(requests, i, irq) ==> s.table[irq] == Desc(requests[i].handler, requests[i].dev))
      && (!Masked(s.pics, irq) <==> Requested(requests, irq))
      && (Deliverable(s.pics, irq) <==>
            irq != CASCADE && Requested(requests, irq) && (irq >= 8 ==> Requested(requests, CASCADE)))
  {
    FreshInv(p, requests);
    var done := RegistrationSafe(Fresh(p, requests), [], schedule);
    assert done == requests by {
      assert [] + requests == requests && done + [] == done;
    }
    var s := RunAll(Fresh(p, requests), schedule);
    assert LineAsDone(s, done, irq) && LineAsDone(s, done, CASCADE);
    LastEntryIsLast(requests, irq);
  }

  // An interrupt that gets through is dispatched at once: the entry's handler is called with its cookie, and its
  // end-of-interrupt leaves nothing behind; one that does not has no effect.
  lemma InterruptDispatched(s: State, irq: nat)
    requires irq < LINES
    ensures Deliverable(s.pics, irq) ==>
      var d := s.table[irq];
      Next(s, Interrupt(irq)) ==
        s.(calls := s.calls + [if d.handler.Some? then Called(irq, d.handler.value, d.dev) else Unhandled(irq)])
    ensures !Deliverable(s.pics, irq) ==> Next(s, Interrupt(irq)) == s
  {
    if Deliverable(s.pics, irq) {
      EoiUndoesAcknowledge(s.pics, irq);
    }
  }

  // After any run that completes the requests, an interrupt on a line that is on the master, or on the slave with
  // line 2 requested too, calls the handler of the last request for it with that request's cookie.
  lemma DeliveryResult(p: Pics, requests: seq<Request>, schedule: seq<Event>, i: nat)
    requires AllMasked(p) && RunAll(Fresh(p, requests), schedule).todo == []
    requires i < |requests| && InRange(requests[i].irq) && IsLast(requests, i, requests[i].irq)
    requires requests[i].irq != CASCADE && (requests[i].irq >= 8 ==> Requested(requests, CASCADE))
    ensures var s, r := RunAll(Fresh(p, requests), schedule), requests[i];
      Next(s, Interrupt(r.irq)).calls ==
        s.calls + [if r.handler.Some? then Called(r.irq, r.handler.value, r.dev) else Unhandled(r.irq)]
  {
    var irq: nat := requests[i].irq;
    RegistrationResult(p, requests, schedule, irq);
    InterruptDispatched(RunAll(Fresh(p, requests), schedule), irq);
    assert Requested(requests, irq);
  }

  // Left alone, the requests are done after four steps each.
  lemma {:induction false} RegistrationCompletes(s: State) returns (schedule: seq<Event>)
    requires s.phase == Idle
    ensures RunAll(s, schedule).todo == []
    ensures forall i :: 0 <= i < |schedule| ==> schedule[i] == Step
    decreases |s.todo|
  {
    schedule := [];
    if s.todo != [] {
      if !InRange(s.todo[0].irq) {
        schedule := RegistrationCompletes(Next(s, Step));
        RunCons(s, Step, schedule);
        schedule := [Step] + schedule;
      } else {
        OneRequestDone(s);
        schedule := RegistrationCompletes(OneRequest(s));
        FourSteps(s, schedule);
        schedule := [Step] + ([Step] + ([Step] + ([Step] + schedule)));
      }
    }
  }

  // Line 8 alone: registered, unmasked and with a handler, and yet no interrupt gets through.
  lemma SlaveLineExample(p: Pics, handler: nat)
    requires AllMasked(p)
    ensures var s := RunAll(Fresh(p, [Request(8, Some(handler), 0)]), FOUR_STEPS);
      && s.todo == [] && s.table[8] == Desc(Some(handler), 0) && !Masked(s.pics, 8)
      && Next(s, Interrupt(8)) == s
  {
    var s := Fresh(p, [Request(8, Some(handler), 0)]);
    OneRequestDone(s);
    FourSteps(s, []);
    assert [Step] + [] == [Step];
    MaskFrame(p, 8, 8);
    MaskFrame(p, 8, CASCADE);
  }

  // Between the two stores of a table entry, an interrupt on the line sees the old or the new entry,
  // never a mixture, exactly if the line is not deliverable or one of the two fields does not change.
  lemma NoMixedEntry(s: State)
    requires s.phase == Idle && s.todo != [] && InRange(s.todo[0].irq)
    ensures var r := s.todo[0]; var mid := StepRequest(s); var done := StepRequest(mid);
      (Deliverable(mid.pics, r.irq) ==> CallOf(mid.table, r.irq) in {CallOf(s.table, r.irq), CallOf(done.table, r.irq)})
      <==>
      !Deliverable(s.pics, r.irq) || r.handler == s.table[r.irq].handler || r.dev == s.table[r.irq].dev || r.handler.None?
  {
  }

  // Registering line 1 twice, with an interrupt between the two stores of the second entry: the new
  // handler runs with the old cookie.
  lemma MixedEntryExample(p: Pics)
    requires AllMasked(p)
    ensures var requests := [Request(1, Some(10), 20), Request(1, Some(11), 21)];
      RunAll(Fresh(p, requests), [Step] + ([Step] + ([Step] + ([Step] + [Step, Interrupt(1)])))).calls == [Called(1, 11, 20)]
  {
    var s := Fresh(p, [Request(1, Some(10), 20), Request(1, Some(11), 21)]);
    OneRequestDone(s);
    FourSteps(s, [Step, Interrupt(1)]);
    MaskFrame(p, 1, 1);
    var s' := OneRequest(s);
    RunCons(s', Step, [Interrupt(1)]);
    RunCons(Next(s', Step), Interrupt(1), []);
    assert [Step] + [Interrupt(1)] == [Step, Interrupt(1)];
    assert [Interrupt(1)] + [] == [Interrupt(1)];
  }
}
