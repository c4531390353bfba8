// What the transport promises its callers, in every reachable state.
module TransportTheorems {
  import opened Octets
  import opened Wrappers
  import opened Events
  import opened Transport
  import opened TransportSafety
  import opened LastWrite
  import Journal

  // ---- Reachability ----

  ghost predicate Reachable(s: State, atomic: bool) {
    exists states: seq<State>, steps: seq<Step> ::
      Execution(states, steps) && states[0] == Start(atomic) && states[|steps|] == s
  }

  lemma StartIsReachable(atomic: bool)
    ensures Reachable(Start(atomic), atomic)
  {
    assert Execution([Start(atomic)], []);
  }

  lemma ReachableStep(s: State, step: Step, atomic: bool)
    requires Reachable(s, atomic) && Enabled(s, step)
    ensures Reachable(Apply(s, step), atomic)
  {
    hide Enabled, Apply, Start;
    var states: seq<State>, steps: seq<Step> :|
      Execution(states, steps) && states[0] == Start(atomic) && states[|steps|] == s;
    assert Execution(states + [Apply(s, step)], steps + [step]);
  }

  lemma ReachableIsSafe(s: State, atomic: bool)
    requires Reachable(s, atomic) && Bounded(s)
    ensures Inv(s) && s.atomic == atomic
  {
    hide Inv, Enabled, Apply, Start, Bounded;
    var states: seq<State>, steps: seq<Step> :|
      Execution(states, steps) && states[0] == Start(atomic) && states[|steps|] == s;
    AlwaysSafe(states, steps, atomic, |steps|);
  }

  // ---- Completions and callers ----

  // A completion dispatched for the first time finds the sender of its call registered.
  lemma RegisteredBeforeDispatch(s: State, atomic: bool)
    requires Reachable(s, atomic) && Bounded(s) && Enabled(s, Resolve)
    requires s.pump.wire[s.pump.resolved].CommandCompleted?
    ensures
      var t := s.pump.wire[s.pump.resolved].handle;
      && t in s.desk.owner && s.desk.owner[t] in s.desk.calls
      && (t in s.desk.pending <==> FirstOutcome(s.pump.wire[..s.pump.resolved], t) == None)
  {
    hide FirstOutcome, Reachable;
    ReachableIsSafe(s, atomic);
  }

  lemma {:induction false} FirstStaysFirst(wire: seq<Event>, n: nat, t: nat)
    requires n <= |wire| && FirstOutcome(wire[..n], t).Some?
    ensures FirstOutcome(wire, t) == FirstOutcome(wire[..n], t)
    decreases |wire| - n
  {
    if n == |wire| {
      assert wire[..n] == wire;
    } else {
      OneMoreEvent(wire, n, t);
      FirstStaysFirst(wire, n + 1, t);
    }
  }

  // An outcome a caller has received is that of the first completion carrying its own token.
  lemma OutcomeIsFirstCompletion(s: State, atomic: bool, c: nat)
    requires Reachable(s, atomic) && Bounded(s) && c in s.desk.calls
    requires s.desk.calls[c].phase.Finished? && s.desk.calls[c].phase.result.Some?
    ensures s.desk.calls[c].token.Some?
    ensures FirstOutcome(s.pump.wire, s.desk.calls[c].token.value) == s.desk.calls[c].phase.result
  {
    ReachableIsSafe(s, atomic);
    hide FirstOutcome, Reachable;
    FiredHasToken(s.desk, s.pump, c);
    FirstStaysFirst(s.pump.wire, s.pump.resolved, s.desk.calls[c].token.value);
  }

  lemma FiredHasToken(d: Desk, p: Pump, c: nat)
    requires DeskInv(d) && OutcomesInv(d, p) && c in d.calls && d.calls[c].oneshot.Fired?
    ensures d.calls[c].token.Some?
  {
  }

  // No two callers can receive the same completion: tokens belong to one call.
  lemma TokensAreOwn(s: State, atomic: bool, a: nat, b: nat)
    requires Reachable(s, atomic) && Bounded(s) && a in s.desk.calls && b in s.desk.calls && a != b
    requires s.desk.calls[a].token.Some?
    ensures s.desk.calls[a].token != s.desk.calls[b].token
  {
    hide Reachable;
    ReachableIsSafe(s, atomic);
  }

  // What a call goes through in a step that is not its own.
  lemma OtherCallStep(s: State, step: Step, c: nat)
    requires Inv(s) && Enabled(s, step) && Bounded(Apply(s, step)) && c in s.desk.calls
    requires step.Begin? || step.Check? || step.Register? || step.Send? || step.SendFails? || step.Resume? || step.Abandon?
    requires step.c != c
    ensures c in Apply(s, step).desk.calls && Apply(s, step).desk.calls[c] == s.desk.calls[c]
  {
    hide OutcomesInv, WireInv, ReaderInv, PlaceInv, StartInv, WaitersInv, CommandsInv, PhasesInv, TokensInv, SendersInv;
    hide Registered, DropSender;
    if step.Register? || (step.Begin? && s.pump.alive) {
      RegisteredCounts(s.desk, step.c, |s.log.history|, |s.pump.wire|);
      RegisteredIs(s.desk, step.c, |s.log.history|, |s.pump.wire|);
    } else if step.SendFails? {
      DroppedIs(s.desk, step.c);
    }
  }

  lemma RegisteredCounts(d: Desk, c: nat, historySize: nat, wireSize: nat)
    ensures Registered(d, c, historySize, wireSize).issued == d.issued + 1
  {
  }

  // A step of the writer, of GDB, of the reader or of a waiter changes at most its oneshot, and
  // that only by dispatching or draining.
  lemma ForeignStep(s: State, step: Step, c: nat)
    requires Enabled(s, step) && c in s.desk.calls
    requires !(step.Begin? || step.Check? || step.Register? || step.Send? || step.SendFails? || step.Resume? || step.Abandon?)
    ensures
      var t := Apply(s, step);
      && c in t.desk.calls && t.desk.calls[c] == s.desk.calls[c].(oneshot := t.desk.calls[c].oneshot)
      && (step.Resolve? || step.Drain? || t.desk.calls[c].oneshot == s.desk.calls[c].oneshot)
  {
    hide NotifyAll, Moved, Dispatched, Drained;
    if step.Resolve? {
      DispatchedIs(s.desk, s.pump.wire[s.pump.resolved]);
    }
    DrainedIs(s.desk);
  }

  // What a caller has been given is never taken back or replaced.
  lemma ResultsAreFinal(s: State, step: Step, c: nat)
    requires Inv(s) && Enabled(s, step) && Bounded(Apply(s, step))
    requires c in s.desk.calls && s.desk.calls[c].phase.Finished?
    ensures c in Apply(s, step).desk.calls && Apply(s, step).desk.calls[c].phase == s.desk.calls[c].phase
  {
    hide Inv, Apply, Bounded;
    match step
    case Begin(_) => OtherCallStep(s, step, c);
    case Check(_) => OtherCallStep(s, step, c);
    case Register(_) => OtherCallStep(s, step, c);
    case Send(_) => OtherCallStep(s, step, c);
    case SendFails(_) => OtherCallStep(s, step, c);
    case Resume(_) => OtherCallStep(s, step, c);
    case Abandon(_) => OtherCallStep(s, step, c);
    case _ => ForeignStep(s, step, c);
  }

  // Behind a drained reader no sender is left: every caller still parked can resume.
  lemma NoCallerStranded(s: State, c: nat)
    requires Reachable(s, true) && Bounded(s) && s.pump.reader.Dead?
    ensures s.desk.pending == map[]
    ensures InPhase(s.desk, c, Awaiting) ==> Enabled(s, Resume(c))
  {
    hide Reachable;
    ReachableIsSafe(s, true);
  }

  // ---- Causality ----

  // When an outcome is delivered, everything before its completion on the wire is in the journal,
  // in wire order.
  lemma JournaledBeforeDelivered(s: State, atomic: bool, c: nat) returns (k: nat)
    requires Reachable(s, atomic) && Bounded(s) && c in s.desk.calls
    requires s.desk.calls[c].phase.Finished? && s.desk.calls[c].phase.result.Some?
    ensures k < |s.pump.wire| && s.desk.calls[c].startWire <= k
    ensures Some(s.pump.wire[k]) == (
      if s.desk.calls[c].token.Some?
      then Some(CommandCompleted(s.desk.calls[c].token.value, s.desk.calls[c].phase.result.value)) else None)
    ensures k <= |s.log.place|
    ensures forall j | 0 <= j < k ::
              s.log.place[j] < |s.log.history| && s.log.history[s.log.place[j]] == s.pump.wire[j]
    ensures forall i, j | 0 <= i < j < k :: s.log.place[i] < s.log.place[j]
  {
    ReachableIsSafe(s, atomic);
    hide FirstOutcome, Reachable;
    FiredHasToken(s.desk, s.pump, c);
    k := FirstCompletion(s.pump.wire[..s.pump.resolved], s.desk.calls[c].token.value);
  }

  lemma {:induction false} FirstCompletion(wire: seq<Event>, t: nat) returns (k: nat)
    requires FirstOutcome(wire, t).Some?
    ensures k < |wire| && wire[k] == CommandCompleted(t, FirstOutcome(wire, t).value)
    decreases |wire|
  {
    var last := |wire| - 1;
    if FirstOutcome(wire[..last], t).Some? {
      k := FirstCompletion(wire[..last], t);
    } else {
      k := last;
    }
  }

  // An event GDB emits after a submit registered is numbered behind a cursor taken at that moment.
  lemma LaterEventsArePastCursor(s: State, atomic: bool, c: nat, j: nat)
    requires Reachable(s, atomic) && Bounded(s) && |s.log.history| < U64_MAX
    requires c in s.desk.calls && s.desk.calls[c].startWire <= j < s.pump.recorded
    ensures j < |s.log.place| && Journal.Number(s.log.place[j]) > s.desk.calls[c].startHistory
  {
    hide Reachable;
    ReachableIsSafe(s, atomic);
  }

  // ---- Waiters ----

  // No lost wake-up: a parked waiter with a stop to see, or with no reader left, either has its
  // notification or is about to get one.
  lemma NoLostWakeup(s: State, atomic: bool, w: nat)
    requires Reachable(s, atomic) && Bounded(s)
    requires w in s.waiters && s.waiters[w].pc.Parked?
    requires Look(s.log.history, s.waiters[w].cursor).Some? || !s.pump.alive
    ensures Enabled(s, WaiterMoves(w)) || Enabled(s, Notify) || Enabled(s, ExitNotify)
  {
    hide Reachable, Look;
    ReachableIsSafe(s, atomic);
  }

  // The step named there does reach the waiter.
  lemma WakeupArrives(s: State, step: Step, w: nat)
    requires Enabled(s, step) && (step.Notify? || step.ExitNotify? || step.AdviseNotify?)
    requires w in s.waiters && s.waiters[w].pc.Parked?
    ensures Enabled(Apply(s, step), WaiterMoves(w))
  {
  }

  lemma {:induction false} FindStopIs(entries: seq<Journal.Entry>, cursor: nat, k: nat)
    requires k < |entries| && Journal.IsStopAfter(entries[k], cursor)
    requires forall j | 0 <= j < k :: !Journal.IsStopAfter(entries[j], cursor)
    ensures Journal.FindStop(entries, cursor) == Some((entries[k].number, entries[k].event.stop))
    decreases k
  {
    if k > 0 {
      FindStopIs(entries[1..], cursor, k - 1);
    }
  }

  // A waiter returns the first stop ever recorded past its cursor, unless something past the
  // cursor had been evicted by then; later events never make the answer wrong.
  lemma WaiterFindsFirstStop(s: State, atomic: bool, w: nat)
    requires Reachable(s, atomic) && Bounded(s) && |s.log.history| < U64_MAX
    requires w in s.waiters && s.waiters[w].pc.Found? && s.waiters[w].pc.evicted <= s.waiters[w].cursor
    ensures Journal.FindStop(Journal.Numbered(s.log.history, 0), s.waiters[w].cursor)
         == Some((s.waiters[w].pc.number, s.waiters[w].pc.stop))
  {
    hide Reachable, Journal.FindStop;
    ReachableIsSafe(s, atomic);
    var waiter, history := s.waiters[w], s.log.history;
    FoundIsFirst(waiter, history);
  }

  lemma FoundIsFirst(waiter: Waiter, history: seq<Event>)
    requires FoundFirst(waiter, history) && waiter.pc.Found? && waiter.pc.evicted <= waiter.cursor
    requires |history| < U64_MAX
    ensures Journal.FindStop(Journal.Numbered(history, 0), waiter.cursor) == Some((waiter.pc.number, waiter.pc.stop))
  {
    hide Journal.FindStop;
    var k :| 0 <= k < |history|
      && IsFirstStop(history, waiter.cursor, waiter.pc.evicted, k, waiter.pc.number, waiter.pc.stop);
    FindStopIs(Journal.Numbered(history, 0), waiter.cursor, k);
  }

  // Capture the cursor, submit, wait: the waiter's answer lies behind the cursor and is no later
  // than any recorded stop GDB emitted after the submit.
  lemma TriggerAndWait(s: State, atomic: bool, c: nat, w: nat, j: nat)
    requires Reachable(s, atomic) && Bounded(s) && |s.log.history| < U64_MAX
    requires c in s.desk.calls && s.desk.calls[c].startWire <= j < s.pump.recorded
    requires s.pump.recorded <= |s.pump.wire| && s.pump.wire[j].StoppedAt?
    requires w in s.waiters && s.waiters[w].cursor <= s.desk.calls[c].startHistory
    requires s.waiters[w].pc.Found? && s.waiters[w].pc.evicted <= s.waiters[w].cursor
    ensures j < |s.log.place|
    ensures s.waiters[w].cursor < s.waiters[w].pc.number <= Journal.Number(s.log.place[j])
  {
    ReachableIsSafe(s, atomic);
    hide Reachable, Journal.Numbered;
    LaterEventsArePastCursor(s, atomic, c, j);
    var waiter, history := s.waiters[w], s.log.history;
    var k :| 0 <= k < |history|
      && IsFirstStop(history, waiter.cursor, waiter.pc.evicted, k, waiter.pc.number, waiter.pc.stop);
    NoLater(history, waiter.cursor, waiter.pc.evicted, k, waiter.pc.number, waiter.pc.stop, s.log.place[j]);
  }

  lemma NoLater(history: seq<Event>, cursor: nat, evicted: nat, k: nat, number: nat, stop: StoppedEvent, i: nat)
    requires k < |history| && IsFirstStop(history, cursor, evicted, k, number, stop)
    requires evicted <= i < |history| < U64_MAX && history[i].StoppedAt? && Journal.Number(i) > cursor
    ensures number <= Journal.Number(i)
  {
  }

  // ---- Why the alive-check and the registration must be one step ----

  // A call whose sender is registered behind the drain stays parked for good.
  lemma StrandedForever(s: State, step: Step, c: nat)
    requires Inv(s) && Enabled(s, step) && Bounded(Apply(s, step)) && Stranded(s, c)
    ensures Stranded(Apply(s, step), c)
  {
    hide Inv, Apply, Bounded;
    DeadStaysDead(s, step);
    match step
    case Begin(_) => OtherCallStep(s, step, c);
    case Check(_) => OtherCallStep(s, step, c);
    case Register(_) => OtherCallStep(s, step, c);
    case Send(_) => OtherCallStep(s, step, c);
    case SendFails(_) => OtherCallStep(s, step, c);
    case Resume(_) => OtherCallStep(s, step, c);
    case Abandon(x) =>
      if x == c {
        AbandonKeepsSender(s, c);
      } else {
        OtherCallStep(s, step, c);
      }
    case _ => ForeignStep(s, step, c);
  }

  // No reader is left to fire or drop the sender of a call that is past sending.
  ghost predicate Stranded(s: State, c: nat) {
    && s.pump.reader.Dead? && c in s.desk.calls && s.desk.calls[c].oneshot.Held?
    && (s.desk.calls[c].phase.Awaiting? || s.desk.calls[c].phase.Abandoned?)
  }

  lemma DeadStaysDead(s: State, step: Step)
    requires Enabled(s, step) && s.pump.reader.Dead?
    ensures Apply(s, step).pump.reader.Dead?
  {
    hide NotifyAll, Moved, Dispatched, Drained, Registered, DropSender, SetPhase;
  }

  lemma AbandonKeepsSender(s: State, c: nat)
    requires Enabled(s, Abandon(c))
    ensures
      var e := Apply(s, Abandon(c)).desk;
      c in e.calls && e.calls[c] == s.desk.calls[c].(phase := Abandoned)
  {
  }

  // Split in two, the reader can exit and drain in between: here is the run.
  lemma SplitSubmitStrands() returns (s: State)
    ensures Reachable(s, false) && Bounded(s) && Stranded(s, 0) && InPhase(s.desk, 0, Awaiting)
    ensures s.desk.pending != map[]
  {
    hide Reachable;
    StartIsReachable(false);
    s := Start(false);
    ReachableStep(s, Check(0), false);
    s := Apply(s, Check(0));
    ReachableStep(s, ReaderExits, false);
    s := Apply(s, ReaderExits);
    ReachableStep(s, ExitNotify, false);
    s := Apply(s, ExitNotify);
    ReachableStep(s, Drain, false);
    s := Apply(s, Drain);
    ReachableStep(s, Register(0), false);
    s := Apply(s, Register(0));
    ReachableStep(s, Send(0), false);
    s := Apply(s, Send(0));
    assert 1 in s.desk.pending;
  }

  // What a step behind a drained reader does to the sender stored under a token: registering puts
  // one, and a send that fails takes its own back.
  function SenderEffect(s: State, step: Step, t: nat): Effect<nat> {
    match step
    case Register(c) => if s.desk.nextToken == t then Put(c) else Kept
    case SendFails(c) => if c in s.desk.calls && s.desk.calls[c].token == Some(t) then Removed else Kept
    case _ => Kept
  }

  ghost function SenderEffects(states: seq<State>, steps: seq<Step>, t: nat): seq<Effect<nat>>
    requires |states| == |steps|
  {
    seq(|steps|, k requires 0 <= k < |steps| => SenderEffect(states[k], steps[k], t))
  }

  lemma RegisteredPending(d: Desk, c: nat, historySize: nat, wireSize: nat, t: nat)
    ensures Entry(Registered(d, c, historySize, wireSize).pending, t)
         == if d.nextToken == t then Some(c) else Entry(d.pending, t)
  {
  }

  lemma SenderStep(s: State, step: Step, t: nat)
    requires Inv(s) && Enabled(s, step) && s.pump.reader.Dead?
    ensures Entry(Apply(s, step).desk.pending, t) == Affected(Entry(s.desk.pending, t), SenderEffect(s, step, t))
  {
    hide OutcomesInv, WireInv, PlaceInv, StartInv, WaitersInv, CommandsInv, PhasesInv, TokensInv, SendersInv, DeskInv;
    hide Registered, DropSender, NotifyAll, Moved, Dispatched, Drained;
    if step.Register? {
      RegisteredPending(s.desk, step.c, |s.log.history|, |s.pump.wire|, t);
    } else if step.SendFails? {
      DroppedIs(s.desk, step.c);
    }
  }

  lemma {:induction false} BoundedBefore(states: seq<State>, steps: seq<Step>, k: nat, n: nat)
    requires Execution(states, steps) && k <= n < |states| && Bounded(states[n])
    ensures Bounded(states[k])
    decreases n - k
  {
    hide Enabled, Apply;
    if k < n {
      IssuedGrows(states[n - 1], steps[n - 1]);
      BoundedBefore(states, steps, k, n - 1);
    }
  }

  lemma {:induction false} DeadSince(states: seq<State>, steps: seq<Step>, d: nat, k: nat)
    requires Execution(states, steps) && d < k < |states| && steps[d] == Drain
    ensures states[k].pump.reader.Dead?
    decreases k
  {
    hide Enabled, Apply;
    if k == d + 1 {
      DrainEmpties(states[d]);
    } else {
      DeadSince(states, steps, d, k - 1);
      DeadStaysDead(states[k - 1], steps[k - 1]);
    }
  }

  lemma DrainEmpties(s: State)
    requires Enabled(s, Drain)
    ensures Apply(s, Drain).pump.reader.Dead? && Apply(s, Drain).desk.pending == map[]
  {
  }

  // In every run, in either mode: behind the drain, the map holds exactly the senders registered
  // since and not taken back by a send that failed.
  lemma PendingBehindDrain(states: seq<State>, steps: seq<Step>, atomic: bool, d: nat, n: nat, t: nat, c: nat)
    requires Execution(states, steps) && states[0] == Start(atomic)
    requires d < n < |states| && steps[d] == Drain && Bounded(states[n])
    ensures Entry(states[n].desk.pending, t) == Some(c)
       <==> Stands(None, SenderEffects(states[d + 1..n], steps[d + 1..n], t), c)
  {
    hide Inv, Enabled, Apply, Start, Bounded, Stands, SenderEffect;
    var effects := SenderEffects(states[d + 1..n], steps[d + 1..n], t);
    var entries := seq(n - d, k requires 0 <= k < n - d => Entry(states[d + 1 + k].desk.pending, t));
    forall k | 0 <= k < n - d - 1
      ensures entries[k + 1] == Affected(entries[k], effects[k])
    {
      var j := d + 1 + k;
      DeadSince(states, steps, d, j);
      BoundedBefore(states, steps, j, n);
      AlwaysSafe(states, steps, atomic, j);
      SenderStep(states[j], steps[j], t);
    }
    assert Enabled(states[d], steps[d]) && states[d + 1] == Apply(states[d], steps[d]);
    DrainEmpties(states[d]);
    assert states[d + 1 + 0].desk.pending == map[] && entries[0] == Entry(states[d + 1 + 0].desk.pending, t);
    assert entries[|effects|] == Entry(states[n].desk.pending, t);
    LastWriteWins(entries, effects, c);
  }

  // The map stays empty behind the reader exactly when the check and the registration are atomic.
  lemma DrainHoldsIffAtomic(atomic: bool)
    ensures atomic <==>
            forall s: State | Reachable(s, atomic) && Bounded(s) && s.pump.reader.Dead? :: s.desk.pending == map[]
  {
    hide Reachable;
    if atomic {
      forall s: State | Reachable(s, atomic) && Bounded(s) && s.pump.reader.Dead?
        ensures s.desk.pending == map[]
      {
        NoCallerStranded(s, 0);
      }
    } else {
      var s := SplitSubmitStrands();
      assert s.desk.pending != map[];
    }
  }
}
