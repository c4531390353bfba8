// What the transport can always still do, and why it gives up when it does.
//
// Safety alone would hold of a transport that refuses everybody. Here every
// refusal is given a reason, and from every reachable state runs are given
// that answer a submit, bring the reader up to date and settle a waiter.
module TransportProgress {
  import opened Octets
  import opened Wrappers
  import opened Events
  import opened Transport
  import opened TransportSafety
  import opened TransportTheorems
  import Journal
  import Tokens

  // ---- Refusals have a reason ----

  // A caller is told that the transport has exited only if the reader is gone or the writer has
  // stopped, and a waiter only if the reader is gone.
  ghost predicate Honest(s: State) {
    && (forall c | c in s.desk.calls && s.desk.calls[c].phase == Finished(None) :: !s.pump.alive || !s.desk.open)
    && (forall w | w in s.waiters && s.waiters[w].pc.SawExit? :: !s.pump.alive)
  }

  ghost predicate HonestDesk(d: Desk, alive: bool) {
    forall c | c in d.calls && d.calls[c].phase == Finished(None) :: !alive || !d.open
  }

  lemma RegisterIsHonest(d: Desk, c: nat, historySize: nat, wireSize: nat, alive: bool)
    requires DeskInv(d) && d.issued + 1 <= U64_MAX && HonestDesk(d, alive)
    ensures HonestDesk(Registered(d, c, historySize, wireSize), alive)
  {
    hide Registered, Tokens.NthToken, CommandsInv, PhasesInv;
    RegisteredIs(d, c, historySize, wireSize);
  }

  lemma CallStepIsHonest(s: State, step: Step)
    requires Inv(s) && Honest(s) && Enabled(s, step) && Bounded(Apply(s, step))
    requires step.Begin? || step.Check? || step.Register? || step.Send? || step.SendFails? || step.Resume? || step.Abandon?
    ensures Honest(Apply(s, step))
  {
    hide TokensInv, SendersInv, CommandsInv, WireInv, PlaceInv, StartInv, WaitersInv, FirstOutcome, Sent;
    hide Registered, DropSender;
    match step
    case Begin(c) =>
      if s.pump.alive {
        RegisteredCounts(s.desk, c, |s.log.history|, |s.pump.wire|);
        RegisterIsHonest(s.desk, c, |s.log.history|, |s.pump.wire|, s.pump.alive);
      }
    case Register(c) =>
      RegisteredCounts(s.desk, c, |s.log.history|, |s.pump.wire|);
      RegisterIsHonest(s.desk, c, |s.log.history|, |s.pump.wire|, s.pump.alive);
    case SendFails(c) => DroppedIs(s.desk, c);
    case _ =>
  }

  lemma MoveIsHonest(waiter: Waiter, history: seq<Event>, alive: bool)
    requires waiter.pc.SawExit? ==> !alive
    ensures Moved(waiter, history, alive).pc.SawExit? ==> !alive
  {
    hide Look;
  }

  lemma OtherStepIsHonest(s: State, step: Step)
    requires Inv(s) && Honest(s) && Enabled(s, step)
    requires !(step.Begin? || step.Check? || step.Register? || step.Send? || step.SendFails? || step.Resume? || step.Abandon?)
    ensures Honest(Apply(s, step))
  {
    hide Inv, NotifyAll, Moved, Dispatched, Drained;
    NotifyIsHonest(s.waiters, s.pump.alive);
    DrainedIs(s.desk);
    if step.Resolve? {
      DispatchedIs(s.desk, s.pump.wire[s.pump.resolved]);
      DispatchKeepsOpen(s.desk, s.pump.wire[s.pump.resolved]);
    } else if step.WaiterMoves? {
      MoveIsHonest(s.waiters[step.w], s.log.history, s.pump.alive);
    }
    DrainKeepsOpen(s.desk);
  }

  lemma NotifyIsHonest(waiters: map<nat, Waiter>, alive: bool)
    requires forall w | w in waiters && waiters[w].pc.SawExit? :: !alive
    ensures forall w | w in NotifyAll(waiters) && NotifyAll(waiters)[w].pc.SawExit? :: !alive
  {
  }

  lemma DispatchKeepsOpen(d: Desk, e: Event)
    ensures Dispatched(d, e).open == d.open
  {
  }

  lemma DrainKeepsOpen(d: Desk)
    ensures Drained(d).open == d.open
  {
  }

  lemma {:induction false} AlwaysHonest(states: seq<State>, steps: seq<Step>, atomic: bool, k: nat)
    requires Execution(states, steps) && states[0] == Start(atomic)
    requires k < |states| && Bounded(states[k])
    ensures Honest(states[k])
    decreases k
  {
    hide Inv, Enabled, Apply, Honest, Bounded;
    if k == 0 {
      StartIsHonest(atomic);
    } else {
      var s, step := states[k - 1], steps[k - 1];
      BoundedBefore(states, steps, k - 1, k);
      AlwaysSafe(states, steps, atomic, k - 1);
      AlwaysHonest(states, steps, atomic, k - 1);
      if step.Begin? || step.Check? || step.Register? || step.Send? || step.SendFails? || step.Resume? || step.Abandon? {
        CallStepIsHonest(s, step);
      } else {
        OtherStepIsHonest(s, step);
      }
    }
  }

  lemma StartIsHonest(atomic: bool)
    ensures Honest(Start(atomic))
  {
  }

  // In every reachable state: while the reader runs and the writer receives, no caller has been told
  // that the transport has exited, and while the reader runs no waiter has.
  lemma RefusalsHaveReason(s: State, atomic: bool)
    requires Reachable(s, atomic) && Bounded(s)
    ensures s.pump.alive && s.desk.open ==> forall c | c in s.desk.calls :: s.desk.calls[c].phase != Finished(None)
    ensures s.pump.alive ==> forall w | w in s.waiters :: !s.waiters[w].pc.SawExit?
  {
    var states: seq<State>, steps: seq<Step> :|
      Execution(states, steps) && states[0] == Start(atomic) && states[|steps|] == s;
    hide Enabled, Apply, Start;
    AlwaysHonest(states, steps, atomic, |steps|);
  }

  // ---- A submit begins ----

  // With a live reader, a submit registers the sender of its call under the token just issued, a
  // token no call has had; with none, it is refused and leaves everything else as it was.
  lemma BeginRegisters(s: State, c: nat)
    requires Reachable(s, true) && Enabled(s, Begin(c)) && s.desk.issued < U64_MAX
    ensures
      var t, token := Apply(s, Begin(c)), s.desk.issued + 1;
      if s.pump.alive then
        && t.desk.calls == s.desk.calls[c := Call(Some(token), Sending, Held, |s.log.history|, |s.pump.wire|)]
        && t.desk.pending == s.desk.pending[token := c] && token !in s.desk.owner && token !in s.desk.pending
        && t == s.(desk := t.desk) && t.desk.issued == token
        && t.desk == s.desk.(calls := t.desk.calls, pending := t.desk.pending, owner := t.desk.owner,
                             nextToken := t.desk.nextToken, issued := token)
      else
        && c in t.desk.calls && t.desk.calls[c].phase == Finished(None) && t.desk.calls[c].token == None
        && t == s.(desk := s.desk.(calls := s.desk.calls[c := t.desk.calls[c]]))
  {
    hide Reachable;
    ReachableIsSafe(s, true);
    hide Registered, Tokens.NthToken, SendersInv, TokensInv, CommandsInv, PhasesInv;
    if s.pump.alive {
      RegisteredIs(s.desk, c, |s.log.history|, |s.pump.wire|);
    }
  }

  // ---- Runs from a state ----

  ghost predicate Leads(s: State, t: State) {
    exists states: seq<State>, steps: seq<Step> ::
      Execution(states, steps) && states[0] == s && states[|steps|] == t
  }

  lemma LeadsToItself(s: State)
    ensures Leads(s, s)
  {
    assert Execution([s], []);
  }

  lemma Advance(s: State, t: State, step: Step, atomic: bool)
    requires Leads(s, t) && Reachable(t, atomic) && Enabled(t, step)
    ensures Leads(s, Apply(t, step)) && Reachable(Apply(t, step), atomic)
  {
    hide Enabled, Apply;
    ReachableStep(t, step, atomic);
    hide Reachable;
    var states: seq<State>, steps: seq<Step> :| Execution(states, steps) && states[0] == s && states[|steps|] == t;
    assert Execution(states + [Apply(t, step)], steps + [step]);
  }

  // ---- The reader catches up ----

  // The next step of a live reader that has something to do.
  function NextStep(p: Pump): Step {
    match p.reader
    case Reading => Take(if p.taken < |p.wire| then |p.wire| - p.taken else 1)
    case Dispatching => if p.resolved < p.taken then Resolve else BatchDone
    case Recording => Record
    case Notifying => Notify
    case ExitNotifying => ExitNotify
    case Draining => Drain
    case Dead => Drain
  }

  function Work(p: Pump): int {
    4 * (|p.wire| - p.recorded) + 3 * (|p.wire| - p.taken)
    + (match p.reader
       case Notifying => 3
       case Dispatching => 2
       case Recording => 1
       case _ => 0)
  }

  // What the reader's own steps leave alone.
  ghost predicate SameDesk(s: State, t: State) {
    && t.desk.open == s.desk.open && t.desk.issued == s.desk.issued && t.desk.calls.Keys == s.desk.calls.Keys
    && t.desk.channel == s.desk.channel && t.desk.stdin == s.desk.stdin && t.desk.read == s.desk.read
    && t.pump.wire == s.pump.wire && t.pump.alive == s.pump.alive
  }

  // A reader that is not dead is never stuck; the one thing it may wait for is output.
  lemma ReaderNeverStuck(s: State, atomic: bool)
    requires Reachable(s, atomic) && Bounded(s) && !s.pump.reader.Dead?
    ensures Enabled(s, NextStep(s.pump)) || (s.pump.reader.Reading? && s.pump.recorded == |s.pump.wire|)
  {
    hide Reachable;
    ReachableIsSafe(s, atomic);
    hide DeskInv, OutcomesInv, WireInv, PlaceInv, StartInv, WaitersInv;
  }

  lemma ReaderWorks(s: State, atomic: bool)
    requires Reachable(s, atomic) && Bounded(s) && s.pump.alive
    requires !(s.pump.reader.Reading? && s.pump.recorded == |s.pump.wire|)
    ensures Enabled(s, NextStep(s.pump))
    ensures
      var t := Apply(s, NextStep(s.pump));
      0 <= Work(t.pump) < Work(s.pump) && SameDesk(s, t)
  {
    hide Reachable;
    ReachableIsSafe(s, atomic);
    ReaderNeverStuck(s, atomic);
    hide DeskInv, OutcomesInv, WireInv, PlaceInv, StartInv, WaitersInv, Dispatched, NotifyAll;
    if NextStep(s.pump).Resolve? {
      DispatchedIs(s.desk, s.pump.wire[s.pump.resolved]);
      DispatchKeepsCommands(s.desk, s.pump.wire[s.pump.resolved]);
    }
  }

  lemma DispatchKeepsCommands(d: Desk, e: Event)
    ensures
      var f := Dispatched(d, e);
      f.open == d.open && f.issued == d.issued && f.channel == d.channel && f.stdin == d.stdin && f.read == d.read
  {
  }

  // From every reachable state with a live reader, its own steps bring everything GDB has emitted
  // into the journal.
  lemma {:induction false} ReaderCatchesUp(s: State, now: State, atomic: bool) returns (t: State)
    requires Leads(s, now) && Reachable(now, atomic) && Bounded(now) && now.pump.alive
    ensures Leads(s, t) && Reachable(t, atomic) && SameDesk(now, t)
    ensures t.pump.reader.Reading? && t.pump.recorded == |t.pump.wire| == |t.log.place|
    decreases Work(now.pump)
  {
    hide Leads, Reachable, Work, NextStep, SameDesk;
    if now.pump.reader.Reading? && now.pump.recorded == |now.pump.wire| {
      t := now;
      ReachableIsSafe(now, atomic);
      SameAsItself(now);
    } else {
      ReaderWorks(now, atomic);
      hide Enabled, Apply;
      var next := Apply(now, NextStep(now.pump));
      Advance(s, now, NextStep(now.pump), atomic);
      SameMeans(now, next);
      t := ReaderCatchesUp(s, next, atomic);
      SameTwice(now, next, t);
    }
  }

  lemma SameAsItself(s: State)
    ensures SameDesk(s, s)
  {
  }

  lemma SameMeans(s: State, t: State)
    requires SameDesk(s, t)
    ensures t.pump.alive == s.pump.alive && (Bounded(s) ==> Bounded(t))
  {
  }

  lemma SameTwice(s: State, t: State, u: State)
    requires SameDesk(s, t) && SameDesk(t, u)
    ensures SameDesk(s, u)
  {
  }

  function BatchWork(p: Pump): int {
    4 * (p.taken - p.recorded)
    + (match p.reader
       case Notifying => 3
       case Dispatching => 2
       case Recording => 1
       case _ => 0)
  }

  lemma BatchStep(s: State, atomic: bool)
    requires Reachable(s, atomic) && Bounded(s) && s.pump.alive && !s.pump.reader.Reading?
    ensures Enabled(s, NextStep(s.pump))
    ensures
      var t := Apply(s, NextStep(s.pump));
      0 <= BatchWork(t.pump) < BatchWork(s.pump) && SameDesk(s, t) && t.pump.taken == s.pump.taken
  {
    ReaderWorks(s, atomic);
    hide Reachable;
    ReachableIsSafe(s, atomic);
    hide DeskInv, OutcomesInv, WireInv, PlaceInv, StartInv, WaitersInv, Dispatched, NotifyAll, SameDesk;
  }

  lemma {:induction false} FinishBatch(s: State, now: State, atomic: bool) returns (t: State)
    requires Leads(s, now) && Reachable(now, atomic) && Bounded(now) && now.pump.alive
    ensures Leads(s, t) && Reachable(t, atomic) && SameDesk(now, t)
    ensures t.pump.reader.Reading? && t.pump.recorded == t.pump.resolved == t.pump.taken == now.pump.taken
    decreases BatchWork(now.pump)
  {
    hide Leads, Reachable, BatchWork, NextStep, SameDesk;
    if now.pump.reader.Reading? {
      t := now;
      ReachableIsSafe(now, atomic);
      SameAsItself(now);
    } else {
      BatchStep(now, atomic);
      hide Enabled, Apply;
      var next := Apply(now, NextStep(now.pump));
      Advance(s, now, NextStep(now.pump), atomic);
      SameMeans(now, next);
      t := FinishBatch(s, next, atomic);
      SameTwice(now, next, t);
    }
  }

  // Whatever the reader reads at once, it resolves and records all of it, and no more, before it
  // reads again.
  lemma BatchIsWhole(s: State, n: nat, atomic: bool) returns (t: State)
    requires Reachable(s, atomic) && Bounded(s) && Enabled(s, Take(n))
    ensures Leads(s, t) && Reachable(t, atomic) && t.pump.reader.Reading? && t.pump.wire == s.pump.wire
    ensures t.pump.recorded == t.pump.resolved == s.pump.recorded + n
  {
    LeadsToItself(s);
    hide Leads, Reachable;
    ReachableIsSafe(s, atomic);
    Advance(s, s, Take(n), atomic);
    t := FinishBatch(s, Apply(s, Take(n)), atomic);
  }

  // ---- The writer and GDB catch up ----

  lemma {:induction false} CommandsGoThrough(s: State, now: State, atomic: bool) returns (t: State)
    requires Leads(s, now) && Reachable(now, atomic) && now.desk.open
    ensures Leads(s, t) && Reachable(t, atomic)
    ensures t == now.(desk := now.desk.(channel := [], stdin := [], read := t.desk.read))
    decreases 2 * |now.desk.channel| + |now.desk.stdin|
  {
    hide Leads, Reachable;
    if now.desk.channel != [] {
      Advance(s, now, Write, atomic);
      t := CommandsGoThrough(s, Apply(now, Write), atomic);
    } else if now.desk.stdin != [] {
      Advance(s, now, GdbReads, atomic);
      t := CommandsGoThrough(s, Apply(now, GdbReads), atomic);
    } else {
      t := now;
    }
  }

  // ---- A submit is answered ----

  // Nothing is on its way between callers and GDB, and the reader waits for output.
  ghost predicate Quiet(s: State) {
    && s.pump.alive && s.desk.open && s.desk.channel == [] && s.desk.stdin == []
    && s.pump.reader.Reading? && s.pump.taken == s.pump.resolved == |s.pump.wire|
  }

  ghost predicate Waits(s: State, c: nat, token: nat, phase: Phase) {
    && c in s.desk.calls && s.desk.calls[c].token == Some(token) && s.desk.calls[c].phase == phase
    && s.desk.calls[c].oneshot.Held? && token in s.desk.pending && s.desk.pending[token] == c
  }

  lemma SubmitSends(s: State, q: State, c: nat) returns (t: State, token: nat)
    requires Leads(s, q) && Reachable(q, true) && Quiet(q) && c !in q.desk.calls && q.desk.issued < U64_MAX && q.atomic
    ensures Leads(s, t) && Reachable(t, true) && Waits(t, c, token, Awaiting)
    ensures t.desk.open && t.desk.channel == [token] && t.desk.stdin == [] && t.pump == q.pump
  {
    hide Leads, Reachable;
    BeginRegisters(q, c);
    token := q.desk.issued + 1;
    Advance(s, q, Begin(c), true);
    t := Apply(q, Begin(c));
    hide Registered;
    Advance(s, t, Send(c), true);
    t := Apply(t, Send(c));
  }

  lemma CommandIsAnswered(s: State, q: State, c: nat, token: nat, outcome: CommandOutcome) returns (t: State)
    requires Leads(s, q) && Reachable(q, true) && Waits(q, c, token, Awaiting)
    requires q.desk.open && q.desk.channel == [token] && q.desk.stdin == []
    ensures Leads(s, t) && Reachable(t, true) && Waits(t, c, token, Awaiting)
    ensures t.pump == q.pump.(wire := q.pump.wire + [CommandCompleted(token, outcome)])
  {
    hide Leads, Reachable;
    Advance(s, q, Write, true);
    t := Apply(q, Write);
    Advance(s, t, GdbReads, true);
    t := Apply(t, GdbReads);
    Advance(s, t, GdbEmits(CommandCompleted(token, outcome)), true);
    t := Apply(t, GdbEmits(CommandCompleted(token, outcome)));
  }

  lemma AnswerIsDelivered(s: State, q: State, c: nat, token: nat, outcome: CommandOutcome) returns (t: State)
    requires Leads(s, q) && Reachable(q, true) && Waits(q, c, token, Awaiting)
    requires q.pump.reader.Reading? && q.pump.taken == q.pump.resolved == |q.pump.wire| - 1
    requires q.pump.wire[q.pump.resolved] == CommandCompleted(token, outcome)
    ensures Leads(s, t) && Reachable(t, true) && InPhase(t.desk, c, Finished(Some(outcome)))
    ensures t.pump.wire == q.pump.wire
  {
    hide Leads, Reachable;
    Advance(s, q, Take(1), true);
    t := Apply(q, Take(1));
    Advance(s, t, Resolve, true);
    t := Apply(t, Resolve);
    Advance(s, t, Resume(c), true);
    t := Apply(t, Resume(c));
  }

  // From every reachable state with a live reader and a writer that receives, a new submit can be
  // registered, written, read and answered, with whatever outcome GDB gives, and its caller resumes
  // with that outcome.
  lemma SubmitCanBeAnswered(s: State, c: nat, outcome: CommandOutcome) returns (t: State, token: nat)
    requires Reachable(s, true) && s.pump.alive && s.desk.open && c !in s.desk.calls && s.desk.issued < U64_MAX
    ensures Leads(s, t) && Reachable(t, true) && InPhase(t.desk, c, Finished(Some(outcome)))
    ensures t.pump.wire == s.pump.wire + [CommandCompleted(token, outcome)]
  {
    hide Leads, Reachable, Apply, Enabled, Waits;
    LeadsToItself(s);
    var q := ReaderCatchesUp(s, s, true);
    q := CommandsGoThrough(s, q, true);
    QuietNow(q);
    q, token := SubmitSends(s, q, c);
    q := CommandIsAnswered(s, q, c, token, outcome);
    t := AnswerIsDelivered(s, q, c, token, outcome);
  }

  lemma QuietNow(s: State)
    requires Reachable(s, true) && Bounded(s) && s.pump.reader.Reading? && s.pump.recorded == |s.pump.wire|
    requires s.desk.open && s.desk.channel == [] && s.desk.stdin == []
    ensures Quiet(s) && s.atomic
  {
    hide Reachable;
    ReachableIsSafe(s, true);
  }

  // A whole life of a submit: from the start to its outcome.
  lemma FirstSubmitIsAnswered(outcome: CommandOutcome) returns (t: State)
    ensures Leads(Start(true), t) && Reachable(t, true) && InPhase(t.desk, 0, Finished(Some(outcome)))
  {
    hide Leads, Reachable;
    StartIsReachable(true);
    var token: nat;
    t, token := SubmitCanBeAnswered(Start(true), 0, outcome);
  }

  // ---- Waiters settle ----

  // Left alone, a waiter that starts to look finds the first retained stop past its cursor if there
  // is one, gives up if there is none and the reader is gone, and parks otherwise.
  lemma WaiterSettles(s: State, w: nat, atomic: bool) returns (t: State)
    requires Reachable(s, atomic) && w in s.waiters && s.waiters[w].pc.FirstLook?
    ensures Leads(s, t) && Reachable(t, atomic) && w in t.waiters
    ensures t == s.(waiters := s.waiters[w := t.waiters[w]])
    ensures
      var found := Look(s.log.history, s.waiters[w].cursor);
      t.waiters[w].pc
      == if found.Some? then Found(found.value.0, found.value.1, Journal.Evicted(s.log.history, CAPACITY))
         else if !s.pump.alive then SawExit
         else Parked
    ensures t.waiters[w].pc.Parked? ==> !t.waiters[w].notified
  {
    LeadsToItself(s);
    hide Leads, Reachable, Look, Journal.Evicted;
    t := OwnMove(s, s, w, atomic);
    if Look(s.log.history, s.waiters[w].cursor).None? {
      t := OwnMove(s, t, w, atomic);
      if s.pump.alive {
        t := OwnMove(s, t, w, atomic);
        t := OwnMove(s, t, w, atomic);
        t := OwnMove(s, t, w, atomic);
      }
    }
  }

  lemma OwnMove(s: State, now: State, w: nat, atomic: bool) returns (t: State)
    requires Leads(s, now) && Reachable(now, atomic) && w in now.waiters && WaiterCanMove(now.waiters[w])
    ensures Leads(s, t) && Reachable(t, atomic)
    ensures t == now.(waiters := now.waiters[w := Moved(now.waiters[w], now.log.history, now.pump.alive)])
  {
    Advance(s, now, WaiterMoves(w), atomic);
    t := Apply(now, WaiterMoves(w));
  }

  // A parked waiter with a stop to see can always still return the first one.
  lemma ParkedWaiterCanReturn(s: State, w: nat, atomic: bool) returns (t: State)
    requires Reachable(s, atomic) && Bounded(s) && w in s.waiters && s.waiters[w].pc.Parked?
    requires Look(s.log.history, s.waiters[w].cursor).Some?
    ensures Leads(s, t) && Reachable(t, atomic) && w in t.waiters && t.log.history == s.log.history
    ensures
      var found := Look(s.log.history, s.waiters[w].cursor).value;
      t.waiters[w].pc == Found(found.0, found.1, Journal.Evicted(s.log.history, CAPACITY))
  {
    LeadsToItself(s);
    hide Reachable, Look, Journal.Evicted;
    NoLostWakeup(s, atomic, w);
    hide Leads;
    t := s;
    if !s.waiters[w].notified {
      var step := if Enabled(s, Notify) then Notify else ExitNotify;
      Advance(s, s, step, atomic);
      t := Apply(s, step);
    }
    t := OwnMove(s, t, w, atomic);
    t := OwnMove(s, t, w, atomic);
  }

  // ---- Nobody is stuck ----

  // A caller that has not got its result has a step of its own, or awaits a completion that a live
  // reader can still bring; and it may give up at any time.
  lemma CallerNeverStuck(s: State, c: nat)
    requires Reachable(s, true) && Bounded(s) && c in s.desk.calls
    requires !s.desk.calls[c].phase.Finished? && !s.desk.calls[c].phase.Abandoned?
    ensures || Enabled(s, Send(c)) || Enabled(s, SendFails(c)) || Enabled(s, Resume(c))
            || (InPhase(s.desk, c, Awaiting) && s.desk.calls[c].oneshot.Held? && !s.pump.reader.Dead?)
    ensures Enabled(s, Abandon(c))
  {
    hide Reachable;
    ReachableIsSafe(s, true);
    hide TokensInv, CommandsInv, OutcomesInv, WireInv, PlaceInv, StartInv, WaitersInv;
  }

  // A caller whose command could not be handed over is told that the transport has exited, and
  // leaves no sender behind; every other call keeps what it has.
  lemma FailedSendIsTold(s: State, c: nat)
    requires Reachable(s, true) && Bounded(s) && Enabled(s, SendFails(c))
    ensures
      var t := Apply(s, SendFails(c));
      && InPhase(t.desk, c, Finished(None)) && t.desk.pending == s.desk.pending - {s.desk.calls[c].token.value}
      && t.desk.calls.Keys == s.desk.calls.Keys && forall x | x in s.desk.calls && x != c :: t.desk.calls[x] == s.desk.calls[x]
  {
    hide Reachable;
    ReachableIsSafe(s, true);
    hide DropSender, TokensInv, SendersInv, CommandsInv, PhasesInv, OutcomesInv, WireInv, PlaceInv, StartInv, WaitersInv;
    DroppedIs(s.desk, c);
  }

  // A waiter that has not got its answer has a step of its own, or is parked and may time out.
  lemma WaiterNeverStuck(s: State, w: nat)
    requires w in s.waiters && !s.waiters[w].pc.Found? && !s.waiters[w].pc.SawExit? && !s.waiters[w].pc.TimedOut?
    ensures Enabled(s, WaiterMoves(w)) || (s.waiters[w].pc.Parked? && Enabled(s, WaiterTimesOut(w)))
    ensures s.waiters[w].pc.Parked? ==>
              Enabled(s, WaiterTimesOut(w)) && Apply(s, WaiterTimesOut(w)).waiters[w].pc.TimedOut?
  {
  }

  // ---- How long a stop can be found ----

  // A stop past the cursor is found, or an earlier one is, until 1024 events have followed it.
  lemma RecentStopIsFound(history: seq<Event>, k: nat, cursor: nat)
    requires |history| < U64_MAX && k < |history| <= k + 1024 && history[k].StoppedAt? && cursor <= k
    ensures Look(history, cursor).Some? && Look(history, cursor).value.0 <= Journal.Number(k)
  {
    var entries := Journal.Retained(history, CAPACITY);
    var first := Journal.Evicted(history, CAPACITY);
    assert entries[k - first] == Journal.Entry(Journal.Number(k), history[k]);
    assert Journal.IsStopAfter(entries[k - first], cursor);
  }

  // Of a single stop nothing is left once 1024 events have followed it.
  lemma OldStopIsGone(history: seq<Event>, k: nat, cursor: nat)
    requires k + 1024 < |history| < U64_MAX
    requires forall j | 0 <= j < |history| && j != k :: !history[j].StoppedAt?
    ensures Look(history, cursor).None?
  {
  }

  // ---- Commands reach GDB in order ----

  // The tokens handed to the writer over a run, and those GDB read, in order.
  ghost function SentOver(states: seq<State>, steps: seq<Step>): seq<nat>
    requires |states| == |steps| + 1
    decreases |steps|
  {
    if steps == [] then []
    else
      var last := |steps| - 1;
      var s := states[last];
      SentOver(states[..last + 1], steps[..last])
      + (match steps[last]
         case Send(c) => if c in s.desk.calls && s.desk.calls[c].token.Some? then [s.desk.calls[c].token.value] else []
         case _ => [])
  }

  ghost function ReadOver(states: seq<State>, steps: seq<Step>): seq<nat>
    requires |states| == |steps| + 1
    decreases |steps|
  {
    if steps == [] then []
    else
      var last := |steps| - 1;
      ReadOver(states[..last + 1], steps[..last])
      + (if steps[last].GdbReads? && states[last].desk.stdin != [] then [states[last].desk.stdin[0]] else [])
  }

  ghost predicate InOrder(sent: seq<nat>, read: seq<nat>, d: Desk) {
    && (set t | t in read) == d.read
    && read + (d.stdin + d.channel) <= sent
    && (d.open ==> read + (d.stdin + d.channel) == sent)
  }

  lemma QueueStep(sent: seq<nat>, read: seq<nat>, s: State, step: Step)
    requires Enabled(s, step) && InOrder(sent, read, s.desk)
    ensures
      var more := if step.Send? then [s.desk.calls[step.c].token.value] else [];
      var got := if step.GdbReads? then [s.desk.stdin[0]] else [];
      InOrder(sent + more, read + got, Apply(s, step).desk)
  {
    var d, e := s.desk, Apply(s, step).desk;
    if step.Send? {
      assert read + (d.stdin + (d.channel + [d.calls[step.c].token.value]))
          == (read + (d.stdin + d.channel)) + [d.calls[step.c].token.value];
      assert read + [] == read;
    } else if step.Write? {
      assert (d.stdin + [d.channel[0]]) + d.channel[1..] == d.stdin + d.channel;
      assert sent + [] == sent && read + [] == read;
    } else if step.GdbReads? {
      assert (read + [d.stdin[0]]) + (d.stdin[1..] + d.channel) == read + (d.stdin + d.channel);
      assert sent + [] == sent;
      ReadSetGrows(read, d.stdin[0]);
    } else if step.WriterStops? {
      assert read + (d.stdin + []) <= read + (d.stdin + d.channel);
      assert sent + [] == sent && read + [] == read;
    } else {
      OthersKeepQueues(s, step);
      assert sent + [] == sent && read + [] == read;
    }
  }

  lemma ReadSetGrows(read: seq<nat>, token: nat)
    ensures (set t | t in read + [token]) == (set t | t in read) + {token}
  {
  }

  lemma OthersKeepQueues(s: State, step: Step)
    requires Enabled(s, step) && !step.Send? && !step.Write? && !step.GdbReads? && !step.WriterStops?
    ensures
      var d, e := s.desk, Apply(s, step).desk;
      e.channel == d.channel && e.stdin == d.stdin && e.read == d.read && e.open == d.open
  {
    hide NotifyAll, Moved;
  }

  // Over every run: what GDB has read, what waits in its input and what waits in the channel are
  // together what was sent, in order and each once, as long as the writer receives; when it stops,
  // they are the first part of it.
  lemma {:induction false} CommandsInOrder(states: seq<State>, steps: seq<Step>, atomic: bool)
    requires Execution(states, steps) && states[0] == Start(atomic)
    ensures InOrder(SentOver(states, steps), ReadOver(states, steps), states[|steps|].desk)
    decreases |steps|
  {
    hide Enabled, Apply, InOrder;
    if steps == [] {
      NothingSent(atomic);
    } else {
      var last := |steps| - 1;
      var before, earlier := states[..last + 1], steps[..last];
      assert Execution(before, earlier);
      CommandsInOrder(before, earlier, atomic);
      assert before[|earlier|] == states[last];
      SendHasToken(states[last], steps[last]);
      QueueStep(SentOver(before, earlier), ReadOver(before, earlier), states[last], steps[last]);
    }
  }

  lemma NothingSent(atomic: bool)
    ensures InOrder([], [], Start(atomic).desk)
  {
  }

  lemma SendHasToken(s: State, step: Step)
    requires Enabled(s, step)
    ensures step.Send? ==> step.c in s.desk.calls && s.desk.calls[step.c].token.Some?
    ensures step.GdbReads? ==> s.desk.stdin != []
  {
  }

  // ---- What the journal holds ----

  // What the recorders put in the journal over a run: the reader the events of the wire, one by
  // one, and others the texts they advise.
  ghost function RecordedOver(states: seq<State>, steps: seq<Step>): seq<Event>
    requires |states| == |steps| + 1
    decreases |steps|
  {
    if steps == [] then []
    else
      var last := |steps| - 1;
      var p := states[last].pump;
      RecordedOver(states[..last + 1], steps[..last])
      + (match steps[last]
         case Record => if p.recorded < |p.wire| then [p.wire[p.recorded]] else []
         case Advise(text) => [LogText(text)]
         case _ => [])
  }

  lemma RecordingStep(s: State, step: Step)
    requires Enabled(s, step)
    ensures
      Apply(s, step).log.history
      == s.log.history + (match step
                          case Record => [s.pump.wire[s.pump.recorded]]
                          case Advise(text) => [LogText(text)]
                          case _ => [])
  {
    hide NotifyAll, Moved, Registered, DropSender, Dispatched, Drained;
    assert s.log.history + [] == s.log.history;
  }

  lemma RecordHasEvent(s: State, step: Step)
    requires Enabled(s, step) && step.Record?
    ensures s.pump.recorded < |s.pump.wire|
  {
  }

  // Over every run the journal's history is exactly what was recorded and advised, in order.
  lemma {:induction false} HistoryIsRecorded(states: seq<State>, steps: seq<Step>, atomic: bool)
    requires Execution(states, steps) && states[0] == Start(atomic)
    ensures states[|steps|].log.history == RecordedOver(states, steps)
    decreases |steps|
  {
    if steps == [] {
    } else {
      hide Enabled, Apply;
      var last := |steps| - 1;
      var before, earlier := states[..last + 1], steps[..last];
      assert Execution(before, earlier);
      HistoryIsRecorded(before, earlier, atomic);
      assert before[|earlier|] == states[last];
      RecordingStep(states[last], steps[last]);
      if steps[last].Record? {
        RecordHasEvent(states[last], steps[last]);
      }
    }
  }
}
