// What every interleaving of the transport keeps.
module TransportSafety {
  import opened Octets
  import opened Wrappers
  import opened Events
  import opened Transport
  import Journal
  import Tokens

  // ---- Calls, tokens and senders ----

  // Tokens are issued to one call each.
  ghost predicate TokensInv(d: Desk) {
    && d.nextToken == Tokens.NthToken(1, d.issued)
    && (forall t | t in d.owner :: 1 <= t <= d.issued && d.owner[t] in d.calls && d.calls[d.owner[t]].token == Some(t))
    && (forall c | c in d.calls && d.calls[c].token.Some? ::
          d.calls[c].token.value in d.owner && d.owner[d.calls[c].token.value] == c)
  }

  // The pending map holds exactly the senders that have neither fired nor dropped.
  ghost predicate SendersInv(d: Desk) {
    && (forall t | t in d.pending ::
          t in d.owner && d.pending[t] == d.owner[t] && d.owner[t] in d.calls && d.calls[d.owner[t]].oneshot.Held?)
    && (forall c | c in d.calls && d.calls[c].oneshot.Held? ::
          d.calls[c].token.Some? && d.calls[c].token.value in d.pending)
  }

  // The command with token t has been handed to the writer.
  ghost predicate Sent(d: Desk, t: nat) {
    t in d.channel || t in d.stdin || t in d.read
  }

  ghost predicate CommandsInv(d: Desk) {
    && (forall t | Sent(d, t) :: t in d.owner)
    && (forall c | c in d.calls && d.calls[c].phase.Sending? ::
          d.calls[c].token.Some? && !Sent(d, d.calls[c].token.value))
  }

  ghost predicate PhasesInv(d: Desk) {
    forall c | c in d.calls ::
      var call := d.calls[c];
      && (call.token.None? ==> call.oneshot.Dropped?)
      && match call.phase
      case Checked => call.token.None? && call.oneshot.Dropped?
      case Sending => call.token.Some?
      case Awaiting => call.token.Some?
      case Finished(Some(outcome)) => call.oneshot == Fired(outcome)
      case Finished(None) => !call.oneshot.Held?
      case Abandoned => true
  }

  // The outcome of the first completion of token t in a stretch of wire.
  ghost function FirstOutcome(wire: seq<Event>, t: nat): Option<CommandOutcome> {
    if wire == [] then None
    else
      var last := |wire| - 1;
      var earlier := FirstOutcome(wire[..last], t);
      if earlier.Some? then earlier
      else if wire[last].CommandCompleted? && wire[last].handle == t then Some(wire[last].outcome)
      else None
  }

  // A oneshot has fired exactly when a completion of its token has been resolved, with the outcome
  // of the first one; it has dropped only if the reader is gone or its command could not be sent.
  ghost predicate OutcomesInv(d: Desk, p: Pump) {
    p.resolved <= |p.wire| &&
    forall c | c in d.calls && d.calls[c].token.Some? ::
      var t := d.calls[c].token.value;
      var first := FirstOutcome(p.wire[..p.resolved], t);
      match d.calls[c].oneshot
      case Held => first == None
      case Fired(outcome) => first == Some(outcome)
      case Dropped => first == None && (p.reader.Dead? || (!Sent(d, t) && d.calls[c].phase.Finished?))
  }

  // Completions on the wire answer commands GDB has read, after they were submitted.
  ghost predicate WireInv(d: Desk, p: Pump) {
    forall k | 0 <= k < |p.wire| && p.wire[k].CommandCompleted? ::
      var t := p.wire[k].handle;
      t in d.read && t in d.owner && d.owner[t] in d.calls && d.calls[d.owner[t]].startWire <= k
  }

  ghost predicate ReaderInv(p: Pump) {
    && p.recorded <= p.resolved <= p.taken <= |p.wire|
    && p.resolved <= p.recorded + 1
    && (p.reader.Recording? ==> p.resolved == p.recorded + 1)
    && (p.reader.Reading? || p.reader.Dispatching? || p.reader.Notifying? ==> p.resolved == p.recorded)
    && (p.reader.Reading? ==> p.recorded == p.taken)
    && (p.alive <==> ReaderRuns(p.reader))
  }

  // ---- The journal against the wire ----

  // The journal holds the recorded events of the wire, in wire order.
  ghost predicate PlaceInv(p: Pump, l: Log) {
    && |l.place| == p.recorded <= |p.wire|
    && (forall j | 0 <= j < p.recorded :: l.place[j] < |l.history| && l.history[l.place[j]] == p.wire[j])
    && (forall i, j | 0 <= i < j < p.recorded :: l.place[i] < l.place[j])
  }

  // What GDB emits after a submit registers is recorded behind the cursor taken then.
  ghost predicate StartInv(d: Desk, p: Pump, l: Log) {
    && |l.place| == p.recorded
    && forall c | c in d.calls ::
        && d.calls[c].startHistory <= |l.history| && d.calls[c].startWire <= |p.wire|
        && forall j | d.calls[c].startWire <= j < p.recorded :: d.calls[c].startHistory <= l.place[j]
  }

  // ---- Waiters ----

  // A wake-up every armed waiter will get is on its way.
  predicate WakePending(p: Pump) {
    p.reader.Notifying? || p.reader.ExitNotifying?
  }

  // No lost wake-up: past its re-check, a waiter not yet notified has nothing to see unless a
  // notification is on its way.
  ghost predicate NotLost(waiter: Waiter, history: seq<Event>, p: Pump) {
    && (waiter.pc.SecondAlive? || waiter.pc.Parked? ==>
          waiter.notified || Look(history, waiter.cursor).None? || WakePending(p))
    && (waiter.pc.Parked? ==> waiter.notified || p.alive || WakePending(p))
  }

  // What a waiter has returned is the first stop past its cursor not evicted at that moment.
  ghost predicate FoundFirst(waiter: Waiter, history: seq<Event>) {
    match waiter.pc
    case Found(number, stop, evicted) =>
      exists k | 0 <= k < |history| :: IsFirstStop(history, waiter.cursor, evicted, k, number, stop)
    case _ => true
  }

  ghost predicate IsFirstStop(history: seq<Event>, cursor: nat, evicted: nat, k: nat, number: nat, stop: StoppedEvent)
    requires k < |history|
  {
    && number == Journal.Number(k) && number > cursor && history[k] == StoppedAt(stop)
    && forall j | evicted <= j < k && Journal.Number(j) > cursor :: !history[j].StoppedAt?
  }

  ghost predicate WaitersInv(waiters: map<nat, Waiter>, history: seq<Event>, p: Pump) {
    forall w | w in waiters :: NotLost(waiters[w], history, p) && FoundFirst(waiters[w], history)
  }

  // ---- The invariant ----

  ghost predicate DeskInv(d: Desk) {
    TokensInv(d) && SendersInv(d) && CommandsInv(d) && PhasesInv(d)
  }

  // In atomic mode no sender is registered behind a reader that has drained the map.
  ghost predicate DrainInv(s: State) {
    s.atomic ==>
      && (s.pump.reader.Dead? ==> s.desk.pending == map[])
      && (forall c | c in s.desk.calls :: !s.desk.calls[c].phase.Checked?)
  }

  ghost predicate Inv(s: State) {
    && DeskInv(s.desk) && OutcomesInv(s.desk, s.pump) && WireInv(s.desk, s.pump) && ReaderInv(s.pump)
    && PlaceInv(s.pump, s.log) && StartInv(s.desk, s.pump, s.log)
    && WaitersInv(s.waiters, s.log.history, s.pump) && DrainInv(s)
  }

  // Fewer tokens have been issued than there are; the allocator has not come round.
  ghost predicate Bounded(s: State) {
    s.desk.issued <= U64_MAX
  }

  // ---- Facts about outcomes ----

  lemma {:induction false} NoCompletion(wire: seq<Event>, t: nat)
    requires forall k | 0 <= k < |wire| && wire[k].CommandCompleted? :: wire[k].handle != t
    ensures FirstOutcome(wire, t) == None
    decreases |wire|
  {
    if wire != [] {
      NoCompletion(wire[..|wire| - 1], t);
    }
  }

  lemma OneMoreEvent(wire: seq<Event>, k: nat, t: nat)
    requires k < |wire|
    ensures
      var earlier := FirstOutcome(wire[..k], t);
      FirstOutcome(wire[..k + 1], t)
      == if earlier.Some? then earlier
         else if wire[k].CommandCompleted? && wire[k].handle == t then Some(wire[k].outcome)
         else None
  {
    assert wire[..k + 1][..k] == wire[..k];
  }

  // ---- Submits ----

  lemma FreshToken(d: Desk)
    requires TokensInv(d) && SendersInv(d) && d.issued + 1 <= U64_MAX
    ensures d.nextToken == d.issued + 1 && d.nextToken !in d.owner && d.nextToken !in d.pending
    ensures Tokens.NextToken(d.nextToken) == Tokens.NthToken(1, d.issued + 1)
  {
    Tokens.NthTokenSteps(1, d.issued);
  }

  // Registering under a fresh token displaces no sender.
  lemma RegisteredIs(d: Desk, c: nat, historySize: nat, wireSize: nat)
    requires TokensInv(d) && SendersInv(d) && d.issued + 1 <= U64_MAX
    ensures
      var t := d.issued + 1;
      t !in d.owner && t !in d.pending
      && Registered(d, c, historySize, wireSize)
         == d.(calls := d.calls[c := Call(Some(t), Sending, Held, historySize, wireSize)],
               pending := d.pending[t := c], owner := d.owner[t := c],
               nextToken := Tokens.NthToken(1, t), issued := t)
  {
    hide Tokens.NthToken, Tokens.NextToken;
    FreshToken(d);
  }

  lemma RegisterKeepsDesk(d: Desk, c: nat, historySize: nat, wireSize: nat)
    requires DeskInv(d) && d.issued + 1 <= U64_MAX
    requires c in d.calls ==> d.calls[c].phase.Checked?
    ensures DeskInv(Registered(d, c, historySize, wireSize))
  {
    hide Registered, Tokens.NthToken, Sent;
    RegisteredIs(d, c, historySize, wireSize);
    var e := Registered(d, c, historySize, wireSize);
    assert forall t :: Sent(e, t) <==> Sent(d, t) by {
      SameCommands(d, e);
    }
    RegisterTokens(d, e, c);
    RegisterSenders(d, e, c);
  }

  lemma SameCommands(d: Desk, e: Desk)
    requires e.channel == d.channel && e.stdin == d.stdin && e.read == d.read
    ensures forall t :: Sent(e, t) <==> Sent(d, t)
  {
  }

  lemma RegisterTokens(d: Desk, e: Desk, c: nat)
    requires TokensInv(d) && PhasesInv(d) && (c in d.calls ==> d.calls[c].phase.Checked?)
    requires e.nextToken == Tokens.NthToken(1, e.issued) && e.issued == d.issued + 1
    requires e.issued !in d.owner && e.owner == d.owner[e.issued := c]
    requires e.calls.Keys == d.calls.Keys + {c} && e.calls[c].token == Some(e.issued)
    requires forall x | x in d.calls && x != c :: e.calls[x] == d.calls[x]
    ensures TokensInv(e)
  {
    hide Tokens.NthToken;
  }

  lemma RegisterSenders(d: Desk, e: Desk, c: nat)
    requires TokensInv(d) && SendersInv(d) && PhasesInv(d) && (c in d.calls ==> d.calls[c].phase.Checked?)
    requires e.issued !in d.owner && e.owner == d.owner[e.issued := c] && e.pending == d.pending[e.issued := c]
    requires e.calls.Keys == d.calls.Keys + {c}
    requires e.calls[c].token == Some(e.issued) && e.calls[c].oneshot.Held?
    requires forall x | x in d.calls && x != c :: e.calls[x] == d.calls[x]
    ensures SendersInv(e)
  {
    hide Tokens.NthToken;
  }

  lemma RegisterKeepsWire(d: Desk, c: nat, historySize: nat, p: Pump)
    requires DeskInv(d) && d.issued + 1 <= U64_MAX && OutcomesInv(d, p) && WireInv(d, p)
    requires c in d.calls ==> d.calls[c].phase.Checked?
    ensures OutcomesInv(Registered(d, c, historySize, |p.wire|), p)
    ensures WireInv(Registered(d, c, historySize, |p.wire|), p)
  {
    hide Registered, Tokens.NthToken, Sent, FirstOutcome;
    RegisteredIs(d, c, historySize, |p.wire|);
    var e := Registered(d, c, historySize, |p.wire|);
    SameCommands(d, e);
    NoCompletion(p.wire[..p.resolved], d.issued + 1);
  }

  ghost predicate SubmitInv(d: Desk, p: Pump) {
    DeskInv(d) && OutcomesInv(d, p) && WireInv(d, p)
  }

  lemma RegisterKeeps(d: Desk, c: nat, historySize: nat, p: Pump)
    requires SubmitInv(d, p) && d.issued + 1 <= U64_MAX
    requires c in d.calls ==> d.calls[c].phase.Checked?
    ensures SubmitInv(Registered(d, c, historySize, |p.wire|), p)
  {
    hide DeskInv, OutcomesInv, WireInv, Registered;
    RegisterKeepsDesk(d, c, historySize, |p.wire|);
    RegisterKeepsWire(d, c, historySize, p);
  }

  // A submit that only looks at the reader leaves a call without a token.
  lemma LookKeeps(d: Desk, c: nat, call: Call, p: Pump)
    requires SubmitInv(d, p) && c !in d.calls
    requires call.token.None? && call.oneshot.Dropped? && (call.phase.Checked? || call.phase == Finished(None))
    ensures SubmitInv(d.(calls := d.calls[c := call]), p)
  {
    hide Tokens.NthToken, FirstOutcome, Sent;
    SameCommands(d, d.(calls := d.calls[c := call]));
  }

  lemma PhaseKeeps(d: Desk, c: nat, phase: Phase, p: Pump)
    requires SubmitInv(d, p) && (InPhase(d, c, Awaiting) || InPhase(d, c, Sending))
    requires phase.Abandoned? || (phase.Finished? && !d.calls[c].oneshot.Held?)
    requires phase.Finished? && phase.result.Some? ==> d.calls[c].oneshot == Fired(phase.result.value)
    ensures SubmitInv(SetPhase(d, c, phase), p)
  {
    hide Tokens.NthToken, FirstOutcome, Sent;
    SameCommands(d, SetPhase(d, c, phase));
  }

  lemma SendKeeps(d: Desk, c: nat, p: Pump)
    requires SubmitInv(d, p) && InPhase(d, c, Sending)
    ensures
      var t := d.calls[c].token.value;
      SubmitInv(SetPhase(d, c, Awaiting).(channel := d.channel + [t]), p)
  {
    hide Tokens.NthToken, FirstOutcome;
    var t := d.calls[c].token.value;
    var e := SetPhase(d, c, Awaiting).(channel := d.channel + [t]);
    assert forall u :: Sent(e, u) <==> Sent(d, u) || u == t;
  }

  lemma SendFailsKeeps(d: Desk, c: nat, p: Pump)
    requires SubmitInv(d, p) && InPhase(d, c, Sending) && p.resolved <= |p.wire|
    ensures SubmitInv(SetPhase(DropSender(d, d.calls[c].token.value), c, Finished(None)), p)
  {
    hide TokensInv, SendersInv, Sent, FirstOutcome, DropSender;
    var t := d.calls[c].token.value;
    SendFailsKeepsDesk(d, c);
    NeverCompleted(d, c, p);
    DroppedIs(d, c);
    SameCommands(d, SetPhase(DropSender(d, t), c, Finished(None)));
  }

  // A command that was never sent has no completion on the wire.
  lemma NeverCompleted(d: Desk, c: nat, p: Pump)
    requires SubmitInv(d, p) && InPhase(d, c, Sending) && p.resolved <= |p.wire|
    ensures FirstOutcome(p.wire[..p.resolved], d.calls[c].token.value) == None
  {
    hide TokensInv, SendersInv, OutcomesInv, Sent;
    ReadIsSent(d);
    NoCompletion(p.wire[..p.resolved], d.calls[c].token.value);
  }

  // The rollback touches the sender of its own call only.
  lemma DroppedIs(d: Desk, c: nat)
    requires DeskInv(d) && InPhase(d, c, Sending)
    ensures
      var t := d.calls[c].token.value;
      var e := DropSender(d, t);
      && e.calls == d.calls[c := d.calls[c].(oneshot := if d.calls[c].oneshot.Held? then Dropped else d.calls[c].oneshot)]
      && e == d.(calls := e.calls, pending := d.pending - {t})
  {
    hide Tokens.NthToken, Sent;
  }

  lemma SendFailsKeepsDesk(d: Desk, c: nat)
    requires DeskInv(d) && InPhase(d, c, Sending)
    ensures DeskInv(SetPhase(DropSender(d, d.calls[c].token.value), c, Finished(None)))
  {
    hide Tokens.NthToken, Sent, DropSender;
    DroppedIs(d, c);
    SameCommands(d, SetPhase(DropSender(d, d.calls[c].token.value), c, Finished(None)));
  }

  // Commands move from the channel to GDB's input and on; none appears.
  lemma CommandsMoveKeeps(d: Desk, e: Desk, p: Pump)
    requires SubmitInv(d, p)
    requires e == d.(open := e.open, channel := e.channel, stdin := e.stdin, read := e.read)
    requires d.read <= e.read && forall t :: Sent(e, t) ==> Sent(d, t)
    ensures SubmitInv(e, p)
  {
    hide Tokens.NthToken, FirstOutcome;
  }

  lemma EmitKeeps(d: Desk, p: Pump, event: Event)
    requires SubmitInv(d, p) && (event.CommandCompleted? ==> event.handle in d.read)
    requires forall c | c in d.calls :: d.calls[c].startWire <= |p.wire|
    ensures SubmitInv(d, p.(wire := p.wire + [event]))
  {
    hide Tokens.NthToken, FirstOutcome, SendersInv, PhasesInv;
    var q := p.(wire := p.wire + [event]);
    assert q.wire[..p.resolved] == p.wire[..p.resolved];
  }

  // The reader moves on without resolving anything.
  lemma ReaderKeeps(d: Desk, p: Pump, q: Pump)
    requires SubmitInv(d, p) && q.wire == p.wire && q.resolved == p.resolved && (q.reader.Dead? <==> p.reader.Dead?)
    ensures SubmitInv(d, q)
  {
    hide DeskInv, FirstOutcome, Sent;
  }

  lemma ResolveKeeps(d: Desk, p: Pump)
    requires SubmitInv(d, p) && ReaderInv(p) && p.reader.Dispatching? && p.resolved < p.taken
    ensures SubmitInv(Dispatched(d, p.wire[p.resolved]), p.(resolved := p.resolved + 1, reader := Recording))
  {
    hide FirstOutcome, Sent;
    var event := p.wire[p.resolved];
    var e := Dispatched(d, event);
    SameCommands(d, e);
    ResolveKeepsDesk(d, event);
    ResolveKeepsOutcomes(d, p);
  }

  lemma ResolveKeepsDesk(d: Desk, event: Event)
    requires DeskInv(d)
    ensures DeskInv(Dispatched(d, event))
  {
    hide Tokens.NthToken, Sent;
    SameCommands(d, Dispatched(d, event));
  }

  lemma ResolveKeepsOutcomes(d: Desk, p: Pump)
    requires SubmitInv(d, p) && ReaderInv(p) && p.reader.Dispatching? && p.resolved < p.taken
    ensures OutcomesInv(Dispatched(d, p.wire[p.resolved]), p.(resolved := p.resolved + 1, reader := Recording))
  {
    hide FirstOutcome, Sent, Tokens.NthToken;
    var event := p.wire[p.resolved];
    var e, q := Dispatched(d, event), p.(resolved := p.resolved + 1, reader := Recording);
    SameCommands(d, e);
    forall c | c in e.calls && e.calls[c].token.Some?
      ensures
        var t := e.calls[c].token.value;
        var first := FirstOutcome(q.wire[..q.resolved], t);
        match e.calls[c].oneshot
        case Held => first == None
        case Fired(outcome) => first == Some(outcome)
        case Dropped => first == None && (q.reader.Dead? || (!Sent(e, t) && e.calls[c].phase.Finished?))
    {
      OneMoreEvent(p.wire, p.resolved, e.calls[c].token.value);
      ReadIsSent(d);
    }
  }

  lemma ReadIsSent(d: Desk)
    ensures forall t | t in d.read :: Sent(d, t)
  {
  }

  lemma DrainKeeps(d: Desk, p: Pump)
    requires SubmitInv(d, p)
    ensures SubmitInv(Drained(d), p.(reader := Dead)) && Drained(d).pending == map[]
  {
    hide FirstOutcome, Sent, Tokens.NthToken;
    SameCommands(d, Drained(d));
  }

  // ---- The journal ----

  lemma RecordKeepsPlace(d: Desk, p: Pump, l: Log)
    requires PlaceInv(p, l) && StartInv(d, p, l) && p.recorded < |p.wire|
    ensures
      var q := p.(recorded := p.recorded + 1, reader := Notifying);
      var m := l.(history := l.history + [p.wire[p.recorded]], place := l.place + [|l.history|]);
      PlaceInv(q, m) && StartInv(d, q, m)
  {
  }

  lemma AdviseKeepsPlace(d: Desk, p: Pump, l: Log, text: Bytes)
    requires PlaceInv(p, l) && StartInv(d, p, l)
    ensures
      var m := l.(history := l.history + [LogText(text)], advisories := l.advisories + 1);
      PlaceInv(p, m) && StartInv(d, p, m)
  {
  }

  lemma EmitKeepsPlace(d: Desk, p: Pump, l: Log, event: Event)
    requires PlaceInv(p, l) && StartInv(d, p, l)
    ensures PlaceInv(p.(wire := p.wire + [event]), l) && StartInv(d, p.(wire := p.wire + [event]), l)
  {
  }

  // A call that registers now starts behind everything recorded so far.
  lemma NewCallKeepsStart(d: Desk, e: Desk, c: nat, p: Pump, l: Log)
    requires StartInv(d, p, l) && PlaceInv(p, l)
    requires e.calls.Keys == d.calls.Keys + {c}
    requires e.calls[c].startHistory == |l.history| && e.calls[c].startWire == |p.wire|
    requires forall x | x in d.calls && x != c ::
               e.calls[x].startHistory == d.calls[x].startHistory && e.calls[x].startWire == d.calls[x].startWire
    ensures StartInv(e, p, l)
  {
  }

  lemma SameStarts(d: Desk, e: Desk, p: Pump, l: Log)
    requires StartInv(d, p, l) && e.calls.Keys == d.calls.Keys
    requires forall x | x in d.calls ::
               e.calls[x].startHistory == d.calls[x].startHistory && e.calls[x].startWire == d.calls[x].startWire
    ensures StartInv(e, p, l)
  {
  }

  // ---- Waiters ----

  lemma LookFinds(history: seq<Event>, cursor: nat)
    requires Look(history, cursor).Some?
    ensures
      var (number, stop) := Look(history, cursor).value;
      exists k | 0 <= k < |history| ::
        IsFirstStop(history, cursor, Journal.Evicted(history, CAPACITY), k, number, stop)
  {
    hide Journal.FindStop, Journal.Number;
    var from := Journal.Evicted(history, CAPACITY);
    var entries := Journal.Numbered(history, from);
    var (number, stop) := Look(history, cursor).value;
    var i :| 0 <= i < |entries|
      && Journal.IsStopAfter(entries[i], cursor) && (number, stop) == (entries[i].number, entries[i].event.stop)
      && forall j | 0 <= j < i :: !Journal.IsStopAfter(entries[j], cursor);
    forall j | from <= j < from + i && Journal.Number(j) > cursor
      ensures !history[j].StoppedAt?
    {
      assert entries[j - from] == Journal.Entry(Journal.Number(j), history[j]);
    }
    assert IsFirstStop(history, cursor, from, from + i, number, stop);
  }

  lemma LongerHistory(waiter: Waiter, history: seq<Event>, event: Event)
    requires FoundFirst(waiter, history)
    ensures FoundFirst(waiter, history + [event])
  {
    if waiter.pc.Found? {
      var longer := history + [event];
      var k :| 0 <= k < |history|
        && IsFirstStop(history, waiter.cursor, waiter.pc.evicted, k, waiter.pc.number, waiter.pc.stop);
      assert IsFirstStop(longer, waiter.cursor, waiter.pc.evicted, k, waiter.pc.number, waiter.pc.stop);
    }
  }

  // Recording something that is no stop gives a waiter nothing new to see.
  lemma NothingNewToSee(history: seq<Event>, event: Event, cursor: nat)
    requires !event.StoppedAt? && Look(history, cursor).None?
    ensures Look(history + [event], cursor).None?
  {
    hide Journal.FindStop, Journal.Number;
    var longer := history + [event];
    var from, later := Journal.Evicted(history, CAPACITY), Journal.Evicted(longer, CAPACITY);
    var before, after := Journal.Numbered(history, from), Journal.Numbered(longer, later);
    forall i | 0 <= i < |after|
      ensures !Journal.IsStopAfter(after[i], cursor)
    {
      if later + i < |history| {
        assert after[i] == before[later + i - from];
      }
    }
  }

  lemma RecordKeepsWaiters(waiters: map<nat, Waiter>, history: seq<Event>, p: Pump, event: Event)
    requires WaitersInv(waiters, history, p)
    ensures WaitersInv(waiters, history + [event], p.(recorded := p.recorded + 1, reader := Notifying))
  {
    hide FoundFirst, Look;
    forall w | w in waiters
      ensures FoundFirst(waiters[w], history + [event])
    {
      LongerHistory(waiters[w], history, event);
    }
  }

  lemma AdviseKeepsWaiters(waiters: map<nat, Waiter>, history: seq<Event>, p: Pump, text: Bytes)
    requires WaitersInv(waiters, history, p)
    ensures WaitersInv(waiters, history + [LogText(text)], p)
  {
    hide FoundFirst, Look;
    forall w | w in waiters
      ensures NotLost(waiters[w], history + [LogText(text)], p) && FoundFirst(waiters[w], history + [LogText(text)])
    {
      LongerHistory(waiters[w], history, LogText(text));
      if Look(history, waiters[w].cursor).None? {
        NothingNewToSee(history, LogText(text), waiters[w].cursor);
      }
    }
  }

  lemma NotifyKeepsWaiters(waiters: map<nat, Waiter>, history: seq<Event>, p: Pump, q: Pump)
    requires WaitersInv(waiters, history, p)
    ensures WaitersInv(NotifyAll(waiters), history, q)
  {
    hide Look, IsFirstStop;
  }

  // The reader moves without touching the journal or hiding its exit.
  lemma PumpKeepsWaiters(waiters: map<nat, Waiter>, history: seq<Event>, p: Pump, q: Pump)
    requires WaitersInv(waiters, history, p)
    requires WakePending(p) ==> WakePending(q)
    requires p.alive ==> q.alive || WakePending(q)
    ensures WaitersInv(waiters, history, q)
  {
    hide Look, FoundFirst;
  }

  lemma MoveKeepsWaiters(waiters: map<nat, Waiter>, w: nat, history: seq<Event>, p: Pump)
    requires WaitersInv(waiters, history, p) && w in waiters && WaiterCanMove(waiters[w])
    ensures WaitersInv(waiters[w := Moved(waiters[w], history, p.alive)], history, p)
  {
    hide Look, IsFirstStop;
    if Look(history, waiters[w].cursor).Some? {
      LookFinds(history, waiters[w].cursor);
    }
  }

  // ---- Every step keeps the invariant ----

  lemma CallStepKeeps(s: State, step: Step)
    requires Inv(s) && Enabled(s, step) && Bounded(Apply(s, step))
    requires step.Begin? || step.Check? || step.Register? || step.Send? || step.SendFails? || step.Resume? || step.Abandon?
    ensures Inv(Apply(s, step))
  {
    hide DeskInv, OutcomesInv, WireInv, ReaderInv, PlaceInv, StartInv, WaitersInv, Registered, DropSender;
    var d, p, l := s.desk, s.pump, s.log;
    var e := Apply(s, step).desk;
    match step
    case Begin(c) =>
      if p.alive {
        RegisterStep(d, c, p, l);
        AliveIsNotDead(p);
      } else {
        LookKeeps(d, c, e.calls[c], p);
        NewCallKeepsStart(d, e, c, p, l);
      }
    case Check(c) =>
      LookKeeps(d, c, e.calls[c], p);
      NewCallKeepsStart(d, e, c, p, l);
    case Register(c) =>
      RegisterStep(d, c, p, l);
    case Send(c) =>
      SendKeeps(d, c, p);
      SameStarts(d, e, p, l);
    case SendFails(c) =>
      ResolvedOnWire(p);
      SendFailsKeeps(d, c, p);
      DroppedIs(d, c);
      SameStarts(d, e, p, l);
    case Resume(c) =>
      PhaseKeeps(d, c, e.calls[c].phase, p);
      SameStarts(d, e, p, l);
    case Abandon(c) =>
      PhaseKeeps(d, c, Abandoned, p);
      SameStarts(d, e, p, l);
  }

  lemma AliveIsNotDead(p: Pump)
    requires ReaderInv(p) && p.alive
    ensures !p.reader.Dead?
  {
  }

  lemma ResolvedOnWire(p: Pump)
    requires ReaderInv(p)
    ensures p.resolved <= |p.wire|
  {
  }

  lemma RegisterStep(d: Desk, c: nat, p: Pump, l: Log)
    requires SubmitInv(d, p) && StartInv(d, p, l) && PlaceInv(p, l)
    requires Registered(d, c, |l.history|, |p.wire|).issued <= U64_MAX
    requires c in d.calls ==> d.calls[c].phase.Checked?
    ensures
      var e := Registered(d, c, |l.history|, |p.wire|);
      SubmitInv(e, p) && StartInv(e, p, l) && e.calls.Keys == d.calls.Keys + {c} && e.calls[c].phase.Sending?
      && forall x | x in d.calls && x != c :: e.calls[x] == d.calls[x]
  {
    hide OutcomesInv, WireInv, StartInv, PlaceInv, TokensInv, SendersInv, CommandsInv, PhasesInv;
    RegisterKeeps(d, c, |l.history|, p);
    RegisteredIs(d, c, |l.history|, |p.wire|);
    NewCallKeepsStart(d, Registered(d, c, |l.history|, |p.wire|), c, p, l);
  }

  lemma GdbStepKeeps(s: State, step: Step)
    requires Inv(s) && Enabled(s, step)
    requires step.Write? || step.WriterStops? || step.GdbReads? || step.GdbEmits?
    ensures Inv(Apply(s, step))
  {
    hide DeskInv, OutcomesInv, WireInv, PlaceInv, WaitersInv, FirstOutcome;
    var d, p, l := s.desk, s.pump, s.log;
    var t := Apply(s, step);
    if step.GdbEmits? {
      EmitKeeps(d, p, step.event);
      EmitKeepsPlace(d, p, l, step.event);
      PumpKeepsWaiters(s.waiters, l.history, p, t.pump);
    } else {
      CommandsMoveKeeps(d, t.desk, p);
    }
  }

  lemma ReaderStepKeeps(s: State, step: Step)
    requires Inv(s) && Enabled(s, step)
    requires step.Take? || step.Resolve? || step.BatchDone? || step.ReaderExits? || step.Drain?
    ensures Inv(Apply(s, step))
  {
    hide DeskInv, OutcomesInv, WireInv, PlaceInv, StartInv, WaitersInv, Dispatched, Drained;
    var d, p, l := s.desk, s.pump, s.log;
    var t := Apply(s, step);
    PumpKeepsWaiters(s.waiters, l.history, p, t.pump);
    SamePlace(d, p, t.pump, l);
    if step.Resolve? {
      ResolveKeeps(d, p);
      DispatchedIs(d, p.wire[p.resolved]);
      SameStarts(d, t.desk, t.pump, l);
    } else if step.Drain? {
      DrainKeeps(d, p);
      DrainedIs(d);
      SameStarts(d, t.desk, t.pump, l);
    } else {
      ReaderKeeps(d, p, t.pump);
    }
  }

  lemma SamePlace(d: Desk, p: Pump, q: Pump, l: Log)
    requires PlaceInv(p, l) && StartInv(d, p, l) && q.wire == p.wire && q.recorded == p.recorded
    ensures PlaceInv(q, l) && StartInv(d, q, l)
  {
  }

  lemma DispatchedIs(d: Desk, event: Event)
    ensures
      var e := Dispatched(d, event);
      e.calls.Keys == d.calls.Keys && e.pending.Keys <= d.pending.Keys
      && forall x | x in d.calls :: e.calls[x] == d.calls[x].(oneshot := e.calls[x].oneshot)
  {
  }

  lemma DrainedIs(d: Desk)
    ensures
      var e := Drained(d);
      e.calls.Keys == d.calls.Keys
      && forall x | x in d.calls :: e.calls[x] == d.calls[x].(oneshot := e.calls[x].oneshot)
  {
  }

  lemma JournalStepKeeps(s: State, step: Step)
    requires Inv(s) && Enabled(s, step)
    requires step.Record? || step.Notify? || step.ExitNotify? || step.Advise? || step.AdviseNotify?
    ensures Inv(Apply(s, step))
  {
    hide DeskInv, OutcomesInv, WireInv, PlaceInv, StartInv, WaitersInv, NotifyAll;
    var d, p, l := s.desk, s.pump, s.log;
    var t := Apply(s, step);
    ReaderKeeps(d, p, t.pump);
    match step
    case Record =>
      RecordKeepsPlace(d, p, l);
      RecordKeepsWaiters(s.waiters, l.history, p, p.wire[p.recorded]);
    case Advise(text) =>
      AdviseKeepsPlace(d, p, l, text);
      AdviseKeepsWaiters(s.waiters, l.history, p, text);
    case AdviseNotify =>
      SameLog(d, p, l, t.log);
      NotifyKeepsWaiters(s.waiters, l.history, p, t.pump);
    case _ =>
      SamePlace(d, p, t.pump, l);
      NotifyKeepsWaiters(s.waiters, l.history, p, t.pump);
  }

  lemma SameLog(d: Desk, p: Pump, l: Log, m: Log)
    requires PlaceInv(p, l) && StartInv(d, p, l) && m.history == l.history && m.place == l.place
    ensures PlaceInv(p, m) && StartInv(d, p, m)
  {
  }

  lemma WaiterStepKeeps(s: State, step: Step)
    requires Inv(s) && Enabled(s, step)
    requires step.Wait? || step.WaiterMoves? || step.WaiterTimesOut?
    ensures Inv(Apply(s, step))
  {
    hide DeskInv, OutcomesInv, WireInv, ReaderInv, PlaceInv, StartInv, Look, Moved, IsFirstStop;
    if step.WaiterMoves? {
      MoveKeepsWaiters(s.waiters, step.w, s.log.history, s.pump);
    }
  }

  lemma StepKeeps(s: State, step: Step)
    requires Inv(s) && Enabled(s, step) && Bounded(Apply(s, step))
    ensures Inv(Apply(s, step))
  {
    hide Inv, Enabled, Apply, Bounded;
    match step {
      case Begin(_) => CallStepKeeps(s, step);
      case Check(_) => CallStepKeeps(s, step);
      case Register(_) => CallStepKeeps(s, step);
      case Send(_) => CallStepKeeps(s, step);
      case SendFails(_) => CallStepKeeps(s, step);
      case Resume(_) => CallStepKeeps(s, step);
      case Abandon(_) => CallStepKeeps(s, step);
      case Write => GdbStepKeeps(s, step);
      case WriterStops => GdbStepKeeps(s, step);
      case GdbReads => GdbStepKeeps(s, step);
      case GdbEmits(_) => GdbStepKeeps(s, step);
      case Take(_) => ReaderStepKeeps(s, step);
      case Resolve => ReaderStepKeeps(s, step);
      case BatchDone => ReaderStepKeeps(s, step);
      case ReaderExits => ReaderStepKeeps(s, step);
      case Drain => ReaderStepKeeps(s, step);
      case Wait(_, _) => WaiterStepKeeps(s, step);
      case WaiterMoves(_) => WaiterStepKeeps(s, step);
      case WaiterTimesOut(_) => WaiterStepKeeps(s, step);
      case _ => JournalStepKeeps(s, step);
    }
  }

  // ---- Executions ----

  // A run of the transport: every step is enabled where it is taken.
  ghost predicate Execution(states: seq<State>, steps: seq<Step>) {
    && |states| == |steps| + 1
    && forall k | 0 <= k < |steps| :: Enabled(states[k], steps[k]) && states[k + 1] == Apply(states[k], steps[k])
  }

  lemma IssuedGrows(s: State, step: Step)
    requires Enabled(s, step)
    ensures s.desk.issued <= Apply(s, step).desk.issued && Apply(s, step).atomic == s.atomic
  {
  }

  lemma StartIsSafe(atomic: bool)
    ensures Inv(Start(atomic))
  {
  }

  // Every state of every execution satisfies the invariant, as long as tokens have not come round.
  lemma {:induction false} AlwaysSafe(states: seq<State>, steps: seq<Step>, atomic: bool, k: nat)
    requires Execution(states, steps) && states[0] == Start(atomic)
    requires k < |states| && Bounded(states[k])
    ensures Inv(states[k]) && states[k].atomic == atomic
    decreases k
  {
    hide Inv, Enabled, Apply, Start;
    if k == 0 {
      StartIsSafe(atomic);
      StartMode(atomic);
    } else {
      IssuedGrows(states[k - 1], steps[k - 1]);
      AlwaysSafe(states, steps, atomic, k - 1);
      StepKeeps(states[k - 1], steps[k - 1]);
    }
  }

  lemma StartMode(atomic: bool)
    ensures Start(atomic).atomic == atomic
  {
  }
}
