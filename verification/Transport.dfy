// The transport as interleaved steps.
//
// Callers submit commands, a writer hands them to GDB, GDB emits events, a
// reader dispatches them and records them in the journal, and waiters look
// for stops. Every `.await` point and every lock release is a place where
// another task may step, so each step below is what one task does between
// two of them; the reader's exit and its dispatch are cut finer still. The
// runtime is represented by its contracts only: a oneshot fires or drops
// once, and a notification reaches every waiter armed before it is sent.
module Transport {
  import opened Octets
  import opened Wrappers
  import opened Events
  import Journal
  import Tokens

  const CAPACITY: nat := 1024

  // ---- State ----

  // Where the sending half of a call's oneshot is.
  datatype Oneshot = Held | Fired(outcome: CommandOutcome) | Dropped

  datatype Phase =
    | Checked                                    // saw the reader alive, not yet registered
    | Sending                                    // registered; its bytes wait for the writer's channel
    | Awaiting                                   // parked on the oneshot
    | Finished(result: Option<CommandOutcome>)   // None: the transport has exited
    | Abandoned                                  // the caller timed out and dropped the future

  // One call of submit; the last two fields record the moment it registered.
  datatype Call = Call(token: Option<nat>, phase: Phase, oneshot: Oneshot, startHistory: nat, startWire: nat)

  datatype Desk = Desk(
    calls: map<nat, Call>,
    pending: map<nat, nat>,  // token to the call whose sender is stored under it
    owner: map<nat, nat>,    // token to the call it was issued to
    nextToken: nat,
    issued: nat,
    open: bool,              // the writer still receives
    channel: seq<nat>,       // commands queued for the writer, by token
    stdin: seq<nat>,         // written, not yet read by GDB
    read: set<nat>)          // read by GDB

  datatype ReaderPc = Reading | Dispatching | Recording | Notifying | ExitNotifying | Draining | Dead

  datatype Pump = Pump(
    wire: seq<Event>,  // everything GDB has emitted
    taken: nat,        // events read off the wire
    resolved: nat,     // events whose oneshot step is done
    recorded: nat,     // events pushed to the journal
    reader: ReaderPc,
    alive: bool)

  datatype Log = Log(
    history: seq<Event>,  // everything ever recorded
    place: seq<nat>,      // where in the history each recorded wire event is
    advisories: nat)      // recorders of synthetic logs between push and notify

  datatype WaiterPc =
    | FirstLook
    | FirstAlive
    | Arming
    | SecondLook
    | SecondAlive
    | Parked
    | Found(number: nat, stop: StoppedEvent, evicted: nat)
    | SawExit
    | TimedOut

  datatype Waiter = Waiter(cursor: nat, pc: WaiterPc, notified: bool)

  // `atomic`: from its alive-check to registering its sender, a submit is not interleaved.
  datatype State = State(atomic: bool, desk: Desk, pump: Pump, log: Log, waiters: map<nat, Waiter>)

  function Start(atomic: bool): State {
    State(
      atomic,
      Desk(map[], map[], map[], 1, 0, true, [], [], {}),
      Pump([], 0, 0, 0, Reading, true),
      Log([], [], 0),
      map[])
  }

  // ---- Steps ----

  datatype Step =
    | Begin(c: nat)
    | Check(c: nat)
    | Register(c: nat)
    | Send(c: nat)
    | SendFails(c: nat)
    | Resume(c: nat)
    | Abandon(c: nat)
    | Write
    | WriterStops
    | GdbReads
    | GdbEmits(event: Event)
    | Take(n: nat)
    | Resolve
    | Record
    | Notify
    | BatchDone
    | ReaderExits
    | ExitNotify
    | Drain
    | Advise(text: Bytes)
    | AdviseNotify
    | Wait(w: nat, cursor: nat)
    | WaiterMoves(w: nat)
    | WaiterTimesOut(w: nat)

  predicate InPhase(d: Desk, c: nat, phase: Phase) {
    c in d.calls && d.calls[c].phase == phase
  }

  predicate ReaderRuns(pc: ReaderPc) {
    pc.Reading? || pc.Dispatching? || pc.Recording? || pc.Notifying?
  }

  predicate Enabled(s: State, step: Step) {
    match step
    case Begin(c) => s.atomic && c !in s.desk.calls
    case Check(c) => !s.atomic && c !in s.desk.calls
    case Register(c) => InPhase(s.desk, c, Checked)
    case Send(c) => InPhase(s.desk, c, Sending) && s.desk.calls[c].token.Some? && s.desk.open
    case SendFails(c) => InPhase(s.desk, c, Sending) && s.desk.calls[c].token.Some? && !s.desk.open
    case Resume(c) => InPhase(s.desk, c, Awaiting) && !s.desk.calls[c].oneshot.Held?
    case Abandon(c) => InPhase(s.desk, c, Sending) || InPhase(s.desk, c, Awaiting)
    case Write => s.desk.open && s.desk.channel != []
    case WriterStops => s.desk.open
    case GdbReads => s.desk.stdin != []
    // GDB echoes a token only after it has read the command that carries it.
    case GdbEmits(e) => e.CommandCompleted? ==> e.handle in s.desk.read
    case Take(n) => s.pump.reader.Reading? && n > 0 && s.pump.taken + n <= |s.pump.wire|
    case Resolve => s.pump.reader.Dispatching? && s.pump.resolved < s.pump.taken && s.pump.taken <= |s.pump.wire|
    case Record => s.pump.reader.Recording? && s.pump.recorded < |s.pump.wire|
    case Notify => s.pump.reader.Notifying?
    case BatchDone => s.pump.reader.Dispatching? && s.pump.resolved == s.pump.taken
    // End of file, an I/O error, an overlong line, or a panic anywhere in the loop.
    case ReaderExits => ReaderRuns(s.pump.reader)
    case ExitNotify => s.pump.reader.ExitNotifying?
    case Drain => s.pump.reader.Draining?
    case Advise(_) => true
    case AdviseNotify => s.log.advisories > 0
    case Wait(w, _) => w !in s.waiters
    case WaiterMoves(w) => w in s.waiters && WaiterCanMove(s.waiters[w])
    case WaiterTimesOut(w) => w in s.waiters && s.waiters[w].pc.Parked?
  }

  predicate WaiterCanMove(waiter: Waiter) {
    match waiter.pc
    case Parked => waiter.notified
    case Found(_, _, _) => false
    case SawExit => false
    case TimedOut => false
    case _ => true
  }

  // Dropping the sender stored under a token resolves its call's oneshot.
  function DropSender(d: Desk, token: nat): Desk {
    if token in d.pending && d.pending[token] in d.calls then
      var c := d.pending[token];
      d.(calls := d.calls[c := d.calls[c].(oneshot := Dropped)], pending := d.pending - {token})
    else d
  }

  // Allocate a token, encode the command and store the sender; a sender already under
  // the token would be displaced.
  function Registered(d: Desk, c: nat, historySize: nat, wireSize: nat): Desk {
    var token := d.nextToken;
    var e := DropSender(d, token);
    e.(calls := e.calls[c := Call(Some(token), Sending, Held, historySize, wireSize)],
       pending := e.pending[token := c],
       owner := e.owner[token := c],
       nextToken := Tokens.NextToken(token),
       issued := e.issued + 1)
  }

  // A completion takes the sender stored under its token, if there is one, and fires it.
  function Dispatched(d: Desk, e: Event): Desk {
    if e.CommandCompleted? && e.handle in d.pending && d.pending[e.handle] in d.calls then
      var c := d.pending[e.handle];
      d.(calls := d.calls[c := d.calls[c].(oneshot := Fired(e.outcome))], pending := d.pending - {e.handle})
    else d
  }

  predicate HasSender(d: Desk, c: nat)
    requires c in d.calls
  {
    var call := d.calls[c];
    call.token.Some? && call.token.value in d.pending && d.pending[call.token.value] == c
  }

  // Clearing the map drops every sender in it.
  function Drained(d: Desk): Desk {
    d.(calls := map c | c in d.calls :: if HasSender(d, c) then d.calls[c].(oneshot := Dropped) else d.calls[c],
       pending := map[])
  }

  function SetPhase(d: Desk, c: nat, phase: Phase): Desk
    requires c in d.calls
  {
    d.(calls := d.calls[c := d.calls[c].(phase := phase)])
  }

  predicate Armed(pc: WaiterPc) {
    pc.SecondLook? || pc.SecondAlive? || pc.Parked?
  }

  // Every waiter armed by now receives the notification.
  function NotifyAll(waiters: map<nat, Waiter>): map<nat, Waiter> {
    map w | w in waiters :: if Armed(waiters[w].pc) then waiters[w].(notified := true) else waiters[w]
  }

  function Look(history: seq<Event>, cursor: nat): Option<(nat, StoppedEvent)> {
    Journal.FindStop(Journal.Retained(history, CAPACITY), cursor)
  }

  // One move of a waiter's check, arm, re-check, park loop.
  function Moved(waiter: Waiter, history: seq<Event>, alive: bool): Waiter {
    match waiter.pc
    case FirstLook => AfterLook(waiter, history, FirstAlive)
    case FirstAlive => waiter.(pc := if alive then Arming else SawExit)
    case Arming => waiter.(pc := SecondLook, notified := false)
    case SecondLook => AfterLook(waiter, history, SecondAlive)
    case SecondAlive => waiter.(pc := if alive then Parked else SawExit)
    case Parked => waiter.(pc := FirstLook)
    case _ => waiter
  }

  function AfterLook(waiter: Waiter, history: seq<Event>, otherwise: WaiterPc): Waiter {
    match Look(history, waiter.cursor)
    case Some(found) => waiter.(pc := Found(found.0, found.1, Journal.Evicted(history, CAPACITY)))
    case None => waiter.(pc := otherwise)
  }

  function Apply(s: State, step: Step): State
    requires Enabled(s, step)
  {
    var d, p, l := s.desk, s.pump, s.log;
    match step
    case Begin(c) =>
      if p.alive then s.(desk := Registered(d, c, |l.history|, |p.wire|))
      else s.(desk := d.(calls := d.calls[c := Call(None, Finished(None), Dropped, |l.history|, |p.wire|)]))
    case Check(c) =>
      var phase := if p.alive then Checked else Finished(None);
      s.(desk := d.(calls := d.calls[c := Call(None, phase, Dropped, |l.history|, |p.wire|)]))
    case Register(c) => s.(desk := Registered(d, c, |l.history|, |p.wire|))
    case Send(c) =>
      var token := d.calls[c].token.value;
      s.(desk := SetPhase(d, c, Awaiting).(channel := d.channel + [token]))
    case SendFails(c) =>
      var e := DropSender(d, d.calls[c].token.value);
      s.(desk := SetPhase(e, c, Finished(None)))
    case Resume(c) =>
      var oneshot := d.calls[c].oneshot;
      s.(desk := SetPhase(d, c, Finished(if oneshot.Fired? then Some(oneshot.outcome) else None)))
    case Abandon(c) => s.(desk := SetPhase(d, c, Abandoned))
    case Write => s.(desk := d.(channel := d.channel[1..], stdin := d.stdin + [d.channel[0]]))
    case WriterStops => s.(desk := d.(open := false, channel := []))
    case GdbReads => s.(desk := d.(stdin := d.stdin[1..], read := d.read + {d.stdin[0]}))
    case GdbEmits(e) => s.(pump := p.(wire := p.wire + [e]))
    case Take(n) => s.(pump := p.(taken := p.taken + n, reader := Dispatching))
    case Resolve =>
      s.(desk := Dispatched(d, p.wire[p.resolved]), pump := p.(resolved := p.resolved + 1, reader := Recording))
    case Record =>
      s.(log := l.(history := l.history + [p.wire[p.recorded]], place := l.place + [|l.history|]),
         pump := p.(recorded := p.recorded + 1, reader := Notifying))
    case Notify => s.(pump := p.(reader := Dispatching), waiters := NotifyAll(s.waiters))
    case BatchDone => s.(pump := p.(reader := Reading))
    case ReaderExits => s.(pump := p.(reader := ExitNotifying, alive := false))
    case ExitNotify => s.(pump := p.(reader := Draining), waiters := NotifyAll(s.waiters))
    case Drain => s.(desk := Drained(d), pump := p.(reader := Dead))
    case Advise(text) =>
      s.(log := l.(history := l.history + [LogText(text)], advisories := l.advisories + 1))
    case AdviseNotify => s.(log := l.(advisories := l.advisories - 1), waiters := NotifyAll(s.waiters))
    case Wait(w, cursor) => s.(waiters := s.waiters[w := Waiter(cursor, FirstLook, false)])
    case WaiterMoves(w) => s.(waiters := s.waiters[w := Moved(s.waiters[w], l.history, p.alive)])
    case WaiterTimesOut(w) => s.(waiters := s.waiters[w := s.waiters[w].(pc := TimedOut)])
  }
}
