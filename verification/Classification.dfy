// What each complete line does to the protocol state, as functions on values.
//
// `Protocol.Connection` is proved against these; the properties of whole runs
// (chunk invariance, safety across the registries, replies routed at most
// once) are proved here.
module Classification {
  import opened Octets
  import opened Wrappers
  import opened Ast
  import opened ResultsView
  import opened Events
  import opened Registries
  import Framing
  import RecordSyntax
  import Threads

  // Everything a line can change besides the event queue.
  datatype Registers = Registers(
    pending: map<nat, PendingInfo>,
    target: TargetState,
    threads: Threads.ThreadMap,
    frames: FrameMap,
    breakpoints: BreakpointMap,
    varobjs: VarObjMap,
    features: FeatureSet)

  const INITIAL: Registers :=
    Registers(map[], TargetState.Unknown, map[], map[], map[], map[], FeatureSet({}, {}))

  datatype ParsedFrame =
    | ParsedRecord(record: Record)
    | ParseFailed(error: CodecError, rawLine: Bytes)
    | Terminator

  function ParsedOf(frame: Framing.Frame): ParsedFrame {
    match frame
    case GroupTerminator => Terminator
    case Line(line) =>
      match RecordSyntax.ParseRecord(line)
      case Success(record) => ParsedRecord(record)
      case Failure(error) => ParseFailed(error, line)
  }

  // ---- The event of a line ----

  function OutcomeOf(rr: ResultRecord): CommandOutcome {
    match rr.class_
    case Done => CommandOutcome.Done(rr.results)
    case Running => CommandOutcome.Running
    case Connected => CommandOutcome.Connected(rr.results)
    case Error =>
      var msg := GetStr(rr.results, "msg");
      CommandOutcome.Error(if msg.Some? then msg.value else [], GetStr(rr.results, "code"))
    case Exit => CommandOutcome.Exit
  }

  function StopOf(results: seq<Field>): StoppedEvent {
    StoppedEvent(ReasonFromResults(results), GetStr(results, "thread-id"), ExtractFrame(results), results)
  }

  function EventOfRecord(record: Record): Event {
    match record
    case Result(rr) =>
      if rr.token.Some? then CommandCompleted(rr.token.value, OutcomeOf(rr)) else UnknownRecord(record)
    case Exec(ar) =>
      if ar.class_ == "running" then RunningAt(GetStr(ar.results, "thread-id"))
      else if ar.class_ == "stopped" then StoppedAt(StopOf(ar.results))
      else UnknownRecord(record)
    case Status(ar) => StatusOf(ar.class_, ar.results)
    case Notify(ar) => Notified(ar.class_, ar.results)
    case Console(text) => ConsoleText(text)
    case Target(text) => TargetOutput(text)
    case Log(text) => LogText(text)
  }

  function EventOf(p: ParsedFrame): Event {
    match p
    case ParsedRecord(record) => EventOfRecord(record)
    case ParseFailed(error, rawLine) => ParseError(error, rawLine)
    case Terminator => GroupClosed
  }

  function EventsOf(frames: seq<Framing.Frame>): (events: seq<Event>)
    ensures |events| == |frames|
    ensures forall k | 0 <= k < |frames| :: events[k] == EventOf(ParsedOf(frames[k]))
  {
    seq(|frames|, k requires 0 <= k < |frames| => EventOf(ParsedOf(frames[k])))
  }

  // ---- The effect of a line on the registers ----

  function RouteDone(r: Registers, info: PendingInfo, results: seq<Field>): Registers {
    match info.operation
    case BreakInsert => r.(breakpoints := UpsertedFromResults(r.breakpoints, results))
    case BreakInfo => r.(breakpoints := UpsertedFromResults(r.breakpoints, results))
    case VarCreate(expression) => r.(varobjs := VarCreated(r.varobjs, results, expression))
    case VarUpdate => r.(varobjs := VarUpdated(r.varobjs, results))
    case VarDelete(name) => r.(varobjs := r.varobjs - {name})
    case ListFeatures => r.(features := r.features.(features := ExtractStrings(results)))
    case ListTargetFeatures => r.(features := r.features.(targetFeatures := ExtractStrings(results)))
    case TargetSelect => r.(features := r.features.(targetFeatures := {}))
    case ExecRun => r.(features := r.features.(targetFeatures := {}))
    case OtherOperation => r
    case Raw => r
  }

  // The reply to a known command is taken off the pending map and routed by its class.
  function RouteReply(r: Registers, info: PendingInfo, rr: ResultRecord): Registers {
    match rr.class_
    case Done => RouteDone(r, info, rr.results)
    case Connected => RouteDone(r, info, rr.results)
    case Error => if IsExecCommand(info) then r.(target := TargetState.Unknown, frames := map[]) else r
    case Running => r
    case Exit => r
  }

  function RouteResult(r: Registers, rr: ResultRecord): Registers {
    if rr.token.None? || rr.token.value !in r.pending then r
    else
      var info := r.pending[rr.token.value];
      RouteReply(r.(pending := r.pending - {rr.token.value}), info, rr)
  }

  function RouteRunning(r: Registers, results: seq<Field>): Registers {
    var thread := GetStr(results, "thread-id");
    r.(target := TargetState.Running(thread),
       threads := Threads.SetState(r.threads, thread, Threads.Moving),
       frames := if Threads.IsAll(thread) then map[] else r.frames - {thread.value})
  }

  function RouteStopped(r: Registers, results: seq<Field>): Registers {
    var thread := GetStr(results, "thread-id");
    var reason := ReasonFromResults(results);
    var frames := if IsExit(reason) then map[] else r.frames;
    r.(target := TargetAfterStop(thread, reason),
       threads := Threads.SetState(r.threads, thread, Threads.Halted),
       frames := if thread.Some? then FramesAfterStop(frames, thread.value, results) else frames)
  }

  function RouteNotify(r: Registers, ar: AsyncRecord): Registers {
    if ar.class_ == "thread-created" then r.(threads := Threads.Created(r.threads, ar.results))
    else if ar.class_ == "thread-exited" then r.(threads := Threads.Exited(r.threads, ar.results))
    else if ar.class_ == "breakpoint-created" || ar.class_ == "breakpoint-modified" then
      r.(breakpoints := UpsertedFromResults(r.breakpoints, ar.results))
    else if ar.class_ == "breakpoint-deleted" then
      r.(breakpoints := Registries.Deleted(r.breakpoints, ar.results))
    else r
  }

  function Route(r: Registers, p: ParsedFrame): Registers {
    match p
    case ParsedRecord(Result(rr)) => RouteResult(r, rr)
    case ParsedRecord(Exec(ar)) =>
      if ar.class_ == "running" then RouteRunning(r, ar.results)
      else if ar.class_ == "stopped" then RouteStopped(r, ar.results)
      else r
    case ParsedRecord(Notify(ar)) => RouteNotify(r, ar)
    case _ => r
  }

  function RouteAll(r: Registers, frames: seq<Framing.Frame>): Registers
    decreases |frames|
  {
    if frames == [] then r else RouteAll(Route(r, ParsedOf(frames[0])), frames[1..])
  }

  // ---- Chunk invariance ----

  // The inbound half of a connection: bytes of an incomplete line, registers, event queue.
  datatype Inbound = Inbound(live: Bytes, registers: Registers, events: seq<Event>)

  function Receive(s: Inbound, bytes: Bytes): Inbound {
    var frames := Framing.Frames(s.live + bytes);
    Inbound(Framing.Rest(s.live + bytes), RouteAll(s.registers, frames), s.events + EventsOf(frames))
  }

  function ReceiveAll(s: Inbound, chunks: seq<Bytes>): Inbound
    decreases |chunks|
  {
    if chunks == [] then s else ReceiveAll(Receive(s, chunks[0]), chunks[1..])
  }

  ghost function Flatten(chunks: seq<Bytes>): Bytes {
    if chunks == [] then [] else chunks[0] + Flatten(chunks[1..])
  }

  lemma {:induction false} RouteAllConcat(r: Registers, a: seq<Framing.Frame>, b: seq<Framing.Frame>)
    ensures RouteAll(r, a + b) == RouteAll(RouteAll(r, a), b)
    decreases |a|
  {
    hide Route, ParsedOf;
    if a == [] {
      assert a + b == b;
    } else {
      assert (a + b)[0] == a[0] && (a + b)[1..] == a[1..] + b;
      RouteAllConcat(Route(r, ParsedOf(a[0])), a[1..], b);
    }
  }

  lemma EventsOfConcat(a: seq<Framing.Frame>, b: seq<Framing.Frame>)
    ensures EventsOf(a + b) == EventsOf(a) + EventsOf(b)
  {
    hide EventOf, ParsedOf;
  }

  // Two calls leave what one call with the concatenation leaves.
  lemma ReceiveConcat(s: Inbound, a: Bytes, b: Bytes)
    ensures Receive(Receive(s, a), b) == Receive(s, a + b)
  {
    hide RouteAll, EventsOf, EventOf, ParsedOf, Framing.Frames, Framing.Rest;
    var stream := s.live + a;
    var first, more := Framing.Frames(stream), Framing.Frames(Framing.Rest(stream) + b);
    assert s.live + (a + b) == stream + b;
    Framing.SplitConcat(stream, b);
    RouteAllConcat(s.registers, first, more);
    EventsOfConcat(first, more);
    assert (s.events + EventsOf(first)) + EventsOf(more) == s.events + (EventsOf(first) + EventsOf(more));
  }

  // However a stream is cut, the whole inbound state ends the same; with no newline
  // outstanding, it is the fold of classification over the complete lines of the stream.
  lemma {:induction false} ChunkInvariance(s: Inbound, chunks: seq<Bytes>)
    requires '\n' !in s.live
    ensures ReceiveAll(s, chunks) == Receive(s, Flatten(chunks))
    decreases |chunks|
  {
    hide Receive;
    if chunks == [] {
      ReceiveNothing(s);
    } else {
      LiveHasNoNewline(s, chunks[0]);
      ChunkInvariance(Receive(s, chunks[0]), chunks[1..]);
      ReceiveConcat(s, chunks[0], Flatten(chunks[1..]));
    }
  }

  lemma ReceiveNothing(s: Inbound)
    requires '\n' !in s.live
    ensures Receive(s, []) == s
  {
    assert s.live + [] == s.live;
    Framing.CutNothing(s.live);
  }

  lemma LiveHasNoNewline(s: Inbound, bytes: Bytes)
    ensures '\n' !in Receive(s, bytes).live
  {
    Framing.SplitIsExact(s.live + bytes);
  }

  // One event is queued per newline received, behind those already queued.
  lemma EventConservation(s: Inbound, bytes: Bytes)
    requires '\n' !in s.live
    ensures s.events <= Receive(s, bytes).events
    ensures |Receive(s, bytes).events| == |s.events| + Framing.Newlines(bytes)
  {
    Framing.LineCount(s.live + bytes);
    Framing.NewlinesConcat(s.live, bytes);
    Framing.NoNewlines(s.live);
  }

  // ---- Replies are routed at most once ----

  // The token a line replies to, if it is a tokened result record.
  function ReplyToken(p: ParsedFrame): Option<nat> {
    match p
    case ParsedRecord(Result(rr)) => rr.token
    case _ => None
  }

  // A line can only take its own token off the pending map.
  lemma PendingAfter(r: Registers, p: ParsedFrame)
    ensures Route(r, p).pending == if ReplyToken(p).Some? then r.pending - {ReplyToken(p).value} else r.pending
  {
    match p
    case ParsedRecord(Result(rr)) => ReplyKeepsPending(r, rr);
    case _ =>
  }

  lemma ReplyKeepsPending(r: Registers, rr: ResultRecord)
    ensures RouteResult(r, rr).pending == if rr.token.Some? then r.pending - {rr.token.value} else r.pending
  {
    hide RouteDone, IsExecCommand;
    if rr.token.Some? && rr.token.value in r.pending {
      DoneTouches(r.(pending := r.pending - {rr.token.value}), r.pending[rr.token.value], rr.results);
    }
  }

  function WithoutReplies(frames: seq<Framing.Frame>, token: nat): seq<Framing.Frame> {
    if frames == [] then []
    else (if ReplyToken(ParsedOf(frames[0])) == Some(token) then [] else [frames[0]]) + WithoutReplies(frames[1..], token)
  }

  // Once a token has been resolved, every further reply to it could be dropped from the stream
  // without changing any register.
  lemma {:induction false} ResolvedRepliesAreInert(r: Registers, frames: seq<Framing.Frame>, token: nat)
    requires token !in r.pending
    ensures RouteAll(r, frames) == RouteAll(r, WithoutReplies(frames, token))
    ensures token !in RouteAll(r, frames).pending
    decreases |frames|
  {
    hide ParsedOf, Route;
    if frames != [] {
      var p := ParsedOf(frames[0]);
      PendingAfter(r, p);
      ResolvedRepliesAreInert(Route(r, p), frames[1..], token);
      if ReplyToken(p) == Some(token) {
        UnknownReplyIsInert(r, p);
        assert [] + WithoutReplies(frames[1..], token) == WithoutReplies(frames[1..], token);
      } else {
        var kept := WithoutReplies(frames, token);
        assert kept[0] == frames[0] && kept[1..] == WithoutReplies(frames[1..], token);
      }
    }
  }

  lemma UnknownReplyIsInert(r: Registers, p: ParsedFrame)
    requires ReplyToken(p).Some? && ReplyToken(p).value !in r.pending
    ensures Route(r, p) == r && EventOf(p).CommandCompleted? && EventOf(p).handle == ReplyToken(p).value
  {
  }

  // A reply and all its duplicates change the registers once.
  lemma DuplicatesAreInert(r: Registers, frame: Framing.Frame, later: seq<Framing.Frame>)
    requires ReplyToken(ParsedOf(frame)).Some?
    ensures
      var token := ReplyToken(ParsedOf(frame)).value;
      RouteAll(r, [frame] + later) == RouteAll(r, [frame] + WithoutReplies(later, token))
  {
    hide ParsedOf, Route;
    var token := ReplyToken(ParsedOf(frame)).value;
    PendingAfter(r, ParsedOf(frame));
    ResolvedRepliesAreInert(Route(r, ParsedOf(frame)), later, token);
    assert ([frame] + later)[1..] == later;
    assert ([frame] + WithoutReplies(later, token))[1..] == WithoutReplies(later, token);
  }

  // ---- Safety across the registries ----

  ghost predicate BreakpointsMatch(m: BreakpointMap) {
    forall b | b in m :: m[b].id == b && m[b].locations != []
  }

  ghost predicate VarObjsMatch(m: VarObjMap) {
    forall v | v in m :: m[v].name == v
  }

  // Every entry is filed under its own name, and every breakpoint has a location.
  ghost predicate KeysMatch(r: Registers) {
    && (forall t | t in r.threads :: r.threads[t].id == t)
    && BreakpointsMatch(r.breakpoints)
    && VarObjsMatch(r.varobjs)
  }

  ghost predicate RunningThreadsHaveNoFrame(r: Registers) {
    forall t | t in r.threads && r.threads[t].state == Some(Threads.Moving) :: t !in r.frames
  }

  ghost predicate TargetAgreesWithFrames(r: Registers) {
    match r.target
    case Unknown => r.frames == map[]
    case Running(thread) => if Threads.IsAll(thread) then r.frames == map[] else thread.value !in r.frames
    case Stopped(_, _) => true
    case Exited(_) => |r.frames| <= 1
  }

  ghost predicate Safe(r: Registers) {
    KeysMatch(r) && RunningThreadsHaveNoFrame(r) && TargetAgreesWithFrames(r)
  }

  lemma {:induction false} ChangesKeepNames(m: VarObjMap, entries: seq<Value>)
    requires VarObjsMatch(m)
    ensures VarObjsMatch(VarsChanged(m, entries))
    decreases |entries|
  {
    if entries != [] {
      ChangeKeepsNames(m, entries[0]);
      ChangesKeepNames(VarChanged(m, entries[0]), entries[1..]);
    }
  }

  lemma ChangeKeepsNames(m: VarObjMap, entry: Value)
    requires VarObjsMatch(m)
    ensures VarObjsMatch(VarChanged(m, entry))
  {
    hide GetStr, GetBool, OrElse;
  }

  lemma UpdateKeepsNames(m: VarObjMap, results: seq<Field>)
    requires VarObjsMatch(m)
    ensures VarObjsMatch(VarUpdated(m, results))
  {
    hide GetList, VarObjsMatch, VarsChanged;
    var list := GetList(results, "changelist");
    if list.Some? && list.value.Values? {
      ChangesKeepNames(m, list.value.values);
    }
  }

  lemma CreateKeepsNames(m: VarObjMap, results: seq<Field>, expression: Option<Bytes>)
    requires VarObjsMatch(m)
    ensures VarObjsMatch(VarCreated(m, results, expression))
  {
    hide GetStr, GetU32;
  }

  lemma UpsertKeepsIds(m: BreakpointMap, results: seq<Field>)
    requires BreakpointsMatch(m)
    ensures BreakpointsMatch(UpsertedFromResults(m, results))
  {
    hide GetStr, GetTuple, BreakpointFromTuple;
  }

  lemma DoneIsSafe(r: Registers, info: PendingInfo, results: seq<Field>)
    requires Safe(r)
    ensures Safe(RouteDone(r, info, results))
  {
    hide RouteDone, TargetAgreesWithFrames, BreakpointsMatch, VarObjsMatch;
    DoneTouches(r, info, results);
    DoneKeepsBreakpoints(r, info, results);
    DoneKeepsVarObjs(r, info, results);
    SameTargetAndFrames(r, RouteDone(r, info, results));
  }

  // A routed payload reaches the breakpoints, variable objects and features only.
  lemma DoneTouches(r: Registers, info: PendingInfo, results: seq<Field>)
    ensures
      var q := RouteDone(r, info, results);
      q == r.(breakpoints := q.breakpoints, varobjs := q.varobjs, features := q.features)
  {
    hide UpsertedFromResults, VarCreated, VarUpdated, ExtractStrings;
    match info.operation
    case BreakInsert =>
    case BreakInfo =>
    case VarCreate(_) =>
    case VarUpdate =>
    case VarDelete(_) =>
    case ListFeatures =>
    case ListTargetFeatures =>
    case TargetSelect =>
    case ExecRun =>
    case OtherOperation =>
    case Raw =>
  }

  lemma DoneKeepsBreakpoints(r: Registers, info: PendingInfo, results: seq<Field>)
    requires BreakpointsMatch(r.breakpoints)
    ensures BreakpointsMatch(RouteDone(r, info, results).breakpoints)
  {
    hide BreakpointsMatch, UpsertedFromResults, VarCreated, VarUpdated, ExtractStrings;
    UpsertKeepsIds(r.breakpoints, results);
  }

  lemma DoneKeepsVarObjs(r: Registers, info: PendingInfo, results: seq<Field>)
    requires VarObjsMatch(r.varobjs)
    ensures VarObjsMatch(RouteDone(r, info, results).varobjs)
  {
    hide UpsertedFromResults, VarCreated, VarUpdated, ExtractStrings;
    UpdateKeepsNames(r.varobjs, results);
    if info.operation.VarCreate? {
      CreateKeepsNames(r.varobjs, results, info.operation.expression);
    }
  }

  lemma SameTargetAndFrames(r: Registers, q: Registers)
    requires q.target == r.target && q.frames == r.frames
    ensures TargetAgreesWithFrames(q) == TargetAgreesWithFrames(r)
  {
  }

  lemma ResultIsSafe(r: Registers, rr: ResultRecord)
    requires Safe(r)
    ensures Safe(RouteResult(r, rr))
  {
    hide RouteDone;
    if rr.token.Some? && rr.token.value in r.pending {
      var info := r.pending[rr.token.value];
      var q := r.(pending := r.pending - {rr.token.value});
      assert Safe(q);
      DoneIsSafe(q, info, rr.results);
    }
  }

  lemma RunningIsSafe(r: Registers, results: seq<Field>)
    requires Safe(r)
    ensures Safe(RouteRunning(r, results))
  {
    hide GetStr;
  }

  lemma StoppedIsSafe(r: Registers, results: seq<Field>)
    requires Safe(r)
    ensures Safe(RouteStopped(r, results))
  {
    hide GetStr, ReasonFromResults, ExtractFrame;
    StoppedThreads(r, results);
  }

  // A stop can give a frame only to the thread it halts.
  lemma StoppedThreads(r: Registers, results: seq<Field>)
    requires RunningThreadsHaveNoFrame(r)
    ensures RunningThreadsHaveNoFrame(RouteStopped(r, results))
  {
    hide GetStr, ReasonFromResults, ExtractFrame;
  }

  lemma NotifyIsSafe(r: Registers, ar: AsyncRecord)
    requires Safe(r)
    ensures Safe(RouteNotify(r, ar))
  {
    hide TargetAgreesWithFrames, BreakpointsMatch, UpsertedFromResults, Registries.Deleted;
    hide Threads.Created, Threads.Exited;
    UpsertKeepsIds(r.breakpoints, ar.results);
    DeleteKeepsIds(r.breakpoints, ar.results);
    ThreadNotifyIsSafe(r, Threads.Created(r.threads, ar.results), ar.results);
    ThreadNotifyIsSafe(r, Threads.Exited(r.threads, ar.results), ar.results);
    SameTargetAndFrames(r, RouteNotify(r, ar));
  }

  lemma DeleteKeepsIds(m: BreakpointMap, results: seq<Field>)
    requires BreakpointsMatch(m)
    ensures BreakpointsMatch(Registries.Deleted(m, results))
  {
    hide GetStr;
  }

  // Creating and dropping threads marks no thread running.
  lemma ThreadNotifyIsSafe(r: Registers, threads: Threads.ThreadMap, results: seq<Field>)
    requires Safe(r)
    requires threads == Threads.Created(r.threads, results) || threads == Threads.Exited(r.threads, results)
    ensures Safe(r.(threads := threads))
  {
    hide TargetAgreesWithFrames, BreakpointsMatch, VarObjsMatch, GetStr;
    SameTargetAndFrames(r, r.(threads := threads));
  }

  lemma LineIsSafe(r: Registers, p: ParsedFrame)
    requires Safe(r)
    ensures Safe(Route(r, p))
  {
    hide Safe, RouteResult, RouteRunning, RouteStopped, RouteNotify;
    match p
    case ParsedRecord(Result(rr)) => ResultIsSafe(r, rr);
    case ParsedRecord(Exec(ar)) =>
      RunningIsSafe(r, ar.results);
      StoppedIsSafe(r, ar.results);
    case ParsedRecord(Notify(ar)) => NotifyIsSafe(r, ar);
    case _ =>
  }

  // What can happen to a connection's registers: a line arrives or a command is submitted.
  datatype Step = Arrived(frame: Framing.Frame) | Submitted(token: nat, info: PendingInfo)

  function Apply(r: Registers, step: Step): Registers {
    match step
    case Arrived(frame) => Route(r, ParsedOf(frame))
    case Submitted(token, info) => r.(pending := r.pending[token := info])
  }

  function Run(r: Registers, steps: seq<Step>): Registers
    decreases |steps|
  {
    if steps == [] then r else Run(Apply(r, steps[0]), steps[1..])
  }

  // Every state of every run is safe.
  lemma {:induction false} RunIsSafe(r: Registers, steps: seq<Step>)
    requires Safe(r)
    ensures Safe(Run(r, steps))
    decreases |steps|
  {
    if steps != [] {
      StepIsSafe(r, steps[0]);
      RunIsSafe(Apply(r, steps[0]), steps[1..]);
    }
  }

  lemma StepIsSafe(r: Registers, step: Step)
    requires Safe(r)
    ensures Safe(Apply(r, step))
  {
    match step
    case Arrived(frame) =>
      hide Safe, Route;
      LineIsSafe(r, ParsedOf(frame));
    case Submitted(_, _) =>
  }

  lemma InitialIsSafe()
    ensures Safe(INITIAL)
  {
  }

  // ---- Frames after an exit ----

  // An exit stop that names a thread and carries a frame tuple.
  predicate IsExitStopWithFrame(p: ParsedFrame) {
    && p.ParsedRecord? && p.record.Exec? && p.record.exec.class_ == "stopped"
    && IsExit(ReasonFromResults(p.record.exec.results))
    && GetStr(p.record.exec.results, "thread-id").Some?
    && ExtractFrame(p.record.exec.results).Some?
  }

  // An exit stop leaves no frame exactly when it does not itself supply one.
  lemma ExitClearsFrames(r: Registers, results: seq<Field>)
    requires IsExit(ReasonFromResults(results))
    ensures
      var q := Route(r, ParsedRecord(Record.Exec(AsyncRecord(None, "stopped", results))));
      && q.target.Exited?
      && (q.frames == map[] <==> !IsExitStopWithFrame(ParsedRecord(Record.Exec(AsyncRecord(None, "stopped", results)))))
  {
    hide GetStr, ReasonFromResults, ExtractFrame;
    var frame := ExtractFrame(results);
    var thread := GetStr(results, "thread-id");
    if frame.Some? && thread.Some? {
      var m: FrameMap := map[];
      assert thread.value in m[thread.value := frame.value];
    }
  }

  ghost predicate NoFrameAfterExit(r: Registers) {
    r.target.Exited? ==> r.frames == map[]
  }

  lemma LineKeepsExitClear(r: Registers, p: ParsedFrame)
    requires NoFrameAfterExit(r) && !IsExitStopWithFrame(p)
    ensures NoFrameAfterExit(Route(r, p))
  {
    hide GetStr, ReasonFromResults, ExtractFrame, RouteNotify, RouteDone, IsExecCommand;
    if p.ParsedRecord? && p.record.Notify? {
      NotifyKeepsFrames(r, p.record.notify);
    } else if p.ParsedRecord? && p.record.Result? {
      var rr := p.record.result;
      if rr.token.Some? && rr.token.value in r.pending {
        DoneTouches(r.(pending := r.pending - {rr.token.value}), r.pending[rr.token.value], rr.results);
      }
    }
  }

  lemma NotifyKeepsFrames(r: Registers, ar: AsyncRecord)
    ensures RouteNotify(r, ar).target == r.target && RouteNotify(r, ar).frames == r.frames
  {
    hide UpsertedFromResults, Threads.Created, Threads.Exited;
  }

  lemma ExitStopBreaksClear(r: Registers, p: ParsedFrame)
    requires IsExitStopWithFrame(p)
    ensures !NoFrameAfterExit(Route(r, p))
  {
    hide GetStr, ReasonFromResults, ExtractFrame, Threads.SetState;
    var results := p.record.exec.results;
    assert GetStr(results, "thread-id").value in RouteStopped(r, results).frames;
  }

  predicate StepClears(step: Step) {
    step.Arrived? ==> !IsExitStopWithFrame(ParsedOf(step.frame))
  }

  // Over every run: an exited target has no frame throughout exactly when no exit stop of the run
  // carries a frame tuple for a thread it names.
  lemma {:induction false} RunKeepsExitClear(r: Registers, steps: seq<Step>)
    requires NoFrameAfterExit(r)
    ensures (forall k | 0 <= k <= |steps| :: NoFrameAfterExit(Run(r, steps[..k])))
       <==> (forall k | 0 <= k < |steps| :: StepClears(steps[k]))
    decreases |steps|
  {
    hide NoFrameAfterExit, Apply, StepClears;
    assert steps[..0] == [];
    if steps != [] {
      var q, rest := Apply(r, steps[0]), steps[1..];
      StepKeepsExitClear(r, steps[0]);
      assert rest[..0] == [];
      forall k | 0 <= k <= |rest|
        ensures Run(r, steps[..k + 1]) == Run(q, rest[..k])
      {
        assert steps[..k + 1][0] == steps[0] && steps[..k + 1][1..] == rest[..k];
      }
      assert Run(r, steps[..1]) == q by {
        assert steps[..0 + 1][1..] == rest[..0];
      }
      if NoFrameAfterExit(q) {
        RunKeepsExitClear(q, rest);
        assert forall k | 0 <= k < |rest| :: rest[k] == steps[k + 1];
        assert forall k | 0 < k < |steps| :: steps[k] == rest[k - 1];
        assert forall k | 0 < k <= |steps| :: Run(r, steps[..k]) == Run(q, rest[..k - 1]) by {
          forall k | 0 < k <= |steps|
            ensures Run(r, steps[..k]) == Run(q, rest[..k - 1])
          {
            assert Run(r, steps[..(k - 1) + 1]) == Run(q, rest[..k - 1]);
          }
        }
      }
    }
  }

  lemma StepKeepsExitClear(r: Registers, step: Step)
    requires NoFrameAfterExit(r)
    ensures NoFrameAfterExit(Apply(r, step)) <==> StepClears(step)
  {
    hide Route, IsExitStopWithFrame, ParsedOf;
    if step.Arrived? {
      if IsExitStopWithFrame(ParsedOf(step.frame)) {
        ExitStopBreaksClear(r, ParsedOf(step.frame));
      } else {
        LineKeepsExitClear(r, ParsedOf(step.frame));
      }
    }
  }
}
