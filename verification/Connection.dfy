// The sans-IO connection: bytes in, events out, commands in, bytes out.
module Protocol {
  import opened Octets
  import opened Wrappers
  import opened Ast
  import opened ResultsView
  import opened Events
  import opened Registries
  import opened Classification
  import Decimal
  import Encoder
  import Framing
  import RecordParser
  import RecordSyntax
  import Threads
  import Tokens

  class Connection {
    const framer: Framing.Framer
    const tokens: Tokens.TokenAllocator
    const pendingCommands: PendingCommands
    const threads: Threads.ThreadRegistry
    const frames: FrameRegistry
    const breakpoints: BreakpointRegistry
    const varobjs: VarObjRegistry
    const features: Features

    var target: TargetState
    var events: seq<Event>
    var outbound: Bytes
    var outboundConsumed: nat

    ghost var emitted: seq<Event>  // every event ever queued
    ghost var polled: nat          // how many of them have been pulled
    ghost var sent: Bytes          // every byte ever appended for GDB
    ghost var taken: Bytes         // those acknowledged by the transport

    ghost function Regs(): Registers
      reads this, pendingCommands, threads, frames, breakpoints, varobjs, features
    {
      Registers(pendingCommands.byToken, target, threads.byId, frames.byThread, breakpoints.byId, varobjs.byName,
                features.known)
    }

    // The events ever queued are the images of the lines ever completed, in wire order; what has
    // been taken and what is outstanding make up what was submitted; the registries agree.
    ghost predicate Valid()
      reads this, framer, tokens, pendingCommands, threads, frames, breakpoints, varobjs, features
    {
      && framer.Valid() && tokens.Valid()
      && '\n' !in framer.Live()
      && emitted == EventsOf(Framing.Frames(framer.received))
      && polled <= |emitted| && events == emitted[polled..]
      && outboundConsumed <= |outbound| && taken + outbound[outboundConsumed..] == sent
      && Safe(Regs())
    }

    // Bytes appended for GDB and not yet acknowledged.
    function Outbound(): Bytes
      requires outboundConsumed <= |outbound|
      reads this
    {
      outbound[outboundConsumed..]
    }

    constructor ()
      ensures Valid() && Regs() == INITIAL && events == [] && Outbound() == []
      ensures fresh(framer) && fresh(tokens) && fresh(pendingCommands) && fresh(threads)
      ensures fresh(frames) && fresh(breakpoints) && fresh(varobjs) && fresh(features)
    {
      hide Framing.Frames, Framing.Rest, EventsOf, Safe;
      framer := new Framing.Framer();
      tokens := new Tokens.TokenAllocator();
      pendingCommands := new PendingCommands();
      threads := new Threads.ThreadRegistry();
      frames := new FrameRegistry();
      breakpoints := new BreakpointRegistry();
      varobjs := new VarObjRegistry();
      features := new Features();
      target := TargetState.Unknown;
      events, outbound, outboundConsumed := [], [], 0;
      emitted, polled, sent, taken := [], 0, [], [];
      new;
      NothingReceived();
      InitialIsSafe();
    }

    lemma NothingReceived()
      ensures EventsOf(Framing.Frames([])) == []
    {
    }

    // ---- Inbound ----

    // Feed bytes: frame them, parse every complete line, then classify in order.
    method ReceiveBytes(bytes: Bytes)
      requires Valid()
      modifies this`events, this`emitted, this`target
      modifies framer, pendingCommands, threads, frames, breakpoints, varobjs, features
      ensures Valid()
      ensures Inbound(framer.Live(), Regs(), events)
           == Receive(Inbound(old(framer.Live()), old(Regs()), old(events)), bytes)
      ensures |emitted| == old(|emitted|) + Framing.Newlines(bytes)
    {
      hide Framing.Frames, Framing.Rest, Route, EventOf, RouteAll, EventsOf, Safe, ParsedOf;
      ghost var start := Inbound(framer.Live(), Regs(), events);
      ghost var before := framer.received;
      framer.Push(bytes);
      ghost var all := Framing.Frames(framer.Live());
      var parsed := DrainFramer();
      ClassifyAll(parsed, all);
      emitted := emitted + EventsOf(all);
      Framing.CutNothing(start.live);
      LinesArrived(before, bytes, start);
      RouteAllIsSafe(start.registers, all);
      assert events == emitted[polled..];
      EventConservation(start, bytes);
    }

    // Pop and parse every complete line.
    method DrainFramer() returns (parsed: seq<ParsedFrame>)
      requires framer.Valid()
      modifies framer
      ensures framer.Valid() && framer.received == old(framer.received)
      ensures '\n' !in framer.Live() && framer.Live() == Framing.Rest(old(framer.Live()))
      ensures
        var all := Framing.Frames(old(framer.Live()));
        |parsed| == |all| && forall k | 0 <= k < |all| :: parsed[k] == ParsedOf(all[k])
    {
      hide Framing.Frames, Framing.Rest, ParsedOf;
      ghost var stream := framer.Live();
      ghost var all := Framing.Frames(stream);
      ghost var done: seq<Framing.Frame> := [];
      parsed := [];
      assert done + Framing.Frames(framer.Live()) == all;
      while true
        invariant framer.Valid() && framer.received == old(framer.received)
        invariant done + Framing.Frames(framer.Live()) == all
        invariant Framing.Rest(framer.Live()) == Framing.Rest(stream)
        invariant |parsed| == |done|
        invariant forall k | 0 <= k < |done| :: parsed[k] == ParsedOf(done[k])
        decreases |framer.Live()|
      {
        ghost var live := framer.Live();
        var frame := framer.Pop();
        if frame.None? {
          Framing.CutNothing(live);
          NoFrames(live);
          break;
        }
        PopStep(live, frame.value);
        assert (done + [frame.value]) + Framing.Frames(framer.Live()) == all;
        var p := ParseFrame(frame.value);
        parsed := parsed + [p];
        done := done + [frame.value];
      }
      assert done + [] == done;
    }

    lemma NoFrames(live: Bytes)
      requires Framing.Lines(live) == []
      ensures Framing.Frames(live) == []
    {
    }

    lemma PopStep(live: Bytes, frame: Framing.Frame)
      requires Framing.LineLength(live) < |live|
      requires frame == Framing.FrameOf(live[..Framing.LineLength(live)])
      ensures
        var tail := live[Framing.LineLength(live) + 1..];
        Framing.Frames(live) == [frame] + Framing.Frames(tail) && Framing.Rest(live) == Framing.Rest(tail)
    {
      hide Framing.Frames, Framing.Rest;
      Framing.PopKeepsSplit(live);
    }

    // The frames of the carried bytes and the new ones are the frames of everything received.
    lemma LinesArrived(before: Bytes, bytes: Bytes, start: Inbound)
      requires Framing.Rest(before) == start.live && '\n' !in start.live
      ensures
        EventsOf(Framing.Frames(before + bytes))
        == EventsOf(Framing.Frames(before)) + EventsOf(Framing.Frames(start.live + bytes))
    {
      hide Framing.Frames, Framing.Rest, EventsOf;
      Framing.SplitConcat(before, bytes);
      EventsOfConcat(Framing.Frames(before), Framing.Frames(start.live + bytes));
    }

    lemma {:induction false} RouteAllIsSafe(r: Registers, frames: seq<Framing.Frame>)
      requires Safe(r)
      ensures Safe(RouteAll(r, frames))
      decreases |frames|
    {
      if frames != [] {
        hide Safe, Route;
        LineIsSafe(r, ParsedOf(frames[0]));
        RouteAllIsSafe(Route(r, ParsedOf(frames[0])), frames[1..]);
      }
    }

    method ParseFrame(frame: Framing.Frame) returns (p: ParsedFrame)
      ensures p == ParsedOf(frame)
    {
      hide RecordSyntax.ParseRecord;
      match frame
      case GroupTerminator => return Terminator;
      case Line(line) =>
        var r := RecordParser.ParseRecord(line);
        match r
        case Success(record) => return ParsedRecord(record);
        case Failure(error) => return ParseFailed(error, line);
    }

    // Classify parsed lines in order; `done` are the frames they came from.
    method ClassifyAll(parsed: seq<ParsedFrame>, ghost done: seq<Framing.Frame>)
      requires |parsed| == |done| && forall k | 0 <= k < |done| :: parsed[k] == ParsedOf(done[k])
      modifies this`events, this`target, pendingCommands, threads, frames, breakpoints, varobjs, features
      ensures Regs() == RouteAll(old(Regs()), done)
      ensures events == old(events) + EventsOf(done)
    {
      hide Route, EventOf, ParsedOf;
      for k := 0 to |parsed|
        invariant RouteAll(Regs(), done[k..]) == RouteAll(old(Regs()), done)
        invariant events == old(events) + EventsOf(done)[..k]
      {
        assert done[k..][0] == done[k] && done[k..][1..] == done[k + 1..];
        ghost var queued := EventsOf(done);
        assert queued[..k + 1] == queued[..k] + [EventOf(parsed[k])];
        Classify(parsed[k]);
      }
      assert EventsOf(done)[..|done|] == EventsOf(done);
    }

    method Classify(p: ParsedFrame)
      modifies this`events, this`target, pendingCommands, threads, frames, breakpoints, varobjs, features
      ensures Regs() == Route(old(Regs()), p)
      ensures events == old(events) + [EventOf(p)]
    {
      hide RouteResult, RouteRunning, RouteStopped, RouteNotify, OutcomeOf, StopOf, GetStr;
      match p
      case Terminator => events := events + [GroupClosed];
      case ParseFailed(error, rawLine) => events := events + [ParseError(error, rawLine)];
      case ParsedRecord(record) =>
        match record {
          case Result(rr) => ClassifyResult(rr);
          case Exec(ar) => ClassifyExec(ar);
          case Status(ar) => events := events + [StatusOf(ar.class_, ar.results)];
          case Notify(ar) => ClassifyNotify(ar);
          case Console(text) => events := events + [ConsoleText(text)];
          case Target(text) => events := events + [TargetOutput(text)];
          case Log(text) => events := events + [LogText(text)];
        }
    }

    method ClassifyResult(rr: ResultRecord)
      modifies this`events, this`target, pendingCommands, frames, breakpoints, varobjs, features
      ensures Regs() == RouteResult(old(Regs()), rr)
      ensures events == old(events) + [EventOfRecord(Record.Result(rr))]
    {
      hide RouteDone, GetStr, IsExecCommand;
      if rr.token.None? {
        events := events + [UnknownRecord(Record.Result(rr))];
        return;
      }
      var info := pendingCommands.Remove(rr.token.value);
      if info.Some? {
        if rr.class_ == Ast.Done || rr.class_ == Ast.Connected {
          RoutePayload(info.value, rr.results);
        } else if rr.class_ == Ast.Error && IsExecCommand(info.value) {
          target := TargetState.Unknown;
          frames.Clear();
        }
      } else {
        assert old(pendingCommands.byToken) - {rr.token.value} == old(pendingCommands.byToken);
      }
      var outcome := CommandOutcome.Exit;
      match rr.class_ {
        case Done => outcome := CommandOutcome.Done(rr.results);
        case Running => outcome := CommandOutcome.Running;
        case Connected => outcome := CommandOutcome.Connected(rr.results);
        case Error =>
          var msg := GetStr(rr.results, "msg");
          outcome := CommandOutcome.Error(if msg.Some? then msg.value else [], GetStr(rr.results, "code"));
        case Exit =>
      }
      events := events + [CommandCompleted(rr.token.value, outcome)];
    }

    // Dispatch a payload to the registry of the operation that asked for it.
    method RoutePayload(info: PendingInfo, results: seq<Field>)
      modifies breakpoints, varobjs, features
      ensures Regs() == RouteDone(old(Regs()), info, results)
    {
      hide UpsertedFromResults, VarCreated, VarUpdated, ExtractStrings;
      match info.operation
      case BreakInsert => breakpoints.OnBreakpointChanged(results);
      case BreakInfo => breakpoints.OnBreakpointChanged(results);
      case VarCreate(expression) => varobjs.OnVarCreate(results, expression);
      case VarUpdate => varobjs.OnVarUpdate(results);
      case VarDelete(name) => varobjs.OnVarDelete(name);
      case ListFeatures => features.OnListFeatures(results);
      case ListTargetFeatures => features.OnListTargetFeatures(results);
      case TargetSelect => features.InvalidateTargetFeatures();
      case ExecRun => features.InvalidateTargetFeatures();
      case OtherOperation =>
      case Raw =>
    }

    method ClassifyExec(ar: AsyncRecord)
      modifies this`events, this`target, threads, frames
      ensures Regs() == Route(old(Regs()), ParsedRecord(Record.Exec(ar)))
      ensures events == old(events) + [EventOfRecord(Record.Exec(ar))]
    {
      hide RouteRunning, RouteStopped, StopOf, GetStr;
      if ar.class_ == "running" {
        OnRunning(ar.results);
      } else if ar.class_ == "stopped" {
        OnStopped(ar.results);
      } else {
        events := events + [UnknownRecord(Record.Exec(ar))];
      }
    }

    method OnRunning(results: seq<Field>)
      modifies this`events, this`target, threads, frames
      ensures Regs() == RouteRunning(old(Regs()), results)
      ensures events == old(events) + [RunningAt(GetStr(results, "thread-id"))]
    {
      hide GetStr, Threads.SetState;
      var threadId := GetStr(results, "thread-id");
      target := TargetState.Running(threadId);
      threads.OnRunning(threadId);
      if threadId.Some? {
        if threadId.value == "all" {
          frames.Clear();
        } else {
          frames.Invalidate(threadId.value);
        }
      } else {
        frames.Clear();
      }
      events := events + [RunningAt(threadId)];
    }

    method OnStopped(results: seq<Field>)
      modifies this`events, this`target, threads, frames
      ensures Regs() == RouteStopped(old(Regs()), results)
      ensures events == old(events) + [StoppedAt(StopOf(results))]
    {
      hide GetStr, ReasonFromResults, ExtractFrame, Threads.SetState, FramesAfterStop;
      var threadId := GetStr(results, "thread-id");
      var reason := ReasonFromResults(results);
      var frame := ExtractFrame(results);
      Halt(threadId, reason);
      threads.OnStopped(threadId);
      if threadId.Some? {
        frames.OnStoppedFrame(threadId.value, results);
      }
      events := events + [StoppedAt(StoppedEvent(reason, threadId, frame, results))];
    }

    // Exit reasons end the inferior, and with it every call stack.
    method Halt(thread: Option<Bytes>, reason: Option<StoppedReason>)
      modifies this`target, frames
      ensures target == TargetAfterStop(thread, reason)
      ensures frames.byThread == if IsExit(reason) then map[] else old(frames.byThread)
    {
      match reason
      case Some(ExitedNormally) =>
        target := TargetState.Exited(Some(0));
        frames.Clear();
      case Some(ExitedWith(exitCode)) =>
        target := TargetState.Exited(exitCode);
        frames.Clear();
      case Some(ExitedSignalled(_)) =>
        target := TargetState.Exited(None);
        frames.Clear();
      case _ =>
        target := TargetState.Stopped(thread, reason);
    }

    method ClassifyNotify(ar: AsyncRecord)
      modifies this`events, threads, breakpoints
      ensures Regs() == RouteNotify(old(Regs()), ar)
      ensures events == old(events) + [Notified(ar.class_, ar.results)]
    {
      hide Threads.Created, Threads.Exited, UpsertedFromResults, Registries.Deleted;
      if ar.class_ == "thread-created" {
        threads.OnThreadCreated(ar.results);
      } else if ar.class_ == "thread-exited" {
        threads.OnThreadExited(ar.results);
      } else if ar.class_ == "breakpoint-created" || ar.class_ == "breakpoint-modified" {
        breakpoints.OnBreakpointChanged(ar.results);
      } else if ar.class_ == "breakpoint-deleted" {
        breakpoints.OnBreakpointDeleted(ar.results);
      }
      events := events + [Notified(ar.class_, ar.results)];
    }

    method PollEvent() returns (event: Option<Event>)
      requires Valid()
      modifies this`events, this`polled
      ensures Valid()
      ensures event == if old(events) == [] then None else Some(old(events)[0])
      ensures events == if old(events) == [] then [] else old(events)[1..]
    {
      if events == [] {
        return None;
      }
      event := Some(events[0]);
      events := events[1..];
      polled := polled + 1;
    }

    // ---- Outbound ----

    // Queue a command under a fresh token and remember what its reply is for.
    method Submit(command: Encoder.MiCommand) returns (handle: nat)
      requires Valid()
      modifies this`outbound, this`sent, tokens, pendingCommands
      ensures Valid()
      ensures handle == old(tokens.next) == Tokens.NthToken(1, old(tokens.issued))
      ensures tokens.issued == old(tokens.issued) + 1
      ensures Outbound() == old(Outbound()) + Encoder.CommandText(Some(handle), command)
      ensures sent == old(sent) + Encoder.CommandText(Some(handle), command)
      ensures
        var info := PendingInfo(OperationFromName(command.operation, command.parameters), command.operation);
        Regs() == old(Regs()).(pending := old(Regs()).pending[handle := info])
    {
      hide Encoder.CommandText, EventsOf, Framing.Frames, OperationFromName, Safe;
      PendingIsFree(Regs());
      handle := tokens.Allocate();
      pendingCommands.Insert(
        handle,
        PendingInfo(OperationFromName(command.operation, command.parameters), command.operation));
      ghost var text := Encoder.CommandText(Some(handle), command);
      AppendOutbound(outbound, outboundConsumed, text, taken, sent);
      outbound := Encoder.EncodeCommand(Some(handle), command, outbound);
      sent := sent + text;
    }

    // Queue a line verbatim behind a fresh token; its reply is not interpreted.
    method SubmitRaw(rawLine: Bytes) returns (handle: nat)
      requires Valid()
      modifies this`outbound, this`sent, tokens, pendingCommands
      ensures Valid()
      ensures handle == old(tokens.next) == Tokens.NthToken(1, old(tokens.issued))
      ensures tokens.issued == old(tokens.issued) + 1
      ensures Outbound() == old(Outbound()) + (Decimal.Text(handle) + rawLine + ['\n'])
      ensures sent == old(sent) + (Decimal.Text(handle) + rawLine + ['\n'])
      ensures Regs() == old(Regs()).(pending := old(Regs()).pending[handle := PendingInfo(Raw, "_raw")])
    {
      hide Decimal.Text, EventsOf, Framing.Frames, Safe;
      PendingIsFree(Regs());
      handle := tokens.Allocate();
      pendingCommands.Insert(handle, PendingInfo(Raw, "_raw"));
      var text := Decimal.Text(handle) + rawLine + ['\n'];
      AppendOutbound(outbound, outboundConsumed, text, taken, sent);
      outbound := outbound + text;
      sent := sent + text;
    }

    lemma PendingIsFree(r: Registers)
      requires Safe(r)
      ensures forall pending :: Safe(r.(pending := pending))
    {
    }

    lemma AppendOutbound(out: Bytes, consumed: nat, text: Bytes, taken: Bytes, sent: Bytes)
      requires consumed <= |out| && taken + out[consumed..] == sent
      ensures (out + text)[consumed..] == out[consumed..] + text
      ensures taken + (out + text)[consumed..] == sent + text
    {
      assert taken + (out[consumed..] + text) == (taken + out[consumed..]) + text;
    }

    // Acknowledge n outstanding bytes; asking for more than there are changes nothing.
    method ConsumeOutbound(n: nat) returns (ok: bool)
      requires Valid()
      modifies this`outbound, this`outboundConsumed, this`taken
      ensures Valid()
      ensures ok <==> n <= |old(Outbound())|
      ensures !ok ==> outbound == old(outbound) && outboundConsumed == old(outboundConsumed) && taken == old(taken)
      ensures ok ==> Outbound() == old(Outbound())[n..] && taken == old(taken) + old(Outbound())[..n]
      ensures ok ==> outboundConsumed == 0 || outboundConsumed < |Outbound()|
    {
      hide EventsOf, Framing.Frames, Safe;
      if outboundConsumed + n > |outbound| {
        return false;
      }
      ghost var pending := Outbound();
      taken := taken + pending[..n];
      outboundConsumed := outboundConsumed + n;
      assert Outbound() == pending[n..];
      assert pending == pending[..n] + pending[n..];
      assert old(taken) + (pending[..n] + pending[n..]) == taken + pending[n..];
      if outboundConsumed != 0 && outboundConsumed >= |outbound| / 2 {
        outbound := outbound[outboundConsumed..];
        outboundConsumed := 0;
      }
      return true;
    }

    method Shutdown()
      requires Valid()
      modifies this`outbound, this`sent, tokens, pendingCommands
      ensures Valid()
      ensures Outbound()
           == old(Outbound()) + Encoder.CommandText(Some(old(tokens.next)), Encoder.MiCommand("gdb-exit", [], []))
    {
      hide Encoder.CommandText;
      var _ := Submit(Encoder.MiCommand("gdb-exit", [], []));
    }
  }

  // Replaying a command as a raw line appends, byte for byte, what submitting it would append.
  method Replay(connection: Connection, command: Encoder.MiCommand) returns (handle: nat)
    requires connection.Valid()
    modifies connection`outbound, connection`sent, connection.tokens, connection.pendingCommands
    ensures connection.Valid()
    ensures connection.Outbound()
         == old(connection.Outbound()) + Encoder.CommandText(Some(handle), command)
  {
    hide Encoder.CommandText, Encoder.ReplayText;
    handle := connection.SubmitRaw(Encoder.ReplayText(command));
    Encoder.ReplayIsVerbatim(handle, command);
  }

  // Take everything outstanding.
  method DrainOutbound(connection: Connection) returns (bytes: Bytes)
    requires connection.Valid()
    modifies connection`outbound, connection`outboundConsumed, connection`taken
    ensures connection.Valid() && connection.Outbound() == []
    ensures bytes == old(connection.Outbound())
  {
    bytes := connection.Outbound();
    var ok := connection.ConsumeOutbound(|bytes|);
    assert bytes[|bytes|..] == [];
  }

  // What a submit does under the connection's lock: the bytes it hands to the writer are exactly
  // the one line of its own command, and none are left behind.
  method SubmitAndDrain(connection: Connection, command: Encoder.MiCommand) returns (handle: nat, bytes: Bytes)
    requires connection.Valid() && connection.Outbound() == []
    modifies connection`outbound, connection`outboundConsumed, connection`taken, connection`sent
    modifies connection.tokens, connection.pendingCommands
    ensures connection.Valid() && connection.Outbound() == []
    ensures handle == old(connection.tokens.next)
    ensures bytes == Encoder.CommandText(Some(handle), command)
    ensures connection.Regs().pending.Keys == old(connection.Regs()).pending.Keys + {handle}
  {
    hide Encoder.CommandText, EventsOf, Framing.Frames, Safe;
    handle := connection.Submit(command);
    bytes := DrainOutbound(connection);
  }
}
