// The protocol's vocabulary: target state, stop reasons, frames, outcomes and events.
module Events {
  import opened Octets
  import opened Wrappers
  import opened Ast
  import opened ResultsView

  datatype StoppedReason =
    | BreakpointHit(bkptno: Option<Bytes>)
    | WatchpointTrigger
    | FunctionFinished
    | LocationReached
    | EndSteppingRange
    | ExitedNormally
    | ExitedWith(exitCode: Option<int>)
    | ExitedSignalled(signalName: Option<Bytes>)
    | SignalReceived(signal: Option<Bytes>)
    | Fork
    | Vfork
    | Exec
    | SyscallEntry(entered: Option<Bytes>)
    | SyscallReturn(returned: Option<Bytes>)
    | Other(reason: Bytes)

  function ReasonFromResults(results: seq<Field>): Option<StoppedReason> {
    match GetStr(results, "reason")
    case None => None
    case Some(name) =>
      if name == "breakpoint-hit" then Some(BreakpointHit(GetStr(results, "bkptno")))
      else if name == "watchpoint-trigger" then Some(WatchpointTrigger)
      else if name == "function-finished" then Some(FunctionFinished)
      else if name == "location-reached" then Some(LocationReached)
      else if name == "end-stepping-range" then Some(EndSteppingRange)
      else if name == "exited-normally" then Some(ExitedNormally)
      else if name == "exited" then Some(ExitedWith(GetI32(results, "exit-code")))
      else if name == "exited-signalled" then Some(ExitedSignalled(GetStr(results, "signal-name")))
      else if name == "signal-received" then Some(SignalReceived(GetStr(results, "signal-name")))
      else if name == "fork" then Some(Fork)
      else if name == "vfork" then Some(Vfork)
      else if name == "exec" then Some(StoppedReason.Exec)
      else if name == "syscall-entry" then Some(SyscallEntry(GetStr(results, "syscall-name")))
      else if name == "syscall-return" then Some(SyscallReturn(GetStr(results, "syscall-name")))
      else Some(Other(name))
  }

  // Reasons that say the inferior is gone.
  predicate IsExit(reason: Option<StoppedReason>) {
    reason.Some? && (reason.value.ExitedNormally? || reason.value.ExitedWith? || reason.value.ExitedSignalled?)
  }

  datatype TargetState =
    | Unknown
    | Running(thread: Option<Bytes>)
    | Stopped(at: Option<Bytes>, reason: Option<StoppedReason>)
    | Exited(exitCode: Option<int>)

  // The state a stop puts the target in.
  function TargetAfterStop(thread: Option<Bytes>, reason: Option<StoppedReason>): TargetState {
    match reason
    case Some(ExitedNormally) => TargetState.Exited(Some(0))
    case Some(ExitedWith(code)) => TargetState.Exited(code)
    case Some(ExitedSignalled(_)) => TargetState.Exited(None)
    case _ => TargetState.Stopped(thread, reason)
  }

  datatype Frame = Frame(
    level: Option<nat>,
    func: Option<Bytes>,
    file: Option<Bytes>,
    fullname: Option<Bytes>,
    line: Option<nat>,
    addr: Option<Bytes>)

  function FrameFromResults(results: seq<Field>): Frame {
    Frame(
      GetU32(results, "level"),
      GetStr(results, "func"),
      GetStr(results, "file"),
      GetStr(results, "fullname"),
      GetU32(results, "line"),
      GetStr(results, "addr"))
  }

  // The frame a stop record carries, if it carries one as a tuple.
  function ExtractFrame(results: seq<Field>): Option<Frame> {
    match GetTuple(results, "frame")
    case Some(fields) => Some(FrameFromResults(fields))
    case None => None
  }

  datatype CommandOutcome =
    | Done(done: seq<Field>)
    | Running
    | Connected(connected: seq<Field>)
    | Error(msg: Bytes, code: Option<Bytes>)
    | Exit

  datatype Event =
    | CommandCompleted(handle: nat, outcome: CommandOutcome)
    | StoppedAt(stop: StoppedEvent)
    | RunningAt(thread: Option<Bytes>)
    | Notified(class_: Bytes, results: seq<Field>)
    | StatusOf(status: Bytes, details: seq<Field>)
    | ConsoleText(console: Bytes)
    | TargetOutput(output: Bytes)
    | LogText(log: Bytes)
    | GroupClosed
    | UnknownRecord(record: Record)
    | ParseError(error: CodecError, rawLine: Bytes)

  datatype StoppedEvent = StoppedEvent(
    reason: Option<StoppedReason>,
    thread: Option<Bytes>,
    frame: Option<Frame>,
    raw: seq<Field>)
}
