// What the registries hold after a run, in terms of the lines and submissions of the run.
//
// Each table entry is what the last relevant step put there, provided nothing
// since then removed it.
module RunHistory {
  import opened Octets
  import opened Wrappers
  import opened Ast
  import opened ResultsView
  import opened Events
  import opened Registries
  import opened Classification
  import opened LastWrite
  import Threads

  lemma {:induction false} RunConcat(r: Registers, a: seq<Step>, b: seq<Step>)
    ensures Run(r, a + b) == Run(Run(r, a), b)
    decreases |a|
  {
    hide Classification.Apply;
    if a == [] {
      assert a + b == b;
    } else {
      assert (a + b)[0] == a[0] && (a + b)[1..] == a[1..] + b;
      RunConcat(Classification.Apply(r, a[0]), a[1..], b);
    }
  }

  // The registers before step k.
  ghost function Before(r: Registers, steps: seq<Step>, k: nat): Registers
    requires k <= |steps|
  {
    Run(r, steps[..k])
  }

  lemma NextIs(r: Registers, steps: seq<Step>, k: nat)
    requires k < |steps|
    ensures Before(r, steps, k + 1) == Classification.Apply(Before(r, steps, k), steps[k])
  {
    hide Classification.Apply;
    assert steps[..k + 1] == steps[..k] + [steps[k]];
    RunConcat(r, steps[..k], [steps[k]]);
    assert [steps[k]][1..] == [];
  }

  lemma Ends(r: Registers, steps: seq<Step>)
    ensures Before(r, steps, 0) == r && Before(r, steps, |steps|) == Run(r, steps)
  {
    assert steps[..0] == [] && steps[..|steps|] == steps;
  }

  // The command a line answers with a payload, if it does.
  function Answered(r: Registers, p: ParsedFrame): Option<PendingInfo> {
    if p.ParsedRecord? && p.record.Result? && (p.record.result.class_.Done? || p.record.result.class_.Connected?)
       && p.record.result.token.Some? && p.record.result.token.value in r.pending
    then Some(r.pending[p.record.result.token.value]) else None
  }

  // ---- Pending commands ----

  // A submission puts its token; a reply to it, of any class, removes it.
  function PendingEffect(step: Step, token: nat): Effect<PendingInfo> {
    match step
    case Submitted(t, info) => if t == token then Put(info) else Kept
    case Arrived(frame) => if ReplyToken(ParsedOf(frame)) == Some(token) then Removed else Kept
  }

  ghost function PendingEffects(steps: seq<Step>, token: nat): seq<Effect<PendingInfo>> {
    seq(|steps|, k requires 0 <= k < |steps| => PendingEffect(steps[k], token))
  }

  lemma PendingStep(r: Registers, step: Step, token: nat)
    ensures Entry(Classification.Apply(r, step).pending, token)
         == Affected(Entry(r.pending, token), PendingEffect(step, token))
  {
    hide Route, ParsedOf;
    if step.Arrived? {
      PendingAfter(r, ParsedOf(step.frame));
    }
  }

  // A token is pending, with the command last submitted under it, exactly when it has had no reply since.
  lemma PendingIsUnanswered(r: Registers, steps: seq<Step>, token: nat, info: PendingInfo)
    ensures Entry(Run(r, steps).pending, token) == Some(info)
       <==> Stands(Entry(r.pending, token), PendingEffects(steps, token), info)
  {
    hide Classification.Apply, Before, Stands, PendingEffect, Run;
    var effects := PendingEffects(steps, token);
    var entries := seq(|steps| + 1, k requires 0 <= k <= |steps| => Entry(Before(r, steps, k).pending, token));
    forall k | 0 <= k < |steps|
      ensures entries[k + 1] == Affected(entries[k], effects[k])
    {
      NextIs(r, steps, k);
      PendingStep(Before(r, steps, k), steps[k], token);
    }
    Ends(r, steps);
    LastWriteWins(entries, effects, info);
  }

  // ---- Breakpoints ----

  // The breakpoint tuple a line delivers, as a notification or as the answer to a command.
  function DeliveredTuple(r: Registers, p: ParsedFrame): Option<seq<Field>> {
    if p.ParsedRecord? && p.record.Notify? then
      if p.record.notify.class_ == "breakpoint-created" || p.record.notify.class_ == "breakpoint-modified"
      then GetTuple(p.record.notify.results, "bkpt") else None
    else
      match Answered(r, p)
      case Some(info) =>
        if info.operation.BreakInsert? || info.operation.BreakInfo?
        then GetTuple(p.record.result.results, "bkpt") else None
      case None => None
  }

  predicate DeletesBreakpoint(p: ParsedFrame, id: Bytes) {
    && p.ParsedRecord? && p.record.Notify? && p.record.notify.class_ == "breakpoint-deleted"
    && GetStr(p.record.notify.results, "id") == Some(id)
  }

  function BreakpointLine(r: Registers, p: ParsedFrame, id: Bytes): Effect<Breakpoint> {
    if DeletesBreakpoint(p, id) then Removed
    else
      match DeliveredTuple(r, p)
      case Some(tuple) => if GetStr(tuple, "number") == Some(id) then Put(BreakpointFromTuple(id, tuple)) else Kept
      case None => Kept
  }

  function BreakpointEffect(r: Registers, step: Step, id: Bytes): Effect<Breakpoint> {
    if step.Arrived? then BreakpointLine(r, ParsedOf(step.frame), id) else Kept
  }

  ghost function BreakpointEffects(r: Registers, steps: seq<Step>, id: Bytes): seq<Effect<Breakpoint>> {
    seq(|steps|, k requires 0 <= k < |steps| => BreakpointEffect(Before(r, steps, k), steps[k], id))
  }

  lemma UpsertStep(m: BreakpointMap, results: seq<Field>, id: Bytes)
    ensures Entry(UpsertedFromResults(m, results), id) ==
            match GetTuple(results, "bkpt")
            case Some(tuple) =>
              if GetStr(tuple, "number") == Some(id) then Some(BreakpointFromTuple(id, tuple)) else Entry(m, id)
            case None => Entry(m, id)
  {
    hide GetTuple, GetStr, BreakpointFromTuple;
  }

  lemma DeleteStep(m: BreakpointMap, results: seq<Field>, id: Bytes)
    ensures Entry(Registries.Deleted(m, results), id) == if GetStr(results, "id") == Some(id) then None else Entry(m, id)
  {
    hide GetStr;
  }

  lemma AnsweredBreakpoints(r: Registers, rr: ResultRecord)
    ensures
      var answered := Answered(r, ParsedRecord(Record.Result(rr)));
      RouteResult(r, rr).breakpoints ==
      if answered.Some? && (answered.value.operation.BreakInsert? || answered.value.operation.BreakInfo?)
      then UpsertedFromResults(r.breakpoints, rr.results) else r.breakpoints
  {
    hide UpsertedFromResults, VarCreated, VarUpdated, ExtractStrings, IsExecCommand;
  }

  lemma BreakpointStep(r: Registers, p: ParsedFrame, id: Bytes)
    ensures Entry(Route(r, p).breakpoints, id) == Affected(Entry(r.breakpoints, id), BreakpointLine(r, p, id))
  {
    hide UpsertedFromResults, Registries.Deleted, GetStr, GetTuple, BreakpointFromTuple, RouteResult;
    hide RouteRunning, RouteStopped, Threads.Created, Threads.Exited;
    match p
    case ParsedRecord(Result(rr)) =>
      AnsweredBreakpoints(r, rr);
      UpsertStep(r.breakpoints, rr.results, id);
    case ParsedRecord(Exec(ar)) => ExecKeepsBreakpoints(r, ar.results);
    case ParsedRecord(Notify(ar)) =>
      UpsertStep(r.breakpoints, ar.results, id);
      DeleteStep(r.breakpoints, ar.results, id);
    case _ =>
  }

  lemma ExecKeepsBreakpoints(r: Registers, results: seq<Field>)
    ensures RouteRunning(r, results).breakpoints == r.breakpoints
    ensures RouteStopped(r, results).breakpoints == r.breakpoints
  {
  }

  // A breakpoint is the last tuple delivered under its number, exactly unless it was deleted since.
  lemma BreakpointIsLastDelivered(r: Registers, steps: seq<Step>, id: Bytes, b: Breakpoint)
    ensures Entry(Run(r, steps).breakpoints, id) == Some(b)
       <==> Stands(Entry(r.breakpoints, id), BreakpointEffects(r, steps, id), b)
  {
    hide Route, Before, Stands, BreakpointLine, ParsedOf, Run;
    var effects := BreakpointEffects(r, steps, id);
    var entries := seq(|steps| + 1, k requires 0 <= k <= |steps| => Entry(Before(r, steps, k).breakpoints, id));
    forall k | 0 <= k < |steps|
      ensures entries[k + 1] == Affected(entries[k], effects[k])
    {
      NextIs(r, steps, k);
      if steps[k].Arrived? {
        BreakpointStep(Before(r, steps, k), ParsedOf(steps[k].frame), id);
      }
    }
    Ends(r, steps);
    LastWriteWins(entries, effects, b);
  }

  // ---- Frames ----

  predicate IsExec(p: ParsedFrame, class_: Bytes) {
    p.ParsedRecord? && p.record.Exec? && p.record.exec.class_ == class_
  }

  // The target may be in any state after a failed execution command.
  predicate FailsExecution(r: Registers, p: ParsedFrame) {
    && p.ParsedRecord? && p.record.Result? && p.record.result.class_.Error?
    && p.record.result.token.Some? && p.record.result.token.value in r.pending
    && IsExecCommand(r.pending[p.record.result.token.value])
  }

  // A stop of the thread with a frame puts it; a running record about it, an exit of the target or
  // a failed execution command removes it.
  function FrameLine(r: Registers, p: ParsedFrame, thread: Bytes): Effect<Frame> {
    if FailsExecution(r, p) then Removed
    else if IsExec(p, "running") then
      if Threads.Covers(GetStr(p.record.exec.results, "thread-id"), thread) then Removed else Kept
    else if IsExec(p, "stopped") then
      var results := p.record.exec.results;
      if GetStr(results, "thread-id") == Some(thread) && ExtractFrame(results).Some?
      then Put(ExtractFrame(results).value)
      else if IsExit(ReasonFromResults(results)) then Removed
      else Kept
    else Kept
  }

  function FrameEffect(r: Registers, step: Step, thread: Bytes): Effect<Frame> {
    if step.Arrived? then FrameLine(r, ParsedOf(step.frame), thread) else Kept
  }

  ghost function FrameEffects(r: Registers, steps: seq<Step>, thread: Bytes): seq<Effect<Frame>> {
    seq(|steps|, k requires 0 <= k < |steps| => FrameEffect(Before(r, steps, k), steps[k], thread))
  }

  lemma ReplyFrames(r: Registers, rr: ResultRecord)
    ensures RouteResult(r, rr).frames == if FailsExecution(r, ParsedRecord(Record.Result(rr))) then map[] else r.frames
  {
    hide RouteDone, IsExecCommand;
    if rr.token.Some? && rr.token.value in r.pending {
      DoneTouches(r.(pending := r.pending - {rr.token.value}), r.pending[rr.token.value], rr.results);
    }
  }

  lemma RunningFrames(r: Registers, results: seq<Field>, thread: Bytes)
    ensures Entry(RouteRunning(r, results).frames, thread)
         == if Threads.Covers(GetStr(results, "thread-id"), thread) then None else Entry(r.frames, thread)
  {
    hide GetStr, Threads.SetState;
  }

  lemma StoppedFrames(r: Registers, results: seq<Field>, thread: Bytes)
    ensures
      Entry(RouteStopped(r, results).frames, thread)
      == if GetStr(results, "thread-id") == Some(thread) && ExtractFrame(results).Some? then ExtractFrame(results)
         else if IsExit(ReasonFromResults(results)) then None
         else Entry(r.frames, thread)
  {
    hide GetStr, ExtractFrame, ReasonFromResults, Threads.SetState;
  }

  lemma FrameStep(r: Registers, p: ParsedFrame, thread: Bytes)
    ensures Entry(Route(r, p).frames, thread) == Affected(Entry(r.frames, thread), FrameLine(r, p, thread))
  {
    hide GetStr, ExtractFrame, ReasonFromResults, IsExecCommand, Threads.Covers, IsExit;
    hide RouteResult, RouteRunning, RouteStopped, RouteNotify;
    match p
    case ParsedRecord(Result(rr)) => ReplyFrames(r, rr);
    case ParsedRecord(Exec(ar)) =>
      RunningFrames(r, ar.results, thread);
      StoppedFrames(r, ar.results, thread);
    case ParsedRecord(Notify(ar)) => NotifyKeepsFrames(r, ar);
    case _ =>
  }

  // The frame of a thread is that of its last stop with a frame, exactly unless it was invalidated since.
  lemma FrameIsLastStop(r: Registers, steps: seq<Step>, thread: Bytes, frame: Frame)
    ensures Entry(Run(r, steps).frames, thread) == Some(frame)
       <==> Stands(Entry(r.frames, thread), FrameEffects(r, steps, thread), frame)
  {
    hide Route, Before, Stands, FrameLine, ParsedOf, Run;
    var effects := FrameEffects(r, steps, thread);
    var entries := seq(|steps| + 1, k requires 0 <= k <= |steps| => Entry(Before(r, steps, k).frames, thread));
    forall k | 0 <= k < |steps|
      ensures entries[k + 1] == Affected(entries[k], effects[k])
    {
      NextIs(r, steps, k);
      if steps[k].Arrived? {
        FrameStep(Before(r, steps, k), ParsedOf(steps[k].frame), thread);
      }
    }
    Ends(r, steps);
    LastWriteWins(entries, effects, frame);
  }

  // ---- Target features ----

  // An answered listing puts what it lists; an answered target selection or run puts nothing.
  function FeaturesLine(r: Registers, p: ParsedFrame): Effect<set<Bytes>> {
    match Answered(r, p)
    case Some(info) =>
      if info.operation.ListTargetFeatures? then Put(ExtractStrings(p.record.result.results))
      else if info.operation.TargetSelect? || info.operation.ExecRun? then Put({})
      else Kept
    case None => Kept
  }

  function FeaturesEffect(r: Registers, step: Step): Effect<set<Bytes>> {
    if step.Arrived? then FeaturesLine(r, ParsedOf(step.frame)) else Kept
  }

  ghost function FeaturesEffects(r: Registers, steps: seq<Step>): seq<Effect<set<Bytes>>> {
    seq(|steps|, k requires 0 <= k < |steps| => FeaturesEffect(Before(r, steps, k), steps[k]))
  }

  lemma AnsweredFeatures(r: Registers, rr: ResultRecord)
    ensures Some(RouteResult(r, rr).features.targetFeatures)
         == Affected(Some(r.features.targetFeatures), FeaturesLine(r, ParsedRecord(Record.Result(rr))))
  {
    hide ExtractStrings, UpsertedFromResults, VarCreated, VarUpdated, IsExecCommand;
  }

  lemma ExecKeepsFeatures(r: Registers, results: seq<Field>)
    ensures RouteRunning(r, results).features == r.features
    ensures RouteStopped(r, results).features == r.features
  {
  }

  lemma NotifyKeepsFeatures(r: Registers, ar: AsyncRecord)
    ensures RouteNotify(r, ar).features == r.features
  {
    hide UpsertedFromResults, Registries.Deleted, Threads.Created, Threads.Exited;
  }

  lemma FeaturesStep(r: Registers, p: ParsedFrame)
    ensures Some(Route(r, p).features.targetFeatures)
         == Affected(Some(r.features.targetFeatures), FeaturesLine(r, p))
  {
    hide RouteResult, RouteRunning, RouteStopped, RouteNotify, ExtractStrings;
    match p
    case ParsedRecord(Result(rr)) => AnsweredFeatures(r, rr);
    case ParsedRecord(Exec(ar)) => ExecKeepsFeatures(r, ar.results);
    case ParsedRecord(Notify(ar)) => NotifyKeepsFeatures(r, ar);
    case _ =>
  }

  // The cached target features are those of the last answer that listed or dropped them.
  lemma FeaturesAreLastListed(r: Registers, steps: seq<Step>, listed: set<Bytes>)
    ensures Run(r, steps).features.targetFeatures == listed
       <==> Stands(Some(r.features.targetFeatures), FeaturesEffects(r, steps), listed)
  {
    hide Route, Before, Stands, FeaturesLine, ParsedOf, Run;
    var effects := FeaturesEffects(r, steps);
    var entries :=
      seq(|steps| + 1, k requires 0 <= k <= |steps| => Some(Before(r, steps, k).features.targetFeatures));
    forall k | 0 <= k < |steps|
      ensures entries[k + 1] == Affected(entries[k], effects[k])
    {
      NextIs(r, steps, k);
      if steps[k].Arrived? {
        FeaturesStep(Before(r, steps, k), ParsedOf(steps[k].frame));
      }
    }
    Ends(r, steps);
    LastWriteWins(entries, effects, listed);
  }

  // The interpreter's own features are only ever listed.
  function OwnFeaturesLine(r: Registers, p: ParsedFrame): Effect<set<Bytes>> {
    match Answered(r, p)
    case Some(info) => if info.operation.ListFeatures? then Put(ExtractStrings(p.record.result.results)) else Kept
    case None => Kept
  }

  ghost function OwnFeaturesEffects(r: Registers, steps: seq<Step>): seq<Effect<set<Bytes>>> {
    seq(|steps|, k requires 0 <= k < |steps| =>
      if steps[k].Arrived? then OwnFeaturesLine(Before(r, steps, k), ParsedOf(steps[k].frame)) else Kept)
  }

  lemma AnsweredOwnFeatures(r: Registers, rr: ResultRecord)
    ensures Some(RouteResult(r, rr).features.features)
         == Affected(Some(r.features.features), OwnFeaturesLine(r, ParsedRecord(Record.Result(rr))))
  {
    hide ExtractStrings, UpsertedFromResults, VarCreated, VarUpdated, IsExecCommand;
  }

  lemma OwnFeaturesStep(r: Registers, p: ParsedFrame)
    ensures Some(Route(r, p).features.features) == Affected(Some(r.features.features), OwnFeaturesLine(r, p))
  {
    hide RouteResult, RouteRunning, RouteStopped, RouteNotify, ExtractStrings;
    match p
    case ParsedRecord(Result(rr)) => AnsweredOwnFeatures(r, rr);
    case ParsedRecord(Exec(ar)) => ExecKeepsFeatures(r, ar.results);
    case ParsedRecord(Notify(ar)) => NotifyKeepsFeatures(r, ar);
    case _ =>
  }

  // The interpreter features are those of the last answer that listed them.
  lemma OwnFeaturesAreLastListed(r: Registers, steps: seq<Step>, listed: set<Bytes>)
    ensures Run(r, steps).features.features == listed
       <==> Stands(Some(r.features.features), OwnFeaturesEffects(r, steps), listed)
  {
    hide Route, Before, Stands, OwnFeaturesLine, ParsedOf, Run;
    var effects := OwnFeaturesEffects(r, steps);
    var entries := seq(|steps| + 1, k requires 0 <= k <= |steps| => Some(Before(r, steps, k).features.features));
    forall k | 0 <= k < |steps|
      ensures entries[k + 1] == Affected(entries[k], effects[k])
    {
      NextIs(r, steps, k);
      if steps[k].Arrived? {
        OwnFeaturesStep(Before(r, steps, k), ParsedOf(steps[k].frame));
      }
    }
    Ends(r, steps);
    LastWriteWins(entries, effects, listed);
  }

  // ---- Target ----

  // Only running and stopped records and failed execution commands set the state of the target.
  function TargetLine(r: Registers, p: ParsedFrame): Effect<TargetState> {
    if FailsExecution(r, p) then Put(TargetState.Unknown)
    else if IsExec(p, "running") then Put(TargetState.Running(GetStr(p.record.exec.results, "thread-id")))
    else if IsExec(p, "stopped") then
      Put(TargetAfterStop(GetStr(p.record.exec.results, "thread-id"), ReasonFromResults(p.record.exec.results)))
    else Kept
  }

  function TargetEffect(r: Registers, step: Step): Effect<TargetState> {
    if step.Arrived? then TargetLine(r, ParsedOf(step.frame)) else Kept
  }

  ghost function TargetEffects(r: Registers, steps: seq<Step>): seq<Effect<TargetState>> {
    seq(|steps|, k requires 0 <= k < |steps| => TargetEffect(Before(r, steps, k), steps[k]))
  }

  lemma ReplyTarget(r: Registers, rr: ResultRecord)
    ensures RouteResult(r, rr).target
         == if FailsExecution(r, ParsedRecord(Record.Result(rr))) then TargetState.Unknown else r.target
  {
    hide RouteDone, IsExecCommand;
    if rr.token.Some? && rr.token.value in r.pending {
      DoneTouches(r.(pending := r.pending - {rr.token.value}), r.pending[rr.token.value], rr.results);
    }
  }

  lemma TargetStep(r: Registers, p: ParsedFrame)
    ensures Some(Route(r, p).target) == Affected(Some(r.target), TargetLine(r, p))
  {
    hide GetStr, ExtractFrame, ReasonFromResults, IsExecCommand, TargetAfterStop, Threads.SetState;
    hide RouteResult, RouteNotify;
    match p
    case ParsedRecord(Result(rr)) => ReplyTarget(r, rr);
    case ParsedRecord(Exec(ar)) =>
    case ParsedRecord(Notify(ar)) => NotifyKeepsFrames(r, ar);
    case _ =>
  }

  // The state of the target is that of the last line that sets it.
  lemma TargetIsLastSet(r: Registers, steps: seq<Step>, target: TargetState)
    ensures Run(r, steps).target == target
       <==> Stands(Some(r.target), TargetEffects(r, steps), target)
  {
    hide Route, Before, Stands, TargetLine, ParsedOf, Run;
    var effects := TargetEffects(r, steps);
    var entries := seq(|steps| + 1, k requires 0 <= k <= |steps| => Some(Before(r, steps, k).target));
    forall k | 0 <= k < |steps|
      ensures entries[k + 1] == Affected(entries[k], effects[k])
    {
      NextIs(r, steps, k);
      if steps[k].Arrived? {
        TargetStep(Before(r, steps, k), ParsedOf(steps[k].frame));
      }
    }
    Ends(r, steps);
    LastWriteWins(entries, effects, target);
  }

  // ---- Threads ----

  predicate IsNotify(p: ParsedFrame, class_: Bytes, id: Bytes) {
    && p.ParsedRecord? && p.record.Notify? && p.record.notify.class_ == class_
    && GetStr(p.record.notify.results, "id") == Some(id)
  }

  // The state an exec record announces.
  function ExecState(p: ParsedFrame): Option<Threads.ThreadState> {
    if IsExec(p, "running") then Some(Threads.Moving)
    else if IsExec(p, "stopped") then Some(Threads.Halted)
    else None
  }

  // Creation makes an unknown thread known in no state; an exec record gives its state to the
  // thread it names, known or not, and to every known thread it covers; an exit forgets the thread.
  function ThreadLine(r: Registers, p: ParsedFrame, id: Bytes): Effect<Option<Threads.ThreadState>> {
    if IsNotify(p, "thread-exited", id) then Removed
    else if IsNotify(p, "thread-created", id) && id !in r.threads then Put(None)
    else if ExecState(p).Some? then
      var thread := GetStr(p.record.exec.results, "thread-id");
      if Threads.Covers(thread, id) && (id in r.threads || !Threads.IsAll(thread)) then Put(ExecState(p)) else Kept
    else Kept
  }

  function ThreadEffect(r: Registers, step: Step, id: Bytes): Effect<Option<Threads.ThreadState>> {
    if step.Arrived? then ThreadLine(r, ParsedOf(step.frame), id) else Kept
  }

  ghost function ThreadEffects(r: Registers, steps: seq<Step>, id: Bytes): seq<Effect<Option<Threads.ThreadState>>> {
    seq(|steps|, k requires 0 <= k < |steps| => ThreadEffect(Before(r, steps, k), steps[k], id))
  }

  // The state under which a thread is known, if it is.
  function StateOf(m: Threads.ThreadMap, id: Bytes): Option<Option<Threads.ThreadState>> {
    if id in m then Some(m[id].state) else None
  }

  lemma ReplyThreads(r: Registers, rr: ResultRecord)
    ensures RouteResult(r, rr).threads == r.threads
  {
    hide RouteDone, IsExecCommand;
    if rr.token.Some? && rr.token.value in r.pending {
      DoneTouches(r.(pending := r.pending - {rr.token.value}), r.pending[rr.token.value], rr.results);
    }
  }

  lemma ExecThreads(m: Threads.ThreadMap, thread: Option<Bytes>, state: Threads.ThreadState, id: Bytes)
    ensures StateOf(Threads.SetState(m, thread, state), id)
         == if Threads.Covers(thread, id) && (id in m || !Threads.IsAll(thread)) then Some(Some(state)) else StateOf(m, id)
  {
  }

  lemma CreatedThread(m: Threads.ThreadMap, results: seq<Field>, id: Bytes)
    ensures StateOf(Threads.Created(m, results), id)
         == if GetStr(results, "id") == Some(id) && id !in m then Some(None) else StateOf(m, id)
  {
    hide GetStr;
  }

  lemma ExitedThread(m: Threads.ThreadMap, results: seq<Field>, id: Bytes)
    ensures StateOf(Threads.Exited(m, results), id) == if GetStr(results, "id") == Some(id) then None else StateOf(m, id)
  {
    hide GetStr;
  }

  lemma NotifyThreads(r: Registers, ar: AsyncRecord, id: Bytes)
    ensures
      var p := ParsedRecord(Record.Notify(ar));
      StateOf(RouteNotify(r, ar).threads, id) == Affected(StateOf(r.threads, id), ThreadLine(r, p, id))
  {
    hide GetStr, UpsertedFromResults, Registries.Deleted, Threads.Created, Threads.Exited, StateOf;
    CreatedThread(r.threads, ar.results, id);
    ExitedThread(r.threads, ar.results, id);
  }

  lemma ThreadStep(r: Registers, p: ParsedFrame, id: Bytes)
    ensures StateOf(Route(r, p).threads, id) == Affected(StateOf(r.threads, id), ThreadLine(r, p, id))
  {
    hide GetStr, ExtractFrame, ReasonFromResults, RouteResult, RouteNotify;
    hide Threads.SetState, Threads.Covers, Threads.IsAll, StateOf;
    match p
    case ParsedRecord(Result(rr)) => ReplyThreads(r, rr);
    case ParsedRecord(Exec(ar)) =>
      ExecThreads(r.threads, GetStr(ar.results, "thread-id"), Threads.Moving, id);
      ExecThreads(r.threads, GetStr(ar.results, "thread-id"), Threads.Halted, id);
    case ParsedRecord(Notify(ar)) => NotifyThreads(r, ar, id);
    case _ =>
  }

  // A thread is known, in the state of the last exec record that covered it since it was made
  // known, exactly unless it has exited since.
  lemma ThreadIsLastCovered(r: Registers, steps: seq<Step>, id: Bytes, state: Option<Threads.ThreadState>)
    ensures StateOf(Run(r, steps).threads, id) == Some(state)
       <==> Stands(StateOf(r.threads, id), ThreadEffects(r, steps, id), state)
  {
    hide Route, Before, Stands, ThreadLine, ParsedOf, Run, StateOf;
    var effects := ThreadEffects(r, steps, id);
    var entries := seq(|steps| + 1, k requires 0 <= k <= |steps| => StateOf(Before(r, steps, k).threads, id));
    forall k | 0 <= k < |steps|
      ensures entries[k + 1] == Affected(entries[k], effects[k])
    {
      NextIs(r, steps, k);
      if steps[k].Arrived? {
        ThreadStep(Before(r, steps, k), ParsedOf(steps[k].frame), id);
      }
    }
    Ends(r, steps);
    LastWriteWins(entries, effects, state);
  }

  // A thread's group is given by the first creation that gives one since the thread became known;
  // an exec record about an unknown thread makes it known without a group.
  function GroupLine(r: Registers, p: ParsedFrame, id: Bytes): Effect<Option<Bytes>> {
    if IsNotify(p, "thread-exited", id) then Removed
    else if IsNotify(p, "thread-created", id) then
      if id in r.threads && r.threads[id].groupId.Some? then Kept else Put(GetStr(p.record.notify.results, "group-id"))
    else if ExecState(p).Some? && id !in r.threads && id != "all"
            && GetStr(p.record.exec.results, "thread-id") == Some(id) then Put(None)
    else Kept
  }

  ghost function GroupEffects(r: Registers, steps: seq<Step>, id: Bytes): seq<Effect<Option<Bytes>>> {
    seq(|steps|, k requires 0 <= k < |steps| =>
      if steps[k].Arrived? then GroupLine(Before(r, steps, k), ParsedOf(steps[k].frame), id) else Kept)
  }

  // The group under which a thread is known, if it is.
  function GroupOf(m: Threads.ThreadMap, id: Bytes): Option<Option<Bytes>> {
    if id in m then Some(m[id].groupId) else None
  }

  lemma ExecGroups(m: Threads.ThreadMap, thread: Option<Bytes>, state: Threads.ThreadState, id: Bytes)
    ensures GroupOf(Threads.SetState(m, thread, state), id)
         == if id !in m && thread == Some(id) && id != "all" then Some(None) else GroupOf(m, id)
  {
  }

  lemma CreatedGroup(m: Threads.ThreadMap, results: seq<Field>, id: Bytes)
    ensures
      GroupOf(Threads.Created(m, results), id)
      == if GetStr(results, "id") == Some(id) && !(id in m && m[id].groupId.Some?)
         then Some(GetStr(results, "group-id")) else GroupOf(m, id)
  {
    hide GetStr;
  }

  lemma ExitedGroup(m: Threads.ThreadMap, results: seq<Field>, id: Bytes)
    ensures GroupOf(Threads.Exited(m, results), id) == if GetStr(results, "id") == Some(id) then None else GroupOf(m, id)
  {
    hide GetStr;
  }

  lemma NotifyGroups(r: Registers, ar: AsyncRecord, id: Bytes)
    ensures
      var p := ParsedRecord(Record.Notify(ar));
      GroupOf(RouteNotify(r, ar).threads, id) == Affected(GroupOf(r.threads, id), GroupLine(r, p, id))
  {
    hide GetStr, UpsertedFromResults, Registries.Deleted, Threads.Created, Threads.Exited, GroupOf;
    CreatedGroup(r.threads, ar.results, id);
    ExitedGroup(r.threads, ar.results, id);
  }

  lemma GroupStep(r: Registers, p: ParsedFrame, id: Bytes)
    ensures GroupOf(Route(r, p).threads, id) == Affected(GroupOf(r.threads, id), GroupLine(r, p, id))
  {
    hide GetStr, ExtractFrame, ReasonFromResults, RouteResult, RouteNotify;
    hide Threads.SetState, GroupOf;
    match p
    case ParsedRecord(Result(rr)) => ReplyThreads(r, rr);
    case ParsedRecord(Exec(ar)) =>
      ExecGroups(r.threads, GetStr(ar.results, "thread-id"), Threads.Moving, id);
      ExecGroups(r.threads, GetStr(ar.results, "thread-id"), Threads.Halted, id);
    case ParsedRecord(Notify(ar)) => NotifyGroups(r, ar, id);
    case _ =>
  }

  // A known thread is in the group it was first given, exactly unless it has exited since.
  lemma GroupIsFirstGiven(r: Registers, steps: seq<Step>, id: Bytes, group: Option<Bytes>)
    ensures GroupOf(Run(r, steps).threads, id) == Some(group)
       <==> Stands(GroupOf(r.threads, id), GroupEffects(r, steps, id), group)
  {
    hide Route, Before, Stands, GroupLine, ParsedOf, Run, GroupOf;
    var effects := GroupEffects(r, steps, id);
    var entries := seq(|steps| + 1, k requires 0 <= k <= |steps| => GroupOf(Before(r, steps, k).threads, id));
    forall k | 0 <= k < |steps|
      ensures entries[k + 1] == Affected(entries[k], effects[k])
    {
      NextIs(r, steps, k);
      if steps[k].Arrived? {
        GroupStep(Before(r, steps, k), ParsedOf(steps[k].frame), id);
      }
    }
    Ends(r, steps);
    LastWriteWins(entries, effects, group);
  }

  // ---- Variable objects ----

  // What an answered command says about one field of the named object: its creation gives the
  // field a value or none, its deletion none, and a change list the last value it mentions.
  function VarObjLine<T>(
      r: Registers, p: ParsedFrame, name: Bytes, created: seq<Field> -> Option<T>, changed: seq<Field> -> Option<T>)
    : Effect<Option<T>>
  {
    match Answered(r, p)
    case None => Kept
    case Some(info) =>
      var results := p.record.result.results;
      if info.operation.VarCreate? then
        if GetStr(results, "name") == Some(name) then Put(created(results)) else Kept
      else if info.operation.VarDelete? then
        if info.operation.name == name then Put(None) else Kept
      else if info.operation.VarUpdate? then
        var last := LastMention(ChangeList(results), name, changed);
        if last.Some? then Put(last) else Kept
      else Kept
  }

  function ChangeList(results: seq<Field>): seq<Value> {
    match GetList(results, "changelist")
    case Some(Values(entries)) => entries
    case _ => []
  }

  function TypeIn(fields: seq<Field>): Option<Bytes> { GetStr(fields, "type") }

  function NoScope(fields: seq<Field>): Option<bool> { None }

  function ValueLine(r: Registers, p: ParsedFrame, name: Bytes): Effect<Option<Bytes>> {
    VarObjLine(r, p, name, ValueIn, ValueIn)
  }

  function TypeLine(r: Registers, p: ParsedFrame, name: Bytes): Effect<Option<Bytes>> {
    VarObjLine(r, p, name, TypeIn, NewTypeIn)
  }

  function ScopeLine(r: Registers, p: ParsedFrame, name: Bytes): Effect<Option<bool>> {
    VarObjLine(r, p, name, NoScope, InScopeIn)
  }

  lemma CreateStep(m: VarObjMap, results: seq<Field>, expression: Option<Bytes>, name: Bytes)
    ensures
      var o := Lookup(VarCreated(m, results, expression), name);
      if GetStr(results, "name") == Some(name)
      then o.value == ValueIn(results) && o.typeName == TypeIn(results) && o.inScope == None
      else o == Lookup(m, name)
  {
    hide GetStr, GetU32;
  }

  lemma UpdateStep(m: VarObjMap, results: seq<Field>, name: Bytes)
    ensures
      var before, o, entries := Lookup(m, name), Lookup(VarUpdated(m, results), name), ChangeList(results);
      && o.value == OrElse(LastMention(entries, name, ValueIn), before.value)
      && o.typeName == OrElse(LastMention(entries, name, NewTypeIn), before.typeName)
      && o.inScope == OrElse(LastMention(entries, name, InScopeIn), before.inScope)
  {
    hide GetList, VarsChanged, LastMention, Lookup;
    LastMentionWins(m, ChangeList(results), name);
    NoChanges(m);
  }

  lemma NoChanges(m: VarObjMap)
    ensures VarsChanged(m, []) == m
  {
  }

  // Where an answer reaches the variable objects.
  lemma AnsweredVarObjs(r: Registers, rr: ResultRecord)
    ensures
      RouteResult(r, rr).varobjs ==
      match Answered(r, ParsedRecord(Record.Result(rr)))
      case None => r.varobjs
      case Some(info) =>
        match info.operation
        case VarCreate(expression) => VarCreated(r.varobjs, rr.results, expression)
        case VarUpdate => VarUpdated(r.varobjs, rr.results)
        case VarDelete(name) => r.varobjs - {name}
        case _ => r.varobjs
  {
    hide UpsertedFromResults, VarCreated, VarUpdated, ExtractStrings, IsExecCommand;
  }

  lemma ExecKeepsVarObjs(r: Registers, results: seq<Field>)
    ensures RouteRunning(r, results).varobjs == r.varobjs
    ensures RouteStopped(r, results).varobjs == r.varobjs
  {
  }

  lemma NotifyKeepsVarObjs(r: Registers, ar: AsyncRecord)
    ensures RouteNotify(r, ar).varobjs == r.varobjs
  {
    hide UpsertedFromResults, Registries.Deleted, Threads.Created, Threads.Exited;
  }

  lemma OthersKeepVarObjs(r: Registers, p: ParsedFrame)
    requires !(p.ParsedRecord? && p.record.Result?)
    ensures Route(r, p).varobjs == r.varobjs && Answered(r, p) == None
  {
    hide RouteRunning, RouteStopped, RouteNotify;
    match p
    case ParsedRecord(Exec(ar)) => ExecKeepsVarObjs(r, ar.results);
    case ParsedRecord(Notify(ar)) => NotifyKeepsVarObjs(r, ar);
    case _ =>
  }

  ghost predicate VarObjFollows(r: Registers, p: ParsedFrame, name: Bytes) {
    var before, after := Lookup(r.varobjs, name), Lookup(Route(r, p).varobjs, name);
    && Some(after.value) == Affected(Some(before.value), ValueLine(r, p, name))
    && Some(after.typeName) == Affected(Some(before.typeName), TypeLine(r, p, name))
    && Some(after.inScope) == Affected(Some(before.inScope), ScopeLine(r, p, name))
  }

  lemma VarObjStep(r: Registers, p: ParsedFrame, name: Bytes)
    ensures VarObjFollows(r, p, name)
  {
    hide Route, GetStr, VarCreated, VarUpdated, ChangeList, LastMention, RouteResult;
    if p.ParsedRecord? && p.record.Result? {
      var rr := p.record.result;
      ResultRoutes(r, rr);
      AnsweredVarObjs(r, rr);
      UpdateStep(r.varobjs, rr.results, name);
      var answered := Answered(r, p);
      if answered.Some? && answered.value.operation.VarCreate? {
        CreateStep(r.varobjs, rr.results, answered.value.operation.expression, name);
      }
    } else {
      OthersKeepVarObjs(r, p);
    }
  }

  lemma ResultRoutes(r: Registers, rr: ResultRecord)
    ensures Route(r, ParsedRecord(Record.Result(rr))) == RouteResult(r, rr)
  {
    hide RouteResult;
  }

  ghost function LineEffects<T(!new)>(
      r: Registers, steps: seq<Step>, name: Bytes, line: (Registers, ParsedFrame, Bytes) -> Effect<T>)
    : seq<Effect<T>>
  {
    seq(|steps|, k requires 0 <= k < |steps| =>
      if steps[k].Arrived? then line(Before(r, steps, k), ParsedOf(steps[k].frame), name) else Kept)
  }

  // The value, the type and the scope of a variable object are each what the last answer about it
  // said: its creation, a change list that mentions the field, or its deletion.
  lemma VarObjIsLastSaid(
      r: Registers, steps: seq<Step>, name: Bytes, value: Option<Bytes>, typeName: Option<Bytes>, inScope: Option<bool>)
    ensures
      var first, last := Lookup(r.varobjs, name), Lookup(Run(r, steps).varobjs, name);
      && (last.value == value <==> Stands(Some(first.value), LineEffects(r, steps, name, ValueLine), value))
      && (last.typeName == typeName <==> Stands(Some(first.typeName), LineEffects(r, steps, name, TypeLine), typeName))
      && (last.inScope == inScope <==> Stands(Some(first.inScope), LineEffects(r, steps, name, ScopeLine), inScope))
  {
    hide Route, Before, Stands, ValueLine, TypeLine, ScopeLine, ParsedOf, Run, Lookup;
    var n := |steps| + 1;
    var values := seq(n, k requires 0 <= k < n => Some(Lookup(Before(r, steps, k).varobjs, name).value));
    var types := seq(n, k requires 0 <= k < n => Some(Lookup(Before(r, steps, k).varobjs, name).typeName));
    var scopes := seq(n, k requires 0 <= k < n => Some(Lookup(Before(r, steps, k).varobjs, name).inScope));
    forall k | 0 <= k < |steps|
      ensures values[k + 1] == Affected(values[k], LineEffects(r, steps, name, ValueLine)[k])
      ensures types[k + 1] == Affected(types[k], LineEffects(r, steps, name, TypeLine)[k])
      ensures scopes[k + 1] == Affected(scopes[k], LineEffects(r, steps, name, ScopeLine)[k])
    {
      NextIs(r, steps, k);
      if steps[k].Arrived? {
        VarObjStep(Before(r, steps, k), ParsedOf(steps[k].frame), name);
      }
    }
    Ends(r, steps);
    LastWriteWins(values, LineEffects(r, steps, name, ValueLine), value);
    LastWriteWins(types, LineEffects(r, steps, name, TypeLine), typeName);
    LastWriteWins(scopes, LineEffects(r, steps, name, ScopeLine), inScope);
  }

  // Whether some entry of a change list is about the named object.
  ghost predicate Mentions(entries: seq<Value>, name: Bytes) {
    exists k :: 0 <= k < |entries| && entries[k].Tuple? && GetStr(entries[k].fields, "name") == Some(name)
  }

  lemma ChangeKnows(m: VarObjMap, entry: Value, name: Bytes)
    ensures name in VarChanged(m, entry)
       <==> name in m || (entry.Tuple? && GetStr(entry.fields, "name") == Some(name))
    ensures name in m && name in VarChanged(m, entry) ==>
              && VarChanged(m, entry)[name].expression == m[name].expression
              && VarChanged(m, entry)[name].numchild == m[name].numchild
  {
    hide GetStr, GetBool, OrElse;
  }

  lemma {:induction false} ChangesKnow(m: VarObjMap, entries: seq<Value>, name: Bytes)
    ensures name in VarsChanged(m, entries) <==> name in m || Mentions(entries, name)
    decreases |entries|
  {
    if entries != [] {
      hide VarChanged, GetStr;
      ChangeKnows(m, entries[0], name);
      ChangesKnow(VarChanged(m, entries[0]), entries[1..], name);
      assert forall k | 0 <= k < |entries[1..]| :: entries[1..][k] == entries[k + 1];
      assert forall k | 0 < k < |entries| :: entries[k] == entries[1..][k - 1];
    }
  }

  // An object is known from its creation or its first mention until its deletion.
  ghost function KnownLine(r: Registers, p: ParsedFrame, name: Bytes): Effect<bool> {
    match Answered(r, p)
    case None => Kept
    case Some(info) =>
      var results := p.record.result.results;
      if info.operation.VarCreate? then if GetStr(results, "name") == Some(name) then Put(true) else Kept
      else if info.operation.VarDelete? then if info.operation.name == name then Put(false) else Kept
      else if info.operation.VarUpdate? && Mentions(ChangeList(results), name) then Put(true)
      else Kept
  }

  // Its expression is the one it was created for, its number of children the one its creation gave.
  function BirthLine(r: Registers, p: ParsedFrame, name: Bytes): Effect<(Option<Bytes>, Option<nat>)> {
    match Answered(r, p)
    case None => Kept
    case Some(info) =>
      var results := p.record.result.results;
      if info.operation.VarCreate? then
        if GetStr(results, "name") == Some(name) then Put((info.operation.expression, GetU32(results, "numchild")))
        else Kept
      else if info.operation.VarDelete? then if info.operation.name == name then Put((None, None)) else Kept
      else Kept
  }

  function Birth(m: VarObjMap, name: Bytes): (Option<Bytes>, Option<nat>) {
    (Lookup(m, name).expression, Lookup(m, name).numchild)
  }

  lemma CreateBirth(m: VarObjMap, results: seq<Field>, expression: Option<Bytes>, name: Bytes)
    ensures
      var q := VarCreated(m, results, expression);
      if GetStr(results, "name") == Some(name) then name in q && Birth(q, name) == (expression, GetU32(results, "numchild"))
      else (name in q <==> name in m) && Birth(q, name) == Birth(m, name)
  {
    hide GetStr, GetU32;
  }

  lemma UpdateBirth(m: VarObjMap, results: seq<Field>, name: Bytes)
    ensures
      var q := VarUpdated(m, results);
      (name in q <==> name in m || Mentions(ChangeList(results), name)) && Birth(q, name) == Birth(m, name)
  {
    hide GetList, VarsChanged, LastMention, Lookup, Mentions;
    ChangesKnow(m, ChangeList(results), name);
    LastMentionWins(m, ChangeList(results), name);
    NoChanges(m);
  }

  lemma DeleteBirth(m: VarObjMap, gone: Bytes, name: Bytes)
    ensures
      var q := m - {gone};
      if gone == name then name !in q && Birth(q, name) == (None, None)
      else (name in q <==> name in m) && Birth(q, name) == Birth(m, name)
  {
  }

  ghost predicate BirthFollows(r: Registers, p: ParsedFrame, name: Bytes) {
    var q := Route(r, p).varobjs;
    && Some(name in q) == Affected(Some(name in r.varobjs), KnownLine(r, p, name))
    && Some(Birth(q, name)) == Affected(Some(Birth(r.varobjs, name)), BirthLine(r, p, name))
  }

  lemma BirthStep(r: Registers, p: ParsedFrame, name: Bytes)
    ensures BirthFollows(r, p, name)
  {
    hide Route, GetStr, GetU32, VarCreated, VarUpdated, ChangeList, Mentions, RouteResult, Birth;
    if p.ParsedRecord? && p.record.Result? {
      var rr := p.record.result;
      ResultRoutes(r, rr);
      AnsweredVarObjs(r, rr);
      UpdateBirth(r.varobjs, rr.results, name);
      var answered := Answered(r, p);
      if answered.Some? && answered.value.operation.VarCreate? {
        CreateBirth(r.varobjs, rr.results, answered.value.operation.expression, name);
      } else if answered.Some? && answered.value.operation.VarDelete? {
        DeleteBirth(r.varobjs, answered.value.operation.name, name);
      }
    } else {
      OthersKeepVarObjs(r, p);
    }
  }

  ghost function KnownEffects(r: Registers, steps: seq<Step>, name: Bytes): seq<Effect<bool>> {
    seq(|steps|, k requires 0 <= k < |steps| =>
      if steps[k].Arrived? then KnownLine(Before(r, steps, k), ParsedOf(steps[k].frame), name) else Kept)
  }

  // A variable object is known since its last creation or mention, exactly unless deleted since;
  // and it keeps the expression and the number of children its last creation gave it.
  lemma VarObjIsAsCreated(
      r: Registers, steps: seq<Step>, name: Bytes, known: bool, expression: Option<Bytes>, numchild: Option<nat>)
    ensures (name in Run(r, steps).varobjs) == known
       <==> Stands(Some(name in r.varobjs), KnownEffects(r, steps, name), known)
    ensures Birth(Run(r, steps).varobjs, name) == (expression, numchild)
       <==> Stands(Some(Birth(r.varobjs, name)), LineEffects(r, steps, name, BirthLine), (expression, numchild))
  {
    hide Route, Before, Stands, KnownLine, BirthLine, ParsedOf, Run, Birth;
    var n := |steps| + 1;
    var known' := seq(n, k requires 0 <= k < n => Some(name in Before(r, steps, k).varobjs));
    var births := seq(n, k requires 0 <= k < n => Some(Birth(Before(r, steps, k).varobjs, name)));
    forall k | 0 <= k < |steps|
      ensures known'[k + 1] == Affected(known'[k], KnownEffects(r, steps, name)[k])
      ensures births[k + 1] == Affected(births[k], LineEffects(r, steps, name, BirthLine)[k])
    {
      NextIs(r, steps, k);
      if steps[k].Arrived? {
        BirthStep(Before(r, steps, k), ParsedOf(steps[k].frame), name);
      }
    }
    Ends(r, steps);
    LastWriteWins(known', KnownEffects(r, steps, name), known);
    LastWriteWins(births, LineEffects(r, steps, name, BirthLine), (expression, numchild));
  }
}
