// Where natural claims about the protocol state stop being true.
//
// Each boundary is given exactly, and is reached by lines GDB could send.
module Boundaries {
  import opened Octets
  import opened Wrappers
  import opened Ast
  import opened ResultsView
  import opened Events
  import opened Registries
  import opened Classification
  import Framing
  import RecordPrinter
  import WireForms
  import Threads
  import Utf8
  import ValueGrammar

  // ---- Lines that arrive ----

  // The line a record is printed on.
  function LineOf(record: Record): Bytes {
    RecordPrinter.PrintRecord(record) + ['\n']
  }

  const START: Inbound := Inbound([], INITIAL, [])

  // What a connection with no line outstanding becomes when the line of a record arrives.
  function After(s: Inbound, record: Record): Inbound {
    Receive(s, LineOf(record))
  }

  // Every well-formed record can arrive: its line is one frame, which reads back as the record.
  lemma RecordArrives(s: Inbound, record: Record)
    requires s.live == [] && RecordPrinter.WellFormed(record)
    ensures After(s, record)
         == Inbound([], Route(s.registers, ParsedRecord(record)), s.events + [EventOfRecord(record)])
  {
    hide Route, RouteAll, EventsOf, EventOf, EventOfRecord, RecordPrinter.PrintRecord, RecordPrinter.WellFormed;
    hide Framing.Frames, Framing.Rest;
    var line := RecordPrinter.PrintRecord(record);
    RecordPrinter.RecordRoundTrip(record);
    OneFrame(record);
    assert s.live + LineOf(record) == LineOf(record);
    OneLine(s.registers, Framing.Line(line));
    EventOfParsed(record);
  }

  lemma OneLine(r: Registers, frame: Framing.Frame)
    ensures RouteAll(r, [frame]) == Route(r, ParsedOf(frame)) && EventsOf([frame]) == [EventOf(ParsedOf(frame))]
  {
    hide Route, ParsedOf, EventOf;
    assert [frame][1..] == [];
  }

  lemma EventOfParsed(record: Record)
    ensures EventOf(ParsedRecord(record)) == EventOfRecord(record)
  {
    hide EventOfRecord;
  }

  lemma OneFrame(record: Record)
    requires RecordPrinter.WellFormed(record)
    ensures Framing.Frames(LineOf(record)) == [Framing.Line(RecordPrinter.PrintRecord(record))]
    ensures Framing.Rest(LineOf(record)) == []
  {
    hide RecordPrinter.PrintRecord, RecordPrinter.WellFormed, Framing.Lines, Framing.Rest;
    var line := RecordPrinter.PrintRecord(record);
    RecordPrinter.RecordIsClean(record);
    assert '\n' !in line;
    assert (line + ['\n']) + [] == LineOf(record);
    Framing.CutFirst(line, []);
    Framing.CutNothing([]);
    assert Framing.Lines(LineOf(record)) == [line];
    assert Framing.StripReturn(line) == line && !Framing.IsGroupTerminator(line);
  }

  // ---- Lookups in written-out results ----

  lemma {:induction false} FirstIs(results: seq<Field>, k: nat, name: Bytes, accepts: Value -> bool)
    requires k < |results| && results[k].name == name && accepts(results[k].value)
    requires forall j | 0 <= j < k :: results[j].name != name
    ensures Find(results, name, accepts) == Some(results[k].value)
    decreases k
  {
    if k > 0 {
      FirstIs(results[1..], k - 1, name, accepts);
    }
  }

  lemma {:induction false} Absent(results: seq<Field>, name: Bytes, accepts: Value -> bool)
    requires forall j | 0 <= j < |results| :: results[j].name != name
    ensures Find(results, name, accepts) == None
  {
    if results != [] {
      Absent(results[1..], name, accepts);
    }
  }

  // ---- Frames after an exit ----

  const EXIT_WITH_FRAME: seq<Field> := [
    Field("reason", Const("exited-normally")),
    Field("thread-id", Const("1")),
    Field("frame", Tuple([]))]

  function StoppedRecord(results: seq<Field>): Record {
    Record.Exec(AsyncRecord(None, "stopped", results))
  }

  // The clear of an exit stop is not enough in general: this line leaves an exited target with a
  // frame, whatever came before it.
  lemma ExitMayLeaveFrame(s: Inbound)
    requires s.live == []
    ensures
      var q := After(s, StoppedRecord(EXIT_WITH_FRAME)).registers;
      q.target.Exited? && q.frames != map[]
  {
    hide GetStr, ExtractFrame, ReasonFromResults, Route, After, RecordPrinter.WellFormed;
    ExitLookups();
    NormalExit(EXIT_WITH_FRAME);
    ExitClearsFrames(s.registers, EXIT_WITH_FRAME);
    ExitWithFrameIsWellFormed();
    RecordArrives(s, StoppedRecord(EXIT_WITH_FRAME));
  }

  lemma ExitLookups()
    ensures GetStr(EXIT_WITH_FRAME, "reason") == Some("exited-normally")
    ensures GetStr(EXIT_WITH_FRAME, "thread-id") == Some("1") && ExtractFrame(EXIT_WITH_FRAME).Some?
  {
    hide Find, FrameFromResults;
    FirstIs(EXIT_WITH_FRAME, 0, "reason", IsConst);
    FirstIs(EXIT_WITH_FRAME, 1, "thread-id", IsConst);
    FirstIs(EXIT_WITH_FRAME, 2, "frame", IsTuple);
  }

  lemma StopLookups(thread: Bytes)
    ensures
      var results := [Field("thread-id", Const(thread)), Field("frame", Tuple([]))];
      && GetStr(results, "thread-id") == Some(thread) && ExtractFrame(results).Some?
      && GetStr(results, "reason") == None
  {
    hide Find, FrameFromResults;
    var results := [Field("thread-id", Const(thread)), Field("frame", Tuple([]))];
    FirstIs(results, 0, "thread-id", IsConst);
    FirstIs(results, 1, "frame", IsTuple);
    Absent(results, "reason", IsConst);
  }

  lemma NormalExit(results: seq<Field>)
    requires GetStr(results, "reason") == Some("exited-normally")
    ensures ReasonFromResults(results) == Some(ExitedNormally)
  {
    hide GetStr, GetI32;
  }

  lemma TextField(name: Bytes, text: Bytes, rest: seq<Field>)
    requires ValueGrammar.IsIdentifier(name) && (forall k | 0 <= k < |text| :: text[k] as int < 0x80)
    requires ValueGrammar.WellFormedResults(rest)
    ensures ValueGrammar.WellFormedResults([Field(name, Const(text))] + rest)
  {
    Utf8.AsciiIsValid(text);
    hide Utf8.Valid;
    assert ([Field(name, Const(text))] + rest)[1..] == rest;
  }

  lemma FrameField()
    ensures ValueGrammar.WellFormedResults([Field("frame", Tuple([]))])
  {
    assert [Field("frame", Tuple([]))][1..] == [];
  }

  lemma ExitWithFrameIsWellFormed()
    ensures RecordPrinter.WellFormed(StoppedRecord(EXIT_WITH_FRAME))
  {
    hide ValueGrammar.WellFormedResults;
    var frame, thread, reason :=
      [Field("frame", Tuple([]))], [Field("thread-id", Const("1"))], [Field("reason", Const("exited-normally"))];
    FrameField();
    TextField("thread-id", "1", frame);
    TextField("reason", "exited-normally", thread + frame);
    assert EXIT_WITH_FRAME == reason + (thread + frame);
  }

  // ---- Frames of unknown threads ----

  // Every frame belongs to a known thread.
  ghost predicate FramesKnown(r: Registers) {
    r.frames.Keys <= r.threads.Keys
  }

  // A thread that has a frame exits.
  predicate ExitsFramedThread(r: Registers, p: ParsedFrame) {
    && p.ParsedRecord? && p.record.Notify? && p.record.notify.class_ == "thread-exited"
    && GetStr(p.record.notify.results, "id").Some?
    && GetStr(p.record.notify.results, "id").value in r.frames
  }

  // A stop of all threads carries a frame: it is filed under "all", which names no thread.
  predicate FramesAllThreads(r: Registers, p: ParsedFrame) {
    && p.ParsedRecord? && p.record.Exec? && p.record.exec.class_ == "stopped"
    && GetStr(p.record.exec.results, "thread-id") == Some("all")
    && ExtractFrame(p.record.exec.results).Some?
    && "all" !in r.threads
  }

  // A line leaves a frame without its thread in exactly these two cases.
  lemma FramesKnownIff(r: Registers, p: ParsedFrame)
    requires FramesKnown(r)
    ensures FramesKnown(Route(r, p)) <==> !ExitsFramedThread(r, p) && !FramesAllThreads(r, p)
  {
    hide GetStr, ReasonFromResults, ExtractFrame, RouteNotify, RouteDone, IsExecCommand, RouteStopped, RouteRunning;
    match p
    case ParsedRecord(Result(rr)) =>
      if rr.token.Some? && rr.token.value in r.pending {
        DoneTouches(r.(pending := r.pending - {rr.token.value}), r.pending[rr.token.value], rr.results);
      }
    case ParsedRecord(Exec(ar)) =>
      RunningKeepsKnown(r, ar.results);
      StoppedKeepsKnownIff(r, ar.results);
    case ParsedRecord(Notify(ar)) => NotifyKeepsKnownIff(r, ar);
    case _ =>
  }

  lemma RunningKeepsKnown(r: Registers, results: seq<Field>)
    requires FramesKnown(r)
    ensures FramesKnown(RouteRunning(r, results))
  {
    hide GetStr;
  }

  lemma StoppedKeepsKnownIff(r: Registers, results: seq<Field>)
    requires FramesKnown(r)
    ensures FramesKnown(RouteStopped(r, results)) <==>
            !(GetStr(results, "thread-id") == Some("all") && ExtractFrame(results).Some? && "all" !in r.threads)
  {
    hide GetStr, ReasonFromResults, ExtractFrame;
    var thread := GetStr(results, "thread-id");
    var q := RouteStopped(r, results);
    Threads.StateReachesCovered(r.threads, thread, Threads.Halted);
    if thread.Some? && ExtractFrame(results).Some? {
      assert thread.value in q.frames;
    }
  }

  lemma NotifyKeepsKnownIff(r: Registers, ar: AsyncRecord)
    requires FramesKnown(r)
    ensures FramesKnown(RouteNotify(r, ar)) <==> !ExitsFramedThread(r, ParsedRecord(Record.Notify(ar)))
  {
    hide GetStr, UpsertedFromResults, Registries.Deleted;
    if ar.class_ == "thread-exited" && GetStr(ar.results, "id").Some? {
      ThreadExitKeepsItsFrame(r, GetStr(ar.results, "id").value, ar.results);
    }
  }

  // A thread that exits keeps its frame.
  lemma ThreadExitKeepsItsFrame(r: Registers, id: Bytes, results: seq<Field>)
    requires GetStr(results, "id") == Some(id)
    requires FramesKnown(r)
    ensures
      var q := Route(r, ParsedRecord(Record.Notify(AsyncRecord(None, "thread-exited", results))));
      q.frames == r.frames && (FramesKnown(q) <==> id !in r.frames)
  {
    hide GetStr;
  }

  // No line of a run takes a thread away from its frame.
  ghost predicate NeverOrphans(r: Registers, steps: seq<Step>)
    decreases |steps|
  {
    steps != [] ==>
      && (steps[0].Arrived? ==>
            var p := ParsedOf(steps[0].frame);
            !ExitsFramedThread(r, p) && !FramesAllThreads(r, p))
      && NeverOrphans(Apply(r, steps[0]), steps[1..])
  }

  // Over every run: every frame belongs to a known thread throughout exactly when no such line arrives.
  lemma {:induction false} FramesAlwaysKnownIff(r: Registers, steps: seq<Step>)
    requires FramesKnown(r)
    ensures (forall k | 0 <= k <= |steps| :: FramesKnown(Run(r, steps[..k]))) <==> NeverOrphans(r, steps)
    decreases |steps|
  {
    hide FramesKnown, Route, ParsedOf, ExitsFramedThread, FramesAllThreads;
    assert steps[..0] == [];
    if steps != [] {
      var q, rest := Apply(r, steps[0]), steps[1..];
      StepKeepsKnownIff(r, steps[0]);
      forall k | 0 < k <= |steps|
        ensures Run(r, steps[..k]) == Run(q, rest[..k - 1])
      {
        assert steps[..k][0] == steps[0] && steps[..k][1..] == rest[..k - 1];
      }
      assert FramesKnown(Run(r, steps[..1])) == FramesKnown(q) by {
        assert rest[..0] == [];
      }
      if FramesKnown(q) {
        FramesAlwaysKnownIff(q, rest);
        assert (forall k | 0 <= k <= |rest| :: FramesKnown(Run(q, rest[..k])))
          <==> (forall k | 0 < k <= |steps| :: FramesKnown(Run(r, steps[..k]))) by {
          forall k | 0 <= k <= |rest|
            ensures Run(q, rest[..k]) == Run(r, steps[..k + 1])
          {
          }
        }
      }
    }
  }

  lemma StepKeepsKnownIff(r: Registers, step: Step)
    requires FramesKnown(r)
    ensures FramesKnown(Apply(r, step)) <==>
            (step.Arrived? ==> !ExitsFramedThread(r, ParsedOf(step.frame)) && !FramesAllThreads(r, ParsedOf(step.frame)))
  {
    hide ParsedOf, Route, ExitsFramedThread, FramesAllThreads;
    if step.Arrived? {
      FramesKnownIff(r, ParsedOf(step.frame));
    }
  }

  const ALL_WITH_FRAME: seq<Field> := [Field("thread-id", Const("all")), Field("frame", Tuple([]))]

  const ONE_WITH_FRAME: seq<Field> := [Field("thread-id", Const("1")), Field("frame", Tuple([]))]

  const ONE_EXITS: Record := Record.Notify(AsyncRecord(None, "thread-exited", [Field("id", Const("1"))]))

  // The first line of a session can already file a frame under no thread.
  lemma StopOfAllOrphansFrame()
    ensures !FramesKnown(After(START, StoppedRecord(ALL_WITH_FRAME)).registers)
  {
    hide GetStr, ExtractFrame, Route, After, FramesKnown, RecordPrinter.WellFormed;
    StopLookups("all");
    InitialFramesKnown();
    FramesKnownIff(INITIAL, ParsedRecord(StoppedRecord(ALL_WITH_FRAME)));
    StopIsWellFormed("all");
    RecordArrives(START, StoppedRecord(ALL_WITH_FRAME));
  }

  lemma InitialFramesKnown()
    ensures FramesKnown(INITIAL)
  {
  }

  lemma StopIsWellFormed(thread: Bytes)
    requires forall k | 0 <= k < |thread| :: thread[k] as int < 0x80
    ensures RecordPrinter.WellFormed(StoppedRecord([Field("thread-id", Const(thread)), Field("frame", Tuple([]))]))
  {
    hide ValueGrammar.WellFormedResults;
    FrameField();
    TextField("thread-id", thread, [Field("frame", Tuple([]))]);
    assert [Field("thread-id", Const(thread))] + [Field("frame", Tuple([]))]
        == [Field("thread-id", Const(thread)), Field("frame", Tuple([]))];
  }

  // A thread that stops and exits leaves its frame behind.
  lemma ThreadExitOrphansFrame()
    ensures
      var s := After(START, StoppedRecord(ONE_WITH_FRAME));
      var t := After(s, ONE_EXITS);
      FramesKnown(s.registers) && !FramesKnown(t.registers)
  {
    hide GetStr, ExtractFrame, Route, After, FramesKnown, RecordPrinter.WellFormed;
    StopLookups("1");
    ExitedId();
    InitialFramesKnown();
    FramesKnownIff(INITIAL, ParsedRecord(StoppedRecord(ONE_WITH_FRAME)));
    StopIsWellFormed("1");
    RecordArrives(START, StoppedRecord(ONE_WITH_FRAME));
    var r := Route(INITIAL, ParsedRecord(StoppedRecord(ONE_WITH_FRAME)));
    StoppedRoutes(INITIAL, ONE_WITH_FRAME);
    StopFilesFrame(INITIAL, "1", ONE_WITH_FRAME);
    ThreadExitKeepsItsFrame(r, "1", ONE_EXITS.notify.results);
    ExitIsWellFormed();
    RecordArrives(After(START, StoppedRecord(ONE_WITH_FRAME)), ONE_EXITS);
  }

  lemma ExitedId()
    ensures GetStr(ONE_EXITS.notify.results, "id") == Some("1")
  {
    FirstIs(ONE_EXITS.notify.results, 0, "id", IsConst);
  }

  lemma StopFilesFrame(r: Registers, thread: Bytes, results: seq<Field>)
    requires GetStr(results, "thread-id") == Some(thread) && ExtractFrame(results).Some?
    ensures thread in RouteStopped(r, results).frames
  {
    hide GetStr, ExtractFrame, ReasonFromResults;
  }

  lemma StoppedRoutes(r: Registers, results: seq<Field>)
    ensures Route(r, ParsedRecord(StoppedRecord(results))) == RouteStopped(r, results)
  {
    hide RouteStopped;
  }

  lemma ExitIsWellFormed()
    ensures RecordPrinter.WellFormed(ONE_EXITS)
  {
    TextField("id", "1", []);
    hide ValueGrammar.WellFormedResults;
    assert [Field("id", Const("1"))] + [] == ONE_EXITS.notify.results;
  }

  // ---- Target features ----

  // Whether an answered operation leaves no target features cached.
  predicate DropsFeatures(operation: Operation, results: seq<Field>) {
    || operation.TargetSelect? || operation.ExecRun?
    || (operation.ListTargetFeatures? && ExtractStrings(results) == {})
  }

  // The reply to a pending command drops the cached target features exactly when its class is done
  // or connected and the command was recorded as one that drops them.
  lemma TargetFeaturesDropped(r: Registers, token: nat, rr: ResultRecord)
    requires rr.token == Some(token) && token in r.pending
    requires r.features.targetFeatures != {}
    ensures RouteResult(r, rr).features.targetFeatures == {}
       <==> (rr.class_.Done? || rr.class_.Connected?) && DropsFeatures(r.pending[token].operation, rr.results)
  {
    hide ExtractStrings, UpsertedFromResults, VarCreated, VarUpdated, IsExecCommand;
    var info := r.pending[token];
    match info.operation
    case BreakInsert =>
    case BreakInfo =>
    case VarCreate(_) =>
    case VarUpdate =>
    case VarDelete(_) =>
    case ListFeatures =>
    case ListTargetFeatures =>
    case TargetSelect =>
    case ExecRun =>
    case OtherOperation =>
    case Raw =>
  }

  // A command submitted raw is recorded as nothing in particular.
  const RAW: PendingInfo := PendingInfo(Raw, "_raw")

  function StructuredInfo(operation: Bytes, parameters: seq<Bytes>): PendingInfo {
    PendingInfo(OperationFromName(operation, parameters), operation)
  }

  // In terms of what was submitted: a structured target selection or run drops them, and so does
  // a structured listing that comes back empty; the same command submitted raw never does.
  lemma SubmissionDropsFeatures(r: Registers, token: nat, rr: ResultRecord, operation: Bytes, parameters: seq<Bytes>)
    requires rr.token == Some(token) && token in r.pending
    requires r.features.targetFeatures != {}
    ensures r.pending[token] == RAW ==> RouteResult(r, rr).features.targetFeatures != {}
    ensures r.pending[token] == StructuredInfo(operation, parameters) ==>
              (RouteResult(r, rr).features.targetFeatures == {}
               <==> && (rr.class_.Done? || rr.class_.Connected?)
                    && (|| operation == "target-select" || operation == "exec-run"
                        || (operation == "list-target-features" && ExtractStrings(rr.results) == {})))
  {
    hide RouteResult, ExtractStrings, OperationFromName;
    TargetFeaturesDropped(r, token, rr);
    WireForms.OperationSpelling(operation, parameters);
    WireForms.OperationReads(TargetSelect, parameters);
    WireForms.OperationReads(ExecRun, parameters);
    WireForms.OperationReads(ListTargetFeatures, parameters);
  }

  const FEATURES_LISTED: Record := Record.Result(
    ResultRecord(Some(1), ResultClass.Done, [Field("features", List(Values([Const("async")])))]))

  const RUNNING_REPLY: Record := Record.Result(ResultRecord(Some(2), ResultClass.Running, []))

  const LIST_TARGET_FEATURES: PendingInfo := PendingInfo(ListTargetFeatures, "list-target-features")

  const EXEC_RUN: PendingInfo := PendingInfo(ExecRun, "exec-run")

  function ArrivalOf(record: Record): Step {
    Arrived(Framing.Line(RecordPrinter.PrintRecord(record)))
  }

  // The features a target had before a run are still cached when the usual answer to it has arrived.
  lemma RunKeepsStaleFeatures()
    ensures
      var q := Run(INITIAL, [Submitted(1, LIST_TARGET_FEATURES), ArrivalOf(FEATURES_LISTED),
                             Submitted(2, EXEC_RUN), ArrivalOf(RUNNING_REPLY)]);
      q.features.targetFeatures == {"async"} && q.pending == map[]
  {
    hide Route, Run, ArrivalOf;
    var r := Classification.Apply(INITIAL, Submitted(1, LIST_TARGET_FEATURES));
    ArrivalRoutes(r, FEATURES_LISTED);
    ListedIsWellFormed();
    ListingRoutes(r);
    var q := Route(r, ParsedRecord(FEATURES_LISTED));
    var t := Classification.Apply(q, Submitted(2, EXEC_RUN));
    ArrivalRoutes(t, RUNNING_REPLY);
    RunningReplyRoutes(t);
    RunFour(INITIAL, Submitted(1, LIST_TARGET_FEATURES), ArrivalOf(FEATURES_LISTED),
            Submitted(2, EXEC_RUN), ArrivalOf(RUNNING_REPLY));
  }

  const CONNECTED_REPLY: Record := Record.Result(ResultRecord(Some(2), ResultClass.Connected, []))

  // So they are when a target has been selected by a command submitted raw.
  lemma RawSelectKeepsStaleFeatures()
    ensures
      var q := Run(INITIAL, [Submitted(1, LIST_TARGET_FEATURES), ArrivalOf(FEATURES_LISTED),
                             Submitted(2, RAW), ArrivalOf(CONNECTED_REPLY)]);
      q.features.targetFeatures == {"async"} && q.pending == map[]
  {
    hide Route, Run, ArrivalOf;
    var r := Classification.Apply(INITIAL, Submitted(1, LIST_TARGET_FEATURES));
    ArrivalRoutes(r, FEATURES_LISTED);
    ListedIsWellFormed();
    ListingRoutes(r);
    var q := Route(r, ParsedRecord(FEATURES_LISTED));
    var t := Classification.Apply(q, Submitted(2, RAW));
    ArrivalRoutes(t, CONNECTED_REPLY);
    RawReplyRoutes(t, CONNECTED_REPLY.result);
    RunFour(INITIAL, Submitted(1, LIST_TARGET_FEATURES), ArrivalOf(FEATURES_LISTED),
            Submitted(2, RAW), ArrivalOf(CONNECTED_REPLY));
  }

  // No reply to a raw command changes anything but the pending map.
  lemma RawReplyRoutes(r: Registers, rr: ResultRecord)
    requires rr.token.Some? && rr.token.value in r.pending && r.pending[rr.token.value] == RAW
    ensures Route(r, ParsedRecord(Record.Result(rr))) == r.(pending := r.pending - {rr.token.value})
  {
  }

  lemma RunFour(r: Registers, a: Step, b: Step, c: Step, d: Step)
    ensures Run(r, [a, b, c, d])
         == Classification.Apply(Classification.Apply(Classification.Apply(Classification.Apply(r, a), b), c), d)
  {
    hide Classification.Apply;
    var q := Classification.Apply(Classification.Apply(r, a), b);
    assert [a, b, c, d][1..] == [b, c, d] && [b, c, d][1..] == [c, d] && [c, d][1..] == [d] && [d][1..] == [];
    assert Run(r, [a, b, c, d]) == Run(Classification.Apply(r, a), [b, c, d]) == Run(q, [c, d]);
    assert Run(q, [c, d]) == Run(Classification.Apply(q, c), [d]);
  }

  lemma ArrivalRoutes(r: Registers, record: Record)
    ensures RecordPrinter.WellFormed(record) ==>
              Classification.Apply(r, ArrivalOf(record)) == Route(r, ParsedRecord(record))
  {
    hide Route, RecordPrinter.WellFormed, RecordPrinter.PrintRecord;
    if RecordPrinter.WellFormed(record) {
      RecordPrinter.RecordRoundTrip(record);
    }
  }

  lemma ListedIsWellFormed()
    ensures RecordPrinter.WellFormed(FEATURES_LISTED)
  {
    hide ValueGrammar.WellFormedValue;
    OneTextIsWellFormed("async");
    assert FEATURES_LISTED.result.results[1..] == [];
    assert ValueGrammar.WellFormedResults([]);
  }

  lemma OneTextIsWellFormed(text: Bytes)
    requires forall k | 0 <= k < |text| :: text[k] as int < 0x80
    ensures ValueGrammar.WellFormedValue(List(Values([Const(text)])))
  {
    Utf8.AsciiIsValid(text);
    hide Utf8.Valid;
    assert [Const(text)][1..] == [];
    assert ValueGrammar.WellFormedElements([]);
    assert ValueGrammar.WellFormedValue(Const(text));
    assert ValueGrammar.WellFormedElements([Const(text)]);
  }

  lemma ListingRoutes(r: Registers)
    requires 1 in r.pending && r.pending[1] == LIST_TARGET_FEATURES
    ensures
      var q := Route(r, ParsedRecord(FEATURES_LISTED));
      q.features.targetFeatures == {"async"} && q.pending == r.pending - {1}
  {
    var results := FEATURES_LISTED.result.results;
    FirstIs(results, 0, "features", IsAny);
    hide Find;
    var values := [Const("async")];
    assert GetList(results, "features") == Some(Values(values));
    assert values[0] in values;
    assert StringsOf(values) == {"async"};
  }

  lemma RunningReplyRoutes(r: Registers)
    ensures
      var q := Route(r, ParsedRecord(RUNNING_REPLY));
      q.features == r.features && q.pending == r.pending - {2}
  {
  }

  // ---- Failed execution commands ----

  // A failed command makes the state of the target unknown, and drops its frames, exactly when it
  // is recorded under a name of an execution command. A raw one never is, whatever it runs.
  lemma FailureMakesUnknownIff(r: Registers, token: nat, rr: ResultRecord, operation: Bytes, parameters: seq<Bytes>)
    requires rr.token == Some(token) && token in r.pending && rr.class_.Error? && !r.target.Unknown?
    ensures
      var q, unknown := RouteResult(r, rr), IsExecCommand(r.pending[token]);
      && (q.target.Unknown? <==> unknown)
      && q.frames == (if unknown then map[] else r.frames)
      && (!unknown ==> q.target == r.target)
    ensures r.pending[token] == RAW ==>
              RouteResult(r, rr).target == r.target && RouteResult(r, rr).frames == r.frames
    ensures r.pending[token] == StructuredInfo(operation, parameters) ==>
              (RouteResult(r, rr).target.Unknown? <==> |operation| >= 5 && operation[..5] == "exec-")
  {
    hide OperationFromName;
    assert RAW.operationName[0] != 'e';
  }

  const ERROR_REPLY: Record := Record.Result(ResultRecord(Some(2), ResultClass.Error, []))

  // The failure of a run submitted raw leaves the target stopped, with its frame.
  lemma RawFailureKeepsTarget()
    ensures
      var q := Run(INITIAL, [ArrivalOf(StoppedRecord(ONE_WITH_FRAME)), Submitted(2, RAW), ArrivalOf(ERROR_REPLY)]);
      q.target.Stopped? && "1" in q.frames && q.pending == map[]
  {
    hide Route, Run, ArrivalOf, GetStr, ExtractFrame, RecordPrinter.WellFormed;
    StopLookups("1");
    StopIsWellFormed("1");
    ErrorIsWellFormed();
    ArrivalRoutes(INITIAL, StoppedRecord(ONE_WITH_FRAME));
    StoppedRoutes(INITIAL, ONE_WITH_FRAME);
    StopFilesFrame(INITIAL, "1", ONE_WITH_FRAME);
    StopStops(INITIAL, ONE_WITH_FRAME);
    var r := Route(INITIAL, ParsedRecord(StoppedRecord(ONE_WITH_FRAME)));
    var t := Classification.Apply(r, Submitted(2, RAW));
    ArrivalRoutes(t, ERROR_REPLY);
    RawReplyRoutes(t, ERROR_REPLY.result);
    RunThree(INITIAL, ArrivalOf(StoppedRecord(ONE_WITH_FRAME)), Submitted(2, RAW), ArrivalOf(ERROR_REPLY));
  }

  lemma ErrorIsWellFormed()
    ensures RecordPrinter.WellFormed(ERROR_REPLY)
  {
  }

  lemma StopStops(r: Registers, results: seq<Field>)
    requires GetStr(results, "reason") == None
    ensures RouteStopped(r, results).target.Stopped? && RouteStopped(r, results).pending == r.pending
  {
    hide GetStr, ExtractFrame, Threads.SetState;
  }

  lemma RunThree(r: Registers, a: Step, b: Step, c: Step)
    ensures Run(r, [a, b, c]) == Classification.Apply(Classification.Apply(Classification.Apply(r, a), b), c)
  {
    hide Classification.Apply;
    var q := Classification.Apply(Classification.Apply(r, a), b);
    assert [a, b, c][1..] == [b, c] && [b, c][1..] == [c] && [c][1..] == [];
    assert Run(r, [a, b, c]) == Run(Classification.Apply(r, a), [b, c]) == Run(q, [c]);
  }
}
