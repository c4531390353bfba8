// What an event tells its reader about the line it came from.
//
// `ReportOf` reads an event back into the prefix, token, class and results it
// reports, without knowing how events are made. The main result is that what
// is read off the queue is what the line said.
module Reports {
  import opened Octets
  import opened Wrappers
  import opened Ast
  import opened ResultsView
  import opened Events
  import opened Registries
  import opened Classification
  import opened WireForms
  import Boundaries
  import CString
  import Decimal
  import Framing
  import RecordPrinter
  import RecordSyntax
  import Threads
  import Utf8
  import ValueGrammar

  datatype Report =
    | Told(prefix: Byte, token: Option<nat>, class_: Bytes, results: Option<seq<Field>>)
    | Said(prefix: Byte, text: Bytes)
    | Whole(record: Record)
    | Prompt
    | Garbled(error: CodecError, line: Bytes)

  // What is not in the event is left out of the report.
  ghost function ReportOf(e: Event): Report {
    match e
    case CommandCompleted(handle, Done(results)) => Told('^', Some(handle), "done", Some(results))
    case CommandCompleted(handle, Connected(results)) => Told('^', Some(handle), "connected", Some(results))
    case CommandCompleted(handle, Running) => Told('^', Some(handle), "running", None)
    case CommandCompleted(handle, Exit) => Told('^', Some(handle), "exit", None)
    case CommandCompleted(handle, Error(_, _)) => Told('^', Some(handle), "error", None)
    case StoppedAt(stop) => Told('*', None, "stopped", Some(stop.raw))
    case RunningAt(_) => Told('*', None, "running", None)
    case StatusOf(class_, results) => Told('+', None, class_, Some(results))
    case Notified(class_, results) => Told('=', None, class_, Some(results))
    case ConsoleText(text) => Said('~', text)
    case TargetOutput(text) => Said('@', text)
    case LogText(text) => Said('&', text)
    case UnknownRecord(record) => Whole(record)
    case GroupClosed => Prompt
    case ParseError(error, line) => Garbled(error, line)
  }

  // A record for which there is no event of its own.
  predicate Untold(record: Record) {
    || (record.Result? && record.result.token.None?)
    || (record.Exec? && record.exec.class_ != "running" && record.exec.class_ != "stopped")
  }

  // The line says what the report says.
  ghost predicate Says(line: Bytes, report: Report) {
    match report
    case Told(prefix, token, class_, results) =>
      exists t: Option<nat>, rs: seq<Field> ::
        && line == RecordPrinter.PrintToken(t) + ([prefix] + (class_ + RecordPrinter.PrintTrailing(rs)))
        && (token.Some? ==> t == token) && (results.Some? ==> rs == results.value)
    case Said(prefix, text) => line == [prefix] + CString.Encode(text)
    case Whole(record) => line == RecordPrinter.PrintRecord(record) && Untold(record)
    case Prompt => Framing.FrameOf(line) == Framing.GroupTerminator
    case Garbled(error, raw) => raw == line && RecordSyntax.ParseRecord(line) == Failure(error)
  }

  lemma Tells(line: Bytes, report: Report, t: Option<nat>, rs: seq<Field>)
    requires report.Told?
    requires line == RecordPrinter.PrintToken(t) + ([report.prefix] + (report.class_ + RecordPrinter.PrintTrailing(rs)))
    requires (report.token.Some? ==> t == report.token) && (report.results.Some? ==> rs == report.results.value)
    ensures Says(line, report)
  {
    hide RecordPrinter.PrintToken, RecordPrinter.PrintTrailing;
  }

  lemma ResultTold(rr: ResultRecord)
    ensures Says(RecordPrinter.PrintRecord(Record.Result(rr)), ReportOf(EventOfRecord(Record.Result(rr))))
  {
    hide GetStr, RecordPrinter.PrintToken, RecordPrinter.PrintTrailing;
    if rr.token.Some? {
      Tells(RecordPrinter.PrintRecord(Record.Result(rr)), ReportOf(EventOfRecord(Record.Result(rr))), rr.token, rr.results);
    }
  }

  lemma ExecTold(ar: AsyncRecord)
    ensures Says(RecordPrinter.PrintRecord(Record.Exec(ar)), ReportOf(EventOfRecord(Record.Exec(ar))))
  {
    hide GetStr, ExtractFrame, ReasonFromResults, RecordPrinter.PrintToken, RecordPrinter.PrintTrailing;
    if ar.class_ == "running" || ar.class_ == "stopped" {
      Tells(RecordPrinter.PrintRecord(Record.Exec(ar)), ReportOf(EventOfRecord(Record.Exec(ar))), ar.token, ar.results);
    }
  }

  lemma OthersTold(record: Record)
    requires !record.Result? && !record.Exec?
    ensures Says(RecordPrinter.PrintRecord(record), ReportOf(EventOfRecord(record)))
  {
    hide CString.Encode, RecordPrinter.PrintToken, RecordPrinter.PrintTrailing;
    match record
    case Status(ar) =>
      Tells(RecordPrinter.PrintRecord(record), ReportOf(EventOfRecord(record)), ar.token, ar.results);
    case Notify(ar) =>
      Tells(RecordPrinter.PrintRecord(record), ReportOf(EventOfRecord(record)), ar.token, ar.results);
    case _ =>
  }

  // The event of every record reports what the record's line says.
  lemma RecordTold(record: Record)
    ensures Says(RecordPrinter.PrintRecord(record), ReportOf(EventOfRecord(record)))
  {
    hide Says, EventOfRecord, ReportOf, RecordPrinter.PrintRecord;
    match record
    case Result(rr) => ResultTold(rr);
    case Exec(ar) => ExecTold(ar);
    case _ => OthersTold(record);
  }

  // What is read off the queue is what the line said.
  lemma ArrivalIsTold(s: Inbound, record: Record)
    requires s.live == [] && RecordPrinter.WellFormed(record)
    ensures
      var t := Boundaries.After(s, record);
      && |t.events| == |s.events| + 1 && t.events[..|s.events|] == s.events
      && Says(RecordPrinter.PrintRecord(record), ReportOf(t.events[|s.events|]))
  {
    hide Boundaries.After, Says, ReportOf, EventOfRecord, RecordPrinter.PrintRecord, RecordPrinter.WellFormed, Route;
    Boundaries.RecordArrives(s, record);
    RecordTold(record);
  }

  // A prompt is reported as one, and a line that is no record with what is wrong with it.
  lemma OtherLinesTold(line: Bytes)
    requires Framing.FrameOf(line).GroupTerminator? || Framing.FrameOf(line) == Framing.Line(line)
    requires Framing.FrameOf(line).Line? ==> RecordSyntax.ParseRecord(line).Failure?
    ensures Says(line, ReportOf(EventOf(ParsedOf(Framing.FrameOf(line)))))
  {
    hide RecordSyntax.ParseRecord, Framing.FrameOf;
  }

  // ---- The parts of an outcome ----

  // The message and the code of a failure are the texts under those names; no message is an empty one.
  lemma ErrorIsTold(token: nat, msg: Option<Bytes>, code: Option<Bytes>, rest: seq<Field>)
    requires GetStr(rest, "msg") == None && GetStr(rest, "code") == None
    ensures
      var results := TextField("msg", msg) + (TextField("code", code) + rest);
      EventOfRecord(Record.Result(ResultRecord(Some(token), ResultClass.Error, results)))
      == CommandCompleted(token, CommandOutcome.Error(if msg.Some? then msg.value else [], code))
  {
    hide GetStr, GetList, TextField;
    var tail := TextField("code", code) + rest;
    TextReads("msg", msg, tail, "msg");
    TextReads("msg", msg, tail, "code");
    TextReads("code", code, rest, "msg");
    TextReads("code", code, rest, "code");
  }

  lemma RunningIsTold(token: Option<nat>, results: seq<Field>, k: nat, thread: Bytes)
    requires FirstTextAt(results, k, "thread-id", thread)
    ensures EventOfRecord(Record.Exec(AsyncRecord(token, "running", results))) == RunningAt(Some(thread))
  {
    GetStrIff(results, "thread-id", thread);
    hide GetStr;
  }

  // ---- Stops ----

  // The thread of a stop is its first thread text, its frame what stands in its first frame tuple,
  // whatever fields surround them; and that frame becomes the frame of that thread.
  lemma FrameIsTold(r: Registers, results: seq<Field>, i: nat, thread: Bytes, k: nat, frame: Frame)
    requires FirstTextAt(results, i, "thread-id", thread)
    requires FirstTupleAt(results, k, "frame", FrameFields(frame)) && FitsU32(frame.level) && FitsU32(frame.line)
    ensures StopOf(results).thread == Some(thread) && StopOf(results).frame == Some(frame)
    ensures StopOf(results).raw == results
    ensures
      var q := RouteStopped(r, results);
      thread in q.frames && q.frames[thread] == frame
  {
    GetStrIff(results, "thread-id", thread);
    GetTupleIff(results, "frame", FrameFields(frame));
    FrameReads(frame);
    hide GetStr, GetTuple, ReasonFromResults, FrameFromResults, FrameFields, Threads.SetState;
  }

  // A stop that carries no frame tuple reports none, and files none.
  lemma NoFrameIsTold(r: Registers, results: seq<Field>)
    requires forall k | 0 <= k < |results| :: results[k].name == "frame" ==> !results[k].value.Tuple?
    ensures StopOf(results).frame == None
    ensures RouteStopped(r, results).frames.Keys <= r.frames.Keys
  {
    forall fields {
      GetTupleIff(results, "frame", fields);
    }
    hide GetTuple, GetStr, ReasonFromResults, Threads.SetState;
  }

  // A stop written with its reason, thread and frame.
  function StopFields(reason: StoppedReason, thread: Bytes, frame: Frame): seq<Field> {
    TextField("reason", Some(ReasonName(reason)))
    + (TextField(PayloadName(reason), Payload(reason))
       + (TextField("thread-id", Some(thread)) + [Field("frame", Tuple(FrameFields(frame)))]))
  }

  lemma StopText(reason: StoppedReason, thread: Bytes, frame: Frame)
    requires Documented(reason)
    ensures
      var results := StopFields(reason, thread, frame);
      && GetStr(results, "reason") == Some(ReasonName(reason))
      && GetStr(results, PayloadName(reason)) == Payload(reason)
      && GetStr(results, "thread-id") == Some(thread)
  {
    hide GetStr, GetList, TextField, ReasonName, Payload, FrameFields;
    assert PayloadName(reason) != "reason" && PayloadName(reason) != "thread-id" && PayloadName(reason) != "frame";
    hide PayloadName;
    var last := [Field("frame", Tuple(FrameFields(frame)))];
    var tail2 := TextField("thread-id", Some(thread)) + last;
    var tail1 := TextField(PayloadName(reason), Payload(reason)) + tail2;
    TextReads("reason", Some(ReasonName(reason)), tail1, "reason");
    TextReads("reason", Some(ReasonName(reason)), tail1, PayloadName(reason));
    TextReads("reason", Some(ReasonName(reason)), tail1, "thread-id");
    TextReads(PayloadName(reason), Payload(reason), tail2, PayloadName(reason));
    TextReads(PayloadName(reason), Payload(reason), tail2, "thread-id");
    TextReads("thread-id", Some(thread), last, PayloadName(reason));
    TextReads("thread-id", Some(thread), last, "thread-id");
    TupleHasNoText(FrameFields(frame), PayloadName(reason));
  }

  lemma TupleHasNoText(fields: seq<Field>, wanted: Bytes)
    ensures GetStr([Field("frame", Tuple(fields))], wanted) == None
  {
    assert [Field("frame", Tuple(fields))][1..] == [];
  }

  lemma WrittenReasonReads(reason: StoppedReason, thread: Bytes, frame: Frame)
    requires Documented(reason)
    ensures ReasonFromResults(StopFields(reason, thread, frame)) == Some(reason)
  {
    hide GetStr, StopFields, ParseI32;
    StopText(reason, thread, frame);
    if reason.ExitedWith? && reason.exitCode.Some? {
      IntReads(reason.exitCode.value);
    }
  }

  lemma WrittenFrameReads(reason: StoppedReason, thread: Bytes, frame: Frame)
    requires Documented(reason) && FitsU32(frame.level) && FitsU32(frame.line)
    ensures ExtractFrame(StopFields(reason, thread, frame)) == Some(frame)
  {
    var results := StopFields(reason, thread, frame);
    var k := |results| - 1;
    assert results[k] == Field("frame", Tuple(FrameFields(frame))) by {
      hide FrameFields, ReasonName, PayloadName, Payload;
    }
    assert FirstTupleAt(results, k, "frame", FrameFields(frame)) by {
      hide FrameFields, ReasonName, PayloadName, Payload;
    }
    GetTupleIff(results, "frame", FrameFields(frame));
    FrameReads(frame);
    hide GetTuple, FrameFromResults, FrameFields, StopFields;
  }

  // A written stop is told whole: reason with its payload, thread and frame.
  lemma StopIsTold(reason: StoppedReason, thread: Bytes, frame: Frame)
    requires Documented(reason) && FitsU32(frame.level) && FitsU32(frame.line)
    ensures
      var results := StopFields(reason, thread, frame);
      StopOf(results) == StoppedEvent(Some(reason), Some(thread), Some(frame), results)
  {
    hide GetStr, StopFields, ReasonFromResults, ExtractFrame;
    StopText(reason, thread, frame);
    WrittenReasonReads(reason, thread, frame);
    WrittenFrameReads(reason, thread, frame);
  }

  // The target a written stop leaves: the three exit spellings end it, with the code they give; any
  // other stops it, at that thread and for that reason.
  lemma StopSetsTarget(r: Registers, reason: StoppedReason, thread: Bytes, frame: Frame)
    requires Documented(reason)
    ensures
      var target := RouteStopped(r, StopFields(reason, thread, frame)).target;
      var name := ReasonName(reason);
      && (target.Exited? <==> name in {"exited-normally", "exited", "exited-signalled"})
      && (name == "exited-normally" ==> target.exitCode == Some(0))
      && (name == "exited" ==> target.exitCode == reason.exitCode)
      && (name == "exited-signalled" ==> target.exitCode == None)
      && (!target.Exited? ==> target == TargetState.Stopped(Some(thread), Some(reason)))
  {
    hide GetStr, StopFields, ReasonFromResults, ExtractFrame, Threads.SetState;
    StopText(reason, thread, frame);
    WrittenReasonReads(reason, thread, frame);
  }

  // ---- Lines as GDB writes them ----

  lemma {:induction false} PlainEncodes(text: Bytes)
    requires forall k | 0 <= k < |text| :: text[k] != '"' && text[k] != '\\' && !CString.IsControl(text[k])
    ensures CString.EncodeBody(text) == text
  {
    if text != [] {
      PlainEncodes(text[1..]);
      assert CString.EncodeByte(text[0]) == [text[0]];
    }
  }

  const VALUE_REPLY: Record :=
    Record.Result(ResultRecord(Some(1), ResultClass.Done, [Field("value", Const("42"))]))

  // The reply to an evaluation, byte for byte, and what its caller is given.
  lemma ValueLine(line: Bytes) returns (record: Record)
    requires line == "1^done,value=\"42\""
    ensures RecordSyntax.ParseRecord(line) == Success(record)
    ensures EventOfRecord(record) == CommandCompleted(1, CommandOutcome.Done([Field("value", Const("42"))]))
  {
    hide RecordSyntax.ParseRecord, RecordPrinter.PrintRecord, RecordPrinter.WellFormed;
    ValueText();
    ValueIsWellFormed();
    RecordPrinter.RecordRoundTrip(VALUE_REPLY);
    record := VALUE_REPLY;
  }

  lemma ValueText()
    ensures RecordPrinter.PrintRecord(VALUE_REPLY) == "1^done,value=\"42\""
  {
    PlainEncodes("42");
    var quoted := CString.Encode("42");
    assert quoted == "\"42\"";
    OneTextPrints("value", "42");
    var trailing := RecordPrinter.PrintTrailing(VALUE_REPLY.result.results);
    assert trailing == ",value=\"42\"";
    hide CString.Encode, RecordPrinter.PrintTrailing;
    assert Decimal.Text(1) == "1";
    assert RecordPrinter.PrintRecord(VALUE_REPLY) == "1" + (['^'] + ("done" + trailing));
  }

  lemma OneTextPrints(name: Bytes, text: Bytes)
    ensures RecordPrinter.PrintTrailing([Field(name, Const(text))]) == [','] + (name + ['='] + CString.Encode(text))
  {
    hide CString.Encode;
    var results := [Field(name, Const(text))];
    assert results[1..] == [];
    assert RecordPrinter.PrintTrailing([]) == [];
  }

  lemma ValueIsWellFormed()
    ensures RecordPrinter.WellFormed(VALUE_REPLY)
  {
    Utf8.AsciiIsValid("42");
    hide Utf8.Valid;
    assert VALUE_REPLY.result.results[1..] == [];
    assert ValueGrammar.WellFormedResults([]);
  }

  function Reply(c: ResultClass): Record {
    Record.Result(ResultRecord(None, c, []))
  }

  // GDB's spelling of the five result classes.
  function Spelling(c: ResultClass): Bytes {
    match c
    case Done => "^done"
    case Running => "^running"
    case Connected => "^connected"
    case Error => "^error"
    case Exit => "^exit"
  }

  lemma ReplyLine(c: ResultClass)
    ensures RecordSyntax.ParseRecord(Spelling(c)) == Success(Reply(c))
  {
    hide RecordSyntax.ParseRecord;
    BareReply(c);
    assert Spelling(c) == ['^'] + ClassName(c);
  }

  // One line of each kind of asynchronous output.
  lemma AsyncLine(line: Bytes)
    ensures line == "*stopped" ==>
              RecordSyntax.ParseRecord(line) == Success(Record.Exec(AsyncRecord(None, "stopped", [])))
    ensures line == "+download" ==>
              RecordSyntax.ParseRecord(line) == Success(Record.Status(AsyncRecord(None, "download", [])))
    ensures line == "=library" ==>
              RecordSyntax.ParseRecord(line) == Success(Record.Notify(AsyncRecord(None, "library", [])))
  {
    hide RecordSyntax.ParseRecord;
    BareAsync(Record.Exec(AsyncRecord(None, "stopped", [])), '*', "stopped");
    BareAsync(Record.Status(AsyncRecord(None, "download", [])), '+', "download");
    BareAsync(Record.Notify(AsyncRecord(None, "library", [])), '=', "library");
    assert ['*'] + "stopped" == "*stopped" && ['+'] + "download" == "+download" && ['='] + "library" == "=library";
  }

  lemma BareReply(c: ResultClass)
    ensures RecordSyntax.ParseRecord(['^'] + ClassName(c)) == Success(Reply(c))
  {
    hide ClassName, RecordSyntax.ParseRecord;
    RecordPrinter.RecordRoundTrip(Reply(c));
    assert [] + (['^'] + (ClassName(c) + [])) == ['^'] + ClassName(c);
  }

  lemma BareAsync(record: Record, prefix: Byte, class_: Bytes)
    requires ValueGrammar.IsIdentifier(class_)
    requires || (prefix == '*' && record == Record.Exec(AsyncRecord(None, class_, [])))
             || (prefix == '+' && record == Record.Status(AsyncRecord(None, class_, [])))
             || (prefix == '=' && record == Record.Notify(AsyncRecord(None, class_, [])))
    ensures RecordSyntax.ParseRecord([prefix] + class_) == Success(record)
  {
    hide RecordSyntax.ParseRecord, ValueGrammar.IsIdentifier;
    RecordPrinter.RecordRoundTrip(record);
    assert [] + ([prefix] + (class_ + [])) == [prefix] + class_;
  }
}
