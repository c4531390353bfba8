// Typed values written as result lists, and read back.
//
// The protocol layer turns result lists into typed values at ingress. Here
// each type is written out under its documented field names, and reading is
// proved to undo writing: no field is dropped, confused with another, or
// taken from the wrong place.
module WireForms {
  import opened Octets
  import opened Wrappers
  import opened Ast
  import opened ResultsView
  import opened Events
  import opened Registries
  import Decimal

  // ---- Fields ----

  function TextField(name: Bytes, text: Option<Bytes>): seq<Field> {
    if text.Some? then [Field(name, Const(text.value))] else []
  }

  function NatField(name: Bytes, n: Option<nat>): seq<Field> {
    TextField(name, if n.Some? then Some(Decimal.Text(n.value)) else None)
  }

  function BoolField(name: Bytes, b: bool): seq<Field> {
    TextField(name, Some(if b then "y" else "n"))
  }

  function IntText(i: int): Bytes {
    if i < 0 then ['-'] + Decimal.Text(-i) else Decimal.Text(i)
  }

  // A text in front of other fields is what its name looks up, and nothing else sees it.
  lemma TextReads(name: Bytes, text: Option<Bytes>, rest: seq<Field>, wanted: Bytes)
    ensures GetStr(TextField(name, text) + rest, wanted)
         == if name == wanted && text.Some? then text else GetStr(rest, wanted)
    ensures GetList(TextField(name, text) + rest, wanted)
         == if name == wanted && text.Some? then None else GetList(rest, wanted)
  {
    var all := TextField(name, text) + rest;
    if text.Some? {
      assert all[0] == Field(name, Const(text.value)) && all[1..] == rest;
    } else {
      assert all == rest;
    }
  }

  lemma NothingReads(wanted: Bytes)
    ensures GetStr([], wanted) == None && GetList([], wanted) == None
  {
  }

  lemma NatReads(n: nat)
    requires n <= 0xFFFF_FFFF
    ensures ParseU32(Decimal.Text(n)) == Some(n)
  {
    Decimal.ValueOfText(n);
    assert IsDigit(Decimal.Text(n)[0]);
  }

  // Every 32-bit signed number reads back from its decimal form, and nothing out of range does.
  lemma IntReads(i: int)
    ensures ParseI32(IntText(i)) == if -0x8000_0000 <= i <= 0x7FFF_FFFF then Some(i) else None
  {
    var n: nat := if i < 0 then -i else i;
    Decimal.ValueOfText(n);
    assert IsDigit(Decimal.Text(n)[0]);
    if i < 0 {
      assert IntText(i)[1..] == Decimal.Text(n);
    }
  }

  // ---- Frames ----

  ghost predicate FitsU32(n: Option<nat>) {
    n.Some? ==> n.value <= 0xFFFF_FFFF
  }

  function FrameFields(f: Frame): seq<Field> {
    NatField("level", f.level) + (TextField("func", f.func) + (TextField("file", f.file)
    + (TextField("fullname", f.fullname) + (NatField("line", f.line) + (TextField("addr", f.addr) + [])))))
  }

  lemma FrameText(f: Frame, wanted: Bytes)
    ensures
      GetStr(FrameFields(f), wanted)
      == if wanted == "level" then NatText(f.level)
         else if wanted == "func" then f.func
         else if wanted == "file" then f.file
         else if wanted == "fullname" then f.fullname
         else if wanted == "line" then NatText(f.line)
         else if wanted == "addr" then f.addr
         else None
  {
    hide GetStr, GetList, TextField;
    var tail5 := TextField("addr", f.addr) + [];
    var tail4 := NatField("line", f.line) + tail5;
    var tail3 := TextField("fullname", f.fullname) + tail4;
    var tail2 := TextField("file", f.file) + tail3;
    var tail1 := TextField("func", f.func) + tail2;
    TextReads("level", NatText(f.level), tail1, wanted);
    TextReads("func", f.func, tail2, wanted);
    TextReads("file", f.file, tail3, wanted);
    TextReads("fullname", f.fullname, tail4, wanted);
    TextReads("line", NatText(f.line), tail5, wanted);
    TextReads("addr", f.addr, [], wanted);
    NothingReads(wanted);
  }

  function NatText(n: Option<nat>): Option<Bytes> {
    if n.Some? then Some(Decimal.Text(n.value)) else None
  }

  lemma FrameReads(f: Frame)
    requires FitsU32(f.level) && FitsU32(f.line)
    ensures FrameFromResults(FrameFields(f)) == f
  {
    hide GetStr, FrameFields, ParseU32;
    FrameText(f, "level");
    FrameText(f, "func");
    FrameText(f, "file");
    FrameText(f, "fullname");
    FrameText(f, "line");
    FrameText(f, "addr");
    if f.level.Some? {
      NatReads(f.level.value);
    }
    if f.line.Some? {
      NatReads(f.line.value);
    }
  }

  // ---- Stop reasons ----

  // The documented spelling of a reason and the field its payload travels in.
  function ReasonName(r: StoppedReason): Bytes {
    match r
    case BreakpointHit(_) => "breakpoint-hit"
    case WatchpointTrigger => "watchpoint-trigger"
    case FunctionFinished => "function-finished"
    case LocationReached => "location-reached"
    case EndSteppingRange => "end-stepping-range"
    case ExitedNormally => "exited-normally"
    case ExitedWith(_) => "exited"
    case ExitedSignalled(_) => "exited-signalled"
    case SignalReceived(_) => "signal-received"
    case Fork => "fork"
    case Vfork => "vfork"
    case Exec => "exec"
    case SyscallEntry(_) => "syscall-entry"
    case SyscallReturn(_) => "syscall-return"
    case Other(reason) => reason
  }

  function PayloadName(r: StoppedReason): Bytes {
    match r
    case BreakpointHit(_) => "bkptno"
    case ExitedWith(_) => "exit-code"
    case ExitedSignalled(_) => "signal-name"
    case SignalReceived(_) => "signal-name"
    case SyscallEntry(_) => "syscall-name"
    case SyscallReturn(_) => "syscall-name"
    case _ => "none"
  }

  function Payload(r: StoppedReason): Option<Bytes> {
    match r
    case BreakpointHit(bkptno) => bkptno
    case ExitedWith(Some(code)) => Some(IntText(code))
    case ExitedSignalled(name) => name
    case SignalReceived(name) => name
    case SyscallEntry(name) => name
    case SyscallReturn(name) => name
    case _ => None
  }

  // What only ever arises from an undocumented spelling or an unreadable number is left aside.
  ghost predicate Documented(r: StoppedReason) {
    !r.Other? && (r.ExitedWith? && r.exitCode.Some? ==> -0x8000_0000 <= r.exitCode.value <= 0x7FFF_FFFF)
  }

  function ReasonFields(r: StoppedReason): seq<Field> {
    TextField("reason", Some(ReasonName(r))) + (TextField(PayloadName(r), Payload(r)) + [])
  }

  lemma ReasonText(r: StoppedReason)
    ensures GetStr(ReasonFields(r), "reason") == Some(ReasonName(r))
    ensures PayloadName(r) != "reason" ==> GetStr(ReasonFields(r), PayloadName(r)) == Payload(r)
  {
    hide GetStr, GetList, TextField, ReasonName, PayloadName, Payload;
    var tail := TextField(PayloadName(r), Payload(r)) + [];
    TextReads("reason", Some(ReasonName(r)), tail, "reason");
    TextReads("reason", Some(ReasonName(r)), tail, PayloadName(r));
    TextReads(PayloadName(r), Payload(r), [], PayloadName(r));
    NothingReads(PayloadName(r));
  }

  lemma ReasonReads(r: StoppedReason)
    requires Documented(r)
    ensures ReasonFromResults(ReasonFields(r)) == Some(r)
  {
    hide GetStr, ReasonFields, ParseI32;
    ReasonText(r);
    if r.ExitedWith? && r.exitCode.Some? {
      IntReads(r.exitCode.value);
    }
  }

  // A reason is read if and only if one is given, and under its own spelling;
  // no documented spelling falls through to the open-ended variant.
  lemma ReasonSpelling(results: seq<Field>)
    ensures ReasonFromResults(results).None? <==> GetStr(results, "reason").None?
    ensures ReasonFromResults(results).Some? ==>
              GetStr(results, "reason") == Some(ReasonName(ReasonFromResults(results).value))
    ensures ReasonFromResults(results).Some? && ReasonFromResults(results).value.Other? ==>
              !IsDocumentedName(ReasonFromResults(results).value.reason)
  {
    OtherIsUndocumented(results);
    hide GetStr, GetI32, IsDocumentedName;
  }

  lemma OtherIsUndocumented(results: seq<Field>)
    ensures ReasonFromResults(results).Some? && ReasonFromResults(results).value.Other? ==>
              !IsDocumentedName(ReasonFromResults(results).value.reason)
  {
    hide GetStr, GetI32;
  }

  predicate IsDocumentedName(name: Bytes) {
    name in {"breakpoint-hit", "watchpoint-trigger", "function-finished", "location-reached",
             "end-stepping-range", "exited-normally", "exited", "exited-signalled", "signal-received",
             "fork", "vfork", "exec", "syscall-entry", "syscall-return"}
  }

  // ---- Breakpoints ----

  function LocationFields(l: Location): seq<Field> {
    TextField("number", l.number) + (TextField("addr", l.addr) + (TextField("func", l.func)
    + (TextField("file", l.file) + (TextField("fullname", l.fullname) + (NatField("line", l.line)
    + (BoolField("enabled", l.enabled) + []))))))
  }

  function LocationList(ls: seq<Location>): seq<Value> {
    if ls == [] then [] else [Tuple(LocationFields(ls[0]))] + LocationList(ls[1..])
  }

  function BreakpointFields(b: Breakpoint): seq<Field> {
    TextField("number", Some(b.id)) + (TextField("type", b.kind) + (TextField("disp", b.disp)
    + (BoolField("enabled", b.enabled) + (NatField("times", b.times)
    + [Field("locations", List(Values(LocationList(b.locations))))]))))
  }

  lemma LocationText(l: Location, wanted: Bytes)
    ensures
      GetStr(LocationFields(l), wanted)
      == if wanted == "number" then l.number
         else if wanted == "addr" then l.addr
         else if wanted == "func" then l.func
         else if wanted == "file" then l.file
         else if wanted == "fullname" then l.fullname
         else if wanted == "line" then NatText(l.line)
         else if wanted == "enabled" then Some(if l.enabled then "y" else "n")
         else None
  {
    hide GetStr, GetList, TextField;
    var tail6 := BoolField("enabled", l.enabled) + [];
    var tail5 := NatField("line", l.line) + tail6;
    var tail4 := TextField("fullname", l.fullname) + tail5;
    var tail3 := TextField("file", l.file) + tail4;
    var tail2 := TextField("func", l.func) + tail3;
    var tail1 := TextField("addr", l.addr) + tail2;
    TextReads("number", l.number, tail1, wanted);
    TextReads("addr", l.addr, tail2, wanted);
    TextReads("func", l.func, tail3, wanted);
    TextReads("file", l.file, tail4, wanted);
    TextReads("fullname", l.fullname, tail5, wanted);
    TextReads("line", NatText(l.line), tail6, wanted);
    TextReads("enabled", Some(if l.enabled then "y" else "n"), [], wanted);
    NothingReads(wanted);
  }

  lemma LocationReads(l: Location)
    requires FitsU32(l.line)
    ensures LocationFromResults(LocationFields(l)) == l
  {
    hide GetStr, LocationFields, ParseU32;
    LocationText(l, "number");
    LocationText(l, "addr");
    LocationText(l, "func");
    LocationText(l, "file");
    LocationText(l, "fullname");
    LocationText(l, "line");
    LocationText(l, "enabled");
    if l.line.Some? {
      NatReads(l.line.value);
    }
  }

  lemma LocationsStep(fields: seq<Field>, rest: seq<Value>)
    ensures LocationsOf([Tuple(fields)] + rest) == [LocationFromResults(fields)] + LocationsOf(rest)
  {
    hide LocationFromResults;
    var all := [Tuple(fields)] + rest;
    assert all[0] == Tuple(fields) && all[1..] == rest;
  }

  lemma {:induction false} LocationsRead(ls: seq<Location>)
    requires forall k | 0 <= k < |ls| :: FitsU32(ls[k].line)
    ensures LocationsOf(LocationList(ls)) == ls
  {
    if ls != [] {
      hide LocationFromResults, LocationFields, FitsU32, LocationsOf;
      LocationReads(ls[0]);
      LocationsRead(ls[1..]);
      LocationsStep(LocationFields(ls[0]), LocationList(ls[1..]));
      assert ls == [ls[0]] + ls[1..];
    }
  }

  lemma BreakpointText(b: Breakpoint, wanted: Bytes)
    requires wanted != "locations"
    ensures
      GetStr(BreakpointFields(b), wanted)
      == if wanted == "number" then Some(b.id)
         else if wanted == "type" then b.kind
         else if wanted == "disp" then b.disp
         else if wanted == "enabled" then Some(if b.enabled then "y" else "n")
         else if wanted == "times" then NatText(b.times)
         else None
    ensures GetList(BreakpointFields(b), "locations") == Some(Values(LocationList(b.locations)))
  {
    hide GetStr, GetList, TextField, LocationList;
    var tail5 := [Field("locations", List(Values(LocationList(b.locations))))];
    var tail4 := NatField("times", b.times) + tail5;
    var tail3 := BoolField("enabled", b.enabled) + tail4;
    var tail2 := TextField("disp", b.disp) + tail3;
    var tail1 := TextField("type", b.kind) + tail2;
    BothRead("number", Some(b.id), tail1, wanted);
    BothRead("type", b.kind, tail2, wanted);
    BothRead("disp", b.disp, tail3, wanted);
    BothRead("enabled", Some(if b.enabled then "y" else "n"), tail4, wanted);
    BothRead("times", NatText(b.times), tail5, wanted);
    ListReads(LocationList(b.locations), wanted);
  }

  lemma BothRead(name: Bytes, text: Option<Bytes>, rest: seq<Field>, wanted: Bytes)
    requires name != "locations"
    ensures GetStr(TextField(name, text) + rest, wanted)
         == if name == wanted && text.Some? then text else GetStr(rest, wanted)
    ensures GetList(TextField(name, text) + rest, "locations") == GetList(rest, "locations")
  {
    hide GetStr, GetList, TextField;
    TextReads(name, text, rest, wanted);
    TextReads(name, text, rest, "locations");
  }

  lemma ListReads(values: seq<Value>, wanted: Bytes)
    ensures GetStr([Field("locations", List(Values(values)))], wanted) == None
    ensures GetList([Field("locations", List(Values(values)))], "locations") == Some(Values(values))
  {
    var all := [Field("locations", List(Values(values)))];
    assert all[1..] == [];
  }

  // A breakpoint with its locations reads back whole from its tuple.
  lemma BreakpointReads(b: Breakpoint)
    requires b.locations != [] && FitsU32(b.times)
    requires forall k | 0 <= k < |b.locations| :: FitsU32(b.locations[k].line)
    ensures Upserted(map[], BreakpointFields(b)) == map[b.id := b]
  {
    hide GetStr, GetList, BreakpointFields, ParseU32, LocationFromResults, LocationsOf;
    BreakpointText(b, "number");
    BreakpointText(b, "type");
    BreakpointText(b, "disp");
    BreakpointText(b, "enabled");
    BreakpointText(b, "times");
    LocationsRead(b.locations);
    if b.times.Some? {
      NatReads(b.times.value);
    }
  }

  predicate Affirmed(text: Option<Bytes>) {
    text.None? || text.value == "y" || text.value == "yes" || text.value == "true"
  }

  // What is not said to be disabled is enabled: a breakpoint, and each of its locations.
  lemma EnabledByDefault(id: Bytes, tuple: seq<Field>, said: Option<Bytes>)
    requires GetStr(tuple, "enabled") == said
    ensures BreakpointFromTuple(id, tuple).enabled <==> Affirmed(said)
  {
    hide GetStr, ExtractLocations, LocationFromResults;
  }

  lemma LocationEnabledByDefault(tuple: seq<Field>, said: Option<Bytes>)
    requires GetStr(tuple, "enabled") == said
    ensures LocationFromResults(tuple).enabled <==> Affirmed(said)
  {
    hide GetStr;
  }

  function TuplesOf(values: seq<Value>): seq<Value> {
    if values == [] then [] else (if values[0].Tuple? then [values[0]] else []) + TuplesOf(values[1..])
  }

  // A list has one location for each of its tuples; whatever else it holds has no effect.
  lemma {:induction false} OnlyTuplesLocate(values: seq<Value>)
    ensures LocationsOf(values) == LocationsOf(TuplesOf(values)) && |LocationsOf(values)| == |TuplesOf(values)|
  {
    if values != [] {
      hide LocationFromResults;
      OnlyTuplesLocate(values[1..]);
      if values[0].Tuple? {
        LocationsStep(values[0].fields, values[1..]);
        LocationsStep(values[0].fields, TuplesOf(values[1..]));
        assert values == [values[0]] + values[1..];
      } else {
        assert [] + TuplesOf(values[1..]) == TuplesOf(values[1..]);
      }
    }
  }

  // ---- Breakpoints with one flat location ----

  // The location of a breakpoint written without a list stands among its own fields, and shares
  // its number and its enabled flag.
  function FlatFields(b: Breakpoint, l: Location): seq<Field> {
    TextField("number", Some(b.id)) + (TextField("type", b.kind) + (TextField("disp", b.disp)
    + (BoolField("enabled", b.enabled) + (NatField("times", b.times) + (TextField("addr", l.addr)
    + (TextField("func", l.func) + (TextField("file", l.file) + (TextField("fullname", l.fullname)
    + (NatField("line", l.line) + [])))))))))
  }

  lemma FlatText(b: Breakpoint, l: Location, wanted: Bytes)
    ensures
      GetStr(FlatFields(b, l), wanted)
      == if wanted == "number" then Some(b.id)
         else if wanted == "type" then b.kind
         else if wanted == "disp" then b.disp
         else if wanted == "enabled" then Some(if b.enabled then "y" else "n")
         else if wanted == "times" then NatText(b.times)
         else LocationPart(l, wanted)
    ensures wanted == "locations" ==> GetList(FlatFields(b, l), wanted) == None
  {
    hide GetStr, GetList, TextField;
    var tail9 := NatField("line", l.line) + [];
    var tail8 := TextField("fullname", l.fullname) + tail9;
    var tail7 := TextField("file", l.file) + tail8;
    var tail6 := TextField("func", l.func) + tail7;
    var tail5 := TextField("addr", l.addr) + tail6;
    var tail4 := NatField("times", b.times) + tail5;
    var tail3 := BoolField("enabled", b.enabled) + tail4;
    var tail2 := TextField("disp", b.disp) + tail3;
    var tail1 := TextField("type", b.kind) + tail2;
    TextReads("number", Some(b.id), tail1, wanted);
    TextReads("type", b.kind, tail2, wanted);
    TextReads("disp", b.disp, tail3, wanted);
    TextReads("enabled", Some(if b.enabled then "y" else "n"), tail4, wanted);
    TextReads("times", NatText(b.times), tail5, wanted);
    TextReads("addr", l.addr, tail6, wanted);
    TextReads("func", l.func, tail7, wanted);
    TextReads("file", l.file, tail8, wanted);
    TextReads("fullname", l.fullname, tail9, wanted);
    TextReads("line", NatText(l.line), [], wanted);
    NothingReads(wanted);
  }

  function LocationPart(l: Location, wanted: Bytes): Option<Bytes> {
    if wanted == "addr" then l.addr
    else if wanted == "func" then l.func
    else if wanted == "file" then l.file
    else if wanted == "fullname" then l.fullname
    else if wanted == "line" then NatText(l.line)
    else None
  }

  lemma FlatLocationReads(b: Breakpoint, l: Location)
    requires FitsU32(l.line) && l.number == Some(b.id) && l.enabled == b.enabled
    ensures LocationFromResults(FlatFields(b, l)) == l
  {
    hide GetStr, FlatFields, ParseU32;
    FlatText(b, l, "number");
    FlatText(b, l, "enabled");
    FlatText(b, l, "addr");
    FlatText(b, l, "func");
    FlatText(b, l, "file");
    FlatText(b, l, "fullname");
    FlatText(b, l, "line");
    if l.line.Some? {
      NatReads(l.line.value);
    }
  }

  // A breakpoint written flat reads back with its one location.
  lemma FlatBreakpointReads(b: Breakpoint, l: Location)
    requires FitsU32(b.times) && FitsU32(l.line)
    requires l.number == Some(b.id) && l.enabled == b.enabled && b.locations == [l]
    ensures Upserted(map[], FlatFields(b, l)) == map[b.id := b]
  {
    hide GetStr, GetList, FlatFields, ParseU32, LocationsOf, LocationFromResults;
    FlatText(b, l, "number");
    FlatText(b, l, "type");
    FlatText(b, l, "disp");
    FlatText(b, l, "enabled");
    FlatText(b, l, "times");
    FlatText(b, l, "locations");
    FlatLocationReads(b, l);
    if b.times.Some? {
      NatReads(b.times.value);
    }
  }

  // ---- Variable objects ----

  function VarObjFields(o: VarObj): seq<Field> {
    TextField("name", Some(o.name)) + (NatField("numchild", o.numchild) + (TextField("value", o.value)
    + (TextField("type", o.typeName) + [])))
  }

  lemma VarObjText(o: VarObj, wanted: Bytes)
    ensures
      GetStr(VarObjFields(o), wanted)
      == if wanted == "name" then Some(o.name)
         else if wanted == "numchild" then NatText(o.numchild)
         else if wanted == "value" then o.value
         else if wanted == "type" then o.typeName
         else None
  {
    hide GetStr, GetList, TextField;
    var tail3 := TextField("type", o.typeName) + [];
    var tail2 := TextField("value", o.value) + tail3;
    var tail1 := NatField("numchild", o.numchild) + tail2;
    TextReads("name", Some(o.name), tail1, wanted);
    TextReads("numchild", NatText(o.numchild), tail2, wanted);
    TextReads("value", o.value, tail3, wanted);
    TextReads("type", o.typeName, [], wanted);
    NothingReads(wanted);
  }

  // An object written in the answer to its creation is filed whole, with the expression it was
  // created for; what the answer does not say is unknown.
  lemma VarObjReads(m: VarObjMap, o: VarObj)
    requires FitsU32(o.numchild) && o.inScope == None
    ensures VarCreated(m, VarObjFields(o), o.expression) == m[o.name := o]
  {
    hide GetStr, VarObjFields, ParseU32;
    VarObjText(o, "name");
    VarObjText(o, "numchild");
    VarObjText(o, "value");
    VarObjText(o, "type");
    if o.numchild.Some? {
      NatReads(o.numchild.value);
    }
  }

  // ---- Features ----

  // A feature is listed exactly when its text stands in the list under that name.
  lemma FeatureIsListed(results: seq<Field>, feature: Bytes)
    ensures feature in ExtractStrings(results) <==>
            exists values :: GetList(results, "features") == Some(Values(values)) && Const(feature) in values
  {
    hide GetList;
    match GetList(results, "features")
    case Some(Values(values)) =>
      if feature in StringsOf(values) {
        var v :| v in values && v.Const? && v.text == feature;
        assert v == Const(feature);
      }
    case _ =>
  }

  function Texts(features: seq<Bytes>): seq<Value> {
    if features == [] then [] else [Const(features[0])] + Texts(features[1..])
  }

  // A written list of features reads back as the set of them.
  lemma {:induction false} FeaturesRead(features: seq<Bytes>)
    ensures StringsOf(Texts(features)) == set f | f in features
  {
    if features != [] {
      var first, rest := features[0], features[1..];
      FeaturesRead(rest);
      StringsOfCons(Const(first), Texts(rest));
      assert features == [first] + rest;
    }
  }

  lemma StringsOfCons(v: Value, rest: seq<Value>)
    requires v.Const?
    ensures StringsOf([v] + rest) == {v.text} + StringsOf(rest)
  {
    var all := [v] + rest;
    assert all[0] == v && all[1..] == rest;
    assert forall w | w in all :: w == v || w in rest;
    assert forall w | w in rest :: w in all;
    assert v in all;
  }

  // ---- Operations ----

  // The command an operation is submitted as.
  function OperationName(op: Operation): Bytes
    requires !op.OtherOperation? && !op.Raw?
  {
    match op
    case BreakInsert => "break-insert"
    case BreakInfo => "break-info"
    case VarCreate(_) => "var-create"
    case VarUpdate => "var-update"
    case VarDelete(_) => "var-delete"
    case ListFeatures => "list-features"
    case ListTargetFeatures => "list-target-features"
    case TargetSelect => "target-select"
    case ExecRun => "exec-run"
  }

  // A variable's expression is the last parameter of its creation, its name the first of its deletion.
  lemma OperationReads(op: Operation, parameters: seq<Bytes>)
    requires !op.OtherOperation? && !op.Raw?
    requires op.VarCreate? ==>
               op.expression == if parameters == [] then None else Some(parameters[|parameters| - 1])
    requires op.VarDelete? ==> op.name == if parameters == [] then [] else parameters[0]
    ensures OperationFromName(OperationName(op), parameters) == op
  {
  }

  // Only an operation's own command is recorded as that operation.
  lemma OperationSpelling(name: Bytes, parameters: seq<Bytes>)
    ensures !OperationFromName(name, parameters).Raw?
    ensures !OperationFromName(name, parameters).OtherOperation? ==>
              OperationName(OperationFromName(name, parameters)) == name
  {
  }
}
