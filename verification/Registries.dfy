// Frames, breakpoints, variable objects, features and pending commands.
module Registries {
  import opened Octets
  import opened Wrappers
  import opened Ast
  import opened ResultsView
  import opened Events

  // ---- Current frame of each thread ----

  type FrameMap = map<Bytes, Frame>

  // A stop without a frame tuple leaves the registry as it was.
  function FramesAfterStop(m: FrameMap, thread: Bytes, results: seq<Field>): FrameMap {
    match ExtractFrame(results)
    case Some(frame) => m[thread := frame]
    case None => m
  }

  class FrameRegistry {
    var byThread: FrameMap

    constructor ()
      ensures byThread == map[]
    {
      byThread := map[];
    }

    method OnStoppedFrame(thread: Bytes, results: seq<Field>)
      modifies this
      ensures byThread == FramesAfterStop(old(byThread), thread, results)
    {
      var frame := GetTuple(results, "frame");
      if frame.Some? {
        byThread := byThread[thread := FrameFromResults(frame.value)];
      }
    }

    method Invalidate(thread: Bytes)
      modifies this
      ensures byThread == old(byThread) - {thread}
    {
      byThread := byThread - {thread};
    }

    method Clear()
      modifies this
      ensures byThread == map[]
    {
      byThread := map[];
    }
  }

  // ---- Breakpoints ----

  datatype Location = Location(
    number: Option<Bytes>,
    addr: Option<Bytes>,
    func: Option<Bytes>,
    file: Option<Bytes>,
    fullname: Option<Bytes>,
    line: Option<nat>,
    enabled: bool)

  datatype Breakpoint = Breakpoint(
    id: Bytes,
    kind: Option<Bytes>,
    disp: Option<Bytes>,
    enabled: bool,
    times: Option<nat>,
    locations: seq<Location>)

  type BreakpointMap = map<Bytes, Breakpoint>

  function OrTrue(b: Option<bool>): bool {
    if b.Some? then b.value else true
  }

  function LocationFromResults(results: seq<Field>): Location {
    Location(
      GetStr(results, "number"),
      GetStr(results, "addr"),
      GetStr(results, "func"),
      GetStr(results, "file"),
      GetStr(results, "fullname"),
      GetU32(results, "line"),
      OrTrue(GetBool(results, "enabled")))
  }

  // One location per tuple of the list; anything else in it is skipped.
  function LocationsOf(values: seq<Value>): (r: seq<Location>)
    ensures |r| <= |values|
  {
    if values == [] then []
    else (if values[0].Tuple? then [LocationFromResults(values[0].fields)] else []) + LocationsOf(values[1..])
  }

  function ExtractLocations(tuple: seq<Field>): seq<Location> {
    match GetList(tuple, "locations")
    case Some(Values(values)) => LocationsOf(values)
    case _ => []
  }

  // A breakpoint always has a location: its own flat fields when none is listed.
  function BreakpointFromTuple(id: Bytes, tuple: seq<Field>): (b: Breakpoint)
    ensures b.id == id && b.locations != []
  {
    var locations := ExtractLocations(tuple);
    Breakpoint(
      id,
      GetStr(tuple, "type"),
      GetStr(tuple, "disp"),
      OrTrue(GetBool(tuple, "enabled")),
      GetU32(tuple, "times"),
      if locations == [] then [LocationFromResults(tuple)] else locations)
  }

  function Upserted(m: BreakpointMap, tuple: seq<Field>): BreakpointMap {
    match GetStr(tuple, "number")
    case Some(id) => m[id := BreakpointFromTuple(id, tuple)]
    case None => m
  }

  function UpsertedFromResults(m: BreakpointMap, results: seq<Field>): BreakpointMap {
    match GetTuple(results, "bkpt")
    case Some(tuple) => Upserted(m, tuple)
    case None => m
  }

  function Deleted(m: BreakpointMap, results: seq<Field>): BreakpointMap {
    match GetStr(results, "id")
    case Some(id) => m - {id}
    case None => m
  }

  class BreakpointRegistry {
    var byId: BreakpointMap

    constructor ()
      ensures byId == map[]
    {
      byId := map[];
    }

    method UpsertFromTuple(tuple: seq<Field>)
      modifies this
      ensures byId == Upserted(old(byId), tuple)
    {
      var number := GetStr(tuple, "number");
      if number.None? {
        return;
      }
      byId := byId[number.value := BreakpointFromTuple(number.value, tuple)];
    }

    method OnBreakpointChanged(results: seq<Field>)
      modifies this
      ensures byId == UpsertedFromResults(old(byId), results)
    {
      var tuple := GetTuple(results, "bkpt");
      if tuple.Some? {
        UpsertFromTuple(tuple.value);
      }
    }

    method OnBreakpointDeleted(results: seq<Field>)
      modifies this
      ensures byId == Deleted(old(byId), results)
    {
      var id := GetStr(results, "id");
      if id.Some? {
        byId := byId - {id.value};
      }
    }
  }

  // ---- Variable objects ----

  datatype VarObj = VarObj(
    name: Bytes,
    expression: Option<Bytes>,
    typeName: Option<Bytes>,
    value: Option<Bytes>,
    numchild: Option<nat>,
    inScope: Option<bool>)

  type VarObjMap = map<Bytes, VarObj>

  function VarCreated(m: VarObjMap, results: seq<Field>, expression: Option<Bytes>): VarObjMap {
    match GetStr(results, "name")
    case None => m
    case Some(name) =>
      m[name := VarObj(
        name, expression, GetStr(results, "type"), GetStr(results, "value"), GetU32(results, "numchild"), None)]
  }

  function OrElse<T>(a: Option<T>, b: Option<T>): Option<T> {
    if a.Some? then a else b
  }

  // One change-list entry: fields it does not mention stay as they are.
  function VarChanged(m: VarObjMap, entry: Value): VarObjMap {
    if !entry.Tuple? then m
    else
      var fields := entry.fields;
      match GetStr(fields, "name")
      case None => m
      case Some(name) =>
        var before := if name in m then m[name] else VarObj(name, None, None, None, None, None);
        m[name := before.(
          value := OrElse(GetStr(fields, "value"), before.value),
          inScope := OrElse(GetBool(fields, "in_scope"), before.inScope),
          typeName := OrElse(GetStr(fields, "new_type"), before.typeName))]
  }

  function VarsChanged(m: VarObjMap, entries: seq<Value>): VarObjMap
    decreases |entries|
  {
    if entries == [] then m else VarsChanged(VarChanged(m, entries[0]), entries[1..])
  }

  function VarUpdated(m: VarObjMap, results: seq<Field>): VarObjMap {
    match GetList(results, "changelist")
    case Some(Values(entries)) => VarsChanged(m, entries)
    case _ => m
  }

  // What one change-list entry says about a field of the named object.
  function Mentioned<T>(entry: Value, name: Bytes, get: seq<Field> -> Option<T>): Option<T> {
    if entry.Tuple? && GetStr(entry.fields, "name") == Some(name) then get(entry.fields) else None
  }

  function LastMention<T>(entries: seq<Value>, name: Bytes, get: seq<Field> -> Option<T>): Option<T> {
    if entries == [] then None
    else OrElse(LastMention(entries[1..], name, get), Mentioned(entries[0], name, get))
  }

  function ValueIn(fields: seq<Field>): Option<Bytes> { GetStr(fields, "value") }

  function NewTypeIn(fields: seq<Field>): Option<Bytes> { GetStr(fields, "new_type") }

  function InScopeIn(fields: seq<Field>): Option<bool> { GetBool(fields, "in_scope") }

  function Lookup(m: VarObjMap, name: Bytes): VarObj {
    if name in m then m[name] else VarObj(name, None, None, None, None, None)
  }

  // After a change list, each field of an object is the last one mentioned for it, or as before;
  // what change lists do not carry is untouched.
  lemma {:induction false} LastMentionWins(m: VarObjMap, entries: seq<Value>, name: Bytes)
    ensures
      var q := VarsChanged(m, entries);
      && Lookup(q, name).value == OrElse(LastMention(entries, name, ValueIn), Lookup(m, name).value)
      && Lookup(q, name).typeName == OrElse(LastMention(entries, name, NewTypeIn), Lookup(m, name).typeName)
      && Lookup(q, name).inScope == OrElse(LastMention(entries, name, InScopeIn), Lookup(m, name).inScope)
      && Lookup(q, name).expression == Lookup(m, name).expression
      && Lookup(q, name).numchild == Lookup(m, name).numchild
    decreases |entries|
  {
    if entries != [] {
      hide VarChanged, Lookup, Mentioned;
      OneMention(m, entries[0], name);
      LastMentionWins(VarChanged(m, entries[0]), entries[1..], name);
    }
  }

  lemma OneMention(m: VarObjMap, entry: Value, name: Bytes)
    ensures
      var before, after := Lookup(m, name), Lookup(VarChanged(m, entry), name);
      && after.value == OrElse(Mentioned(entry, name, ValueIn), before.value)
      && after.typeName == OrElse(Mentioned(entry, name, NewTypeIn), before.typeName)
      && after.inScope == OrElse(Mentioned(entry, name, InScopeIn), before.inScope)
      && after.expression == before.expression && after.numchild == before.numchild
  {
    hide GetStr, GetBool;
  }

  class VarObjRegistry {
    var byName: VarObjMap

    constructor ()
      ensures byName == map[]
    {
      byName := map[];
    }

    method OnVarCreate(results: seq<Field>, expression: Option<Bytes>)
      modifies this
      ensures byName == VarCreated(old(byName), results, expression)
    {
      hide GetStr, GetU32;
      var name := GetStr(results, "name");
      if name.None? {
        return;
      }
      var varobj := VarObj(name.value, None, None, None, None, None);
      varobj := varobj.(expression := expression);
      varobj := varobj.(typeName := GetStr(results, "type"));
      varobj := varobj.(value := GetStr(results, "value"));
      varobj := varobj.(numchild := GetU32(results, "numchild"));
      byName := byName[name.value := varobj];
    }

    method OnVarUpdate(results: seq<Field>)
      modifies this
      ensures byName == VarUpdated(old(byName), results)
    {
      var list := GetList(results, "changelist");
      if list.None? || !list.value.Values? {
        return;
      }
      var entries := list.value.values;
      for k := 0 to |entries|
        invariant VarsChanged(byName, entries[k..]) == VarsChanged(old(byName), entries)
      {
        assert entries[k..][0] == entries[k] && entries[k..][1..] == entries[k + 1..];
        Update(entries[k]);
      }
    }

    // Fold one change-list entry into the registry, creating the object if it is not known.
    method Update(entry: Value)
      modifies this
      ensures byName == VarChanged(old(byName), entry)
    {
      hide GetStr, GetBool;
      if !entry.Tuple? {
        return;
      }
      var name := GetStr(entry.fields, "name");
      if name.None? {
        return;
      }
      var varobj := if name.value in byName then byName[name.value] else VarObj(name.value, None, None, None, None, None);
      var value := GetStr(entry.fields, "value");
      if value.Some? {
        varobj := varobj.(value := value);
      }
      var inScope := GetBool(entry.fields, "in_scope");
      if inScope.Some? {
        varobj := varobj.(inScope := inScope);
      }
      var newType := GetStr(entry.fields, "new_type");
      if newType.Some? {
        varobj := varobj.(typeName := newType);
      }
      byName := byName[name.value := varobj];
    }

    method OnVarDelete(name: Bytes)
      modifies this
      ensures byName == old(byName) - {name}
    {
      byName := byName - {name};
    }
  }

  // ---- Features ----

  datatype FeatureSet = FeatureSet(features: set<Bytes>, targetFeatures: set<Bytes>)

  function StringsOf(values: seq<Value>): set<Bytes> {
    set v | v in values && v.Const? :: v.text
  }

  function ExtractStrings(results: seq<Field>): set<Bytes> {
    match GetList(results, "features")
    case Some(Values(values)) => StringsOf(values)
    case _ => {}
  }

  class Features {
    var known: FeatureSet

    constructor ()
      ensures known == FeatureSet({}, {})
    {
      known := FeatureSet({}, {});
    }

    method OnListFeatures(results: seq<Field>)
      modifies this
      ensures known == old(known).(features := ExtractStrings(results))
    {
      known := known.(features := ExtractStrings(results));
    }

    method OnListTargetFeatures(results: seq<Field>)
      modifies this
      ensures known == old(known).(targetFeatures := ExtractStrings(results))
    {
      known := known.(targetFeatures := ExtractStrings(results));
    }

    method InvalidateTargetFeatures()
      modifies this
      ensures known == old(known).(targetFeatures := {})
    {
      known := known.(targetFeatures := {});
    }
  }

  // ---- Pending commands ----

  datatype Operation =
    | BreakInsert
    | BreakInfo
    | VarCreate(expression: Option<Bytes>)
    | VarUpdate
    | VarDelete(name: Bytes)
    | ListFeatures
    | ListTargetFeatures
    | TargetSelect
    | ExecRun
    | OtherOperation
    | Raw

  function OperationFromName(name: Bytes, parameters: seq<Bytes>): Operation {
    if name == "break-insert" then BreakInsert
    else if name == "break-info" then BreakInfo
    else if name == "var-create" then
      VarCreate(if parameters == [] then None else Some(parameters[|parameters| - 1]))
    else if name == "var-update" then VarUpdate
    else if name == "var-delete" then VarDelete(if parameters == [] then [] else parameters[0])
    else if name == "list-features" then ListFeatures
    else if name == "list-target-features" then ListTargetFeatures
    else if name == "target-select" then TargetSelect
    else if name == "exec-run" then ExecRun
    else OtherOperation
  }

  datatype PendingInfo = PendingInfo(operation: Operation, operationName: Bytes)

  predicate IsExecCommand(info: PendingInfo) {
    "exec-" <= info.operationName
  }

  class PendingCommands {
    var byToken: map<nat, PendingInfo>

    constructor ()
      ensures byToken == map[]
    {
      byToken := map[];
    }

    method Insert(token: nat, info: PendingInfo)
      modifies this
      ensures byToken == old(byToken)[token := info]
    {
      byToken := byToken[token := info];
    }

    method Remove(token: nat) returns (info: Option<PendingInfo>)
      modifies this
      ensures info == if token in old(byToken) then Some(old(byToken)[token]) else None
      ensures byToken == old(byToken) - {token}
    {
      info := if token in byToken then Some(byToken[token]) else None;
      byToken := byToken - {token};
    }
  }
}
