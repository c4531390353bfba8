// The two ways a value leaves the server: straight to JSON, and through Scheme.
module Marshal {
  import opened Octets
  import opened Wrappers
  import opened Ast

  // The JSON the two paths produce; no other JSON arises from a value.
  datatype Json =
    | JString(text: Bytes)
    | JArray(items: seq<Json>)
    | JObject(members: map<Bytes, Json>)

  // The Scheme data a value becomes; its hash maps have string keys.
  datatype Steel =
    | StringV(text: Bytes)
    | ListV(items: seq<Steel>)
    | HashMapV(entries: map<Bytes, Steel>)

  // ---- Straight to JSON ----

  function ValueToJson(v: Value): Json
    decreases v, 0
  {
    match v
    case Const(text) => JString(text)
    case Tuple(fields) => JArray(ResultsToJson(fields))
    case List(list) =>
      match list
      case Empty => JArray([])
      case Values(values) => JArray(ValuesToJson(values))
      case Results(results) => JArray(ResultsToJson(results))
  }

  // An array of name/value entries, so that order and duplicate names survive.
  function ResultsToJson(fs: seq<Field>): (r: seq<Json>)
    ensures |r| == |fs|
    decreases fs, 1
  {
    if fs == [] then []
    else
      [JObject(map["name" := JString(fs[0].name), "value" := ValueToJson(fs[0].value)])] + ResultsToJson(fs[1..])
  }

  function ValuesToJson(vs: seq<Value>): (r: seq<Json>)
    ensures |r| == |vs|
    decreases vs, 1
  {
    if vs == [] then [] else [ValueToJson(vs[0])] + ValuesToJson(vs[1..])
  }

  // ---- Through Scheme ----

  function ValueToSteel(v: Value): Steel
    decreases v, 0
  {
    match v
    case Const(text) => StringV(text)
    case Tuple(fields) => ListV(ResultsToSteel(fields))
    case List(list) =>
      match list
      case Empty => ListV([])
      case Values(values) => ListV(ValuesToSteel(values))
      case Results(results) => ListV(ResultsToSteel(results))
  }

  function ResultsToSteel(fs: seq<Field>): (r: seq<Steel>)
    ensures |r| == |fs|
    decreases fs, 1
  {
    if fs == [] then [] else [EntryToSteel(fs[0].name, ValueToSteel(fs[0].value))] + ResultsToSteel(fs[1..])
  }

  // One result as a two-entry hash map.
  function EntryToSteel(name: Bytes, value: Steel): Steel {
    HashMapV(map["name" := StringV(name), "value" := value])
  }

  function ValuesToSteel(vs: seq<Value>): (r: seq<Steel>)
    ensures |r| == |vs|
    decreases vs, 1
  {
    if vs == [] then [] else [ValueToSteel(vs[0])] + ValuesToSteel(vs[1..])
  }

  function SteelToJson(s: Steel): Json
    decreases s, 0
  {
    match s
    case StringV(text) => JString(text)
    case ListV(items) => JArray(ItemsToJson(items))
    case HashMapV(entries) => JObject(map k | k in entries :: SteelToJson(entries[k]))
  }

  function ItemsToJson(items: seq<Steel>): (r: seq<Json>)
    ensures |r| == |items|
    ensures forall k | 0 <= k < |items| :: r[k] == SteelToJson(items[k])
    decreases items, 1
  {
    if items == [] then [] else [SteelToJson(items[0])] + ItemsToJson(items[1..])
  }

  method SteelToJsonValue(s: Steel) returns (j: Json)
    ensures j == SteelToJson(s)
    decreases s, 1
  {
    match s
    case StringV(text) => j := JString(text);
    case ListV(items) =>
      var out := SteelListToJson(s);
      j := JArray(out);
    case HashMapV(entries) =>
      var members := SteelHashMapToJson(s);
      j := JObject(members);
  }

  method SteelListToJson(s: Steel) returns (out: seq<Json>)
    requires s.ListV?
    ensures JArray(out) == SteelToJson(s)
    decreases s, 0
  {
    out := [];
    for k := 0 to |s.items|
      invariant |out| == k && forall j | 0 <= j < k :: out[j] == SteelToJson(s.items[j])
    {
      hide SteelToJson, ItemsToJson;
      var item := SteelToJsonValue(s.items[k]);
      out := out + [item];
    }
    assert out == ItemsToJson(s.items);
  }

  // A hash map is walked entry by entry, in whatever order it iterates.
  method SteelHashMapToJson(s: Steel) returns (obj: map<Bytes, Json>)
    requires s.HashMapV?
    ensures JObject(obj) == SteelToJson(s)
    decreases s, 0
  {
    obj := map[];
    var todo := s.entries.Keys;
    while todo != {}
      invariant todo <= s.entries.Keys && obj.Keys == s.entries.Keys - todo
      invariant forall k | k in obj :: obj[k] == SteelToJson(s.entries[k])
      decreases |todo|
    {
      hide SteelToJson;
      var key :| key in todo;
      var value := SteelToJsonValue(s.entries[key]);
      obj := obj[key := value];
      todo := todo - {key};
    }
  }

  // ---- The two paths agree ----

  lemma {:induction false} PathsCommute(v: Value)
    ensures SteelToJson(ValueToSteel(v)) == ValueToJson(v)
    decreases v, 0
  {
    match v
    case Const(_) =>
    case Tuple(fields) => ResultsCommute(fields);
    case List(list) =>
      match list {
        case Empty =>
        case Values(values) => ValuesCommute(values);
        case Results(results) => ResultsCommute(results);
      }
  }

  lemma {:induction false} ResultsCommute(fs: seq<Field>)
    ensures ItemsToJson(ResultsToSteel(fs)) == ResultsToJson(fs)
    decreases fs, 1
  {
    if fs != [] {
      PathsCommute(fs[0].value);
      ResultsCommute(fs[1..]);
      EntryCommutes(fs[0].name, ValueToSteel(fs[0].value));
      var steel := ResultsToSteel(fs);
      assert steel[0] == EntryToSteel(fs[0].name, ValueToSteel(fs[0].value)) && steel[1..] == ResultsToSteel(fs[1..]);
    }
  }

  lemma EntryCommutes(name: Bytes, value: Steel)
    ensures SteelToJson(EntryToSteel(name, value)) == JObject(map["name" := JString(name), "value" := SteelToJson(value)])
  {
    var entry := EntryToSteel(name, value);
    assert SteelToJson(entry).members.Keys == {"name", "value"};
  }

  lemma {:induction false} ValuesCommute(vs: seq<Value>)
    ensures ItemsToJson(ValuesToSteel(vs)) == ValuesToJson(vs)
    decreases vs, 1
  {
    if vs != [] {
      PathsCommute(vs[0]);
      ValuesCommute(vs[1..]);
      var steel := ValuesToSteel(vs);
      assert steel[0] == ValueToSteel(vs[0]) && steel[1..] == ValuesToSteel(vs[1..]);
    }
  }

  // ---- What the JSON determines ----

  // A value up to the difference between a tuple and a result list, and between empty aggregates.
  datatype Shape =
    | Text(text: Bytes)
    | Nothing
    | Items(items: seq<Shape>)
    | Entries(entries: seq<(Bytes, Shape)>)

  function ShapeOf(v: Value): Shape
    decreases v, 0
  {
    match v
    case Const(text) => Text(text)
    case Tuple(fields) => if fields == [] then Nothing else Entries(ShapesOfFields(fields))
    case List(list) =>
      match list
      case Empty => Nothing
      case Values(values) => if values == [] then Nothing else Items(ShapesOfValues(values))
      case Results(results) => if results == [] then Nothing else Entries(ShapesOfFields(results))
  }

  function ShapesOfFields(fs: seq<Field>): (r: seq<(Bytes, Shape)>)
    ensures |r| == |fs|
    decreases fs, 1
  {
    if fs == [] then [] else [(fs[0].name, ShapeOf(fs[0].value))] + ShapesOfFields(fs[1..])
  }

  function ShapesOfValues(vs: seq<Value>): (r: seq<Shape>)
    ensures |r| == |vs|
    decreases vs, 1
  {
    if vs == [] then [] else [ShapeOf(vs[0])] + ShapesOfValues(vs[1..])
  }

  ghost function ShapeOfJson(j: Json): Shape
    decreases j, 0
  {
    match j
    case JString(text) => Text(text)
    case JArray(items) =>
      if items == [] then Nothing
      else if items[0].JObject? then Entries(EntriesOfJson(items))
      else Items(ItemsOfJson(items))
    case JObject(_) => Nothing
  }

  ghost function EntriesOfJson(items: seq<Json>): seq<(Bytes, Shape)>
    decreases items, 1
  {
    if items == [] then [] else [EntryOfJson(items[0])] + EntriesOfJson(items[1..])
  }

  ghost function EntryOfJson(j: Json): (Bytes, Shape)
    decreases j, 0
  {
    if j.JObject? && "name" in j.members && j.members["name"].JString? && "value" in j.members then
      (j.members["name"].text, ShapeOfJson(j.members["value"]))
    else ([], Nothing)
  }

  ghost function ItemsOfJson(items: seq<Json>): seq<Shape>
    decreases items, 1
  {
    if items == [] then [] else [ShapeOfJson(items[0])] + ItemsOfJson(items[1..])
  }

  lemma {:induction false} JsonKeepsShape(v: Value)
    ensures ShapeOfJson(ValueToJson(v)) == ShapeOf(v) && !ValueToJson(v).JObject?
    decreases v, 0
  {
    match v
    case Const(_) =>
    case Tuple(fields) => JsonKeepsFields(fields);
    case List(list) =>
      match list {
        case Empty =>
        case Values(values) => JsonKeepsValues(values);
        case Results(results) => JsonKeepsFields(results);
      }
  }

  lemma {:induction false} JsonKeepsFields(fs: seq<Field>)
    ensures EntriesOfJson(ResultsToJson(fs)) == ShapesOfFields(fs)
    ensures fs != [] ==> ResultsToJson(fs)[0].JObject?
    decreases fs, 1
  {
    if fs != [] {
      JsonKeepsShape(fs[0].value);
      JsonKeepsFields(fs[1..]);
      assert ResultsToJson(fs)[1..] == ResultsToJson(fs[1..]);
    }
  }

  lemma {:induction false} JsonKeepsValues(vs: seq<Value>)
    ensures ItemsOfJson(ValuesToJson(vs)) == ShapesOfValues(vs)
    ensures vs != [] ==> !ValuesToJson(vs)[0].JObject?
    decreases vs, 1
  {
    if vs != [] {
      JsonKeepsShape(vs[0]);
      JsonKeepsValues(vs[1..]);
      assert ValuesToJson(vs)[1..] == ValuesToJson(vs[1..]);
    }
  }

  ghost function JsonOfShape(s: Shape): Json
    decreases s, 0
  {
    match s
    case Text(text) => JString(text)
    case Nothing => JArray([])
    case Items(items) => JArray(JsonOfItems(items))
    case Entries(entries) => JArray(JsonOfEntries(entries))
  }

  ghost function JsonOfItems(items: seq<Shape>): seq<Json>
    decreases items, 1
  {
    if items == [] then [] else [JsonOfShape(items[0])] + JsonOfItems(items[1..])
  }

  ghost function JsonOfEntries(entries: seq<(Bytes, Shape)>): seq<Json>
    decreases entries, 1
  {
    if entries == [] then []
    else
      assert entries[0].1 < entries[0];
      [JObject(map["name" := JString(entries[0].0), "value" := JsonOfShape(entries[0].1)])] + JsonOfEntries(entries[1..])
  }

  lemma {:induction false} ShapeGivesJson(v: Value)
    ensures JsonOfShape(ShapeOf(v)) == ValueToJson(v)
    decreases v, 0
  {
    match v
    case Const(_) =>
    case Tuple(fields) => ShapeGivesFields(fields);
    case List(list) =>
      match list {
        case Empty =>
        case Values(values) => ShapeGivesValues(values);
        case Results(results) => ShapeGivesFields(results);
      }
  }

  lemma {:induction false} ShapeGivesFields(fs: seq<Field>)
    ensures JsonOfEntries(ShapesOfFields(fs)) == ResultsToJson(fs)
    decreases fs, 1
  {
    if fs != [] {
      ShapeGivesJson(fs[0].value);
      ShapeGivesFields(fs[1..]);
      assert ShapesOfFields(fs)[1..] == ShapesOfFields(fs[1..]);
    }
  }

  lemma {:induction false} ShapeGivesValues(vs: seq<Value>)
    ensures JsonOfItems(ShapesOfValues(vs)) == ValuesToJson(vs)
    decreases vs, 1
  {
    if vs != [] {
      ShapeGivesJson(vs[0]);
      ShapeGivesValues(vs[1..]);
      assert ShapesOfValues(vs)[1..] == ShapesOfValues(vs[1..]);
    }
  }

  // Two values have the same JSON exactly when they have the same shape: names, order,
  // duplicates and nesting all survive.
  lemma JsonDeterminesShape(v: Value, w: Value)
    ensures ValueToJson(v) == ValueToJson(w) <==> ShapeOf(v) == ShapeOf(w)
  {
    JsonKeepsShape(v);
    JsonKeepsShape(w);
    ShapeGivesJson(v);
    ShapeGivesJson(w);
  }
}
