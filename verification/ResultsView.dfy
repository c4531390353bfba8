// First-match lookups in ordered result lists, whose keys may repeat.
module ResultsView {
  import opened Octets
  import opened Wrappers
  import opened Ast
  import Decimal

  // The first value under `name` for which `accepts` holds.
  function Find(results: seq<Field>, name: Bytes, accepts: Value -> bool): (r: Option<Value>)
    ensures r.Some? <==> exists k | 0 <= k < |results| :: results[k].name == name && accepts(results[k].value)
    ensures r.Some? ==> exists k | 0 <= k < |results| ::
                && results[k].name == name && accepts(results[k].value) && r.value == results[k].value
                && forall j | 0 <= j < k :: !(results[j].name == name && accepts(results[j].value))
    decreases |results|
  {
    if results == [] then None
    else if results[0].name == name && accepts(results[0].value) then Some(results[0].value)
    else
      var r := Find(results[1..], name, accepts);
      assert forall k | 0 <= k < |results[1..]| :: results[1..][k] == results[k + 1];
      r
  }

  predicate IsConst(v: Value) { v.Const? }

  predicate IsTuple(v: Value) { v.Tuple? }

  predicate IsAny(v: Value) { true }

  function GetStr(results: seq<Field>, name: Bytes): Option<Bytes> {
    match Find(results, name, IsConst)
    case Some(Const(text)) => Some(text)
    case _ => None
  }

  function GetTuple(results: seq<Field>, name: Bytes): Option<seq<Field>> {
    match Find(results, name, IsTuple)
    case Some(Tuple(fields)) => Some(fields)
    case _ => None
  }

  // The first value under `name` if it is a list; a value of another shape hides later lists.
  function GetList(results: seq<Field>, name: Bytes): Option<ListValue> {
    match Find(results, name, IsAny)
    case Some(List(list)) => Some(list)
    case _ => None
  }

  function GetBool(results: seq<Field>, name: Bytes): Option<bool> {
    match GetStr(results, name)
    case Some(s) => Some(s == "y" || s == "yes" || s == "true")
    case None => None
  }

  // An optional sign and at least one digit, within the range of the type.
  function ParseUnsigned(s: Bytes, max: nat): Option<nat> {
    var digits := if s != [] && s[0] == '+' then s[1..] else s;
    if digits != [] && Decimal.AllDigits(digits) && Decimal.Value(digits) <= max then Some(Decimal.Value(digits))
    else None
  }

  function ParseU32(s: Bytes): Option<nat> {
    ParseUnsigned(s, 0xFFFF_FFFF)
  }

  function ParseI32(s: Bytes): Option<int> {
    if s != [] && s[0] == '-' then
      if s[1..] != [] && s[1] == '+' then None
      else
        match ParseUnsigned(s[1..], 0x8000_0000)
        case Some(n) => var magnitude: int := n; Some(-magnitude)
        case None => None
    else
      match ParseUnsigned(s, 0x7FFF_FFFF)
      case Some(n) => Some(n)
      case None => None
  }

  function GetU32(results: seq<Field>, name: Bytes): Option<nat> {
    match GetStr(results, name)
    case Some(s) => ParseU32(s)
    case None => None
  }

  function GetI32(results: seq<Field>, name: Bytes): Option<int> {
    match GetStr(results, name)
    case Some(s) => ParseI32(s)
    case None => None
  }

  // ---- What the lookups find ----

  ghost predicate FirstTextAt(results: seq<Field>, k: nat, name: Bytes, text: Bytes) {
    && k < |results| && results[k] == Field(name, Const(text))
    && forall j | 0 <= j < k :: results[j].name == name ==> !results[j].value.Const?
  }

  ghost predicate FirstTupleAt(results: seq<Field>, k: nat, name: Bytes, fields: seq<Field>) {
    && k < |results| && results[k] == Field(name, Tuple(fields))
    && forall j | 0 <= j < k :: results[j].name == name ==> !results[j].value.Tuple?
  }

  ghost predicate FirstListAt(results: seq<Field>, k: nat, name: Bytes, list: ListValue) {
    && k < |results| && results[k] == Field(name, List(list))
    && forall j | 0 <= j < k :: results[j].name != name
  }

  // A text is looked up past values of other shapes, and so is a tuple; a list is not.
  lemma GetStrIff(results: seq<Field>, name: Bytes, text: Bytes)
    ensures GetStr(results, name) == Some(text) <==> exists k: nat :: FirstTextAt(results, k, name, text)
  {
    var r := Find(results, name, IsConst);
    if r.Some? {
      var k :| 0 <= k < |results| && results[k].name == name && IsConst(results[k].value) && r.value == results[k].value
        && forall j | 0 <= j < k :: !(results[j].name == name && IsConst(results[j].value));
      assert FirstTextAt(results, k, name, results[k].value.text);
    }
  }

  lemma GetTupleIff(results: seq<Field>, name: Bytes, fields: seq<Field>)
    ensures GetTuple(results, name) == Some(fields) <==> exists k: nat :: FirstTupleAt(results, k, name, fields)
  {
    var r := Find(results, name, IsTuple);
    if r.Some? {
      var k :| 0 <= k < |results| && results[k].name == name && IsTuple(results[k].value) && r.value == results[k].value
        && forall j | 0 <= j < k :: !(results[j].name == name && IsTuple(results[j].value));
      assert FirstTupleAt(results, k, name, results[k].value.fields);
    }
  }

  lemma GetListIff(results: seq<Field>, name: Bytes, list: ListValue)
    ensures GetList(results, name) == Some(list) <==> exists k: nat :: FirstListAt(results, k, name, list)
  {
    var r := Find(results, name, IsAny);
    if r.Some? {
      var k :| 0 <= k < |results| && results[k].name == name && IsAny(results[k].value) && r.value == results[k].value
        && forall j | 0 <= j < k :: !(results[j].name == name && IsAny(results[j].value));
      if results[k].value.List? {
        assert FirstListAt(results, k, name, results[k].value.list);
      }
    }
  }

  // Three spellings mean yes; every other text means no, and a missing one nothing.
  lemma GetBoolIff(results: seq<Field>, name: Bytes)
    ensures GetBool(results, name) == Some(true)
       <==> exists k: nat, text | text in {"y", "yes", "true"} :: FirstTextAt(results, k, name, text)
    ensures GetBool(results, name) == None <==> forall k: nat, text :: !FirstTextAt(results, k, name, text)
  {
    forall text {
      GetStrIff(results, name, text);
    }
  }

  // A number is an optional plus and digits, leading zeros included, within its range.
  lemma ParseU32Iff(s: Bytes, n: nat)
    ensures ParseU32(s) == Some(n) <==>
            n < 0x1_0000_0000 && exists digits: Bytes ::
              digits != [] && Decimal.AllDigits(digits) && Decimal.Value(digits) == n && (s == digits || s == ['+'] + digits)
  {
    if s != [] && s[0] == '+' {
      assert s == ['+'] + s[1..];
    }
    forall digits: Bytes | digits != [] && Decimal.AllDigits(digits) && (s == digits || s == ['+'] + digits)
      ensures digits == if s[0] == '+' then s[1..] else s
    {
      assert IsDigit(digits[0]);
    }
  }

  // The same with an optional minus in place of the plus.
  lemma ParseI32Iff(s: Bytes, i: int)
    ensures ParseI32(s) == Some(i) <==>
            -0x8000_0000 <= i <= 0x7FFF_FFFF && exists digits: Bytes ::
              && digits != [] && Decimal.AllDigits(digits)
              && ((Decimal.Value(digits) == i && (s == digits || s == ['+'] + digits))
                  || (Decimal.Value(digits) == -i && s == ['-'] + digits))
  {
    if s != [] && (s[0] == '+' || s[0] == '-') {
      assert s == [s[0]] + s[1..];
    }
    forall digits: Bytes | digits != [] && Decimal.AllDigits(digits) && (s == digits || s == ['+'] + digits || s == ['-'] + digits)
      ensures digits == if s[0] == '+' || s[0] == '-' then s[1..] else s
    {
      assert IsDigit(digits[0]);
    }
  }
}
