// Values, tuples, lists and results: what parsing at an offset yields.
//
// `ValueParser` proves the cursor loops against these functions, and
// `ValueGrammar` proves them equal to the grammar.
module ValueSyntax {
  import opened Octets
  import opened Wrappers
  import opened Ast
  import CString
  import Cursors

  // A parse moves forward, and an error lies within the input.
  ghost predicate InRange<T>(r: Parsed<T>, i: nat, size: nat) {
    match r
    case Parsed(_, next) => i < next <= size
    case Failed(error) => ErrorInRange(error, size)
  }

  // End of the run of identifier bytes at i.
  function IdentifierEnd(s: Bytes, i: nat): (e: nat)
    requires i <= |s|
    ensures i <= e <= |s|
    ensures forall k | i <= k < e :: IsIdentifierByte(s[k])
    ensures e < |s| ==> !IsIdentifierByte(s[e])
    decreases |s| - i
  {
    if i == |s| || !IsIdentifierByte(s[i]) then i else IdentifierEnd(s, i + 1)
  }

  // An identifier followed by '=' starts at i.
  predicate LooksLikeResult(s: Bytes, i: nat)
    requires i <= |s|
  {
    var e := IdentifierEnd(s, i);
    i < e < |s| && s[e] == '='
  }

  function ParseVariable(s: Bytes, i: nat): (r: Parsed<Bytes>)
    requires i <= |s|
    ensures InRange(r, i, |s|)
  {
    var e := IdentifierEnd(s, i);
    if e == i then Failed(CodecError(InvalidIdentifier, i)) else Parsed(s[i..e], e)
  }

  function ParseResult(s: Bytes, i: nat): (r: Parsed<Field>)
    requires i <= |s|
    ensures InRange(r, i, |s|)
    decreases |s| - i, 1
  {
    var (name, e) :- ParseVariable(s, i);
    if e == |s| then Failed(CodecError(UnexpectedEnd, e))
    else if s[e] != '=' then Failed(CodecError(ExpectedEquals, e))
    else
      var (value, next) :- ParseValue(s, e + 1);
      Parsed(Field(name, value), next)
  }

  function ParseValue(s: Bytes, i: nat): (r: Parsed<Value>)
    requires i <= |s|
    ensures InRange(r, i, |s|)
    decreases |s| - i, 1
  {
    if i == |s| then Failed(CodecError(UnexpectedEnd, i))
    else if s[i] == '"' then
      CString.ErrorInRangeAt(s, i);
      var (text, next) :- CString.Parse(s, i);
      Parsed(Const(text), next)
    else if s[i] == '{' then
      var (fields, next) :- ParseTuple(s, i);
      Parsed(Tuple(fields), next)
    else if s[i] == '[' then
      var (list, next) :- ParseList(s, i);
      Parsed(List(list), next)
    else Failed(CodecError(UnexpectedByte(OneOf("\"{["), s[i]), i))
  }

  function ParseTuple(s: Bytes, i: nat): (r: Parsed<seq<Field>>)
    requires i <= |s|
    ensures InRange(r, i, |s|)
    decreases |s| - i, 0
  {
    var (_, n) :- Cursors.Expect(s, i, '{');
    if n < |s| && s[n] == '}' then Parsed([], n + 1) else ParseFields(s, n, '}')
  }

  function ParseList(s: Bytes, i: nat): (r: Parsed<ListValue>)
    requires i <= |s|
    ensures InRange(r, i, |s|)
    decreases |s| - i, 0
  {
    var (_, n) :- Cursors.Expect(s, i, '[');
    if n < |s| && s[n] == ']' then Parsed(Empty, n + 1)
    else if LooksLikeResult(s, n) then
      var (fields, next) :- ParseFields(s, n, ']');
      Parsed(Results(fields), next)
    else
      var (values, next) :- ParseValues(s, n);
      Parsed(Values(values), next)
  }

  // What follows an item: a comma and so another item, or the closing byte.
  function AfterItem(s: Bytes, i: nat, close: Byte): (r: Parsed<bool>)
    requires i <= |s|
    ensures InRange(r, i, |s|)
    ensures r.Parsed? ==> r.next == i + 1
  {
    if i == |s| then Failed(CodecError(UnexpectedEnd, i))
    else if s[i] == ',' then Parsed(true, i + 1)
    else if s[i] == close then Parsed(false, i + 1)
    else Failed(CodecError(UnexpectedByte(OneOf([',', close]), s[i]), i))
  }

  // Results separated by commas up to `close`; within a list every item must look like a result.
  function ParseFields(s: Bytes, i: nat, close: Byte): (r: Parsed<seq<Field>>)
    requires i <= |s|
    ensures InRange(r, i, |s|)
    ensures r.Parsed? ==> r.value != []
    decreases |s| - i, 2
  {
    var (field, n) :- ParseResult(s, i);
    var (more, m) :- AfterItem(s, n, close);
    if !more then Parsed([field], m)
    else if close == ']' && !LooksLikeResult(s, m) then Failed(CodecError(MixedList, m))
    else
      var (rest, next) :- ParseFields(s, m, close);
      Parsed([field] + rest, next)
  }

  // Bare values separated by commas up to the closing bracket.
  function ParseValues(s: Bytes, i: nat): (r: Parsed<seq<Value>>)
    requires i <= |s|
    ensures InRange(r, i, |s|)
    ensures r.Parsed? ==> r.value != []
    decreases |s| - i, 2
  {
    var (value, n) :- ParseValue(s, i);
    var (more, m) :- AfterItem(s, n, ']');
    if !more then Parsed([value], m)
    else if LooksLikeResult(s, m) then Failed(CodecError(MixedList, m))
    else
      var (rest, next) :- ParseValues(s, m);
      Parsed([value] + rest, next)
  }
}
