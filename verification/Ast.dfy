// The typed records the parser produces and the errors it reports.
module Ast {
  import opened Octets
  import opened Wrappers
  import Utf8

  datatype Value =
    | Const(text: Bytes)
    | Tuple(fields: seq<Field>)
    | List(list: ListValue)

  // One `variable=value` pair. Keys may repeat and order matters.
  datatype Field = Field(name: Bytes, value: Value)

  datatype ListValue =
    | Empty
    | Values(values: seq<Value>)
    | Results(results: seq<Field>)

  datatype ResultClass = Done | Running | Connected | Error | Exit

  function ClassName(c: ResultClass): Bytes {
    match c
    case Done => "done"
    case Running => "running"
    case Connected => "connected"
    case Error => "error"
    case Exit => "exit"
  }

  function ClassFromName(name: Bytes): (r: Option<ResultClass>)
    ensures r.Some? ==> ClassName(r.value) == name
    ensures r.None? ==> forall c: ResultClass :: ClassName(c) != name
  {
    if name == "done" then Some(Done)
    else if name == "running" then Some(Running)
    else if name == "connected" then Some(Connected)
    else if name == "error" then Some(Error)
    else if name == "exit" then Some(Exit)
    else None
  }

  datatype ResultRecord = ResultRecord(token: Option<nat>, class_: ResultClass, results: seq<Field>)

  datatype AsyncRecord = AsyncRecord(token: Option<nat>, class_: Bytes, results: seq<Field>)

  datatype Record =
    | Result(result: ResultRecord)
    | Exec(exec: AsyncRecord)
    | Status(status: AsyncRecord)
    | Notify(notify: AsyncRecord)
    | Console(console: Bytes)
    | Target(target: Bytes)
    | Log(log: Bytes)

  datatype CStringError =
    | MissingOpenQuote
    | MissingCloseQuote
    | InvalidEscape(found: Byte)
    | TruncatedEscape
    | InvalidHexDigit(found: Byte)

  datatype Expected =
    | ExpectedByte(b: Byte)
    | OneOf(bytes: Bytes)
    | CommaOrEnd

  datatype ErrorKind =
    | UnexpectedEnd
    | UnexpectedByte(expected: Expected, found: Byte)
    | InvalidRecordPrefix(found: Byte)
    | UnknownResultClass(name: Bytes)
    | StreamRecordHasToken
    | TokenOverflow
    | InvalidIdentifier
    | ExpectedEquals
    | MixedList
    | InvalidCString(reason: CStringError)
    | InvalidUtf8
    | TrailingGarbage

  datatype CodecError = CodecError(kind: ErrorKind, offset: nat)

  // The outcome of parsing at an offset: a value and the offset after it.
  datatype Parsed<+T> = Parsed(value: T, next: nat) | Failed(error: CodecError) {
    predicate IsFailure() { Failed? }

    function PropagateFailure<U>(): Parsed<U>
      requires Failed?
    {
      Failed(error)
    }

    function Extract(): (T, nat)
      requires Parsed?
    {
      (value, next)
    }
  }

  // An error points into the input, and an unexpected end is reported at its end.
  predicate ErrorInRange(e: CodecError, size: nat) {
    e.offset <= size && (e.kind == UnexpectedEnd ==> e.offset == size)
  }
}
