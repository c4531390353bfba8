// The cursor methods for whole records, proved against `RecordSyntax`.
module RecordParser {
  import opened Octets
  import opened Wrappers
  import opened Ast
  import opened Cursors
  import CStringParser
  import ValueParser
  import ValueSyntax
  import Syntax = RecordSyntax
  import Decimal

  // Parse one output line, its terminator already stripped.
  method ParseRecord(line: Bytes) returns (r: Wrappers.Result<Record, CodecError>)
    ensures r == Syntax.ParseRecord(line)
  {
    hide Syntax.ParseToken, Syntax.ParseResultRecord, Syntax.ParseAsyncRecord;
    var cursor := new Cursor(line);
    var token :- ParseOptionalToken(cursor);
    var prefix := cursor.Peek();
    if prefix.None? {
      return Failure(CodecError(UnexpectedEnd, cursor.pos));
    }
    var record: Record;
    if prefix.value == '^' {
      var _ := cursor.Advance();
      var result :- ParseResultRecord(cursor, token);
      record := Result(result);
    } else if prefix.value in "*+=" {
      var _ := cursor.Advance();
      var async :- ParseAsyncRecord(cursor, token);
      record := Syntax.AsyncOf(prefix.value, async);
    } else if prefix.value in "~@&" {
      if token.Some? {
        return Failure(CodecError(StreamRecordHasToken, 0));
      }
      var _ := cursor.Advance();
      var text :- CStringParser.ParseCString(cursor);
      record := Syntax.StreamOf(prefix.value, text);
    } else {
      return Failure(CodecError(InvalidRecordPrefix(prefix.value), cursor.pos));
    }
    if !cursor.AtEnd() {
      return Failure(CodecError(TrailingGarbage, cursor.pos));
    }
    return Success(record);
  }

  // A run of digits accumulated with a 64-bit overflow check at every digit.
  method ParseOptionalToken(cursor: Cursor) returns (r: Wrappers.Result<Option<nat>, CodecError>)
    requires cursor.Valid()
    modifies cursor
    ensures cursor.Valid() && Agrees(cursor, r, Syntax.ParseToken(cursor.input, old(cursor.pos)))
  {
    hide Decimal.Value, Syntax.DigitsEnd;
    var start := cursor.pos;
    var value: nat := 0;
    var any := false;
    NoDigitsYet(cursor.input, start);
    while cursor.Peek().Some?
      invariant cursor.Valid() && start <= cursor.pos
      invariant Syntax.DigitsEnd(cursor.input, start) == Syntax.DigitsEnd(cursor.input, cursor.pos)
      invariant Decimal.AllDigits(cursor.input[start..cursor.pos])
      invariant value == Decimal.Value(cursor.input[start..cursor.pos]) <= U64_MAX
      invariant any <==> start < cursor.pos
      decreases |cursor.input| - cursor.pos
    {
      var b := cursor.Peek().value;
      if !IsDigit(b) {
        break;
      }
      OneMoreDigit(cursor.input, start, cursor.pos);
      if value * 10 + Decimal.DigitValue(b) > U64_MAX {
        return Failure(CodecError(TokenOverflow, start));
      }
      value := value * 10 + Decimal.DigitValue(b);
      var _ := cursor.Advance();
      any := true;
    }
    NoMoreDigits(cursor.input, cursor.pos);
    return Success(if any then Some(value) else None);
  }

  lemma NoDigitsYet(s: Bytes, start: nat)
    requires start <= |s|
    ensures s[start..start] == [] && Decimal.Value(s[start..start]) == 0
  {
  }

  // One more digit of a run stays in the run, and its value never exceeds that of the whole.
  lemma OneMoreDigit(s: Bytes, start: nat, pos: nat)
    requires start <= pos < |s| && IsDigit(s[pos])
    requires Syntax.DigitsEnd(s, start) == Syntax.DigitsEnd(s, pos) && Decimal.AllDigits(s[start..pos])
    ensures Decimal.AllDigits(s[start..pos + 1])
    ensures pos < Syntax.DigitsEnd(s, start) == Syntax.DigitsEnd(s, pos + 1)
    ensures Decimal.Value(s[start..pos + 1])
         == Decimal.Value(s[start..pos]) * 10 + Decimal.DigitValue(s[pos])
         <= Decimal.Value(s[start..Syntax.DigitsEnd(s, start)])
  {
    var run := s[start..Syntax.DigitsEnd(s, start)];
    var k := pos - start;
    assert run[k] == s[pos] && run[..k] == s[start..pos] && run[..k + 1] == s[start..pos + 1];
    Decimal.ValueGrows(run, k);
  }

  lemma NoMoreDigits(s: Bytes, pos: nat)
    requires pos <= |s| && (pos < |s| ==> !IsDigit(s[pos]))
    ensures Syntax.DigitsEnd(s, pos) == pos
  {
  }

  method ParseResultRecord(cursor: Cursor, token: Option<nat>) returns (r: Wrappers.Result<ResultRecord, CodecError>)
    requires cursor.Valid()
    modifies cursor
    ensures cursor.Valid() && Agrees(cursor, r, Syntax.ParseResultRecord(cursor.input, old(cursor.pos), token))
  {
    var class_ :- ParseResultClass(cursor);
    var results :- ParseTrailingResults(cursor);
    return Success(ResultRecord(token, class_, results));
  }

  method ParseResultClass(cursor: Cursor) returns (r: Wrappers.Result<ResultClass, CodecError>)
    requires cursor.Valid()
    modifies cursor
    ensures cursor.Valid() && Agrees(cursor, r, Syntax.ParseResultClass(cursor.input, old(cursor.pos)))
  {
    var start := cursor.pos;
    var name: Bytes := [];
    while cursor.Peek().Some?
      invariant cursor.Valid() && start <= cursor.pos
      invariant name == cursor.input[start..cursor.pos]
      invariant Syntax.LowerEnd(cursor.input, start) == Syntax.LowerEnd(cursor.input, cursor.pos)
      decreases |cursor.input| - cursor.pos
    {
      var b := cursor.Peek().value;
      if !IsLower(b) {
        break;
      }
      name := name + [b];
      var _ := cursor.Advance();
    }
    if name == [] {
      return Failure(CodecError(InvalidIdentifier, start));
    }
    match ClassFromName(name)
    case Some(c) => return Success(c);
    case None => return Failure(CodecError(UnknownResultClass(name), start));
  }

  method ParseTrailingResults(cursor: Cursor) returns (r: Wrappers.Result<seq<Field>, CodecError>)
    requires cursor.Valid()
    modifies cursor
    ensures cursor.Valid() && Agrees(cursor, r, Syntax.ParseTrailing(cursor.input, old(cursor.pos)))
  {
    var out: seq<Field> := [];
    ghost var start := cursor.pos;
    ghost var whole := Syntax.ParseTrailing(cursor.input, start);
    PrependNone(whole);
    while true
      invariant cursor.Valid() && start <= cursor.pos
      invariant whole == Prepended(out, Syntax.ParseTrailing(cursor.input, cursor.pos))
      decreases |cursor.input| - cursor.pos
    {
      hide ValueSyntax.ParseResult;
      match cursor.Peek()
      case None =>
        assert out + [] == out;
        return Success(out);
      case Some(b) =>
        if b != ',' {
          return Failure(CodecError(UnexpectedByte(CommaOrEnd, b), cursor.pos));
        }
        var _ := cursor.Advance();
        var field :- ValueParser.ParseResult(cursor);
        PrependOne(out, field, Syntax.ParseTrailing(cursor.input, cursor.pos));
        out := out + [field];
    }
  }

  method ParseAsyncRecord(cursor: Cursor, token: Option<nat>) returns (r: Wrappers.Result<AsyncRecord, CodecError>)
    requires cursor.Valid()
    modifies cursor
    ensures cursor.Valid() && Agrees(cursor, r, Syntax.ParseAsyncRecord(cursor.input, old(cursor.pos), token))
  {
    var class_ :- ValueParser.ParseVariable(cursor);
    var results :- ParseTrailingResults(cursor);
    return Success(AsyncRecord(token, class_, results));
  }
}
