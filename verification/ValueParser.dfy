// The mutually recursive cursor methods for values, proved against `ValueSyntax`.
module ValueParser {
  import opened Octets
  import opened Wrappers
  import opened Ast
  import opened Cursors
  import CStringParser
  import Syntax = ValueSyntax

  method ParseValue(cursor: Cursor) returns (r: Result<Value, CodecError>)
    requires cursor.Valid()
    modifies cursor
    ensures cursor.Valid() && Agrees(cursor, r, Syntax.ParseValue(cursor.input, old(cursor.pos)))
    decreases |cursor.input| - cursor.pos, 1
  {
    match cursor.Peek()
    case None =>
      return Failure(CodecError(UnexpectedEnd, cursor.pos));
    case Some(b) =>
      if b == '"' {
        var text :- CStringParser.ParseCString(cursor);
        return Success(Const(text));
      } else if b == '{' {
        var fields :- ParseTuple(cursor);
        return Success(Tuple(fields));
      } else if b == '[' {
        var list :- ParseList(cursor);
        return Success(List(list));
      }
      return Failure(CodecError(UnexpectedByte(OneOf("\"{["), b), cursor.pos));
  }

  method ParseTuple(cursor: Cursor) returns (r: Result<seq<Field>, CodecError>)
    requires cursor.Valid()
    modifies cursor
    ensures cursor.Valid() && Agrees(cursor, r, Syntax.ParseTuple(cursor.input, old(cursor.pos)))
    decreases |cursor.input| - cursor.pos, 0
  {
    var _ :- cursor.ExpectByte('{');
    if cursor.Peek() == Some('}') {
      var _ := cursor.Advance();
      return Success([]);
    }
    var out: seq<Field> := [];
    ghost var start := cursor.pos;
    ghost var whole := Syntax.ParseFields(cursor.input, start, '}');
    PrependNone(whole);
    while true
      invariant cursor.Valid() && start <= cursor.pos
      invariant whole == Prepended(out, Syntax.ParseFields(cursor.input, cursor.pos, '}'))
      decreases |cursor.input| - cursor.pos
    {
      hide Syntax.ParseResult, Syntax.LooksLikeResult, Syntax.AfterItem;
      var field :- ParseResult(cursor);
      var more :- AfterItem(cursor, '}');
      if !more {
        return Success(out + [field]);
      }
      PrependOne(out, field, Syntax.ParseFields(cursor.input, cursor.pos, '}'));
      out := out + [field];
    }
  }

  // What follows an item of a tuple or a list: a comma and another item, or the closing byte.
  method AfterItem(cursor: Cursor, close: Byte) returns (r: Result<bool, CodecError>)
    requires cursor.Valid()
    modifies cursor
    ensures cursor.Valid() && Agrees(cursor, r, Syntax.AfterItem(cursor.input, old(cursor.pos), close))
  {
    match cursor.Peek()
    case None =>
      return Failure(CodecError(UnexpectedEnd, cursor.pos));
    case Some(b) =>
      if b == ',' {
        var _ := cursor.Advance();
        return Success(true);
      } else if b == close {
        var _ := cursor.Advance();
        return Success(false);
      }
      return Failure(CodecError(UnexpectedByte(OneOf([',', close]), b), cursor.pos));
  }

  method ParseList(cursor: Cursor) returns (r: Result<ListValue, CodecError>)
    requires cursor.Valid()
    modifies cursor
    ensures cursor.Valid() && Agrees(cursor, r, Syntax.ParseList(cursor.input, old(cursor.pos)))
    decreases |cursor.input| - cursor.pos, 0
  {
    var _ :- cursor.ExpectByte('[');
    if cursor.Peek() == Some(']') {
      var _ := cursor.Advance();
      return Success(Empty);
    }
    var results := LooksLikeResult(cursor);
    if results {
      var fields :- ParseListResults(cursor);
      return Success(Results(fields));
    }
    var values :- ParseListValues(cursor);
    return Success(Values(values));
  }

  // The loop of a list of results; every later item must look like one too.
  method ParseListResults(cursor: Cursor) returns (r: Result<seq<Field>, CodecError>)
    requires cursor.Valid()
    modifies cursor
    ensures cursor.Valid() && Agrees(cursor, r, Syntax.ParseFields(cursor.input, old(cursor.pos), ']'))
    decreases |cursor.input| - cursor.pos, 2
  {
    var out: seq<Field> := [];
    ghost var start := cursor.pos;
    ghost var whole := Syntax.ParseFields(cursor.input, start, ']');
    PrependNone(whole);
    while true
      invariant cursor.Valid() && start <= cursor.pos
      invariant whole == Prepended(out, Syntax.ParseFields(cursor.input, cursor.pos, ']'))
      decreases |cursor.input| - cursor.pos
    {
      hide Syntax.ParseResult, Syntax.LooksLikeResult, Syntax.AfterItem;
      var field :- ParseResult(cursor);
      var more :- AfterItem(cursor, ']');
      if !more {
        return Success(out + [field]);
      }
      var homogeneous := LooksLikeResult(cursor);
      if !homogeneous {
        return Failure(CodecError(MixedList, cursor.pos));
      }
      PrependOne(out, field, Syntax.ParseFields(cursor.input, cursor.pos, ']'));
      out := out + [field];
    }
  }

  // The loop of a list of bare values; no later item may look like a result.
  method ParseListValues(cursor: Cursor) returns (r: Result<seq<Value>, CodecError>)
    requires cursor.Valid()
    modifies cursor
    ensures cursor.Valid() && Agrees(cursor, r, Syntax.ParseValues(cursor.input, old(cursor.pos)))
    decreases |cursor.input| - cursor.pos, 2
  {
    var out: seq<Value> := [];
    ghost var start := cursor.pos;
    ghost var whole := Syntax.ParseValues(cursor.input, start);
    PrependNone(whole);
    while true
      invariant cursor.Valid() && start <= cursor.pos
      invariant whole == Prepended(out, Syntax.ParseValues(cursor.input, cursor.pos))
      decreases |cursor.input| - cursor.pos
    {
      hide Syntax.ParseValue, Syntax.LooksLikeResult, Syntax.AfterItem;
      var value :- ParseValue(cursor);
      var more :- AfterItem(cursor, ']');
      if !more {
        return Success(out + [value]);
      }
      var mixed := LooksLikeResult(cursor);
      if mixed {
        return Failure(CodecError(MixedList, cursor.pos));
      }
      PrependOne(out, value, Syntax.ParseValues(cursor.input, cursor.pos));
      out := out + [value];
    }
  }

  method ParseResult(cursor: Cursor) returns (r: Result<Field, CodecError>)
    requires cursor.Valid()
    modifies cursor
    ensures cursor.Valid() && Agrees(cursor, r, Syntax.ParseResult(cursor.input, old(cursor.pos)))
    decreases |cursor.input| - cursor.pos, 1
  {
    var name :- ParseVariable(cursor);
    var equals := cursor.ExpectByte('=');
    if equals.Failure? {
      return Failure(match equals.error.kind
                     case UnexpectedByte(_, _) => CodecError(ExpectedEquals, equals.error.offset)
                     case _ => equals.error);
    }
    var value :- ParseValue(cursor);
    return Success(Field(name, value));
  }

  method ParseVariable(cursor: Cursor) returns (r: Result<Bytes, CodecError>)
    requires cursor.Valid()
    modifies cursor
    ensures cursor.Valid() && Agrees(cursor, r, Syntax.ParseVariable(cursor.input, old(cursor.pos)))
  {
    var start := cursor.pos;
    var name: Bytes := [];
    while cursor.Peek().Some?
      invariant cursor.Valid() && start <= cursor.pos
      invariant name == cursor.input[start..cursor.pos]
      invariant Syntax.IdentifierEnd(cursor.input, start) == Syntax.IdentifierEnd(cursor.input, cursor.pos)
      decreases |cursor.input| - cursor.pos
    {
      var b := cursor.Peek().value;
      if !IsIdentifierByte(b) {
        break;
      }
      name := name + [b];
      var _ := cursor.Advance();
    }
    if name == [] {
      return Failure(CodecError(InvalidIdentifier, start));
    }
    return Success(name);
  }

  // Scan ahead past identifier bytes for an '=', without moving the cursor.
  method LooksLikeResult(cursor: Cursor) returns (yes: bool)
    requires cursor.Valid()
    ensures yes == Syntax.LooksLikeResult(cursor.input, cursor.pos)
  {
    var first := cursor.Peek();
    if first.None? || !IsIdentifierByte(first.value) {
      return false;
    }
    var offset := 1;
    while cursor.PeekAt(offset).Some?
      invariant 1 <= offset && cursor.pos + offset <= |cursor.input|
      invariant Syntax.IdentifierEnd(cursor.input, cursor.pos)
             == Syntax.IdentifierEnd(cursor.input, cursor.pos + offset)
      decreases |cursor.input| - cursor.pos - offset
    {
      var b := cursor.PeekAt(offset).value;
      if !IsIdentifierByte(b) {
        return b == '=';
      }
      offset := offset + 1;
    }
    return false;
  }
}
