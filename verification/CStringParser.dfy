// The cursor loops that decode a c-string, proved against `CString.Parse`.
module CStringParser {
  import opened Octets
  import opened Wrappers
  import opened Ast
  import opened Cursors
  import CString
  import Utf8

  method ParseCString(cursor: Cursor) returns (r: Result<Bytes, CodecError>)
    requires cursor.Valid()
    modifies cursor
    ensures cursor.Valid() && Agrees(cursor, r, CString.Parse(cursor.input, old(cursor.pos)))
  {
    var openPos := cursor.pos;
    if cursor.Peek() != Some('"') {
      return Failure(CodecError(InvalidCString(MissingOpenQuote), openPos));
    }
    var _ := cursor.Advance();

    var out: Bytes := [];
    ghost var whole := CString.ParseBody(cursor.input, openPos + 1, openPos);
    PrependNone(whole);
    while true
      invariant cursor.Valid() && openPos < cursor.pos
      invariant whole == Prepended(out, CString.ParseBody(cursor.input, cursor.pos, openPos))
      decreases |cursor.input| - cursor.pos
    {
      hide CString.DecodeEscape;
      match cursor.Peek()
      case None =>
        return Failure(CodecError(InvalidCString(MissingCloseQuote), openPos));
      case Some(b) =>
        if b == '"' {
          var _ := cursor.Advance();
          break;
        } else if b == '\\' {
          var byte :- DecodeEscape(cursor);
          PrependOne(out, byte, CString.ParseBody(cursor.input, cursor.pos, openPos));
          out := out + [byte];
        } else {
          var _ := cursor.Advance();
          PrependOne(out, b, CString.ParseBody(cursor.input, cursor.pos, openPos));
          out := out + [b];
        }
    }
    assert out + [] == out;
    if Utf8.Valid(out) {
      return Success(out);
    }
    return Failure(CodecError(InvalidUtf8, openPos));
  }

  // Decode one escape; the cursor stands at its backslash.
  method DecodeEscape(cursor: Cursor) returns (r: Result<Byte, CodecError>)
    requires cursor.Valid() && cursor.Peek() == Some('\\')
    modifies cursor
    ensures cursor.Valid() && Agrees(cursor, r, CString.DecodeEscape(cursor.input, old(cursor.pos)))
  {
    var escapePos := cursor.pos;
    var _ := cursor.Advance();
    match cursor.Peek()
    case None =>
      return Failure(CodecError(InvalidCString(TruncatedEscape), escapePos));
    case Some(c) =>
      var named := CString.NamedEscape(c);
      if named.Some? {
        var _ := cursor.Advance();
        return Success(named.value);
      } else if c == 'x' {
        var _ := cursor.Advance();
        var hi :- ReadHexDigit(cursor, escapePos);
        var lo :- ReadHexDigit(cursor, escapePos);
        return Success((hi * 16 + lo) as char);
      } else if CString.IsOctal(c) {
        var byte := ReadOctal(cursor);
        return Success(byte);
      }
      return Failure(CodecError(InvalidCString(InvalidEscape(c)), escapePos));
  }

  method ReadHexDigit(cursor: Cursor, escapePos: nat) returns (r: Result<nat, CodecError>)
    requires cursor.Valid()
    modifies cursor
    ensures cursor.Valid() && Agrees(cursor, r, CString.ReadHex(cursor.input, old(cursor.pos), escapePos))
  {
    match cursor.Peek()
    case None =>
      return Failure(CodecError(InvalidCString(TruncatedEscape), escapePos));
    case Some(b) =>
      if !CString.IsHex(b) {
        return Failure(CodecError(InvalidCString(InvalidHexDigit(b)), cursor.pos));
      }
      var _ := cursor.Advance();
      return Success(CString.HexValue(b));
  }

  // One to three octal digits, greedily; the value wraps to a byte.
  method ReadOctal(cursor: Cursor) returns (byte: Byte)
    requires cursor.Valid() && cursor.Peek().Some? && CString.IsOctal(cursor.Peek().value)
    modifies cursor
    ensures cursor.Valid()
    ensures cursor.pos == old(cursor.pos) + CString.OctalRun(cursor.input, old(cursor.pos), 3)
    ensures byte == CString.OctalByte(cursor.input[old(cursor.pos)..cursor.pos])
  {
    hide CString.OctalValue, CString.OctalRun;
    var value: nat := 0;
    var digits := 0;
    ghost var start := cursor.pos;
    NoOctals(cursor.input, start);
    while digits < 3
      invariant cursor.Valid() && cursor.pos == start + digits && digits <= 3
      invariant Octals(cursor.input[start..cursor.pos])
      invariant value == CString.OctalValue(cursor.input[start..cursor.pos])
      invariant value < if digits == 0 then 1 else if digits == 1 then 8 else if digits == 2 then 64 else 512
    {
      match cursor.Peek()
      case None => break;
      case Some(b) =>
        if !CString.IsOctal(b) {
          break;
        }
        OneMoreOctal(cursor.input, start, cursor.pos);
        var _ := cursor.Advance();
        value := value * 8 + (b as int - '0' as int);
        digits := digits + 1;
    }
    EndOfOctals(cursor.input, start, cursor.pos);
    byte := (value % 256) as char;
  }

  lemma NoOctals(s: Bytes, start: nat)
    requires start <= |s|
    ensures Octals(s[start..start]) && CString.OctalValue(s[start..start]) == 0
  {
  }

  lemma OneMoreOctal(s: Bytes, start: nat, pos: nat)
    requires start <= pos < |s| && Octals(s[start..pos]) && CString.IsOctal(s[pos])
    ensures Octals(s[start..pos + 1])
    ensures CString.OctalValue(s[start..pos + 1])
         == CString.OctalValue(s[start..pos]) * 8 + (s[pos] as int - '0' as int)
  {
    assert s[start..pos + 1] == s[start..pos] + [s[pos]];
    OctalStep(s[start..pos], s[pos]);
  }

  lemma EndOfOctals(s: Bytes, start: nat, pos: nat)
    requires start <= pos <= |s| && pos <= start + 3 && Octals(s[start..pos])
    requires pos == start + 3 || pos == |s| || !CString.IsOctal(s[pos])
    ensures pos == start + CString.OctalRun(s, start, 3)
    ensures CString.OctalByte(s[start..pos]) == (CString.OctalValue(s[start..pos]) % 256) as char
  {
    CString.OctalRunIs(s, start, s[start..pos], 3);
  }

  ghost predicate Octals(digits: Bytes) {
    forall k | 0 <= k < |digits| :: CString.IsOctal(digits[k])
  }

  lemma OctalStep(digits: Bytes, b: Byte)
    requires Octals(digits) && CString.IsOctal(b)
    ensures Octals(digits + [b])
    ensures CString.OctalValue(digits + [b]) == CString.OctalValue(digits) * 8 + (b as int - '0' as int)
  {
    assert (digits + [b])[..|digits|] == digits;
  }
}
