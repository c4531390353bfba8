// What a parse error says stands where it says.
//
// Acceptance is settled by the grammar; this is about refusals. Every error
// of every line names something that is really there, or really missing.
module ErrorMeaning {
  import opened Octets
  import opened Wrappers
  import opened Ast
  import opened ValueSyntax
  import opened RecordSyntax
  import CString
  import Decimal
  import Utf8

  predicate Admits(expected: Expected, b: Byte) {
    match expected
    case ExpectedByte(x) => b == x
    case OneOf(bytes) => b in bytes
    case CommaOrEnd => b == ','
  }

  ghost predicate Fits(e: CodecError, s: Bytes) {
    var o := e.offset;
    o <= |s| &&
    match e.kind
    case UnexpectedEnd => o == |s|
    case UnexpectedByte(expected, found) => o < |s| && s[o] == found && !Admits(expected, found)
    case InvalidRecordPrefix(found) => o < |s| && s[o] == found && found !in "^*+=~@&"
    case UnknownResultClass(name) =>
      At(s, o, name) && name != [] && name !in {"done", "running", "connected", "error", "exit"}
      && (o + |name| < |s| ==> !IsLower(s[o + |name|]))
    case StreamRecordHasToken =>
      o == 0 && exists n: nat :: StartsWithNumber(s, n) && n <= U64_MAX && s[DigitsEnd(s, 0)] in "~@&"
    case TokenOverflow => o == 0 && exists n: nat :: StartsWithNumber(s, n) && n > U64_MAX
    case InvalidIdentifier => o == |s| || !IsLower(s[o])
    case ExpectedEquals => 0 < o < |s| && IsIdentifierByte(s[o - 1]) && !IsIdentifierByte(s[o]) && s[o] != '='
    case MixedList => 0 < o && s[o - 1] == ','
    case InvalidCString(reason) => FitsLiteral(reason, s, o)
    case InvalidUtf8 => exists atoms: seq<CString.Atom> :: IsLiteralAt(s, o, atoms) && !Utf8.Valid(CString.Decoded(atoms))
    case TrailingGarbage => 1 < o < |s| && s[0] in "~@&" && s[o - 1] == '"'
  }

  // The line starts with a digit run of this value, and goes on.
  ghost predicate StartsWithNumber(s: Bytes, n: nat) {
    var e := DigitsEnd(s, 0);
    0 < e && Decimal.Value(s[..e]) == n && (n <= U64_MAX ==> e < |s|)
  }

  // A closed literal stands there, whatever bytes it denotes.
  ghost predicate IsLiteralAt(s: Bytes, o: nat, atoms: seq<CString.Atom>) {
    CString.WellFormedAtoms(atoms) && At(s, o, CString.LiteralText(atoms))
  }

  ghost predicate FitsLiteral(reason: CStringError, s: Bytes, o: nat)
    requires o <= |s|
  {
    match reason
    case MissingOpenQuote => o == |s| || s[o] != '"'
    case MissingCloseQuote =>
      o < |s| && s[o] == '"' && forall atoms: seq<CString.Atom> :: !IsLiteralAt(s, o, atoms)
    case InvalidEscape(found) =>
      o + 1 < |s| && s[o] == '\\' && s[o + 1] == found
      && found !in CString.ESCAPES && found != 'x' && !('0' <= found <= '7')
    case TruncatedEscape => o < |s| && s[o] == '\\' && |s| <= o + 3
    case InvalidHexDigit(found) => o < |s| && s[o] == found && found !in CString.LOWER_HEX && found !in CString.UPPER_HEX
  }

  lemma EscapeFits(s: Bytes, i: nat)
    requires i < |s| && s[i] == '\\' && CString.DecodeEscape(s, i).Failed?
    ensures Fits(CString.DecodeEscape(s, i).error, s)
  {
    if i + 1 < |s| {
      CString.EscapeTable(s[i + 1]);
      if i + 2 < |s| {
        CString.OnlyHex(s[i + 2]);
      }
      if i + 3 < |s| {
        CString.OnlyHex(s[i + 3]);
      }
    }
    hide CString.IsHex, CString.NamedEscape;
  }

  lemma {:induction false} BodyFits(s: Bytes, i: nat, open: nat)
    requires open < i <= |s| && CString.ParseBody(s, i, open).Failed?
    ensures
      var e := CString.ParseBody(s, i, open).error;
      e == CodecError(InvalidCString(MissingCloseQuote), open) || Fits(e, s)
    decreases |s| - i
  {
    hide CString.DecodeEscape, Fits;
    if i < |s| && s[i] != '"' {
      var r := CString.DecodeByte(s, i);
      if r.Parsed? {
        BodyFits(s, r.next, open);
      } else {
        EscapeFits(s, i);
      }
    }
  }

  // Where decoding fails, no literal stands at all.
  lemma NoLiteral(s: Bytes, o: nat)
    requires o < |s| && CString.ParseBody(s, o + 1, o).Failed?
    ensures forall atoms: seq<CString.Atom> :: !IsLiteralAt(s, o, atoms)
  {
    forall atoms: seq<CString.Atom> | IsLiteralAt(s, o, atoms)
      ensures false
    {
      hide CString.ParseBody;
      assert CString.LiteralText(atoms) == ['"'] + (CString.BodyText(atoms) + ['"']);
      AtConcat(s, o, ['"'], CString.BodyText(atoms) + ['"']);
      CString.BodyComplete(s, o + 1, atoms, o);
    }
  }

  lemma LiteralStands(s: Bytes, o: nat) returns (atoms: seq<CString.Atom>)
    requires o < |s| && s[o] == '"' && CString.ParseBody(s, o + 1, o).Parsed?
    ensures IsLiteralAt(s, o, atoms) && CString.Decoded(atoms) == CString.ParseBody(s, o + 1, o).value
    ensures s[CString.ParseBody(s, o + 1, o).next - 1] == '"'
  {
    hide CString.ParseBody;
    atoms := CString.BodySound(s, o + 1, o);
    assert CString.LiteralText(atoms) == ['"'] + (CString.BodyText(atoms) + ['"']);
    AtConcat(s, o, ['"'], CString.BodyText(atoms) + ['"']);
    AtByte(s, o + 1, CString.BodyText(atoms) + ['"'], |CString.BodyText(atoms)|);
  }

  lemma LiteralFits(s: Bytes, i: nat)
    requires i <= |s| && CString.Parse(s, i).Failed?
    ensures Fits(CString.Parse(s, i).error, s)
  {
    hide CString.ParseBody;
    if i < |s| && s[i] == '"' {
      if CString.ParseBody(s, i + 1, i).Failed? {
        BodyFits(s, i + 1, i);
        NoLiteral(s, i);
      } else {
        var atoms := LiteralStands(s, i);
        assert IsLiteralAt(s, i, atoms) && !Utf8.Valid(CString.Decoded(atoms));
      }
    }
  }

  lemma {:induction false} ValueFits(s: Bytes, i: nat)
    requires i <= |s| && ParseValue(s, i).Failed?
    ensures Fits(ParseValue(s, i).error, s)
    decreases |s| - i, 1
  {
    hide CString.Parse, Fits;
    if i == |s| || (s[i] != '"' && s[i] != '{' && s[i] != '[') {
      StartFits(s, i);
    } else if s[i] == '"' {
      LiteralFits(s, i);
    } else if s[i] == '{' {
      TupleFits(s, i);
    } else {
      ListFits(s, i);
    }
  }

  lemma StartFits(s: Bytes, i: nat)
    requires i <= |s| && (i < |s| ==> s[i] != '"' && s[i] != '{' && s[i] != '[')
    ensures i == |s| ==> Fits(CodecError(UnexpectedEnd, i), s)
    ensures i < |s| ==> Fits(CodecError(UnexpectedByte(OneOf("\"{["), s[i]), i), s)
  {
  }

  lemma {:induction false} TupleFits(s: Bytes, i: nat)
    requires i < |s| && s[i] == '{' && ParseTuple(s, i).Failed?
    ensures Fits(ParseTuple(s, i).error, s)
    decreases |s| - i, 0
  {
    hide Fits, ParseFields;
    FieldsFit(s, i + 1, '}');
  }

  lemma {:induction false} ListFits(s: Bytes, i: nat)
    requires i < |s| && s[i] == '[' && ParseList(s, i).Failed?
    ensures Fits(ParseList(s, i).error, s)
    decreases |s| - i, 0
  {
    hide Fits, ParseFields, ParseValues, LooksLikeResult;
    if LooksLikeResult(s, i + 1) {
      FieldsFit(s, i + 1, ']');
    } else {
      ValuesFit(s, i + 1);
    }
  }

  lemma {:induction false} FieldFits(s: Bytes, i: nat)
    requires i <= |s| && ParseResult(s, i).Failed?
    ensures Fits(ParseResult(s, i).error, s)
    decreases |s| - i, 1
  {
    hide ParseValue;
    var e := IdentifierEnd(s, i);
    if i < e < |s| && s[e] == '=' {
      ValueFits(s, e + 1);
    }
  }

  lemma ItemFits(s: Bytes, i: nat, close: Byte)
    requires i <= |s| && AfterItem(s, i, close).Failed?
    ensures Fits(AfterItem(s, i, close).error, s)
  {
  }

  lemma MixedFits(s: Bytes, i: nat, close: Byte)
    requires i <= |s| && AfterItem(s, i, close).Parsed? && AfterItem(s, i, close).value
    ensures Fits(CodecError(MixedList, AfterItem(s, i, close).next), s)
  {
  }

  lemma {:induction false} FieldsFit(s: Bytes, i: nat, close: Byte)
    requires i <= |s|
    ensures ParseFields(s, i, close).Failed? ==> Fits(ParseFields(s, i, close).error, s)
    decreases |s| - i, 2
  {
    hide Fits, ParseResult, LooksLikeResult, AfterItem;
    var field := ParseResult(s, i);
    if field.Failed? {
      FieldFits(s, i);
    } else {
      var after := AfterItem(s, field.next, close);
      if after.Failed? {
        ItemFits(s, field.next, close);
      } else if after.value {
        MixedFits(s, field.next, close);
        FieldsFit(s, after.next, close);
      }
    }
  }

  lemma {:induction false} ValuesFit(s: Bytes, i: nat)
    requires i <= |s|
    ensures ParseValues(s, i).Failed? ==> Fits(ParseValues(s, i).error, s)
    decreases |s| - i, 2
  {
    hide Fits, ParseValue, LooksLikeResult, AfterItem;
    var value := ParseValue(s, i);
    if value.Failed? {
      ValueFits(s, i);
    } else {
      var after := AfterItem(s, value.next, ']');
      if after.Failed? {
        ItemFits(s, value.next, ']');
      } else if after.value {
        MixedFits(s, value.next, ']');
        ValuesFit(s, after.next);
      }
    }
  }

  lemma {:induction false} TrailingFits(s: Bytes, i: nat)
    requires i <= |s| && ParseTrailing(s, i).Failed?
    ensures Fits(ParseTrailing(s, i).error, s)
    decreases |s| - i
  {
    hide ParseResult;
    if i < |s| && s[i] == ',' {
      var field := ParseResult(s, i + 1);
      if field.Failed? {
        FieldFits(s, i + 1);
      } else {
        TrailingFits(s, field.next);
      }
    }
  }

  lemma {:induction false} LowerRun(s: Bytes, i: nat)
    requires i <= |s|
    ensures At(s, i, s[i..LowerEnd(s, i)])
    decreases |s| - i
  {
  }

  lemma ClassFits(s: Bytes, i: nat)
    requires i <= |s| && ParseResultClass(s, i).Failed?
    ensures Fits(ParseResultClass(s, i).error, s)
  {
    LowerRun(s, i);
    Spellings();
    hide ClassName, LowerEnd;
  }

  lemma Spellings()
    ensures ClassFromName("done").Some? && ClassFromName("running").Some? && ClassFromName("connected").Some?
    ensures ClassFromName("error").Some? && ClassFromName("exit").Some?
  {
  }

  lemma BodyAtFits(s: Bytes, i: nat, token: Option<nat>)
    requires i <= |s| && ParseBodyAt(s, i, token).Failed?
    requires token.Some? ==> token.value <= U64_MAX && i == DigitsEnd(s, 0) && 0 < i && Decimal.Value(s[..i]) == token.value
    ensures Fits(ParseBodyAt(s, i, token).error, s)
  {
    hide ParseTrailing, ParseResultClass, CString.Parse, ParseVariable, DigitsEnd;
    if i < |s| {
      var prefix := s[i];
      if prefix == '^' {
        var class_ := ParseResultClass(s, i + 1);
        hide Fits;
        if class_.Failed? {
          ClassFits(s, i + 1);
        } else {
          TrailingFits(s, class_.next);
        }
      } else if prefix in "*+=" {
        var name := ParseVariable(s, i + 1);
        hide Fits;
        if name.Failed? {
          VariableFits(s, i + 1);
        } else {
          TrailingFits(s, name.next);
        }
      } else if prefix in "~@&" {
        if token.None? {
          LiteralFits(s, i + 1);
        } else {
          assert StartsWithNumber(s, token.value);
        }
      }
    }
  }

  lemma VariableFits(s: Bytes, i: nat)
    requires i <= |s| && ParseVariable(s, i).Failed?
    ensures Fits(ParseVariable(s, i).error, s)
  {
  }

  lemma TokenIs(s: Bytes)
    ensures
      var r := ParseToken(s, 0);
      if r.Failed? then Fits(r.error, s)
      else if r.value.None? then r.next == 0
      else 0 < r.next == DigitsEnd(s, 0) && Decimal.Value(s[..r.next]) == r.value.value <= U64_MAX
  {
    var e := DigitsEnd(s, 0);
    assert s[0..e] == s[..e];
    if 0 < e && Decimal.Value(s[..e]) > U64_MAX {
      assert StartsWithNumber(s, Decimal.Value(s[..e]));
    }
  }

  // Only a stream record can be followed by something.
  lemma GarbageFits(s: Bytes, i: nat, token: Option<nat>)
    requires i <= |s| && ParseBodyAt(s, i, token).Parsed? && ParseBodyAt(s, i, token).next < |s|
    requires token.None? ==> i == 0
    ensures Fits(CodecError(TrailingGarbage, ParseBodyAt(s, i, token).next), s)
  {
    hide ParseTrailing, ParseResultClass, ParseVariable, CString.ParseBody, IsLiteralAt, Utf8.Valid;
    if s[i] in "~@&" && i + 1 < |s| && s[i + 1] == '"' {
      var atoms := LiteralStands(s, i + 1);
    }
  }

  // Every error of every line names what stands, or is missing, where it points.
  lemma ErrorIsTrue(line: Bytes)
    requires ParseRecord(line).Failure?
    ensures Fits(ParseRecord(line).error, line)
  {
    hide ParseBodyAt, ParseToken, Fits, DigitsEnd;
    TokenIs(line);
    var token := ParseToken(line, 0);
    if token.Parsed? {
      var body := ParseBodyAt(line, token.next, token.value);
      if body.Failed? {
        BodyAtFits(line, token.next, token.value);
      } else {
        GarbageFits(line, token.next, token.value);
      }
    }
  }
}
