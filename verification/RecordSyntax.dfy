// Whole output records: what parsing a line yields, and the record
// productions of "GDB/MI Output Syntax" it is proved equal to.
module RecordSyntax {
  import opened Octets
  import opened Wrappers
  import opened Ast
  import opened ValueSyntax
  import opened ValueGrammar
  import CString
  import Decimal

  function DigitsEnd(s: Bytes, i: nat): (e: nat)
    requires i <= |s|
    ensures i <= e <= |s|
    ensures Decimal.AllDigits(s[i..e])
    ensures e < |s| ==> !IsDigit(s[e])
    decreases |s| - i
  {
    if i == |s| || !IsDigit(s[i]) then i
    else
      var e := DigitsEnd(s, i + 1);
      assert s[i..e] == [s[i]] + s[i + 1..e];
      e
  }

  // The token is the exact value of the digit run when that fits 64 bits.
  function ParseToken(s: Bytes, i: nat): (r: Parsed<Option<nat>>)
    requires i <= |s|
    ensures r.Parsed? ==> i <= r.next <= |s|
    ensures r.Failed? ==> r.error == CodecError(TokenOverflow, i)
  {
    var e := DigitsEnd(s, i);
    if e == i then Parsed(None, i)
    else
      var value := Decimal.Value(s[i..e]);
      if value > U64_MAX then Failed(CodecError(TokenOverflow, i)) else Parsed(Some(value), e)
  }

  function LowerEnd(s: Bytes, i: nat): (e: nat)
    requires i <= |s|
    ensures i <= e <= |s|
    ensures e < |s| ==> !IsLower(s[e])
    decreases |s| - i
  {
    if i == |s| || !IsLower(s[i]) then i else LowerEnd(s, i + 1)
  }

  function ParseResultClass(s: Bytes, i: nat): (r: Parsed<ResultClass>)
    requires i <= |s|
    ensures InRange(r, i, |s|)
  {
    var e := LowerEnd(s, i);
    if e == i then Failed(CodecError(InvalidIdentifier, i))
    else match ClassFromName(s[i..e])
      case Some(c) => Parsed(c, e)
      case None => Failed(CodecError(UnknownResultClass(s[i..e]), i))
  }

  // ("," result)* up to the end of the line.
  function ParseTrailing(s: Bytes, i: nat): (r: Parsed<seq<Field>>)
    requires i <= |s|
    ensures r.Parsed? ==> r.next == |s|
    ensures r.Failed? ==> ErrorInRange(r.error, |s|)
    decreases |s| - i
  {
    if i == |s| then Parsed([], i)
    else if s[i] != ',' then Failed(CodecError(UnexpectedByte(CommaOrEnd, s[i]), i))
    else
      var (field, next) :- ParseResult(s, i + 1);
      var (rest, end) :- ParseTrailing(s, next);
      Parsed([field] + rest, end)
  }

  function ParseResultRecord(s: Bytes, i: nat, token: Option<nat>): (r: Parsed<ResultRecord>)
    requires i <= |s|
    ensures r.Parsed? ==> r.next == |s|
    ensures r.Failed? ==> ErrorInRange(r.error, |s|)
  {
    var (class_, next) :- ParseResultClass(s, i);
    var (results, end) :- ParseTrailing(s, next);
    Parsed(ResultRecord(token, class_, results), end)
  }

  // The alphabet of an async class is that of an identifier.
  function ParseAsyncRecord(s: Bytes, i: nat, token: Option<nat>): (r: Parsed<AsyncRecord>)
    requires i <= |s|
    ensures r.Parsed? ==> r.next == |s|
    ensures r.Failed? ==> ErrorInRange(r.error, |s|)
  {
    var (class_, next) :- ParseVariable(s, i);
    var (results, end) :- ParseTrailing(s, next);
    Parsed(AsyncRecord(token, class_, results), end)
  }

  // What stands behind the optional token, up to and including its last result.
  function ParseBodyAt(s: Bytes, i: nat, token: Option<nat>): (r: Parsed<Record>)
    requires i <= |s|
    ensures r.Parsed? ==> r.next <= |s|
    ensures r.Failed? ==> ErrorInRange(r.error, |s|)
  {
    if i == |s| then Failed(CodecError(UnexpectedEnd, i))
    else
      var prefix := s[i];
      if prefix == '^' then
        var (record, next) :- ParseResultRecord(s, i + 1, token);
        Parsed(Result(record), next)
      else if prefix in "*+=" then
        var (record, next) :- ParseAsyncRecord(s, i + 1, token);
        Parsed(AsyncOf(prefix, record), next)
      else if prefix in "~@&" then
        if token.Some? then Failed(CodecError(StreamRecordHasToken, 0))
        else
          StreamErrorInRange(s, i + 1);
          var (text, next) :- CString.Parse(s, i + 1);
          Parsed(StreamOf(prefix, text), next)
      else Failed(CodecError(InvalidRecordPrefix(prefix), i))
  }

  lemma StreamErrorInRange(s: Bytes, i: nat)
    requires i <= |s|
    ensures CString.Parse(s, i).Failed? ==> ErrorInRange(CString.Parse(s, i).error, |s|)
  {
    if i < |s| {
      CString.ErrorInRangeAt(s, i);
    }
  }

  function AsyncOf(prefix: Byte, record: AsyncRecord): Record {
    if prefix == '*' then Exec(record) else if prefix == '+' then Status(record) else Notify(record)
  }

  function StreamOf(prefix: Byte, text: Bytes): Record {
    if prefix == '~' then Console(text) else if prefix == '@' then Target(text) else Log(text)
  }

  function ParseRecord(line: Bytes): (r: Wrappers.Result<Record, CodecError>)
    ensures r.Failure? ==> ErrorInRange(r.error, |line|)
  {
    match ParseToken(line, 0)
    case Failed(error) => Failure(error)
    case Parsed(token, i) =>
      match ParseBodyAt(line, i, token)
      case Failed(error) => Failure(error)
      case Parsed(record, next) =>
        if next < |line| then Failure(CodecError(TrailingGarbage, next)) else Success(record)
  }

  // ---- Derivations of records ----

  // A token is a possibly empty digit string; empty means no token.
  datatype RecordTree =
    | ResultTree(token: Bytes, class_: ResultClass, results: seq<FieldTree>)
    | AsyncTree(token: Bytes, prefix: Byte, name: Bytes, results: seq<FieldTree>)
    | StreamTree(channel: Byte, atoms: seq<CString.Atom>)

  ghost predicate WellFormedToken(token: Bytes) {
    Decimal.AllDigits(token) && Decimal.Value(token) <= U64_MAX
  }

  ghost predicate WellFormedRecord(t: RecordTree) {
    match t
    case ResultTree(token, _, results) => WellFormedToken(token) && WellFormedFields(results)
    case AsyncTree(token, prefix, name, results) =>
      WellFormedToken(token) && prefix in "*+=" && IsIdentifier(name) && WellFormedFields(results)
    case StreamTree(channel, atoms) => channel in "~@&" && CString.WellFormedLiteral(atoms)
  }

  ghost function TrailingText(fs: seq<FieldTree>): Bytes {
    if fs == [] then [] else [','] + FieldText(fs[0]) + TrailingText(fs[1..])
  }

  ghost function RecordText(t: RecordTree): Bytes {
    match t
    case ResultTree(token, class_, results) => token + (['^'] + (ClassName(class_) + TrailingText(results)))
    case AsyncTree(token, prefix, name, results) => token + ([prefix] + (name + TrailingText(results)))
    case StreamTree(channel, atoms) => [channel] + CString.LiteralText(atoms)
  }

  ghost function TokenMeaning(token: Bytes): Option<nat>
    requires WellFormedToken(token)
  {
    if token == [] then None else Some(Decimal.Value(token))
  }

  ghost function RecordMeaning(t: RecordTree): Record
    requires WellFormedRecord(t)
  {
    match t
    case ResultTree(token, class_, results) =>
      Result(ResultRecord(TokenMeaning(token), class_, FieldsMeaning(results)))
    case AsyncTree(token, prefix, name, results) =>
      AsyncOf(prefix, AsyncRecord(TokenMeaning(token), name, FieldsMeaning(results)))
    case StreamTree(channel, atoms) => StreamOf(channel, CString.Decoded(atoms))
  }

  // ---- Completeness ----

  lemma {:induction false} DigitsEndIs(s: Bytes, i: nat, digits: Bytes)
    requires At(s, i, digits) && Decimal.AllDigits(digits)
    requires i + |digits| < |s| && !IsDigit(s[i + |digits|])
    ensures DigitsEnd(s, i) == i + |digits|
    decreases |digits|
  {
    if digits != [] {
      AtByte(s, i, digits, 0);
      AtConcat(s, i, digits[..1], digits[1..]);
      assert digits == digits[..1] + digits[1..];
      DigitsEndIs(s, i + 1, digits[1..]);
    }
  }

  // The token parser is exact on every digit run.
  lemma TokenComplete(s: Bytes, token: Bytes)
    requires At(s, 0, token) && Decimal.AllDigits(token)
    requires |token| < |s| && !IsDigit(s[|token|])
    ensures Decimal.Value(token) <= U64_MAX ==> ParseToken(s, 0) == Parsed(TokenMeaning(token), |token|)
    ensures Decimal.Value(token) > U64_MAX ==> ParseToken(s, 0) == Failed(CodecError(TokenOverflow, 0))
  {
    DigitsEndIs(s, 0, token);
    if token != [] {
      assert s[0..|token|] == token;
    }
  }

  // The parser reads back whatever token the encoder writes.
  lemma TokenRoundTrip(n: nat, rest: Bytes)
    requires n <= U64_MAX && rest != [] && !IsDigit(rest[0])
    ensures ParseToken(Decimal.Text(n) + rest, 0) == Parsed(Some(n), |Decimal.Text(n)|)
  {
    var s := Decimal.Text(n) + rest;
    assert At(s, 0, Decimal.Text(n));
    Decimal.ValueOfText(n);
    TokenComplete(s, Decimal.Text(n));
  }

  lemma {:induction false} LowerEndIs(s: Bytes, i: nat, name: Bytes)
    requires At(s, i, name) && forall k | 0 <= k < |name| :: IsLower(name[k])
    requires i + |name| < |s| ==> !IsLower(s[i + |name|])
    ensures LowerEnd(s, i) == i + |name|
    decreases |name|
  {
    if name != [] {
      AtByte(s, i, name, 0);
      AtConcat(s, i, name[..1], name[1..]);
      assert name == name[..1] + name[1..];
      LowerEndIs(s, i + 1, name[1..]);
    }
  }

  lemma ClassRoundTrip(c: ResultClass)
    ensures ClassFromName(ClassName(c)) == Some(c)
    ensures ClassName(c) != [] && forall k | 0 <= k < |ClassName(c)| :: IsLower(ClassName(c)[k])
  {
  }

  lemma TrailingStarts(s: Bytes, i: nat, fs: seq<FieldTree>)
    requires At(s, i, TrailingText(fs)) && i + |TrailingText(fs)| == |s|
    ensures if fs == [] then i == |s| else i < |s| && s[i] == ','
  {
    if fs != [] {
      AtByte(s, i, TrailingText(fs), 0);
    }
  }

  lemma {:induction false} TrailingComplete(s: Bytes, i: nat, fs: seq<FieldTree>)
    requires WellFormedFields(fs) && At(s, i, TrailingText(fs)) && i + |TrailingText(fs)| == |s|
    ensures ParseTrailing(s, i) == Parsed(FieldsMeaning(fs), |s|)
    decreases |fs|
  {
    hide At, FieldText, FieldMeaning, WellFormedField, ParseResult;
    TrailingStarts(s, i, fs);
    if fs != [] {
      var f, rest := fs[0], fs[1..];
      AtConcat(s, i, [','] + FieldText(f), TrailingText(rest));
      AtConcat(s, i, [','], FieldText(f));
      FieldComplete(s, i + 1, f);
      TrailingComplete(s, i + 1 + |FieldText(f)|, rest);
    }
  }

  lemma ResultComplete(s: Bytes, i: nat, token: Option<nat>, c: ResultClass, fs: seq<FieldTree>)
    requires WellFormedFields(fs) && At(s, i, ClassName(c) + TrailingText(fs))
    requires i + |ClassName(c)| + |TrailingText(fs)| == |s|
    ensures ParseResultRecord(s, i, token) == Parsed(ResultRecord(token, c, FieldsMeaning(fs)), |s|)
  {
    hide ClassName, ClassFromName, TrailingText, FieldsMeaning, WellFormedFields, ParseTrailing;
    var name := ClassName(c);
    AtConcat(s, i, name, TrailingText(fs));
    TrailingStarts(s, i + |name|, fs);
    ClassRoundTrip(c);
    LowerEndIs(s, i, name);
    TrailingComplete(s, i + |name|, fs);
  }

  lemma AsyncComplete(s: Bytes, i: nat, token: Option<nat>, name: Bytes, fs: seq<FieldTree>)
    requires WellFormedFields(fs) && IsIdentifier(name) && At(s, i, name + TrailingText(fs))
    requires i + |name| + |TrailingText(fs)| == |s|
    ensures ParseAsyncRecord(s, i, token) == Parsed(AsyncRecord(token, name, FieldsMeaning(fs)), |s|)
  {
    hide TrailingText, FieldsMeaning, WellFormedFields, ParseTrailing;
    AtConcat(s, i, name, TrailingText(fs));
    TrailingStarts(s, i + |name|, fs);
    IdentifierEndIs(s, i, name);
    TrailingComplete(s, i + |name|, fs);
  }

  lemma NoToken()
    ensures WellFormedToken([]) && TokenMeaning([]) == None
  {
  }

  // Every derivation parses to its record.
  lemma RecordComplete(t: RecordTree)
    requires WellFormedRecord(t)
    ensures ParseRecord(RecordText(t)) == Success(RecordMeaning(t))
  {
    hide At, ClassName, TrailingText, CString.LiteralText, CString.Parse, CString.WellFormedLiteral, TokenMeaning;
    hide ParseResultRecord, ParseAsyncRecord, ParseToken, FieldsMeaning, WellFormedFields;
    var s := RecordText(t);
    AtSlice(s, 0, |s|);
    assert s[0..|s|] == s;
    match t
    case ResultTree(token, c, results) =>
      var rest := ClassName(c) + TrailingText(results);
      AtConcat(s, 0, token, ['^'] + rest);
      AtConcat(s, |token|, ['^'], rest);
      AtByte(s, |token|, ['^'], 0);
      TokenComplete(s, token);
      ResultComplete(s, |token| + 1, TokenMeaning(token), c, results);
    case AsyncTree(token, prefix, name, results) =>
      var rest := name + TrailingText(results);
      AtConcat(s, 0, token, [prefix] + rest);
      AtConcat(s, |token|, [prefix], rest);
      AtByte(s, |token|, [prefix], 0);
      TokenComplete(s, token);
      AsyncComplete(s, |token| + 1, TokenMeaning(token), name, results);
    case StreamTree(channel, atoms) =>
      AtConcat(s, 0, [channel], CString.LiteralText(atoms));
      AtByte(s, 0, [channel], 0);
      AtNothing(s, 0);
      TokenComplete(s, []);
      NoToken();
      CString.LiteralComplete(s, 1, atoms);
  }

  // ---- Soundness ----

  ghost predicate DerivesTrailing(s: Bytes, i: nat, fs: seq<FieldTree>, r: Parsed<seq<Field>>) {
    && WellFormedFields(fs) && At(s, i, TrailingText(fs)) && i + |TrailingText(fs)| == |s|
    && r == Parsed(FieldsMeaning(fs), |s|)
  }

  lemma {:induction false} TrailingSound(s: Bytes, i: nat) returns (fs: seq<FieldTree>)
    requires i <= |s| && ParseTrailing(s, i).Parsed?
    ensures DerivesTrailing(s, i, fs, ParseTrailing(s, i))
    decreases |s| - i
  {
    hide At, FieldText, FieldMeaning, WellFormedField, ParseResult;
    if i == |s| {
      fs := [];
      AtNothing(s, i);
    } else {
      var f := FieldSound(s, i + 1);
      var n := i + 1 + |FieldText(f)|;
      var rest := TrailingSound(s, n);
      fs := [f] + rest;
      assert fs[1..] == rest;
      AtOne(s, i, ',');
      AtConcat(s, i, [','], FieldText(f));
      AtConcat(s, i, [','] + FieldText(f), TrailingText(rest));
      assert ParseTrailing(s, i).value == FieldsMeaning(fs);
    }
  }

  lemma AtNothing(s: Bytes, i: nat)
    requires i <= |s|
    ensures At(s, i, [])
  {
  }

  lemma AtSlice(s: Bytes, i: nat, e: nat)
    requires i <= e <= |s|
    ensures At(s, i, s[i..e]) && |s[i..e]| == e - i
  {
  }

  lemma ResultSound(s: Bytes, i: nat, token: Option<nat>) returns (c: ResultClass, fs: seq<FieldTree>)
    requires i <= |s| && ParseResultRecord(s, i, token).Parsed?
    ensures WellFormedFields(fs) && At(s, i, ClassName(c) + TrailingText(fs))
    ensures i + |ClassName(c)| + |TrailingText(fs)| == |s|
    ensures ParseResultRecord(s, i, token).value == ResultRecord(token, c, FieldsMeaning(fs))
  {
    hide At, ClassName, TrailingText, FieldsMeaning, WellFormedFields, ParseTrailing;
    var e := LowerEnd(s, i);
    c := ClassFromName(s[i..e]).value;
    fs := TrailingSound(s, e);
    AtSlice(s, i, e);
    AtConcat(s, i, ClassName(c), TrailingText(fs));
  }

  lemma AsyncSound(s: Bytes, i: nat, token: Option<nat>) returns (name: Bytes, fs: seq<FieldTree>)
    requires i <= |s| && ParseAsyncRecord(s, i, token).Parsed?
    ensures WellFormedFields(fs) && IsIdentifier(name) && At(s, i, name + TrailingText(fs))
    ensures i + |name| + |TrailingText(fs)| == |s|
    ensures ParseAsyncRecord(s, i, token).value == AsyncRecord(token, name, FieldsMeaning(fs))
  {
    hide At, TrailingText, FieldsMeaning, WellFormedFields, ParseTrailing;
    var e := IdentifierEnd(s, i);
    name := s[i..e];
    fs := TrailingSound(s, e);
    AtSlice(s, i, e);
    AtConcat(s, i, name, TrailingText(fs));
  }

  lemma TokenSound(s: Bytes) returns (token: Bytes)
    requires ParseToken(s, 0).Parsed?
    ensures WellFormedToken(token) && At(s, 0, token)
    ensures ParseToken(s, 0) == Parsed(TokenMeaning(token), |token|)
  {
    token := s[0..DigitsEnd(s, 0)];
  }

  // Every accepted line is the text of a derivation.
  lemma RecordSound(line: Bytes) returns (t: RecordTree)
    requires ParseRecord(line).Success?
    ensures WellFormedRecord(t) && RecordText(t) == line && RecordMeaning(t) == ParseRecord(line).value
  {
    hide At, ClassName, TrailingText, CString.LiteralText, CString.Parse;
    hide ParseResultRecord, ParseAsyncRecord, ParseToken, FieldsMeaning, WellFormedFields;
    var token := TokenSound(line);
    var i := |token|;
    var prefix := line[i];
    AtOne(line, i, prefix);
    if prefix == '^' {
      t := ResultLineSound(line, token);
    } else if prefix in "*+=" {
      t := AsyncLineSound(line, token);
    } else {
      var atoms := CString.LiteralSound(line, i + 1);
      t := StreamTree(prefix, atoms);
      AtConcat(line, i, [prefix], CString.LiteralText(atoms));
      WholeLine(line, RecordText(t));
    }
  }

  lemma ResultLineSound(line: Bytes, token: Bytes) returns (t: RecordTree)
    requires WellFormedToken(token) && At(line, 0, token) && |token| < |line| && line[|token|] == '^'
    requires ParseResultRecord(line, |token| + 1, TokenMeaning(token)).Parsed?
    ensures WellFormedRecord(t) && RecordText(t) == line
    ensures RecordMeaning(t) == Result(ParseResultRecord(line, |token| + 1, TokenMeaning(token)).value)
  {
    hide At, ClassName, TrailingText, ParseResultRecord, FieldsMeaning, WellFormedFields, TokenMeaning;
    var i := |token|;
    var c, fs := ResultSound(line, i + 1, TokenMeaning(token));
    t := ResultTree(token, c, fs);
    AtOne(line, i, '^');
    AtConcat(line, i, ['^'], ClassName(c) + TrailingText(fs));
    AtConcat(line, 0, token, ['^'] + (ClassName(c) + TrailingText(fs)));
    WholeLine(line, RecordText(t));
  }

  lemma AsyncLineSound(line: Bytes, token: Bytes) returns (t: RecordTree)
    requires WellFormedToken(token) && At(line, 0, token) && |token| < |line| && line[|token|] in "*+="
    requires ParseAsyncRecord(line, |token| + 1, TokenMeaning(token)).Parsed?
    ensures WellFormedRecord(t) && RecordText(t) == line
    ensures RecordMeaning(t)
         == AsyncOf(line[|token|], ParseAsyncRecord(line, |token| + 1, TokenMeaning(token)).value)
  {
    hide At, TrailingText, ParseAsyncRecord, FieldsMeaning, WellFormedFields, TokenMeaning;
    var i := |token|;
    var prefix := line[i];
    var name, fs := AsyncSound(line, i + 1, TokenMeaning(token));
    t := AsyncTree(token, prefix, name, fs);
    AtOne(line, i, prefix);
    AtConcat(line, i, [prefix], name + TrailingText(fs));
    AtConcat(line, 0, token, [prefix] + (name + TrailingText(fs)));
    WholeLine(line, RecordText(t));
  }

  lemma WholeLine(line: Bytes, text: Bytes)
    requires At(line, 0, text) && |text| == |line|
    ensures text == line
  {
  }

  // Parsing accepts exactly the lines of the grammar and returns the one record each denotes.
  lemma ParserIsGrammar(line: Bytes)
    ensures ParseRecord(line).Success? <==> exists t: RecordTree :: WellFormedRecord(t) && RecordText(t) == line
    ensures forall t: RecordTree :: WellFormedRecord(t) && RecordText(t) == line
                                    ==> ParseRecord(line) == Success(RecordMeaning(t))
  {
    hide *;
    if ParseRecord(line).Success? {
      var t := RecordSound(line);
      assert WellFormedRecord(t) && RecordText(t) == line;
    }
    forall t: RecordTree | WellFormedRecord(t) && RecordText(t) == line
      ensures ParseRecord(line) == Success(RecordMeaning(t))
    {
      RecordComplete(t);
    }
  }
}
