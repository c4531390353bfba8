// Which commands are written as the same line.
//
// The encoder never quotes a name. A line is therefore cut into pieces, blanks
// included: a name with blanks in it contributes as many words as it shows.
module CommandPieces {
  import opened Octets
  import opened Wrappers
  import opened Ast
  import opened Encoder
  import Utf8

  datatype Piece = Space(b: Byte) | Word(text: Bytes)

  predicate IsSpace(b: Byte) {
    b == ' ' || b == '\t' || b == '\n' || b == '\r'
  }

  // No byte that starts or continues a quoted word.
  predicate Plain(name: Bytes) {
    '"' !in name && '\\' !in name
  }

  predicate NamesPlain(cmd: MiCommand) {
    Plain(cmd.operation) && forall k | 0 <= k < |cmd.options| :: Plain(cmd.options[k].name)
  }

  function PieceText(p: Piece): Bytes {
    match p
    case Space(b) => [b]
    case Word(text) => ParameterText(text)
  }

  function PiecesText(ps: seq<Piece>): Bytes {
    if ps == [] then [] else PieceText(ps[0]) + PiecesText(ps[1..])
  }

  // A name cut at its blanks.
  function NamePieces(name: Bytes): seq<Piece>
    decreases |name|
  {
    if name == [] then []
    else if IsBlank(name[0]) then [Space(name[0])] + NamePieces(name[1..])
    else
      var e := NonBlankEnd(name, 0);
      assert e > 0;
      [Word(name[..e])] + NamePieces(name[e..])
  }

  function ValuePieces(value: Bytes): seq<Piece> {
    [Space(' '), Word(value)]
  }

  function OptionPieces(o: CommandOption): seq<Piece> {
    [Space(' ')] + (NamePieces(['-'] + o.name) + (if o.value.Some? then ValuePieces(o.value.value) else []))
  }

  function OptionsPieces(os: seq<CommandOption>): seq<Piece> {
    if os == [] then [] else OptionPieces(os[0]) + OptionsPieces(os[1..])
  }

  function ParametersPieces(words: seq<Bytes>): seq<Piece> {
    if words == [] then [] else ValuePieces(words[0]) + ParametersPieces(words[1..])
  }

  function Pieces(cmd: MiCommand): seq<Piece> {
    NamePieces(['-'] + cmd.operation)
    + (OptionsPieces(cmd.options)
       + (ParametersPieces((if NeedsDoubleDash(cmd) then ["--"] else []) + cmd.parameters) + [Space('\n')]))
  }

  // ---- A command's line is the text of its pieces ----

  lemma {:induction false} TextConcat(a: seq<Piece>, b: seq<Piece>)
    ensures PiecesText(a + b) == PiecesText(a) + PiecesText(b)
  {
    hide PieceText;
    if a == [] {
      assert a + b == b;
    } else {
      assert (a + b)[0] == a[0] && (a + b)[1..] == a[1..] + b;
      TextConcat(a[1..], b);
    }
  }

  lemma OneText(p: Piece)
    ensures PiecesText([p]) == PieceText(p)
  {
    assert [p][1..] == [];
    assert PiecesText([]) == [];
  }

  lemma ConsText(p: Piece, rest: seq<Piece>)
    ensures PiecesText([p] + rest) == PieceText(p) + PiecesText(rest)
  {
    hide PieceText;
    assert ([p] + rest)[1..] == rest;
  }

  lemma ValueText(value: Bytes)
    ensures PiecesText(ValuePieces(value)) == [' '] + ParameterText(value)
  {
    hide ParameterText;
    ConsText(Space(' '), [Word(value)]);
    OneText(Word(value));
    assert ValuePieces(value) == [Space(' ')] + [Word(value)];
  }

  // Whatever a name holds, its pieces are written as the name.
  lemma {:induction false} NameText(name: Bytes)
    ensures PiecesText(NamePieces(name)) == name
    decreases |name|
  {
    if name != [] {
      hide ParameterText;
      if IsBlank(name[0]) {
        NameText(name[1..]);
        ConsText(Space(name[0]), NamePieces(name[1..]));
      } else {
        var e := NonBlankEnd(name, 0);
        NameText(name[e..]);
        ConsText(Word(name[..e]), NamePieces(name[e..]));
        NonBlankRun(name, 0);
        BareText(name[..e]);
        assert name == name[..e] + name[e..];
      }
    }
  }

  lemma BareText(word: Bytes)
    requires word != [] && BlankFree(word)
    ensures ParameterText(word) == word
  {
  }

  lemma OptionPiecesText(o: CommandOption)
    ensures PiecesText(OptionPieces(o)) == [' '] + OptionText(o)
  {
    hide ParameterText, NamePieces, PiecesText, ValuePieces;
    var name := ['-'] + o.name;
    var value := if o.value.Some? then ValuePieces(o.value.value) else [];
    ConsText(Space(' '), NamePieces(name) + value);
    TextConcat(NamePieces(name), value);
    NameText(name);
    if o.value.Some? {
      ValueText(o.value.value);
    } else {
      NoText();
    }
  }

  lemma NoText()
    ensures PiecesText([]) == []
  {
  }

  lemma {:induction false} OptionsPiecesText(os: seq<CommandOption>)
    ensures PiecesText(OptionsPieces(os)) == OptionsText(os)
  {
    if os != [] {
      hide OptionPieces, OptionText;
      OptionPiecesText(os[0]);
      OptionsPiecesText(os[1..]);
      TextConcat(OptionPieces(os[0]), OptionsPieces(os[1..]));
    }
  }

  lemma {:induction false} ParametersPiecesText(words: seq<Bytes>)
    ensures PiecesText(ParametersPieces(words)) == WordsText(words)
  {
    if words != [] {
      hide ValuePieces, ParameterText;
      ValueText(words[0]);
      ParametersPiecesText(words[1..]);
      TextConcat(ValuePieces(words[0]), ParametersPieces(words[1..]));
    }
  }

  lemma ReplayIsPieces(cmd: MiCommand)
    ensures CommandText(None, cmd) == PiecesText(Pieces(cmd))
    ensures PiecesText(Pieces(cmd)) != [] && PiecesText(Pieces(cmd))[0] == '-'
  {
    hide NamePieces, OptionsPieces, ParametersPieces, PiecesText, OptionsText, WordsText, NeedsDoubleDash;
    var dash: seq<Bytes> := if NeedsDoubleDash(cmd) then ["--"] else [];
    var tail := ParametersPieces(dash + cmd.parameters) + [Space('\n')];
    TextConcat(NamePieces(['-'] + cmd.operation), OptionsPieces(cmd.options) + tail);
    TextConcat(OptionsPieces(cmd.options), tail);
    TextConcat(ParametersPieces(dash + cmd.parameters), [Space('\n')]);
    NameText(['-'] + cmd.operation);
    OptionsPiecesText(cmd.options);
    ParametersPiecesText(dash + cmd.parameters);
    WordsTextConcat(dash, cmd.parameters);
    DashText(NeedsDoubleDash(cmd));
    OneText(Space('\n'));
  }

  // ---- Cutting a line back into its pieces ----

  function LexPieces(s: Bytes, i: nat): Option<seq<Piece>>
    requires i <= |s|
    decreases |s| - i
  {
    if i == |s| then Some([])
    else if IsSpace(s[i]) then
      match LexPieces(s, i + 1)
      case None => None
      case Some(rest) => Some([Space(s[i])] + rest)
    else
      match LexWord(s, i)
      case None => None
      case Some((word, next)) =>
        match LexPieces(s, next)
        case None => None
        case Some(rest) => Some([Word(word)] + rest)
  }

  // Words stand apart, and a quoted one is UTF-8.
  ghost predicate Separated(ps: seq<Piece>) {
    ps == [] || (
      && Separated(ps[1..])
      && match ps[0]
         case Space(b) => IsSpace(b)
         case Word(text) =>
           (IsNonBlankSequence(text) || Utf8.Valid(text)) && ps[1..] != [] && ps[1].Space? && IsSpace(ps[1].b))
  }

  lemma WordText(word: Bytes)
    ensures ParameterText(word) != [] && !IsSpace(ParameterText(word)[0])
  {
    if IsNonBlankSequence(word) {
      assert !IsBlank(word[0]);
    }
  }

  lemma LexSpace(s: Bytes, i: nat, rest: seq<Piece>)
    requires i < |s| && IsSpace(s[i]) && LexPieces(s, i + 1) == Some(rest)
    ensures LexPieces(s, i) == Some([Space(s[i])] + rest)
  {
  }

  lemma LexOneWord(s: Bytes, i: nat, word: Bytes, next: nat, rest: seq<Piece>)
    requires i < |s| && !IsSpace(s[i]) && LexWord(s, i) == Some((word, next)) && LexPieces(s, next) == Some(rest)
    ensures LexPieces(s, i) == Some([Word(word)] + rest)
  {
    hide LexWord;
  }

  lemma {:induction false} LexPiecesInverts(s: Bytes, i: nat, ps: seq<Piece>)
    requires Separated(ps) && At(s, i, PiecesText(ps)) && i + |PiecesText(ps)| == |s|
    ensures LexPieces(s, i) == Some(ps)
    decreases |ps|
  {
    if ps != [] {
      hide At, LexWord, LexPieces, ParameterText, Utf8.Valid, IsNonBlankSequence;
      var p, rest := ps[0], ps[1..];
      var text := PieceText(p);
      assert ps == [p] + rest;
      AtConcat(s, i, text, PiecesText(rest));
      LexPiecesInverts(s, i + |text|, rest);
      if p.Space? {
        AtByte(s, i, text, 0);
        LexSpace(s, i, rest);
      } else {
        WordLexes(s, i, p.text, rest);
        LexOneWord(s, i, p.text, i + |text|, rest);
      }
    } else {
      AtEnd(s, i);
    }
  }

  lemma AtEnd(s: Bytes, i: nat)
    requires i == |s|
    ensures LexPieces(s, i) == Some([])
  {
  }

  lemma WordLexes(s: Bytes, i: nat, word: Bytes, rest: seq<Piece>)
    requires IsNonBlankSequence(word) || Utf8.Valid(word)
    requires At(s, i, ParameterText(word)) && At(s, i + |ParameterText(word)|, PiecesText(rest))
    requires rest != [] && rest[0].Space? && IsSpace(rest[0].b)
    ensures i < |s| && !IsSpace(s[i]) && LexWord(s, i) == Some((word, i + |ParameterText(word)|))
  {
    hide At, LexWord, ParameterText, Utf8.Valid, IsNonBlankSequence;
    WordText(word);
    AtByte(s, i, ParameterText(word), 0);
    FirstByte(rest);
    AtByte(s, i + |ParameterText(word)|, PiecesText(rest), 0);
    LexWordInverts(s, i, word);
  }

  lemma FirstByte(ps: seq<Piece>)
    requires ps != [] && ps[0].Space?
    ensures PiecesText(ps) != [] && PiecesText(ps)[0] == ps[0].b
  {
  }

  // ---- The pieces of a command stand apart ----

  // A name starts with a blank or with the word up to its first blank.
  lemma FirstOfName(name: Bytes) returns (p: Piece, e: nat)
    requires name != [] && Plain(name)
    ensures 0 < e <= |name| && NamePieces(name) == [p] + NamePieces(name[e..]) && Plain(name[e..])
    ensures p.Space? <==> IsBlank(name[0])
    ensures if p.Space? then IsSpace(p.b) else IsNonBlankSequence(p.text) && (e < |name| ==> IsBlank(name[e]))
  {
    if IsBlank(name[0]) {
      p, e := Space(name[0]), 1;
    } else {
      e := NonBlankEnd(name, 0);
      p := Word(name[..e]);
      NonBlankRun(name, 0);
      StopsFrom(name, 0);
      assert name[0..e] == name[..e];
    }
  }

  lemma {:induction false} NameSeparated(name: Bytes, rest: seq<Piece>)
    requires Plain(name) && Separated(rest) && rest != [] && rest[0].Space?
    ensures Separated(NamePieces(name) + rest) && NamePieces(name) + rest != []
    ensures (NamePieces(name) + rest)[0].Space? <==> name == [] || IsBlank(name[0])
    decreases |name|
  {
    hide Separated, IsBlank, IsSpace, IsNonBlankSequence, Plain;
    if name == [] {
      assert NamePieces(name) + rest == rest;
    } else {
      hide NamePieces;
      var p, e := FirstOfName(name);
      var more := NamePieces(name[e..]) + rest;
      NameSeparated(name[e..], rest);
      ShiftPieces([p], NamePieces(name[e..]), rest);
      assert NamePieces(name) + rest == [p] + more;
      if p.Space? {
        ConsSpace(p.b, more);
      } else {
        ConsWord(p.text, more);
      }
    }
  }

  lemma ShiftPieces(a: seq<Piece>, b: seq<Piece>, c: seq<Piece>)
    ensures a + (b + c) == (a + b) + c
  {
  }

  lemma {:induction false} StopsFrom(name: Bytes, i: nat)
    requires i <= |name|
    ensures NonBlankEnd(name, i) < |name| ==> IsBlank(name[NonBlankEnd(name, i)])
    decreases |name| - i
  {
    if i < |name| && !IsBlank(name[i]) {
      StopsFrom(name, i + 1);
    }
  }

  lemma ConsSpace(b: Byte, rest: seq<Piece>)
    requires IsSpace(b) && Separated(rest)
    ensures Separated([Space(b)] + rest)
  {
    assert ([Space(b)] + rest)[1..] == rest;
  }

  lemma ConsWord(word: Bytes, rest: seq<Piece>)
    requires IsNonBlankSequence(word) || Utf8.Valid(word)
    requires Separated(rest) && rest != [] && rest[0].Space?
    ensures Separated([Word(word)] + rest)
  {
    hide Utf8.Valid, IsNonBlankSequence;
    assert ([Word(word)] + rest)[1..] == rest;
    assert ([Word(word)] + rest)[1] == rest[0];
  }

  // A list that can follow a word.
  ghost predicate Follows(ps: seq<Piece>) {
    Separated(ps) && ps != [] && ps[0].Space?
  }

  lemma ValueFollows(value: Bytes, rest: seq<Piece>)
    requires Utf8.Valid(value) && Follows(rest)
    ensures Follows(ValuePieces(value) + rest)
  {
    hide Utf8.Valid;
    ConsWord(value, rest);
    ConsSpace(' ', [Word(value)] + rest);
    assert ValuePieces(value) + rest == [Space(' ')] + ([Word(value)] + rest);
  }

  lemma {:induction false} ParametersFollow(words: seq<Bytes>, rest: seq<Piece>)
    requires (forall k | 0 <= k < |words| :: Utf8.Valid(words[k])) && Follows(rest)
    ensures Follows(ParametersPieces(words) + rest)
  {
    hide Follows, Utf8.Valid, ValuePieces;
    if words == [] {
      assert ParametersPieces(words) + rest == rest;
    } else {
      ParametersFollow(words[1..], rest);
      ValueFollows(words[0], ParametersPieces(words[1..]) + rest);
      assert ParametersPieces(words) + rest == ValuePieces(words[0]) + (ParametersPieces(words[1..]) + rest);
    }
  }

  lemma OptionFollows(o: CommandOption, rest: seq<Piece>)
    requires Plain(o.name) && Utf8Option(o) && Follows(rest)
    ensures Follows(OptionPieces(o) + rest)
  {
    hide Utf8.Valid, NamePieces, ValuePieces, Separated;
    var name := ['-'] + o.name;
    var value := if o.value.Some? then ValuePieces(o.value.value) else [];
    if o.value.Some? {
      ValueFollows(o.value.value, rest);
    } else {
      assert [] + rest == rest;
    }
    NameSeparated(name, value + rest);
    ConsSpace(' ', NamePieces(name) + (value + rest));
    ShiftPieces(NamePieces(name), value, rest);
    ShiftPieces([Space(' ')], NamePieces(name) + value, rest);
  }

  lemma {:induction false} OptionsFollow(os: seq<CommandOption>, rest: seq<Piece>)
    requires Utf8Options(os) && (forall k | 0 <= k < |os| :: Plain(os[k].name)) && Follows(rest)
    ensures Follows(OptionsPieces(os) + rest)
  {
    hide Follows, Utf8Option, OptionPieces, Plain;
    if os == [] {
      assert OptionsPieces(os) + rest == rest;
    } else {
      OptionsFollow(os[1..], rest);
      OptionFollows(os[0], OptionsPieces(os[1..]) + rest);
      assert OptionsPieces(os) + rest == OptionPieces(os[0]) + (OptionsPieces(os[1..]) + rest);
    }
  }

  lemma PiecesSeparated(cmd: MiCommand)
    requires Utf8Strings(cmd) && NamesPlain(cmd)
    ensures Separated(Pieces(cmd))
  {
    hide NamePieces, OptionsPieces, ParametersPieces, NeedsDoubleDash, Utf8.Valid, Utf8Options;
    var dash: seq<Bytes> := if NeedsDoubleDash(cmd) then ["--"] else [];
    Utf8.AsciiIsValid("--");
    var last := [Space('\n')];
    assert last[1..] == [];
    ParametersFollow(dash + cmd.parameters, last);
    OptionsFollow(cmd.options, ParametersPieces(dash + cmd.parameters) + last);
    NameSeparated(['-'] + cmd.operation, OptionsPieces(cmd.options) + (ParametersPieces(dash + cmd.parameters) + last));
  }

  // ---- Commands written alike ----

  // Two commands are written as one line exactly when their tokens are the same and so is what
  // follows the token. For names free of quotes and backslashes that is the same pieces, a name
  // with blanks counting as the words it shows; for names free of blanks, the same operation and words.
  lemma SameTextIff(t: Option<nat>, a: MiCommand, u: Option<nat>, b: MiCommand)
    requires (t.Some? ==> t.value <= U64_MAX) && (u.Some? ==> u.value <= U64_MAX)
    requires Utf8Strings(a) && Utf8Strings(b)
    ensures CommandText(t, a) == CommandText(u, b) <==> t == u && ReplayText(a) == ReplayText(b)
    ensures NamesPlain(a) && NamesPlain(b) ==>
              (CommandText(t, a) == CommandText(u, b) <==> t == u && Pieces(a) == Pieces(b))
    ensures NamesBlankFree(a) && NamesBlankFree(b) ==>
              (CommandText(t, a) == CommandText(u, b) <==> t == u && a.operation == b.operation && Words(a) == Words(b))
  {
    hide CommandText, NamesPlain, NamesBlankFree, Pieces, Words, Utf8Strings, ReplayText;
    SameLineIff(t, a, u, b);
    if NamesPlain(a) && NamesPlain(b) {
      SamePiecesIff(a, b);
    }
    if NamesBlankFree(a) && NamesBlankFree(b) {
      SameWordsIff(t, a, u, b);
    }
  }

  lemma SameLineIff(t: Option<nat>, a: MiCommand, u: Option<nat>, b: MiCommand)
    requires (t.Some? ==> t.value <= U64_MAX) && (u.Some? ==> u.value <= U64_MAX)
    ensures CommandText(t, a) == CommandText(u, b) <==> t == u && ReplayText(a) == ReplayText(b)
  {
    hide CommandText, ReplayText, PiecesText, Pieces, TokenText;
    var x, y := ReplayText(a) + ['\n'], ReplayText(b) + ['\n'];
    TokenThenReplay(t, a);
    TokenThenReplay(u, b);
    TokenReads(t, x);
    TokenReads(u, y);
    if CommandText(t, a) == CommandText(u, b) {
      SamePrefix(TokenText(t), x, y);
    }
    SameSuffix(ReplayText(a), ReplayText(b), ['\n']);
  }

  lemma TokenThenReplay(t: Option<nat>, cmd: MiCommand)
    ensures CommandText(t, cmd) == TokenText(t) + (ReplayText(cmd) + ['\n'])
    ensures CommandText(None, cmd) == ReplayText(cmd) + ['\n']
    ensures (ReplayText(cmd) + ['\n'])[0] == '-'
  {
    hide OptionsText, WordsText, NeedsDoubleDash;
    assert CommandText(None, cmd) == ReplayText(cmd) + ['\n'];
    assert CommandText(t, cmd) == TokenText(t) + CommandText(None, cmd);
  }

  lemma SamePiecesIff(a: MiCommand, b: MiCommand)
    requires Utf8Strings(a) && Utf8Strings(b) && NamesPlain(a) && NamesPlain(b)
    ensures ReplayText(a) == ReplayText(b) <==> Pieces(a) == Pieces(b)
  {
    hide CommandText, ReplayText, PiecesText, Pieces, LexPieces, Separated, NamesPlain, Utf8Strings;
    ReplayIsPieces(a);
    ReplayIsPieces(b);
    TokenThenReplay(None, a);
    TokenThenReplay(None, b);
    PiecesSeparated(a);
    PiecesSeparated(b);
    AtWhole(PiecesText(Pieces(a)));
    AtWhole(PiecesText(Pieces(b)));
    LexPiecesInverts(PiecesText(Pieces(a)), 0, Pieces(a));
    LexPiecesInverts(PiecesText(Pieces(b)), 0, Pieces(b));
    SameSuffix(ReplayText(a), ReplayText(b), ['\n']);
  }

  lemma SameWordsIff(t: Option<nat>, a: MiCommand, u: Option<nat>, b: MiCommand)
    requires (t.Some? ==> t.value <= U64_MAX) && (u.Some? ==> u.value <= U64_MAX)
    requires Utf8Strings(a) && NamesBlankFree(a) && Utf8Strings(b) && NamesBlankFree(b)
    ensures CommandText(t, a) == CommandText(u, b) <==> t == u && a.operation == b.operation && Words(a) == Words(b)
  {
    hide CommandText, LexCommand, Words, WordsText, Utf8Strings;
    EncodingInverts(t, a);
    EncodingInverts(u, b);
    CommandTextIsWords(t, a);
    CommandTextIsWords(u, b);
  }
}
