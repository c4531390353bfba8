// Commands and the lines they are encoded as.
//
// The main result is that a line can be cut back into the words it was built
// from under "GDB/MI Input Syntax", whatever strings the parameters are.
module Encoder {
  import opened Octets
  import opened Wrappers
  import opened Ast
  import CString
  import Decimal
  import RecordSyntax
  import Utf8

  datatype CommandOption = CommandOption(name: Bytes, value: Option<Bytes>)

  datatype MiCommand = MiCommand(operation: Bytes, options: seq<CommandOption>, parameters: seq<Bytes>)

  predicate IsBlank(b: Byte) {
    b == ' ' || b == '\t' || b == '\n' || b == '\r' || b == '"' || b == '\\'
  }

  predicate BlankFree(s: Bytes) {
    forall k | 0 <= k < |s| :: !IsBlank(s[k])
  }

  predicate IsNonBlankSequence(s: Bytes) {
    s != [] && BlankFree(s)
  }

  // ---- The text of a command ----

  function ParameterText(p: Bytes): Bytes {
    if IsNonBlankSequence(p) then p else CString.Encode(p)
  }

  function OptionText(o: CommandOption): Bytes {
    ['-'] + o.name + (if o.value.Some? then [' '] + ParameterText(o.value.value) else [])
  }

  function OptionsText(os: seq<CommandOption>): Bytes {
    if os == [] then [] else [' '] + OptionText(os[0]) + OptionsText(os[1..])
  }

  // Each word behind a blank, quoted when it has to be.
  function WordsText(words: seq<Bytes>): Bytes {
    if words == [] then [] else [' '] + ParameterText(words[0]) + WordsText(words[1..])
  }

  predicate NeedsDoubleDash(cmd: MiCommand) {
    cmd.parameters != [] && cmd.parameters[0] != [] && cmd.parameters[0][0] == '-'
  }

  function TokenText(token: Option<nat>): Bytes {
    if token.Some? then Decimal.Text(token.value) else []
  }

  function CommandText(token: Option<nat>, cmd: MiCommand): Bytes {
    TokenText(token) + ['-'] + cmd.operation + OptionsText(cmd.options)
    + (if NeedsDoubleDash(cmd) then " --" else []) + WordsText(cmd.parameters) + ['\n']
  }

  // ---- The encoder ----

  method EncodeCString(text: Bytes, out: Bytes) returns (r: Bytes)
    ensures r == out + CString.Encode(text)
  {
    r := out + ['"'];
    for k := 0 to |text|
      invariant r + CString.EncodeBody(text[k..]) == out + ['"'] + CString.EncodeBody(text)
    {
      hide CString.EncodeByte;
      assert text[k..][0] == text[k] && text[k..][1..] == text[k + 1..];
      ghost var before := r;
      r := r + CString.EncodeByte(text[k]);
      assert before + CString.EncodeBody(text[k..]) == r + CString.EncodeBody(text[k + 1..]);
    }
    assert text[|text|..] == [];
    assert r == out + ['"'] + CString.EncodeBody(text);
    r := r + ['"'];
    assert r == out + CString.Encode(text);
  }

  method EncodeParameter(param: Bytes, out: Bytes) returns (r: Bytes)
    ensures r == out + ParameterText(param)
  {
    if IsNonBlankSequence(param) {
      r := out + param;
    } else {
      r := EncodeCString(param, out);
    }
  }

  method EncodeOption(opt: CommandOption, out: Bytes) returns (r: Bytes)
    ensures r == out + OptionText(opt)
  {
    r := out + ['-'];
    r := r + opt.name;
    if opt.value.Some? {
      r := r + [' '];
      r := EncodeParameter(opt.value.value, r);
    }
  }

  // Append one complete command line, terminator included.
  method EncodeCommand(token: Option<nat>, cmd: MiCommand, out: Bytes) returns (r: Bytes)
    requires token.Some? ==> token.value <= U64_MAX
    ensures r == out + CommandText(token, cmd)
  {
    hide OptionsText, WordsText, NeedsDoubleDash, CommandText, Decimal.Text;
    r := out;
    if token.Some? {
      r := Decimal.WriteU64(r, token.value);
    }
    assert r == out + TokenText(token);
    r := r + ['-'];
    r := r + cmd.operation;
    r := EncodeOptions(cmd.options, r);
    if NeedsDoubleDash(cmd) {
      r := r + " --";
    }
    r := EncodeParameters(cmd.parameters, r);
    r := r + ['\n'];
    Parts(token, cmd, out);
  }

  lemma Parts(token: Option<nat>, cmd: MiCommand, out: Bytes)
    ensures
      var dash := if NeedsDoubleDash(cmd) then " --" else [];
      out + TokenText(token) + ['-'] + cmd.operation + OptionsText(cmd.options) + dash + WordsText(cmd.parameters) + ['\n']
      == out + CommandText(token, cmd)
  {
    hide OptionsText, WordsText, NeedsDoubleDash, TokenText;
  }

  method EncodeOptions(options: seq<CommandOption>, out: Bytes) returns (r: Bytes)
    ensures r == out + OptionsText(options)
  {
    hide OptionText;
    r := out;
    for k := 0 to |options|
      invariant r + OptionsText(options[k..]) == out + OptionsText(options)
    {
      ghost var before, rest := r, options[k + 1..];
      assert options[k..][0] == options[k] && options[k..][1..] == rest;
      r := r + [' '];
      r := EncodeOption(options[k], r);
      assert r == before + ([' '] + OptionText(options[k]));
      Shift(before, [' '] + OptionText(options[k]), OptionsText(rest));
    }
    assert options[|options|..] == [];
  }

  method EncodeParameters(parameters: seq<Bytes>, out: Bytes) returns (r: Bytes)
    ensures r == out + WordsText(parameters)
  {
    hide ParameterText;
    r := out;
    for k := 0 to |parameters|
      invariant r + WordsText(parameters[k..]) == out + WordsText(parameters)
    {
      ghost var before, rest := r, parameters[k + 1..];
      assert parameters[k..][0] == parameters[k] && parameters[k..][1..] == rest;
      r := r + [' '];
      r := EncodeParameter(parameters[k], r);
      assert r == before + ([' '] + ParameterText(parameters[k]));
      Shift(before, [' '] + ParameterText(parameters[k]), WordsText(rest));
    }
    assert parameters[|parameters|..] == [];
  }

  lemma Shift(a: Bytes, b: Bytes, c: Bytes)
    ensures a + (b + c) == (a + b) + c
  {
  }

  // ---- Cutting a line into words ----

  // A command line as the input syntax reads it: the words are unquoted.
  datatype CommandLine = CommandLine(token: Option<nat>, operation: Bytes, words: seq<Bytes>)

  function NonBlankEnd(s: Bytes, i: nat): (e: nat)
    requires i <= |s|
    ensures i <= e <= |s|
    decreases |s| - i
  {
    if i == |s| || IsBlank(s[i]) then i else NonBlankEnd(s, i + 1)
  }

  // A parameter is a c-string or a non-empty run of non-blank bytes.
  function LexWord(s: Bytes, i: nat): (r: Option<(Bytes, nat)>)
    requires i <= |s|
    ensures r.Some? ==> i < r.value.1 <= |s|
  {
    if i < |s| && s[i] == '"' then
      match CString.Parse(s, i)
      case Parsed(text, next) => Some((text, next))
      case Failed(_) => None
    else
      var e := NonBlankEnd(s, i);
      if e == i then None else Some((s[i..e], e))
  }

  function LexWords(s: Bytes, i: nat): Option<seq<Bytes>>
    requires i <= |s|
    decreases |s| - i
  {
    if i + 1 == |s| && s[i] == '\n' then Some([])
    else if i < |s| && s[i] == ' ' then
      match LexWord(s, i + 1)
      case None => None
      case Some((word, next)) =>
        match LexWords(s, next)
        case None => None
        case Some(words) => Some([word] + words)
    else None
  }

  function LexCommand(s: Bytes): Option<CommandLine> {
    match RecordSyntax.ParseToken(s, 0)
    case Failed(_) => None
    case Parsed(token, i) =>
      if i == |s| || s[i] != '-' then None
      else
        var e := NonBlankEnd(s, i + 1);
        match LexWords(s, e)
        case None => None
        case Some(words) => Some(CommandLine(token, s[i + 1..e], words))
  }

  // ---- The words a command stands for ----

  function OneOptionWords(o: CommandOption): seq<Bytes> {
    [['-'] + o.name] + (if o.value.Some? then [o.value.value] else [])
  }

  function OptionWords(os: seq<CommandOption>): seq<Bytes> {
    if os == [] then [] else OneOptionWords(os[0]) + OptionWords(os[1..])
  }

  function Words(cmd: MiCommand): seq<Bytes> {
    OptionWords(cmd.options) + (if NeedsDoubleDash(cmd) then ["--"] else []) + cmd.parameters
  }

  // What the string type promises.
  ghost predicate Utf8Strings(cmd: MiCommand) {
    && Utf8.Valid(cmd.operation)
    && Utf8Options(cmd.options)
    && (forall k | 0 <= k < |cmd.parameters| :: Utf8.Valid(cmd.parameters[k]))
  }

  ghost predicate Utf8Options(os: seq<CommandOption>) {
    forall k | 0 <= k < |os| :: Utf8Option(os[k])
  }

  ghost predicate Utf8Option(o: CommandOption) {
    Utf8.Valid(o.name) && (o.value.Some? ==> Utf8.Valid(o.value.value))
  }

  // Names are never quoted, so a blank in one ends its word early.
  predicate NamesBlankFree(cmd: MiCommand) {
    BlankFree(cmd.operation) && OptionNamesBlankFree(cmd.options)
  }

  predicate OptionNamesBlankFree(os: seq<CommandOption>) {
    forall k | 0 <= k < |os| :: BlankFree(os[k].name)
  }

  lemma {:induction false} WordsTextConcat(a: seq<Bytes>, b: seq<Bytes>)
    ensures WordsText(a + b) == WordsText(a) + WordsText(b)
  {
    hide ParameterText;
    if a == [] {
      assert a + b == b;
    } else {
      WordsTextConcat(a[1..], b);
      assert (a + b)[0] == a[0] && (a + b)[1..] == a[1..] + b;
    }
  }

  lemma BareWord(name: Bytes)
    requires BlankFree(name)
    ensures ParameterText(['-'] + name) == ['-'] + name
  {
    assert forall k | 0 <= k < |['-'] + name| :: (['-'] + name)[k] == if k == 0 then '-' else name[k - 1];
  }

  lemma WordsTextOne(w: Bytes)
    ensures WordsText([w]) == [' '] + ParameterText(w)
  {
    hide ParameterText;
    assert [w][1..] == [];
    assert WordsText([]) == [];
  }

  lemma OptionIsWords(o: CommandOption)
    requires BlankFree(o.name)
    ensures [' '] + OptionText(o) == WordsText(OneOptionWords(o))
  {
    hide ParameterText, WordsText;
    var name := ['-'] + o.name;
    BareWord(o.name);
    WordsTextOne(name);
    if o.value.Some? {
      WordsTextOne(o.value.value);
      WordsTextConcat([name], [o.value.value]);
    } else {
      assert [name] + [] == [name];
    }
  }

  // Options are written as words exactly when no name holds a blank.
  lemma {:induction false} OptionsAreWords(os: seq<CommandOption>)
    ensures OptionsText(os) == WordsText(OptionWords(os)) <==> OptionNamesBlankFree(os)
  {
    if os != [] {
      hide OptionText, WordsText, OneOptionWords, BlankFree;
      OptionsAreWords(os[1..]);
      OptionNamesSplit(os);
      WordsTextConcat(OneOptionWords(os[0]), OptionWords(os[1..]));
      if BlankFree(os[0].name) {
        OptionIsWords(os[0]);
        SamePrefix([' '] + OptionText(os[0]), OptionsText(os[1..]), WordsText(OptionWords(os[1..])));
      } else {
        BlankOptionIsQuoted(os[0]);
        assert OptionsText(os)[1] == '-';
        assert WordsText(OptionWords(os))[1] == '"';
      }
    }
  }

  lemma OptionNamesSplit(os: seq<CommandOption>)
    requires os != []
    ensures OptionNamesBlankFree(os) <==> BlankFree(os[0].name) && OptionNamesBlankFree(os[1..])
  {
    hide BlankFree;
    assert forall k | 0 <= k < |os[1..]| :: os[1..][k] == os[k + 1];
    assert forall k | 0 < k < |os| :: os[k] == os[1..][k - 1];
  }

  lemma Utf8Split(os: seq<CommandOption>)
    requires os != [] && Utf8Options(os)
    ensures Utf8Option(os[0]) && Utf8Options(os[1..])
  {
    hide Utf8Option;
  }

  lemma SamePrefix(a: Bytes, b: Bytes, c: Bytes)
    ensures a + b == a + c <==> b == c
  {
    assert (a + b)[|a|..] == b && (a + c)[|a|..] == c;
  }

  lemma SameSuffix(a: Bytes, b: Bytes, c: Bytes)
    ensures a + c == b + c <==> a == b
  {
    if a + c == b + c {
      assert |a| == |b|;
      assert (a + c)[..|a|] == a && (b + c)[..|b|] == b;
    }
  }

  // A word would be quoted where an option is not.
  lemma BlankOptionIsQuoted(o: CommandOption)
    requires !BlankFree(o.name)
    ensures ([' '] + OptionText(o))[1] == '-'
    ensures |WordsText(OneOptionWords(o))| > 1 && WordsText(OneOptionWords(o))[1] == '"'
  {
    hide WordsText;
    var name := ['-'] + o.name;
    var k :| 0 <= k < |o.name| && IsBlank(o.name[k]);
    assert name[k + 1] == o.name[k];
    WordsTextConcat([name], if o.value.Some? then [o.value.value] else []);
    WordsTextOne(name);
    assert ParameterText(name)[0] == '"';
  }

  // The encoded line is the token, the operation and the words, each behind a blank, exactly when
  // no option name holds a blank.
  lemma CommandTextIsWords(token: Option<nat>, cmd: MiCommand)
    ensures CommandText(token, cmd)
         == TokenText(token) + (['-'] + (cmd.operation + (WordsText(Words(cmd)) + ['\n'])))
       <==> OptionNamesBlankFree(cmd.options)
  {
    hide NeedsDoubleDash, WordsText, OptionsText, OptionWords, TokenText, OptionNamesBlankFree;
    var dash: seq<Bytes> := if NeedsDoubleDash(cmd) then ["--"] else [];
    WordsTextConcat(OptionWords(cmd.options), dash);
    WordsTextConcat(OptionWords(cmd.options) + dash, cmd.parameters);
    DashText(NeedsDoubleDash(cmd));
    Around(TokenText(token) + ['-'] + cmd.operation, OptionsText(cmd.options), WordsText(OptionWords(cmd.options)),
           WordsText(dash), WordsText(cmd.parameters), TokenText(token), cmd.operation);
    OptionsAreWords(cmd.options);
  }

  lemma Around(before: Bytes, options: Bytes, words: Bytes, dash: Bytes, parameters: Bytes, token: Bytes, operation: Bytes)
    requires before == token + ['-'] + operation
    ensures before + options + dash + parameters + ['\n']
         == token + (['-'] + (operation + ((words + dash + parameters) + ['\n'])))
       <==> options == words
  {
    var after := dash + parameters + ['\n'];
    assert before + options + dash + parameters + ['\n'] == before + (options + after);
    assert token + (['-'] + (operation + ((words + dash + parameters) + ['\n']))) == before + (words + after);
    SamePrefix(before, options + after, words + after);
    SameSuffix(options, words, after);
  }

  lemma DashText(dash: bool)
    ensures WordsText(if dash then ["--"] else []) == if dash then " --" else []
  {
    if dash {
      BareWord("-");
      WordsTextOne("--");
    }
  }

  lemma {:induction false} NonBlankEndIs(s: Bytes, i: nat, word: Bytes)
    requires At(s, i, word) && BlankFree(word)
    requires i + |word| < |s| && IsBlank(s[i + |word|])
    ensures NonBlankEnd(s, i) == i + |word|
    decreases |word|
  {
    if word != [] {
      AtByte(s, i, word, 0);
      AtConcat(s, i, word[..1], word[1..]);
      assert word == word[..1] + word[1..];
      NonBlankEndIs(s, i + 1, word[1..]);
    }
  }

  lemma BareLexes(s: Bytes, i: nat, word: Bytes)
    requires IsNonBlankSequence(word) && At(s, i, word)
    requires i + |word| < |s| && IsBlank(s[i + |word|])
    ensures LexWord(s, i) == Some((word, i + |word|))
  {
    NonBlankEndIs(s, i, word);
    AtByte(s, i, word, 0);
  }

  lemma QuotedLexes(s: Bytes, i: nat, word: Bytes)
    requires Utf8.Valid(word) && At(s, i, CString.Encode(word))
    ensures LexWord(s, i) == Some((word, i + |CString.Encode(word)|))
  {
    hide At, Utf8.Valid, CString.Parse;
    AtByte(s, i, CString.Encode(word), 0);
    CString.EncodeParses(word, s, i);
  }

  // Reading one word back undoes quoting.
  lemma LexWordInverts(s: Bytes, i: nat, word: Bytes)
    requires (IsNonBlankSequence(word) || Utf8.Valid(word)) && At(s, i, ParameterText(word))
    requires i + |ParameterText(word)| < |s| && IsBlank(s[i + |ParameterText(word)|])
    ensures LexWord(s, i) == Some((word, i + |ParameterText(word)|))
  {
    hide At, LexWord, Utf8.Valid, CString.Encode, IsNonBlankSequence, IsBlank;
    if IsNonBlankSequence(word) {
      BareLexes(s, i, word);
    } else {
      QuotedLexes(s, i, word);
    }
  }

  lemma WordsStart(words: seq<Bytes>)
    ensures (WordsText(words) + ['\n'])[0] == if words == [] then '\n' else ' '
  {
  }

  lemma {:induction false} LexWordsInverts(s: Bytes, i: nat, words: seq<Bytes>)
    requires forall k | 0 <= k < |words| :: Utf8.Valid(words[k])
    requires At(s, i, WordsText(words) + ['\n']) && i + |WordsText(words)| + 1 == |s|
    ensures LexWords(s, i) == Some(words)
    decreases |words|
  {
    hide At, ParameterText, LexWord;
    WordsStart(words);
    AtByte(s, i, WordsText(words) + ['\n'], 0);
    if words != [] {
      var word, rest := words[0], words[1..];
      var n := i + 1 + |ParameterText(word)|;
      assert WordsText(words) + ['\n'] == [' '] + (ParameterText(word) + (WordsText(rest) + ['\n']));
      AtConcat(s, i, [' '], ParameterText(word) + (WordsText(rest) + ['\n']));
      AtConcat(s, i + 1, ParameterText(word), WordsText(rest) + ['\n']);
      WordsStart(rest);
      AtByte(s, n, WordsText(rest) + ['\n'], 0);
      LexWordInverts(s, i + 1, word);
      LexWordsInverts(s, n, rest);
      assert words == [word] + rest;
    }
  }

  lemma {:induction false} OptionWordsAreUtf8(os: seq<CommandOption>)
    requires Utf8Options(os)
    ensures forall k | 0 <= k < |OptionWords(os)| :: Utf8.Valid(OptionWords(os)[k])
  {
    if os != [] {
      OptionWordsAreUtf8(os[1..]);
      assert Utf8Option(os[0]);
      Utf8.AsciiIsValid("-");
      Utf8.ValidConcat("-", os[0].name);
    }
  }

  lemma WordsAreUtf8(cmd: MiCommand)
    requires Utf8Strings(cmd)
    ensures forall k | 0 <= k < |Words(cmd)| :: Utf8.Valid(Words(cmd)[k])
  {
    hide NeedsDoubleDash, Utf8.Valid;
    OptionWordsAreUtf8(cmd.options);
    Utf8.AsciiIsValid("--");
  }

  // Cutting an encoded line into words returns exactly what was encoded.
  lemma EncodingInverts(token: Option<nat>, cmd: MiCommand)
    requires token.Some? ==> token.value <= U64_MAX
    requires Utf8Strings(cmd) && NamesBlankFree(cmd)
    ensures LexCommand(CommandText(token, cmd)) == Some(CommandLine(token, cmd.operation, Words(cmd)))
  {
    hide At, WordsText, Words, CommandText, Utf8.Valid, LexWords, NonBlankEnd, RecordSyntax.ParseToken, TokenText;
    hide OptionNamesBlankFree;
    var s := CommandText(token, cmd);
    var i := |TokenText(token)|;
    var tail := WordsText(Words(cmd)) + ['\n'];
    CommandTextIsWords(token, cmd);
    AtWhole(s);
    AtConcat(s, 0, TokenText(token), ['-'] + (cmd.operation + tail));
    AtConcat(s, i, ['-'], cmd.operation + tail);
    AtConcat(s, i + 1, cmd.operation, tail);
    AtByte(s, i, ['-'], 0);
    TokenReads(token, ['-'] + (cmd.operation + tail));
    WordsStart(Words(cmd));
    AtByte(s, i + 1 + |cmd.operation|, tail, 0);
    NonBlankEndIs(s, i + 1, cmd.operation);
    AtText(s, i + 1, cmd.operation);
    WordsAreUtf8(cmd);
    LexWordsInverts(s, i + 1 + |cmd.operation|, Words(cmd));
  }

  lemma AtWhole(s: Bytes)
    ensures At(s, 0, s)
  {
  }

  lemma AtText(s: Bytes, i: nat, text: Bytes)
    requires At(s, i, text)
    ensures i + |text| <= |s| && s[i..i + |text|] == text
  {
  }

  lemma TokenReads(token: Option<nat>, rest: Bytes)
    requires token.Some? ==> token.value <= U64_MAX
    requires rest != [] && rest[0] == '-'
    ensures RecordSyntax.ParseToken(TokenText(token) + rest, 0) == Parsed(token, |TokenText(token)|)
  {
    if token.Some? {
      RecordSyntax.TokenRoundTrip(token.value, rest);
    } else {
      assert [] + rest == rest;
    }
  }

  // ---- Exactly which commands are read back ----

  lemma {:induction false} NonBlankRun(s: Bytes, i: nat)
    requires i <= |s|
    ensures BlankFree(s[i..NonBlankEnd(s, i)])
    decreases |s| - i
  {
    if i < |s| && !IsBlank(s[i]) {
      NonBlankRun(s, i + 1);
      var e := NonBlankEnd(s, i);
      assert s[i..e] == [s[i]] + s[i + 1..e];
    }
  }

  lemma DashedName(s: Bytes, i: nat, name: Bytes)
    requires i < |s| && s[i] == '-' && LexWord(s, i).Some? && LexWord(s, i).value.0 == ['-'] + name
    ensures BlankFree(name)
  {
    NonBlankRun(s, i);
    assert forall k | 0 <= k < |name| :: name[k] == (['-'] + name)[k + 1];
  }

  lemma FirstWord(s: Bytes, i: nat, word: Bytes, words: seq<Bytes>)
    requires At(s, i, [' ']) && At(s, i + 1, word) && word != [] && word[0] == '-'
    requires LexWords(s, i) == Some([word] + words)
    ensures LexWord(s, i + 1) == Some((word, i + 1 + |word|)) && LexWords(s, i + 1 + |word|) == Some(words)
  {
    hide NonBlankEnd;
    AtByte(s, i, [' '], 0);
    AtByte(s, i + 1, word, 0);
    var lexed := LexWord(s, i + 1).value;
    var more := LexWords(s, lexed.1).value;
    assert ([lexed.0] + more)[0] == lexed.0 && ([lexed.0] + more)[1..] == more;
    assert ([word] + words)[0] == word && ([word] + words)[1..] == words;
  }

  lemma ValueWord(s: Bytes, i: nat, word: Bytes, after: Bytes, words: seq<Bytes>)
    requires At(s, i, [' '] + ParameterText(word)) && Utf8.Valid(word)
    requires At(s, i + 1 + |ParameterText(word)|, after) && after != [] && IsBlank(after[0])
    requires LexWords(s, i) == Some([word] + words)
    ensures LexWords(s, i + 1 + |ParameterText(word)|) == Some(words)
  {
    hide ParameterText, LexWord, Utf8.Valid;
    AtConcat(s, i, [' '], ParameterText(word));
    AtByte(s, i, [' '], 0);
    AtByte(s, i + 1 + |ParameterText(word)|, after, 0);
    LexWordInverts(s, i + 1, word);
    var more := LexWords(s, i + 1 + |ParameterText(word)|).value;
    assert ([word] + more)[1..] == more && ([word] + words)[1..] == words;
  }

  // If the words of an option come out first, its name was written whole.
  lemma OptionReadsBack(s: Bytes, i: nat, o: CommandOption, head: Bytes, after: Bytes, more: seq<Bytes>)
    requires head == [' '] + OptionText(o) && At(s, i, head) && At(s, i + |head|, after)
    requires after != [] && IsBlank(after[0]) && Utf8Option(o)
    requires LexWords(s, i) == Some(OneOptionWords(o) + more)
    ensures BlankFree(o.name) && LexWords(s, i + |head|) == Some(more)
  {
    hide At, LexWord, LexWords, BlankFree, ParameterText, Utf8.Valid;
    var name := ['-'] + o.name;
    var value := if o.value.Some? then [' '] + ParameterText(o.value.value) else [];
    var words := if o.value.Some? then [o.value.value] + more else more;
    assert head == [' '] + (name + value);
    assert OneOptionWords(o) + more == [name] + words;
    AtConcat(s, i, [' '], name + value);
    AtConcat(s, i + 1, name, value);
    FirstWord(s, i, name, words);
    AtByte(s, i + 1, name, 0);
    DashedName(s, i + 1, o.name);
    if o.value.Some? {
      ValueWord(s, i + 1 + |name|, o.value.value, after, more);
    }
  }

  lemma FirstOption(os: seq<CommandOption>, tail: Bytes, words: seq<Bytes>)
    requires os != [] && tail != [] && IsBlank(tail[0])
    ensures OptionsText(os) + tail == ([' '] + OptionText(os[0])) + (OptionsText(os[1..]) + tail)
    ensures OptionWords(os) + words == OneOptionWords(os[0]) + (OptionWords(os[1..]) + words)
    ensures OptionsText(os[1..]) + tail != [] && IsBlank((OptionsText(os[1..]) + tail)[0])
  {
    StartsBlank(os[1..], tail);
    hide OptionText, OneOptionWords;
    Shift([' '] + OptionText(os[0]), OptionsText(os[1..]), tail);
    ShiftWords(OneOptionWords(os[0]), OptionWords(os[1..]), words);
  }

  lemma StartsBlank(os: seq<CommandOption>, tail: Bytes)
    requires tail != [] && IsBlank(tail[0])
    ensures OptionsText(os) + tail != [] && IsBlank((OptionsText(os) + tail)[0])
  {
    hide OptionText;
  }

  lemma ShiftWords(a: seq<Bytes>, b: seq<Bytes>, c: seq<Bytes>)
    ensures a + (b + c) == (a + b) + c
  {
  }

  lemma OptionStep(s: Bytes, i: nat, os: seq<CommandOption>, tail: Bytes, words: seq<Bytes>) returns (n: nat)
    requires os != [] && Utf8Options(os)
    requires At(s, i, OptionsText(os) + tail) && tail != [] && IsBlank(tail[0])
    requires LexWords(s, i) == Some(OptionWords(os) + words)
    ensures BlankFree(os[0].name) && Utf8Options(os[1..])
    ensures At(s, n, OptionsText(os[1..]) + tail) && n <= |s|
    ensures LexWords(s, n) == Some(OptionWords(os[1..]) + words)
  {
    hide At, LexWords, BlankFree, IsBlank, OptionText, OneOptionWords, Utf8Options, Utf8Option, OptionsText, OptionWords;
    var head, after := [' '] + OptionText(os[0]), OptionsText(os[1..]) + tail;
    FirstOption(os, tail, words);
    Utf8Split(os);
    AtConcat(s, i, head, after);
    OptionReadsBack(s, i, os[0], head, after, OptionWords(os[1..]) + words);
    n := i + |head|;
    AtFits(s, n, after);
  }

  lemma AtFits(s: Bytes, i: nat, text: Bytes)
    requires At(s, i, text)
    ensures i <= |s|
  {
  }

  // If the words that come out are those of the options, every name was written whole.
  lemma {:induction false} OptionsReadBack(s: Bytes, i: nat, os: seq<CommandOption>, tail: Bytes, words: seq<Bytes>)
    requires At(s, i, OptionsText(os) + tail) && tail != [] && IsBlank(tail[0])
    requires Utf8Options(os)
    requires LexWords(s, i) == Some(OptionWords(os) + words)
    ensures OptionNamesBlankFree(os)
    decreases |os|
  {
    hide At, LexWords, BlankFree, IsBlank, Utf8Options, OptionsText, OptionWords;
    if os != [] {
      var n := OptionStep(s, i, os, tail, words);
      OptionsReadBack(s, n, os[1..], tail, words);
      OptionNamesSplit(os);
    }
  }

  // A line is read back as the words it was built from exactly when no name holds a blank, for
  // every parameter and option value.
  lemma EncodingInvertsIff(token: Option<nat>, cmd: MiCommand)
    requires token.Some? ==> token.value <= U64_MAX
    requires Utf8Strings(cmd)
    ensures LexCommand(CommandText(token, cmd)) == Some(CommandLine(token, cmd.operation, Words(cmd)))
       <==> NamesBlankFree(cmd)
  {
    if NamesBlankFree(cmd) {
      EncodingInverts(token, cmd);
    } else if LexCommand(CommandText(token, cmd)) == Some(CommandLine(token, cmd.operation, Words(cmd))) {
      ReadBackIsBlankFree(token, cmd);
    }
  }

  lemma ReadBackIsBlankFree(token: Option<nat>, cmd: MiCommand)
    requires token.Some? ==> token.value <= U64_MAX
    requires Utf8Strings(cmd)
    requires LexCommand(CommandText(token, cmd)) == Some(CommandLine(token, cmd.operation, Words(cmd)))
    ensures NamesBlankFree(cmd)
  {
    hide At, WordsText, OptionsText, OptionWords, NeedsDoubleDash, LexWords, RecordSyntax.ParseToken, TokenText;
    hide Utf8.Valid, BlankFree, CommandText;
    var s := CommandText(token, cmd);
    var i := |TokenText(token)|;
    var rest := OptionsText(cmd.options) + AfterOptions(cmd);
    CommandTextParts(token, cmd);
    TokenReads(token, ['-'] + (cmd.operation + rest));
    AtWhole(s);
    AtConcat(s, 0, TokenText(token), ['-'] + (cmd.operation + rest));
    AtConcat(s, i, ['-'], cmd.operation + rest);
    AtConcat(s, i + 1, cmd.operation, rest);
    NonBlankRun(s, i + 1);
    var words := (if NeedsDoubleDash(cmd) then ["--"] else []) + cmd.parameters;
    assert Words(cmd) == OptionWords(cmd.options) + words;
    OptionsReadBack(s, i + 1 + |cmd.operation|, cmd.options, AfterOptions(cmd), words);
  }

  function AfterOptions(cmd: MiCommand): (text: Bytes)
    ensures text != [] && IsBlank(text[0])
  {
    (if NeedsDoubleDash(cmd) then " --" else []) + WordsText(cmd.parameters) + ['\n']
  }

  lemma CommandTextParts(token: Option<nat>, cmd: MiCommand)
    ensures CommandText(token, cmd)
         == TokenText(token) + (['-'] + (cmd.operation + (OptionsText(cmd.options) + AfterOptions(cmd))))
  {
    hide WordsText, OptionsText, NeedsDoubleDash, TokenText;
  }

  const OPTION_WITH_VALUE := MiCommand("target", [CommandOption("t", Some("main"))], [])

  const OPTION_AND_PARAMETER := MiCommand("target", [CommandOption("t", None)], ["main"])

  // The words do not tell an option's value from a parameter.
  lemma OptionsAreAmbiguous(token: Option<nat>)
    ensures OPTION_WITH_VALUE != OPTION_AND_PARAMETER
    ensures CommandText(token, OPTION_WITH_VALUE) == CommandText(token, OPTION_AND_PARAMETER)
  {
    hide CommandText, WordsText;
    CommandTextIsWords(token, OPTION_WITH_VALUE);
    CommandTextIsWords(token, OPTION_AND_PARAMETER);
    OneOptionOnly(CommandOption("t", Some("main")));
    OneOptionOnly(CommandOption("t", None));
    assert !NeedsDoubleDash(OPTION_WITH_VALUE) && !NeedsDoubleDash(OPTION_AND_PARAMETER);
    var a, b := OneOptionWords(CommandOption("t", Some("main"))), OneOptionWords(CommandOption("t", None));
    assert Words(OPTION_WITH_VALUE) == a + [] + [];
    assert Words(OPTION_AND_PARAMETER) == b + [] + ["main"];
    assert a == [['-'] + "t", "main"] && b == [['-'] + "t"];
    assert Words(OPTION_WITH_VALUE) == Words(OPTION_AND_PARAMETER);
  }

  lemma OneOptionOnly(o: CommandOption)
    ensures OptionWords([o]) == OneOptionWords(o)
  {
    assert [o][1..] == [];
    assert OneOptionWords(o) + [] == OneOptionWords(o);
  }

  // A parameter goes bare exactly when it can: it is not empty and holds none of six bytes.
  lemma BareIff(p: Bytes)
    ensures ParameterText(p) == p <==> p != [] && forall b | b in " \t\n\r\"\\" :: b !in p
    ensures ParameterText(p) == p || ParameterText(p) == CString.Encode(p)
  {
    if IsNonBlankSequence(p) {
      assert forall b | b in " \t\n\r\"\\" :: IsBlank(b);
    } else if p != [] {
      var k :| 0 <= k < |p| && IsBlank(p[k]);
      assert p[k] in " \t\n\r\"\\" by {
        assert " \t\n\r\"\\"[0] == ' ' && " \t\n\r\"\\"[1] == '\t' && " \t\n\r\"\\"[2] == '\n';
        assert " \t\n\r\"\\"[3] == '\r' && " \t\n\r\"\\"[4] == '"' && " \t\n\r\"\\"[5] == '\\';
      }
      LongerWhenQuoted(p);
    }
  }

  lemma {:induction false} LongerWhenQuoted(p: Bytes)
    ensures |CString.EncodeBody(p)| >= |p|
  {
    if p != [] {
      LongerWhenQuoted(p[1..]);
    }
  }

  // ---- Newlines and UTF-8 ----

  lemma WordHasNoNewline(word: Bytes)
    ensures '\n' !in ParameterText(word)
  {
    CString.EncodingHasNoControls(word);
  }

  lemma {:induction false} WordsHaveNoNewline(words: seq<Bytes>)
    ensures '\n' !in WordsText(words)
  {
    if words != [] {
      WordHasNoNewline(words[0]);
      WordsHaveNoNewline(words[1..]);
    }
  }

  predicate NamesHaveNoNewline(cmd: MiCommand) {
    '\n' !in cmd.operation && forall k | 0 <= k < |cmd.options| :: '\n' !in cmd.options[k].name
  }

  lemma {:induction false} OptionsHaveNoNewline(os: seq<CommandOption>)
    ensures '\n' !in OptionsText(os) <==> forall k | 0 <= k < |os| :: '\n' !in os[k].name
  {
    if os != [] {
      hide ParameterText;
      OptionsHaveNoNewline(os[1..]);
      assert forall k | 0 <= k < |os[1..]| :: os[1..][k] == os[k + 1];
      assert forall k | 0 < k < |os| :: os[k] == os[1..][k - 1];
      if os[0].value.Some? {
        WordHasNoNewline(os[0].value.value);
      }
      assert '\n' in OptionText(os[0]) <==> '\n' in os[0].name;
    }
  }

  // An encoded command is one line, its only newline its last byte, exactly when no name holds one;
  // parameters and option values never matter.
  lemma OneNewline(token: Option<nat>, cmd: MiCommand)
    ensures
      var s := CommandText(token, cmd);
      s[|s| - 1] == '\n' && ('\n' !in s[..|s| - 1] <==> NamesHaveNoNewline(cmd))
  {
    hide WordsText, OptionsText, Decimal.Text;
    OptionsHaveNoNewline(cmd.options);
    WordsHaveNoNewline(cmd.parameters);
    var s := CommandText(token, cmd);
    var front := TokenText(token) + ['-'] + cmd.operation + OptionsText(cmd.options)
      + (if NeedsDoubleDash(cmd) then " --" else []) + WordsText(cmd.parameters);
    assert s == front + ['\n'];
    assert '\n' !in TokenText(token);
  }

  lemma {:induction false} WordsTextIsUtf8(words: seq<Bytes>)
    requires forall k | 0 <= k < |words| :: Utf8.Valid(words[k])
    ensures Utf8.Valid(WordsText(words))
  {
    if words != [] {
      hide Utf8.Valid, ParameterText;
      var w := words[0];
      WordsTextIsUtf8(words[1..]);
      ParameterTextIsUtf8(w);
      Utf8.AsciiIsValid([' ']);
      Utf8.ValidConcat([' '], ParameterText(w));
      Utf8.ValidConcat([' '] + ParameterText(w), WordsText(words[1..]));
    } else {
      Utf8.AsciiIsValid([]);
    }
  }

  lemma ParameterTextIsUtf8(word: Bytes)
    requires Utf8.Valid(word)
    ensures Utf8.Valid(ParameterText(word))
  {
    if !IsNonBlankSequence(word) {
      CString.EncodeIsValidUtf8(word);
    }
  }

  // The line without its newline, which is what an untokened command is replayed as.
  function ReplayText(cmd: MiCommand): Bytes {
    var s := CommandText(None, cmd);
    s[..|s| - 1]
  }

  lemma {:induction false} OptionsTextIsUtf8(os: seq<CommandOption>)
    requires Utf8Options(os)
    ensures Utf8.Valid(OptionsText(os))
  {
    if os != [] {
      hide Utf8.Valid, OptionText;
      OptionsTextIsUtf8(os[1..]);
      assert Utf8Option(os[0]);
      OptionTextIsUtf8(os[0]);
      Utf8.AsciiIsValid([' ']);
      Utf8.ValidConcat([' '], OptionText(os[0]));
      Utf8.ValidConcat([' '] + OptionText(os[0]), OptionsText(os[1..]));
    } else {
      Utf8.AsciiIsValid([]);
    }
  }

  lemma OptionTextIsUtf8(o: CommandOption)
    requires Utf8Option(o)
    ensures Utf8.Valid(OptionText(o))
  {
    hide Utf8.Valid, ParameterText;
    Utf8.AsciiIsValid(['-']);
    Utf8.ValidConcat(['-'], o.name);
    if o.value.Some? {
      Utf8.AsciiIsValid([' ']);
      ParameterTextIsUtf8(o.value.value);
      Utf8.ValidConcat([' '], ParameterText(o.value.value));
      Utf8.ValidConcat(['-'] + o.name, [' '] + ParameterText(o.value.value));
    } else {
      assert ['-'] + o.name + [] == ['-'] + o.name;
    }
  }

  // The two checks made when a command is turned into replay text always succeed, whatever its
  // strings are.
  lemma ReplayTextIsUtf8(cmd: MiCommand)
    requires Utf8Strings(cmd)
    ensures CommandText(None, cmd) == ReplayText(cmd) + ['\n'] && Utf8.Valid(ReplayText(cmd))
  {
    hide WordsText, OptionsText, Utf8.Valid;
    var options, words := OptionsText(cmd.options), WordsText(cmd.parameters);
    var dash := if NeedsDoubleDash(cmd) then " --" else [];
    var front := ['-'] + cmd.operation + options + dash + words;
    assert CommandText(None, cmd) == front + ['\n'];
    assert ReplayText(cmd) == front;
    Utf8.AsciiIsValid(['-']);
    Utf8.AsciiIsValid(dash);
    OptionsTextIsUtf8(cmd.options);
    WordsTextIsUtf8(cmd.parameters);
    Utf8.ValidConcat(['-'], cmd.operation);
    Utf8.ValidConcat(['-'] + cmd.operation, options);
    Utf8.ValidConcat(['-'] + cmd.operation + options, dash);
    Utf8.ValidConcat(['-'] + cmd.operation + options + dash, words);
  }

  // A token in front of the replay text gives the line the command itself would give.
  lemma ReplayIsVerbatim(token: nat, cmd: MiCommand)
    ensures Decimal.Text(token) + ReplayText(cmd) + ['\n'] == CommandText(Some(token), cmd)
  {
    hide OptionsText, WordsText, NeedsDoubleDash;
    var s := CommandText(None, cmd);
    assert s == ReplayText(cmd) + ['\n'];
    assert CommandText(Some(token), cmd) == Decimal.Text(token) + s;
  }
}
