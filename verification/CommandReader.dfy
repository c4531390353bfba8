// Reading a command line as "GDB/MI Input Syntax" does, without knowing how it was written.
//
// The reader takes leading words that start with a dash as options, a lone
// "--" as the end of the options, and what follows as parameters.
module CommandReader {
  import opened Octets
  import opened Wrappers
  import opened Encoder
  import Utf8

  datatype Command = Command(options: seq<Bytes>, parameters: seq<Bytes>)

  function Read(words: seq<Bytes>): Command {
    if words == [] || words[0] == [] || words[0][0] != '-' then Command([], words)
    else if words[0] == "--" then Command([], words[1..])
    else
      var rest := Read(words[1..]);
      Command([words[0][1..]] + rest.options, rest.parameters)
  }

  function Names(os: seq<CommandOption>): seq<Bytes> {
    if os == [] then [] else [os[0].name] + Names(os[1..])
  }

  // What the reader can tell: no option is named "-", whose word ends the options, and none has a
  // value, which it cannot tell from a parameter. A last value "--" passes for the separator.
  predicate Readable(os: seq<CommandOption>, parameters: seq<Bytes>) {
    os == [] || (
      && os[0].name != "-"
      && match os[0].value
         case None => Readable(os[1..], parameters)
         case Some(v) => v == "--" && os[1..] == [] && !StartsWithDash(parameters))
  }

  predicate StartsWithDash(parameters: seq<Bytes>) {
    parameters != [] && parameters[0] != [] && parameters[0][0] == '-'
  }

  // ---- The words behind an operation ----

  // A separator stands before the parameters exactly when the first would pass for an option.
  lemma SeparatorIff(cmd: MiCommand)
    ensures Words(cmd) == OptionWords(cmd.options) + Tail(cmd.parameters)
  {
    hide OptionWords;
    var dash: seq<Bytes> := if NeedsDoubleDash(cmd) then ["--"] else [];
    assert Words(cmd) == OptionWords(cmd.options) + (dash + cmd.parameters);
  }

  function Tail(parameters: seq<Bytes>): seq<Bytes> {
    (if StartsWithDash(parameters) then ["--"] else []) + parameters
  }

  lemma TailReads(parameters: seq<Bytes>)
    ensures Read(Tail(parameters)) == Command([], parameters)
  {
    if StartsWithDash(parameters) {
      assert Tail(parameters)[1..] == parameters;
    } else {
      assert Tail(parameters) == parameters;
    }
  }

  // The reader loses no word but one separator.
  lemma {:induction false} NoWordLost(words: seq<Bytes>)
    ensures |Read(words).options| + |Read(words).parameters| <= |words|
         <= |Read(words).options| + |Read(words).parameters| + 1
  {
    if words != [] && words[0] != [] && words[0][0] == '-' && words[0] != "--" {
      NoWordLost(words[1..]);
    }
  }

  lemma OptionThen(o: CommandOption, rest: seq<CommandOption>, tail: seq<Bytes>)
    ensures
      var value := if o.value.Some? then [o.value.value] else [];
      OptionWords([o] + rest) + tail == [['-'] + o.name] + (value + (OptionWords(rest) + tail))
  {
    assert ([o] + rest)[0] == o && ([o] + rest)[1..] == rest;
  }

  lemma ReadOption(name: Bytes, more: seq<Bytes>)
    ensures Read([['-'] + name] + more)
         == if name == "-" then Command([], more)
            else Command([name] + Read(more).options, Read(more).parameters)
  {
    var words := [['-'] + name] + more;
    assert words[0] == ['-'] + name && words[1..] == more && (['-'] + name)[1..] == name;
    assert (['-'] + name == "--") <==> name == "-" by {
      if ['-'] + name == "--" {
        assert name == (['-'] + name)[1..] == "--"[1..];
      }
    }
  }

  lemma {:induction false} CountWords(os: seq<CommandOption>)
    ensures |OptionWords(os)| >= |os| == |Names(os)|
  {
    if os != [] {
      CountWords(os[1..]);
    }
  }

  // Reading one option fewer than there are takes a first option named "-".
  lemma {:induction false} OneFewer(os: seq<CommandOption>, parameters: seq<Bytes>)
    requires os != []
    requires Read(OptionWords(os) + Tail(parameters)) == Command(Names(os)[1..], parameters)
    ensures os[0].name == "-"
  {
    var o, rest := os[0], os[1..];
    assert os == [o] + rest;
    var tail := OptionWords(rest) + Tail(parameters);
    OptionThen(o, rest, Tail(parameters));
    CountWords(rest);
    NoWordLost(tail);
    var value := if o.value.Some? then [o.value.value] else [];
    ReadOption(o.name, value + tail);
    if o.name != "-" {
      var read := Read(value + tail);
      assert Names(os) == [o.name] + Names(rest) && Names(os)[1..] == Names(rest);
      assert Command([o.name] + read.options, read.parameters) == Command(Names(rest), parameters);
      assert ([o.name] + read.options)[0] == o.name && ([o.name] + read.options)[1..] == read.options;
      assert rest != [] && rest[0].name == o.name;
      assert read.options == Names(rest)[1..];
      if o.value.None? {
        assert value + tail == tail;
        OneFewer(rest, parameters);
      } else {
        ValueThen(o.value.value, tail);
      }
    }
  }

  // What stands behind a value is read one word later, or not as options at all.
  lemma ValueThen(value: Bytes, tail: seq<Bytes>)
    ensures
      var read := Read([value] + tail);
      || read == Command([], [value] + tail)
      || (value == "--" && read == Command([], tail))
      || (value != [] && read == Command([value[1..]] + Read(tail).options, Read(tail).parameters)
          && value == ['-'] + value[1..] && value != "--")
  {
    var words := [value] + tail;
    assert words[0] == value && words[1..] == tail;
    if value != [] && value[0] == '-' {
      assert value == ['-'] + value[1..];
    }
  }

  // For every list of options and parameters, the reader gives back exactly those names and those
  // parameters exactly when the options can be told.
  lemma {:induction false} ReadsBackIff(os: seq<CommandOption>, parameters: seq<Bytes>)
    ensures Read(OptionWords(os) + Tail(parameters)) == Command(Names(os), parameters) <==> Readable(os, parameters)
  {
    if os == [] {
      assert OptionWords(os) + Tail(parameters) == Tail(parameters);
      TailReads(parameters);
    } else {
      var o, rest := os[0], os[1..];
      assert os == [o] + rest;
      var tail := OptionWords(rest) + Tail(parameters);
      OptionThen(o, rest, Tail(parameters));
      var value := if o.value.Some? then [o.value.value] else [];
      ReadOption(o.name, value + tail);
      if o.name != "-" {
        SameNames(o.name, Read(value + tail), rest, parameters);
        if o.value.None? {
          assert value + tail == tail;
          ReadsBackIff(rest, parameters);
        } else {
          ValueReadsIff(o.value.value, rest, parameters);
        }
      }
    }
  }

  lemma SameNames(name: Bytes, read: Command, rest: seq<CommandOption>, parameters: seq<Bytes>)
    ensures Command([name] + read.options, read.parameters) == Command([name] + Names(rest), parameters)
       <==> read == Command(Names(rest), parameters)
  {
    assert ([name] + read.options)[1..] == read.options && ([name] + Names(rest))[1..] == Names(rest);
  }

  lemma ValueReadsIff(value: Bytes, rest: seq<CommandOption>, parameters: seq<Bytes>)
    ensures
      var tail := OptionWords(rest) + Tail(parameters);
      Read([value] + tail) == Command(Names(rest), parameters)
      <==> value == "--" && rest == [] && !StartsWithDash(parameters)
  {
    var tail := OptionWords(rest) + Tail(parameters);
    ValueThen(value, tail);
    CountWords(rest);
    NoWordLost(tail);
    if rest == [] {
      assert tail == Tail(parameters);
      TailReads(parameters);
      assert Tail(parameters) == parameters <==> !StartsWithDash(parameters);
    }
    var read := Read([value] + tail);
    if read == Command(Names(rest), parameters) && value != "--" && value != [] && value[0] == '-' {
      assert [value][0] == value && ([value] + tail)[1..] == tail;
      assert read == Command([value[1..]] + Read(tail).options, Read(tail).parameters);
      assert Names(rest)[1..] == Read(tail).options && Names(rest)[0] == value[1..];
      OneFewer(rest, parameters);
    }
  }

  // An encoded line, cut into words and read, gives back the operation, the option names and the
  // parameters, whatever the parameters are, exactly when the options can be told. Parameters that
  // start with a dash, or are "--", are never taken for options.
  lemma EncodedIsRead(token: Option<nat>, cmd: MiCommand)
    requires (token.Some? ==> token.value <= U64_MAX) && Utf8Strings(cmd) && NamesBlankFree(cmd)
    ensures LexCommand(CommandText(token, cmd)).Some?
    ensures
      var line := LexCommand(CommandText(token, cmd)).value;
      && line.token == token && line.operation == cmd.operation
      && (Read(line.words) == Command(Names(cmd.options), cmd.parameters) <==> Readable(cmd.options, cmd.parameters))
  {
    hide LexCommand, CommandText, Words, OptionWords, Utf8Strings, NamesBlankFree;
    EncodingInverts(token, cmd);
    SeparatorIff(cmd);
    ReadsBackIff(cmd.options, cmd.parameters);
  }

  // Options without values, none named "-", can always be told.
  lemma {:induction false} PlainOptionsReadable(os: seq<CommandOption>, parameters: seq<Bytes>)
    requires forall k | 0 <= k < |os| :: os[k].value.None? && os[k].name != "-"
    ensures Readable(os, parameters)
  {
    if os != [] {
      PlainOptionsReadable(os[1..], parameters);
    }
  }
}
