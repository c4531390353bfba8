# A verified model of framewalk's GDB/MI client

framewalk drives GDB over its Machine Interface in layers: bytes are framed
into lines, lines are parsed into records, records update a sans-IO protocol
state and become events, and a transport lets concurrent callers share one GDB.
This project models each layer in Dafny, proves the imperative code of each
against a specification, and proves about the specifications what the layers
exist for.

The specifications are "GDB/MI Output Syntax" and "GDB/MI Input Syntax" of
"Debugging with GDB", and section 4 of RFC 3629 for UTF-8. Bytes are characters
below 256, so that literals read as they appear in the protocol; strings are
byte strings with a validity predicate.

`dafny verify dfyconfig.toml` checks the whole project.

## Layout

| file | what it holds |
|---|---|
| `Wrappers.dfy`, `Octets.dfy`, `Utf8.dfy`, `Ast.dfy` | results and options, bytes and byte classes, UTF-8 validity, the record types and errors |
| `Utf8Scalars.dfy` | UTF-8 validity against the scalar values it encodes |
| `CString.dfy`, `CStringParser.dfy` | c-string literals: meaning, grammar, encoder; the cursor loops |
| `ValueSyntax.dfy`, `ValueGrammar.dfy`, `ValueParser.dfy` | values, tuples, lists: meaning, grammar, the cursor methods |
| `RecordPrinter.dfy` | records written out as lines and read back |
| `ErrorMeaning.dfy` | what every parse error says stands where it says |
| `RecordSyntax.dfy`, `RecordParser.dfy`, `Cursor.dfy`, `Decimal.dfy` | records and tokens: meaning and grammar, the cursor methods, the cursor, decimal numbers |
| `Encoder.dfy` | commands, their encoding, and the lexer that undoes it |
| `CommandPieces.dfy` | which commands are written as the same line |
| `CommandReader.dfy` | a reader of command lines that does not know the encoder |
| `Framer.dfy` | splitting a stream into lines; the framer with its lazily compacted buffer |
| `ResultsView.dfy`, `Events.dfy`, `Threads.dfy`, `Registries.dfy`, `Tokens.dfy` | lookups, vocabulary and the registries of the protocol state |
| `WireForms.dfy` | frames, stop reasons, breakpoints and operations written as results and read back |
| `Classification.dfy`, `Connection.dfy` | what a line does to the state, and its properties; the `Connection` class |
| `LastWrite.dfy`, `RunHistory.dfy` | what a registry holds after a run, in terms of the lines and submissions of the run |
| `Boundaries.dfy` | where natural claims about the protocol state stop being true, with lines that show it |
| `Reports.dfy` | what an event tells its reader about the line it came from |
| `Journal.dfy` | the bounded event journal against the full history |
| `Transport.dfy`, `TransportSafety.dfy`, `TransportTheorems.dfy` | the transport as interleaved steps; its inductive invariant; what callers may rely on |
| `TransportProgress.dfy` | why the transport refuses when it does, and what it can always still do |
| `Marshal.dfy` | the two marshalling paths from a value to JSON |

How the layers meet: `Connection.ReceiveBytes` is proved equal to a fold over
the pure split of the stream, and queues one event per newline, so the
transport model's wire is a sequence of events; `SubmitAndDrain` hands the
writer exactly one command line, so the transport model's channel is a sequence
of commands; the transport model's waiters look at the journal through the
functions `EventJournal` is proved against.

## Where the code and its documentation differ

- `token.rs:26-27` says the allocator wraps after `u64::MAX - 1` tokens; the
  code hands out `u64::MAX` too and wraps after that. The model follows the
  code.
- "An exited target has no frames" is not what `connection.rs:401-427` does: an
  exit stop that carries a thread and a frame tuple leaves that frame. The
  exact condition is `Classification.ExitClearsFrames`; a line that does it is
  in `Boundaries.ExitMayLeaveFrame`.
- "A frame belongs to a known thread" fails in two ways: a thread with a frame
  exits, or a stop of thread `all` carries a frame. `Boundaries.FramesKnownIff`
  is exact for a line and `Boundaries.FramesAlwaysKnownIff` for a run; lines
  that do it are in `ThreadExitOrphansFrame` and `StopOfAllOrphansFrame`.
- "`-target-select` and `-exec-run` drop the cached target features" holds for
  `^done` and `^connected` only, and only when the command was submitted
  structured: `Boundaries.TargetFeaturesDropped` is exact for what is recorded,
  `Boundaries.SubmissionDropsFeatures` for what was submitted. A run answered
  by `^running` (`RunKeepsStaleFeatures`) and a target selected by a raw
  command (`RawSelectKeepsStaleFeatures`) keep stale features.
- "After `^error` to an execution command the target is unknown"
  (`connection.rs:305-308`) fails for one submitted raw, whose recorded name is
  `_raw`; `Boundaries.FailureMakesUnknownIff` is exact, and
  `RawFailureKeepsTarget` is a run that keeps the target stopped.
- Options are ambiguous on the wire: `Encoder.OptionsAreAmbiguous` gives two
  commands with one text. `CommandPieces.SameTextIff` says which commands are
  written alike.
- The separator keeps dashed parameters apart from options, but not an option
  named `-` nor an option's value; `CommandReader.ReadsBackIff` is exact.
- Names are not quoted by the encoder, so a command whose operation or option
  name holds a blank is not read back; `Encoder.EncodingInvertsIff` is exact.
- A drain takes three locks. When recording falls between them it can skip
  events, and its flag can miss an eviction (`Journal.SplitDrainLosesEvent`).
  The exact conditions are `Journal.SplitDrainsTileIff` and
  `Journal.FlagIsRightIff`.
- The pending map stays empty behind an exited reader only because a submit is
  not interleaved between its alive-check and its registration. The model has
  both modes: `TransportTheorems.PendingBehindDrain` says for every run what
  the map then holds, and `TransportTheorems.DrainHoldsIffAtomic` compares the
  modes.

## Model

| member | source | states |
|---|---|---|
| CStringParser.ParseCString | crates/framewalk-mi-codec/src/parse/cstring.rs:44-87 | the cursor loop returns what decoding at an offset yields, value and end or error kind and position |
| CStringParser.DecodeEscape | crates/framewalk-mi-codec/src/parse/cstring.rs:92-187 | one escape: letter, two hex digits, or up to three octal digits, with each failure where it is reported |
| CStringParser.ReadOctal | crates/framewalk-mi-codec/src/parse/cstring.rs:150-177 | the octal loop consumes the maximal run of at most three digits and wraps its value to a byte |
| CStringParser.ReadHexDigit | crates/framewalk-mi-codec/src/parse/cstring.rs:190-210 | one hex digit, or truncation at the escape, or a bad digit at the cursor |
| CString.LiteralComplete | crates/framewalk-mi-codec/src/parse/cstring.rs:44-187 | every spelling of the grammar that decodes to UTF-8 parses to its bytes and stops at its closing quote |
| CString.LiteralSound | crates/framewalk-mi-codec/src/parse/cstring.rs:44-187 | whatever parses is a spelling of the grammar with that value |
| CString.EncodeParses | crates/framewalk-mi-codec/src/encode/cstring.rs:8-11 | parsing the encoding of any UTF-8 text gives the text back and stops at its end, whatever follows |
| CString.EncodingHasNoControls | crates/framewalk-mi-codec/src/encode/cstring.rs:18-43 | an encoding holds no raw C0 or DEL byte |
| CString.EncodingIsPrintable | crates/framewalk-mi-codec/src/encode/cstring.rs:18-43 | in numbers: nothing below 0x20 and no 0x7F is written raw |
| CString.EncodeIsValidUtf8 | crates/framewalk-mi-codec/src/encode/cstring.rs:18-43 | the encoding of UTF-8 text is UTF-8 |
| CString.HexNibble | crates/framewalk-mi-codec/src/encode/cstring.rs:45-51 | a nibble is written as the hex digit that reads back as it, and nothing larger is written as a hex digit |
| CString.BodyErrorInRange | crates/framewalk-mi-codec/src/error.rs:13-20 | a decoding error lies within the input |
| CString.EscapeTable | crates/framewalk-mi-codec/src/parse/cstring.rs:103-148 | the single-letter escapes and their bytes, listed |
| CString.HexTable | crates/framewalk-mi-codec/src/parse/cstring.rs:190-210 | a hex digit of either case is worth its place among the sixteen |
| CString.OnlyHex | crates/framewalk-mi-codec/src/parse/cstring.rs:190-210 | nothing else is a hex digit |
| CString.OnlyOctal | crates/framewalk-mi-codec/src/parse/cstring.rs:150-177 | the octal digits, spelt out |
| CString.OctalTable | crates/framewalk-mi-codec/src/parse/cstring.rs:150-177 | three octal digits count 64, 8 and 1 and wrap past a byte |
| CString.RewrittenIff | crates/framewalk-mi-codec/src/encode/cstring.rs:18-43 | a byte is rewritten only if it must be, with its letter if it has one |
| Utf8Scalars.ValidIffEncoded | crates/framewalk-mi-codec/src/parse/cstring.rs:44-87 | a decoded string is accepted as UTF-8 exactly when it is what some scalar values are written as |
| Octets.IdentifierAlphabet | crates/framewalk-mi-codec/src/parse/value.rs:239-242 | the alphabet of names, spelt out |
| Encoder.EncodeCString | crates/framewalk-mi-codec/src/encode/cstring.rs:18-43 | the loop appends exactly the literal of the text |
| Cursors.Cursor.Advance | crates/framewalk-mi-codec/src/parse/cursor.rs:48-53 | the byte moved over is returned; at the end of the input there is none and the cursor stays |
| Cursors.Cursor.ExpectByte | crates/framewalk-mi-codec/src/parse/cursor.rs:57-73 | the byte is consumed if it is the expected one; otherwise the error says what was found where |
| ValueParser.ParseValue | crates/framewalk-mi-codec/src/parse/value.rs:33-47 | dispatch on one byte agrees with what parsing at the offset yields |
| ValueParser.ParseTuple | crates/framewalk-mi-codec/src/parse/value.rs:50-84 | the tuple loop agrees with what parsing at the offset yields, a missing brace included |
| ValueParser.AfterItem | crates/framewalk-mi-codec/src/parse/value.rs:61-82 | after an item: a comma, the closing byte, or an error that says which were possible |
| ValueParser.ParseList | crates/framewalk-mi-codec/src/parse/value.rs:92-105 | the shape of a list is settled by its first item; a missing bracket is reported |
| ValueParser.ParseListResults | crates/framewalk-mi-codec/src/parse/value.rs:105-136 | the result-list loop, with its homogeneity check, agrees with the specification |
| ValueParser.ParseListValues | crates/framewalk-mi-codec/src/parse/value.rs:137-166 | the value-list loop, with its homogeneity check, agrees with the specification |
| ValueParser.ParseResult | crates/framewalk-mi-codec/src/parse/value.rs:171-185 | a name, an equals sign and a value, with the mismatch reported as a missing equals sign |
| ValueParser.ParseVariable | crates/framewalk-mi-codec/src/parse/value.rs:197-214 | the loop takes the maximal run of identifier bytes, never an empty one |
| ValueParser.LooksLikeResult | crates/framewalk-mi-codec/src/parse/value.rs:219-237 | look-ahead says whether an identifier and an equals sign stand at the cursor, without moving it |
| ValueSyntax.ParseValue | crates/framewalk-mi-codec/src/parse/value.rs:33-166 | parsing terminates, moves forward, and every error lies within the input, an unexpected end at its end |
| ValueGrammar.ValueComplete | crates/framewalk-mi-codec/src/parse/value.rs:1-23 | every text derivable as a value parses to the value of its derivation, whatever follows |
| ValueGrammar.ValueSound | crates/framewalk-mi-codec/src/parse/value.rs:1-23 | every text that parses as a value has a derivation with that value |
| ValueGrammar.FieldComplete | crates/framewalk-mi-codec/src/parse/value.rs:171-185 | the same for a result, completeness |
| ValueGrammar.FieldSound | crates/framewalk-mi-codec/src/parse/value.rs:171-185 | the same for a result, soundness |
| ValueGrammar.FieldsComplete | crates/framewalk-mi-codec/src/parse/value.rs:58-136 | the same for comma-separated results, in tuples and in lists |
| ValueGrammar.ValuesComplete | crates/framewalk-mi-codec/src/parse/value.rs:137-166 | the same for comma-separated values |
| ValueGrammar.Unambiguous | crates/framewalk-mi-codec/src/parse/value.rs:5-23 | two derivations of one text denote one value |
| ValueGrammar.PrefixFree | crates/framewalk-mi-codec/src/parse/value.rs:33-166 | no accepted value text is a proper prefix of another |
| ValueGrammar.PrintParses | crates/framewalk-mi-codec/src/parse/value.rs:33-166 | a printed value parses back to itself and stops where it ends, whatever follows |
| ValueGrammar.MeaningIsWellFormed | crates/framewalk-mi-codec/src/ast.rs:204-242 | parsed values hold UTF-8 strings, identifier names and non-empty list bodies only |
| RecordParser.ParseRecord | crates/framewalk-mi-codec/src/parse/mod.rs:37-93 | the record parser returns what the specification says of the line, for every byte string |
| RecordParser.ParseOptionalToken | crates/framewalk-mi-codec/src/parse/mod.rs:100-122 | the digit loop, checked for overflow at every digit, yields the exact value below 2^64 and an overflow at the start otherwise |
| RecordParser.ParseResultClass | crates/framewalk-mi-codec/src/parse/result.rs:28-50 | the maximal lower-case run, looked up among the five classes |
| RecordParser.ParseTrailingResults | crates/framewalk-mi-codec/src/parse/result.rs:57-79 | the loop takes comma-separated results to the end of the line or fails where they stop |
| RecordParser.ParseResultRecord | crates/framewalk-mi-codec/src/parse/result.rs:15-26 | class, then results, under the token already read |
| RecordParser.ParseAsyncRecord | crates/framewalk-mi-codec/src/parse/async_rec.rs:17-56 | async class, whose alphabet is that of identifiers, then results |
| RecordSyntax.ParseRecord | crates/framewalk-mi-codec/src/error.rs:13-20 | every error of every line lies within it, and an unexpected end at its end |
| RecordSyntax.RecordComplete | crates/framewalk-mi-codec/src/parse/mod.rs:37-93 | every line derivable under the output syntax parses to its record |
| RecordSyntax.RecordSound | crates/framewalk-mi-codec/src/parse/mod.rs:37-93 | every accepted line has a derivation with that record |
| RecordSyntax.ParserIsGrammar | crates/framewalk-mi-codec/src/parse/mod.rs:37-122 | a line is accepted if and only if it is derivable, and then its record is unique |
| ErrorMeaning.ErrorIsTrue | crates/framewalk-mi-codec/src/error.rs:13-20 | every error of every line names what stands, or is missing, where it points |
| Reports.ReplyLine | crates/framewalk-mi-codec/src/ast.rs:142-171 | the five result classes in GDB's spelling |
| Reports.AsyncLine | crates/framewalk-mi-codec/src/parse/mod.rs:37-93 | one line of each kind of asynchronous output, byte for byte |
| RecordPrinter.RecordRoundTrip | crates/framewalk-mi-codec/src/parse/mod.rs:37-93 | every well-formed record parses back from its printed line |
| RecordPrinter.ReadableIffWellFormed | crates/framewalk-mi-codec/src/parse/mod.rs:37-93 | the records lines are read as are exactly the well-formed ones |
| RecordSyntax.TokenComplete | crates/framewalk-mi-codec/src/parse/mod.rs:96-122 | on any digit run the token is exact or the overflow is reported |
| RecordSyntax.TokenRoundTrip | crates/framewalk-mi-codec/src/encode/mod.rs:92-109 | the token parser reads back every 64-bit token the encoder writes |
| RecordSyntax.ClassRoundTrip | crates/framewalk-mi-codec/src/ast.rs:142-171 | each result class is read back from its own spelling |
| Ast.ClassFromName | crates/framewalk-mi-codec/src/ast.rs:145-158 | the class whose spelling the name is, or none has it |
| Decimal.WriteU64 | crates/framewalk-mi-codec/src/encode/mod.rs:92-109 | the digits of the number are appended, and twenty bytes always hold them |
| Decimal.CollectDigits | crates/framewalk-mi-codec/src/encode/mod.rs:97-104 | the division loop fills at most twenty bytes with the digits, lowest first |
| Decimal.ValueOfText | crates/framewalk-mi-codec/src/encode/mod.rs:92-109 | the written digits denote the number |
| Encoder.EncodeCommand | crates/framewalk-mi-codec/src/encode/mod.rs:32-55 | the encoder appends exactly the text of the command and nothing else |
| Encoder.EncodeOption | crates/framewalk-mi-codec/src/encode/mod.rs:57-64 | a bare name and, if present, its value behind a blank |
| Encoder.EncodeParameter | crates/framewalk-mi-codec/src/encode/mod.rs:66-72 | a parameter goes bare or as a literal |
| Encoder.BareIff | crates/framewalk-mi-codec/src/encode/mod.rs:74-83 | a parameter goes bare exactly when it is not empty and holds none of six bytes, and as a literal otherwise |
| Encoder.CommandTextIsWords | crates/framewalk-mi-codec/src/command.rs:9-13 | the line is the token, the operation and the words of the command, each behind a blank, exactly when no option name holds a blank |
| Encoder.EncodingInvertsIff | crates/framewalk-mi-codec/src/encode/mod.rs:24-55 | cutting an encoded line under the input syntax gives back token, operation, options, separator and parameters exactly when no name holds a blank, for arbitrary parameter strings and option values |
| CommandPieces.SameTextIff | crates/framewalk-mi-codec/src/encode/mod.rs:32-55 | two commands are encoded alike exactly when the tokens are the same and so is what follows them; without quotes and backslashes in names that is the same pieces, a name with blanks counting as the words it shows; without blanks, the same operation and words |
| CommandReader.EncodedIsRead | crates/framewalk-mi-codec/src/encode/mod.rs:44-90 | a reader that takes leading dashed words for options gives back the option names and all parameters, dashed ones included, exactly when the options can be told |
| CommandReader.ReadsBackIff | crates/framewalk-mi-codec/src/encode/mod.rs:85-90 | the options can be told exactly when none is named by a dash or has a value, save a last value that passes for the separator |
| Encoder.OptionsAreAmbiguous | crates/framewalk-mi-codec/src/encode/mod.rs:57-64 | an option's value and a parameter give the same text: two different commands, one line |
| Encoder.OneNewline | crates/framewalk-mi-codec/src/encode/mod.rs:20-22 | the last byte is a newline, and it is the only one exactly when no name holds one |
| Encoder.ReplayTextIsUtf8 | crates/framewalk-mcp/src/server_helpers.rs:722-730 | neither check of the replay encoder can fail, whatever strings the command holds |
| Encoder.ReplayIsVerbatim | crates/framewalk-mi-protocol/src/connection.rs:154-181 | a token in front of the replay text is the line the command itself gives |
| Framing.Framer.Push | crates/framewalk-mi-wire/src/framer.rs:109-118 | the live bytes grow by exactly the pushed ones; afterwards the dead prefix is empty or shorter than the live bytes were; all shifting so far is at most twice what was consumed |
| Framing.Framer.Pop | crates/framewalk-mi-wire/src/framer.rs:127-160 | a frame is yielded exactly when a newline is live, it is the first line without its terminator, and the run so far stays the split of everything received |
| Framing.Framer.Compact | crates/framewalk-mi-wire/src/framer.rs:174-180 | from any read cursor, compaction changes no live byte and moves exactly the live bytes |
| Framing.Framer.PendingBytes | crates/framewalk-mi-wire/src/framer.rs:162-171 | the number of live bytes |
| Framing.Framer.FindNewline | crates/framewalk-mi-wire/src/framer.rs:128-133 | the scan finds the first newline |
| Framing.SplitIsExact | crates/framewalk-mi-wire/src/framer.rs:7-22 | lines and rest make up the stream, and none holds a newline |
| Framing.SplitIsUnique | crates/framewalk-mi-wire/src/framer.rs:7-22 | there is only one such split |
| Framing.SplitConcat | crates/framewalk-mi-wire/src/framer.rs:9-14 | splitting in two pieces with the rest carried over is splitting whole |
| Framing.LineCount | crates/framewalk-mi-wire/src/framer.rs:127-160 | there are as many lines as newlines |
| Framing.StripSlice | crates/framewalk-mi-wire/src/framer.rs:136-142 | at most one carriage return before the newline is stripped |
| Framing.FrameOfIff | crates/framewalk-mi-wire/src/framer.rs:180-188 | the prompt is `(gdb)` with blanks behind it; any other line is passed on short of one carriage return |
| ResultsView.Find | crates/framewalk-mi-protocol/src/results_view.rs:17-42 | the first acceptable value under a repeated name, or none there is |
| ResultsView.GetStrIff | crates/framewalk-mi-protocol/src/results_view.rs:17-22 | the first text under the name, past values of other shapes |
| ResultsView.GetTupleIff | crates/framewalk-mi-protocol/src/results_view.rs:33-41 | the first tuple under the name, past values of other shapes |
| ResultsView.GetListIff | crates/framewalk-mi-protocol/src/state/breakpoints.rs:128-133 | the first value under the name if it is a list, past nothing |
| ResultsView.GetBoolIff | crates/framewalk-mi-protocol/src/results_view.rs:45-47 | three spellings mean yes and any other text no |
| ResultsView.ParseU32Iff | crates/framewalk-mi-protocol/src/results_view.rs:50-52 | an optional plus and digits within 32 bits, and nothing else |
| ResultsView.ParseI32Iff | crates/framewalk-mi-protocol/src/results_view.rs:55-57 | the same signed |
| Threads.ThreadRegistry.OnThreadCreated | crates/framewalk-mi-protocol/src/state/threads.rs:127-146 | a new thread is filed with its group; a known one only gains a missing group |
| Threads.ThreadRegistry.OnThreadExited | crates/framewalk-mi-protocol/src/state/threads.rs:149-154 | the thread is dropped |
| Threads.ThreadRegistry.OnRunning | crates/framewalk-mi-protocol/src/state/threads.rs:158-173 | the new map is the old one with the covered threads running |
| Threads.ThreadRegistry.OnStopped | crates/framewalk-mi-protocol/src/state/threads.rs:176-191 | the new map is the old one with the covered threads halted |
| Threads.StateReachesCovered | crates/framewalk-mi-protocol/src/state/threads.rs:156-191 | an exec record reaches exactly the threads it covers and changes nothing but the state |
| Registries.FrameRegistry.OnStoppedFrame | crates/framewalk-mi-protocol/src/state/frames.rs:60-69 | the frame tuple, if there is one, becomes the frame of the thread |
| Registries.FrameRegistry.Invalidate | crates/framewalk-mi-protocol/src/state/frames.rs:71-73 | only the frame of that thread is dropped |
| Registries.FrameRegistry.Clear | crates/framewalk-mi-protocol/src/state/frames.rs:75-77 | no frame is left |
| Registries.BreakpointRegistry.UpsertFromTuple | crates/framewalk-mi-protocol/src/state/breakpoints.rs:84-105 | a numbered tuple replaces the breakpoint wholesale; one without a number changes nothing |
| Registries.BreakpointRegistry.OnBreakpointChanged | crates/framewalk-mi-protocol/src/state/breakpoints.rs:107-117 | the breakpoint tuple of a notification, if there is one, is upserted |
| Registries.BreakpointRegistry.OnBreakpointDeleted | crates/framewalk-mi-protocol/src/state/breakpoints.rs:119-124 | only the named breakpoint is dropped |
| Registries.BreakpointFromTuple | crates/framewalk-mi-protocol/src/state/breakpoints.rs:91-102 | a breakpoint is filed under its number and always has a location |
| Registries.VarObjRegistry.OnVarCreate | crates/framewalk-mi-protocol/src/state/varobjs.rs:72-87 | a new object replaces any of its name, with the expression it was created for |
| Registries.VarObjRegistry.OnVarUpdate | crates/framewalk-mi-protocol/src/state/varobjs.rs:89-121 | the loop folds every entry of the change list into the registry |
| Registries.VarObjRegistry.Update | crates/framewalk-mi-protocol/src/state/varobjs.rs:100-120 | one entry changes the fields it mentions |
| Registries.LastMentionWins | crates/framewalk-mi-protocol/src/state/varobjs.rs:99-120 | after a change list each field is the last one mentioned for the object, or as before |
| Registries.VarObjRegistry.OnVarDelete | crates/framewalk-mi-protocol/src/state/varobjs.rs:123-125 | only the named object is dropped |
| Registries.Features.OnListFeatures | crates/framewalk-mi-protocol/src/state/features.rs:48-50 | the interpreter features become those listed |
| Registries.Features.OnListTargetFeatures | crates/framewalk-mi-protocol/src/state/features.rs:55-57 | the target features become those listed |
| Registries.Features.InvalidateTargetFeatures | crates/framewalk-mi-protocol/src/state/features.rs:62-64 | the target features are dropped and the others kept |
| Registries.PendingCommands.Insert | crates/framewalk-mi-protocol/src/pending.rs:66-68 | the token is mapped to its command |
| Registries.PendingCommands.Remove | crates/framewalk-mi-protocol/src/pending.rs:70-72 | the command of the token is returned and forgotten |
| WireForms.FrameReads | crates/framewalk-mi-protocol/src/state/frames.rs:21-33 | a frame written under its six field names reads back whole |
| WireForms.ReasonReads | crates/framewalk-mi-protocol/src/state/target.rs:102-142 | every documented stop reason reads back with its payload |
| WireForms.ReasonSpelling | crates/framewalk-mi-protocol/src/state/target.rs:109-141 | a reason is read exactly when one is given, under its own spelling; only undocumented spellings are open-ended |
| WireForms.LocationReads | crates/framewalk-mi-protocol/src/state/breakpoints.rs:45-57 | a location written under its field names reads back whole |
| WireForms.LocationsRead | crates/framewalk-mi-protocol/src/state/breakpoints.rs:127-144 | a list of location tuples reads back in order |
| WireForms.OnlyTuplesLocate | crates/framewalk-mi-protocol/src/state/breakpoints.rs:134-143 | a list has one location for each of its tuples, and the rest of it has no effect |
| WireForms.BreakpointReads | crates/framewalk-mi-protocol/src/state/breakpoints.rs:84-107 | a breakpoint with its locations reads back whole and is filed under its number |
| WireForms.FlatBreakpointReads | crates/framewalk-mi-protocol/src/state/breakpoints.rs:84-102 | a breakpoint written with one flat location reads back whole |
| WireForms.EnabledByDefault | crates/framewalk-mi-protocol/src/state/breakpoints.rs:92-102 | a breakpoint not said to be disabled is enabled |
| WireForms.LocationEnabledByDefault | crates/framewalk-mi-protocol/src/state/breakpoints.rs:45-57 | so is a location |
| WireForms.VarObjReads | crates/framewalk-mi-protocol/src/state/varobjs.rs:72-92 | an object written in the answer to its creation is filed whole, with its expression |
| WireForms.FeatureIsListed | crates/framewalk-mi-protocol/src/state/features.rs:68-85 | a feature is known exactly when its text stands in the list under that name |
| WireForms.FeaturesRead | crates/framewalk-mi-protocol/src/state/features.rs:76-82 | a written list of features reads back as their set |
| WireForms.NatReads | crates/framewalk-mi-protocol/src/results_view.rs:50-52 | every 32-bit number reads back from its decimal form |
| WireForms.IntReads | crates/framewalk-mi-protocol/src/results_view.rs:55-57 | a signed number reads back exactly when it fits in 32 bits |
| Tokens.TokenAllocator.Allocate | crates/framewalk-mi-protocol/src/token.rs:28-32 | the k-th call returns the k-th token of a run that starts at one and wraps past the 64-bit maximum |
| Tokens.TokensAreDistinct | crates/framewalk-mi-protocol/src/token.rs:3-10 | any 2^64-1 consecutive tokens are pairwise distinct |
| Classification.ChunkInvariance | crates/framewalk-mi-protocol/src/connection.rs:90-124 | however a stream is cut into calls, live bytes, registers, pending map and event queue end as after one call |
| Classification.ReceiveConcat | crates/framewalk-mi-protocol/src/connection.rs:90-124 | two calls leave the state one call with the concatenation leaves |
| Classification.EventConservation | crates/framewalk-mi-protocol/src/connection.rs:90-124 | a call queues one event per newline received, behind those already queued |
| Reports.RecordTold | crates/framewalk-mi-protocol/src/connection.rs:274-464 | read back, the event of every record reports the prefix, class, token and results of its line |
| Reports.ArrivalIsTold | crates/framewalk-mi-protocol/src/connection.rs:90-129 | what is read off the queue is what the line said |
| Reports.OtherLinesTold | crates/framewalk-mi-protocol/src/connection.rs:98-122 | a prompt is reported as one, and a line that is no record with what is wrong with it |
| Reports.ErrorIsTold | crates/framewalk-mi-protocol/src/connection.rs:326-330 | a failure carries the texts written as its message and code |
| Reports.RunningIsTold | crates/framewalk-mi-protocol/src/connection.rs:374-391 | a running record carries its thread |
| Reports.FrameIsTold | crates/framewalk-mi-protocol/src/connection.rs:393-434 | whatever surrounds them, the first thread text and the first frame tuple of a stop are the thread and frame of its event and of the registry |
| Reports.NoFrameIsTold | crates/framewalk-mi-protocol/src/connection.rs:473-478 | a stop without a frame tuple reports none and files none |
| Reports.StopIsTold | crates/framewalk-mi-protocol/src/state/target.rs:102-142 | a written stop is told whole: reason with its payload, thread and frame |
| Reports.StopSetsTarget | crates/framewalk-mi-protocol/src/connection.rs:399-421 | the three exit spellings end the target with the code they give; any other stop stops it at its thread |
| Reports.ValueLine | crates/framewalk-mi-protocol/src/connection.rs:322-324 | the reply to an evaluation, byte for byte, and the payload its caller is given |
| Classification.ResolvedRepliesAreInert | crates/framewalk-mi-protocol/src/connection.rs:286-320 | once a token is resolved, dropping every later reply to it from the stream changes no register |
| Classification.DuplicatesAreInert | crates/framewalk-mi-protocol/src/connection.rs:286-320 | a reply and all its duplicates change the registers once |
| Classification.UnknownReplyIsInert | crates/framewalk-mi-protocol/src/connection.rs:286-340 | a reply to an unknown token changes no register and still yields its completion event |
| Classification.PendingAfter | crates/framewalk-mi-protocol/src/connection.rs:286-320 | a line takes at most its own token off the pending map |
| Classification.DoneTouches | crates/framewalk-mi-protocol/src/connection.rs:343-370 | a routed payload reaches only breakpoints, variable objects and features |
| Classification.RunIsSafe | crates/framewalk-mi-protocol/src/connection.rs:274-439 | over every run: a running thread has no frame; an unknown or all-running target has none; a running target thread has none; an exited target has at most one; entries are filed under their names |
| Classification.LineIsSafe | crates/framewalk-mi-protocol/src/connection.rs:274-464 | every line keeps that safety |
| Classification.RunKeepsExitClear | crates/framewalk-mi-protocol/src/connection.rs:399-427 | over every run: an exited target has no frame throughout exactly when no exit stop carries a frame tuple for a thread it names |
| Classification.ExitClearsFrames | crates/framewalk-mi-protocol/src/connection.rs:399-427 | an exit stop leaves no frame exactly when it does not supply one for a thread it names |
| Boundaries.ExitMayLeaveFrame | crates/framewalk-mi-protocol/src/connection.rs:425-427 | a line that leaves an exited target with a frame, whatever came before |
| Boundaries.RecordArrives | crates/framewalk-mi-protocol/src/connection.rs:90-124 | the line of any well-formed record is received as that record and nothing else |
| Boundaries.FramesKnownIff | crates/framewalk-mi-protocol/src/connection.rs:372-457 | frames stay within the known threads exactly unless a thread with a frame exits or a stop of an unknown thread `all` carries a frame |
| Boundaries.FramesAlwaysKnownIff | crates/framewalk-mi-protocol/src/connection.rs:274-457 | over every run: they do throughout exactly when no such line arrives |
| Boundaries.StopOfAllOrphansFrame | crates/framewalk-mi-protocol/src/connection.rs:425-427 | a first line that files a frame under no thread |
| Boundaries.ThreadExitKeepsItsFrame | crates/framewalk-mi-protocol/src/state/threads.rs:149-154 | an exiting thread keeps its frame |
| Boundaries.ThreadExitOrphansFrame | crates/framewalk-mi-protocol/src/connection.rs:447 | two lines after which a frame has lost its thread |
| Boundaries.TargetFeaturesDropped | crates/framewalk-mi-protocol/src/connection.rs:300-370 | for any pending command: the cached target features are dropped exactly on done and connected to one recorded as a target selection, a run, or a listing that comes back empty |
| Boundaries.SubmissionDropsFeatures | crates/framewalk-mi-protocol/src/connection.rs:137-178 | in terms of what was submitted: the same commands submitted structured drop them, and nothing submitted raw does |
| Boundaries.RawSelectKeepsStaleFeatures | crates/framewalk-mi-protocol/src/connection.rs:168-178 | a target selected by a raw command keeps the features listed before it |
| Boundaries.FailureMakesUnknownIff | crates/framewalk-mi-protocol/src/connection.rs:305-314 | a failure makes the target unknown and drops the frames exactly when the command is recorded under the name of an execution command, which a raw one never is |
| Boundaries.RawFailureKeepsTarget | crates/framewalk-mi-protocol/src/connection.rs:305-314 | a failed raw run leaves the target stopped with its frame |
| Boundaries.RunKeepsStaleFeatures | crates/framewalk-mi-protocol/src/connection.rs:316-319 | a run answered by running keeps the features listed before it |
| RunHistory.PendingIsUnanswered | crates/framewalk-mi-protocol/src/pending.rs:66-72 | over every run: a token is pending, with the command last submitted under it, exactly when it has had no reply since |
| RunHistory.BreakpointIsLastDelivered | crates/framewalk-mi-protocol/src/state/breakpoints.rs:84-124 | over every run: a breakpoint is the last tuple delivered under its number, exactly unless deleted since |
| RunHistory.FrameIsLastStop | crates/framewalk-mi-protocol/src/state/frames.rs:60-77 | over every run: the frame of a thread is that of its last stop with one, exactly unless invalidated since |
| RunHistory.FeaturesAreLastListed | crates/framewalk-mi-protocol/src/state/features.rs:48-64 | over every run: the target features are those of the last answer that listed or dropped them |
| RunHistory.OwnFeaturesAreLastListed | crates/framewalk-mi-protocol/src/state/features.rs:48-50 | over every run: the interpreter features are those of the last answer that listed them |
| RunHistory.TargetIsLastSet | crates/framewalk-mi-protocol/src/connection.rs:305-434 | over every run: the target is in the state of the last running or stopped record or failed execution command |
| RunHistory.ThreadIsLastCovered | crates/framewalk-mi-protocol/src/state/threads.rs:127-191 | over every run: a thread is known, in the state of the last exec record that covered it since, exactly unless it has exited since |
| RunHistory.GroupIsFirstGiven | crates/framewalk-mi-protocol/src/state/threads.rs:127-191 | over every run: a known thread is in the group it was first given |
| RunHistory.VarObjIsLastSaid | crates/framewalk-mi-protocol/src/state/varobjs.rs:72-125 | over every run: value, type and scope of a variable object are each what the last creation, change list or deletion said of it |
| RunHistory.VarObjIsAsCreated | crates/framewalk-mi-protocol/src/state/varobjs.rs:72-125 | over every run: an object is known from its creation or first mention until its deletion, with the expression and number of children of its last creation |
| Protocol.Connection.ReceiveBytes | crates/framewalk-mi-protocol/src/connection.rs:90-124 | the new state is the specified one, one event is queued per newline, and every event ever queued is the image of a line ever completed, in wire order |
| Protocol.Connection.DrainFramer | crates/framewalk-mi-protocol/src/connection.rs:98-110 | the pop loop parses exactly the complete lines of the live bytes and leaves their rest |
| Protocol.Connection.ClassifyAll | crates/framewalk-mi-protocol/src/connection.rs:112-122 | parsed lines are classified in order |
| Protocol.Connection.Classify | crates/framewalk-mi-protocol/src/connection.rs:274-284 | a record is routed and its event queued |
| Protocol.Connection.ClassifyResult | crates/framewalk-mi-protocol/src/connection.rs:286-340 | a reply is taken off the pending map, routed by class, and completed |
| Protocol.Connection.RoutePayload | crates/framewalk-mi-protocol/src/connection.rs:343-370 | a payload goes to the registry of the operation that asked for it |
| Protocol.Connection.ClassifyExec | crates/framewalk-mi-protocol/src/connection.rs:372-439 | running and stopped records update target, threads and frames; others are passed on |
| Protocol.Connection.OnRunning | crates/framewalk-mi-protocol/src/connection.rs:374-391 | the effect of a running record |
| Protocol.Connection.OnStopped | crates/framewalk-mi-protocol/src/connection.rs:393-434 | the effect of a stopped record, in the order clear then insert |
| Protocol.Connection.Halt | crates/framewalk-mi-protocol/src/connection.rs:399-421 | exit reasons end the target and clear its frames; others stop it |
| Protocol.Connection.ClassifyNotify | crates/framewalk-mi-protocol/src/connection.rs:441-457 | notifications reach the thread and breakpoint registries |
| Protocol.Connection.PollEvent | crates/framewalk-mi-protocol/src/connection.rs:127-129 | events are pulled in the order they were queued |
| Protocol.Connection.Submit | crates/framewalk-mi-protocol/src/connection.rs:137-154 | a fresh token, one pending entry, and exactly the text of the command appended |
| Protocol.Connection.SubmitRaw | crates/framewalk-mi-protocol/src/connection.rs:168-187 | a fresh token, an uninterpreted pending entry, and token, line and newline appended |
| Protocol.Connection.ConsumeOutbound | crates/framewalk-mi-protocol/src/connection.rs:198-210 | what was taken and what is outstanding always make up what was submitted; asking for too much changes nothing; compaction hides nothing |
| Protocol.Connection.Shutdown | crates/framewalk-mi-protocol/src/connection.rs:267-271 | an exit command is queued |
| Protocol.Replay | crates/framewalk-mcp/src/server_helpers.rs:722-730 | replaying a command raw appends byte for byte what submitting it would |
| Protocol.DrainOutbound | crates/framewalk-mi-transport/src/handle.rs:306-313 | everything outstanding is taken |
| Protocol.SubmitAndDrain | crates/framewalk-mi-transport/src/handle.rs:92-97 | the bytes a submit hands to the writer are exactly its own command line |
| Journal.EventJournal.Push | crates/framewalk-mi-transport/src/shared.rs:56-70 | the journal stays the numbered tail of the full history and remembers the last stop ever recorded |
| Journal.LatestStopIff | crates/framewalk-mi-transport/src/shared.rs:60-62 | the remembered stop is the last of the whole history, under its own number |
| Journal.EventJournal.FindStopAfter | crates/framewalk-mi-transport/src/shared.rs:72-77 | the loop returns the first retained stop past the cursor |
| Journal.EventJournal.EventsAfter | crates/framewalk-mi-transport/src/shared.rs:83-89 | the loop returns the retained events past the cursor |
| Journal.EventJournal.Cursor | crates/framewalk-mi-transport/src/shared.rs:52-54 | every event recorded so far is numbered at or below the cursor |
| Journal.EventJournal.EarliestSeq | crates/framewalk-mi-transport/src/shared.rs:97-99 | the number of the oldest retained event |
| Journal.EventJournal.LatestEvent | crates/framewalk-mi-transport/src/shared.rs:91-95 | the last event recorded |
| Journal.EventJournal.DrainEvents | crates/framewalk-mcp/src/server_helpers.rs:541-561 | the three reads of a drain, with anything recorded by other tasks between them |
| Journal.WindowAnswersForHistory | crates/framewalk-mi-transport/src/shared.rs:72-89 | the retained window answers for the whole history when nothing past the cursor was evicted |
| Journal.TruncatedMeansEvicted | crates/framewalk-mcp/src/server_helpers.rs:545-551 | the flag is set exactly when an event past the cursor had been evicted by the first read |
| Journal.FlagIsRightIff | crates/framewalk-mcp/src/server_helpers.rs:545-551 | it is right about the events returned exactly unless the first such eviction fell between the first two reads |
| Journal.SplitDrainLosesEvent | crates/framewalk-mcp/src/server_helpers.rs:545-551 | an event lost without the flag, with nothing recorded after the events were read |
| Journal.DrainReturns | crates/framewalk-mcp/src/server_helpers.rs:545-550 | a drain returns everything past its cursor still retained at the second read |
| Journal.SplitDrainsTileIff | crates/framewalk-mcp/src/server_helpers.rs:541-561 | with recording anywhere between and inside them, chained drains tile the history exactly when in each nothing was recorded after the events were read and nothing past its cursor was gone by then |
| Journal.DrainsTile | crates/framewalk-mcp/src/server_helpers.rs:541-561 | drains not interleaved with recording tile the history exactly when none is flagged |
| Journal.SplitDrainTilesIff | crates/framewalk-mcp/src/server_helpers.rs:545-551 | an unflagged drain and the next one leave no gap exactly when nothing was recorded between the last two reads and nothing past the cursor was evicted between the first two |
| TransportSafety.AlwaysSafe | crates/framewalk-mi-transport/src/handle.rs:86-101 | every state of every interleaving satisfies the invariant |
| TransportProgress.RefusalsHaveReason | crates/framewalk-mi-transport/src/handle.rs:86-101 | in every reachable state: no caller has been told of an exit while the reader runs and the writer receives, and no waiter while the reader runs |
| TransportProgress.BeginRegisters | crates/framewalk-mi-transport/src/handle.rs:86-98 | with a live reader a submit stores its sender under the token just issued; with none it is refused and changes nothing else |
| TransportProgress.SubmitCanBeAnswered | crates/framewalk-mi-transport/src/handle.rs:86-101 | from every reachable state with a live reader and writer, a run registers, writes, answers and resumes a new submit, with whatever outcome GDB gives |
| TransportProgress.FirstSubmitIsAnswered | crates/framewalk-mi-transport/src/handle.rs:86-101 | a whole life of a submit, from the start |
| TransportProgress.CallerNeverStuck | crates/framewalk-mi-transport/src/handle.rs:92-101 | a caller without its result can step, or awaits a completion a live reader can still bring, and may always give up |
| TransportProgress.FailedSendIsTold | crates/framewalk-mi-transport/src/handle.rs:327-340 | a caller whose command could not be handed over is told so, and only its own sender goes |
| TransportProgress.ReaderNeverStuck | crates/framewalk-mi-transport/src/pump.rs:86-166 | a reader that is not dead can always step, unless it waits for output |
| TransportProgress.ReaderCatchesUp | crates/framewalk-mi-transport/src/pump.rs:103-166 | from every reachable state its own steps bring everything emitted into the journal |
| TransportProgress.BatchIsWhole | crates/framewalk-mi-transport/src/pump.rs:103-166 | whatever the reader reads at once it resolves and records, all of it and no more, before it reads again |
| TransportProgress.CommandsInOrder | crates/framewalk-mi-transport/src/pump.rs:170-181 | over every run: what GDB has read, its input and the channel are together what was sent, in order and once, or its first part when the writer has stopped |
| TransportProgress.HistoryIsRecorded | crates/framewalk-mi-transport/src/shared.rs:177-184 | over every run the history of the journal is exactly what was recorded off the wire and advised, in order |
| TransportSafety.StepKeeps | crates/framewalk-mi-transport/src/pump.rs:86-166 | every step of every task keeps it |
| TransportSafety.RegisterStep | crates/framewalk-mi-transport/src/handle.rs:92-98 | registering issues a fresh token and displaces no sender |
| TransportSafety.SendFailsKeeps | crates/framewalk-mi-transport/src/handle.rs:327-340 | a failed send drops the sender of its own call and no other |
| TransportSafety.ResolveKeeps | crates/framewalk-mi-transport/src/pump.rs:149-158 | a completion fires the sender stored under its token, once |
| TransportSafety.DrainKeeps | crates/framewalk-mi-transport/src/pump.rs:70-82 | draining drops every sender and empties the map |
| TransportSafety.RecordKeepsWaiters | crates/framewalk-mi-transport/src/shared.rs:177-184 | recording before notifying leaves no waiter behind unnoticed |
| TransportSafety.MoveKeepsWaiters | crates/framewalk-mi-transport/src/handle.rs:201-222 | the check, arm, re-check, park loop never parks past something it should have seen |
| TransportTheorems.RegisteredBeforeDispatch | crates/framewalk-mi-transport/src/pump.rs:149-158 | a completion dispatched for the first time finds its sender registered |
| TransportTheorems.OutcomeIsFirstCompletion | crates/framewalk-mi-transport/src/handle.rs:86-101 | a delivered outcome is that of the first completion carrying the caller's own token |
| TransportTheorems.TokensAreOwn | crates/framewalk-mi-transport/src/handle.rs:92-98 | no two calls share a token |
| TransportTheorems.ResultsAreFinal | crates/framewalk-mi-transport/src/handle.rs:86-101 | a caller gets at most one outcome |
| TransportTheorems.NoCallerStranded | crates/framewalk-mi-transport/src/pump.rs:36-82 | behind an exited reader the map is empty and every parked caller can resume |
| TransportTheorems.JournaledBeforeDelivered | crates/framewalk-mi-transport/src/pump.rs:136-166 | when an outcome is delivered, every event before its completion on the wire is in the journal, in order |
| TransportTheorems.LaterEventsArePastCursor | crates/framewalk-mi-transport/src/handle.rs:133-137 | what GDB emits after a submit registers is numbered past a cursor taken then |
| TransportTheorems.NoLostWakeup | crates/framewalk-mi-transport/src/handle.rs:194-223 | a parked waiter with something to see has its notification or is about to get it |
| TransportProgress.WaiterSettles | crates/framewalk-mi-transport/src/handle.rs:201-222 | left alone, a waiter finds the first retained stop, gives up if there is none and no reader, and parks otherwise, not yet notified |
| TransportProgress.ParkedWaiterCanReturn | crates/framewalk-mi-transport/src/handle.rs:216-222 | from every reachable state a parked waiter with a stop to see can still return it |
| TransportProgress.WaiterNeverStuck | crates/framewalk-mi-transport/src/handle.rs:194-223 | a waiter without its answer can move, or is parked and can time out |
| TransportProgress.RecentStopIsFound | crates/framewalk-mi-transport/src/shared.rs:149 | a stop past the cursor, or an earlier one, is found until 1024 events have followed it |
| TransportProgress.OldStopIsGone | crates/framewalk-mi-transport/src/shared.rs:56-70 | after that nothing is left of it |
| TransportTheorems.WakeupArrives | crates/framewalk-mi-transport/src/shared.rs:168-184 | a notification reaches every parked waiter |
| TransportTheorems.WaiterFindsFirstStop | crates/framewalk-mi-transport/src/handle.rs:189-223 | a waiter returns the first stop ever recorded past its cursor unless something past it was evicted |
| TransportTheorems.TriggerAndWait | crates/framewalk-mcp/src/scheme/bindings.rs:393-433 | capture the cursor, submit, wait, with anything recorded between capture and submit: the stop returned is past the cursor and no later than the first the command could have caused |
| TransportTheorems.StrandedForever | crates/framewalk-mi-transport/src/pump.rs:36-64 | a sender registered behind the drain is never resolved |
| TransportTheorems.SplitSubmitStrands | crates/framewalk-mi-transport/src/handle.rs:86-101 | a concrete run that registers behind the drain when the check and the registration are split |
| TransportTheorems.PendingBehindDrain | crates/framewalk-mi-transport/src/pump.rs:70-82 | for every run, in either mode: behind the drain the map holds exactly the senders registered since and not taken back by a failed send |
| TransportTheorems.DrainHoldsIffAtomic | crates/framewalk-mcp/src/main.rs:26-34 | the map stays empty behind the reader exactly when they are one step |
| Marshal.SteelToJsonValue | crates/framewalk-mcp/src/scheme/marshal.rs:121-141 | the walk over Scheme data computes its JSON |
| Marshal.SteelHashMapToJson | crates/framewalk-mcp/src/scheme/marshal.rs:156-163 | the members are the same in whatever order the map iterates |
| Marshal.PathsCommute | crates/framewalk-mcp/src/scheme/marshal.rs:74-112 | the way through Scheme gives the JSON the direct way gives |
| Marshal.JsonDeterminesShape | crates/framewalk-mcp/src/server_helpers.rs:56-85 | the JSON determines the value up to tuple against result list and among empty aggregates |

## Left out

- Process spawning, pipes, the stderr logger, `kill`, shutdown's timeouts and
  real clocks: foreign. A timeout is a step that may happen at any time.
- Tokio: only the contracts of oneshot, mpsc and notify appear. The async
  functions of the transport appear as the steps between their `.await` points,
  not as methods.
- The capacity of the writer's channel and partial writes to GDB's input: a
  send may be delayed for any time, and a command is written whole.
- The broadcast channel: best effort, and nothing here rests on it.
- Fairness: the transport results say what is enabled or kept, not that the
  scheduler runs it.
- `TransportSafety.AlwaysSafe`: bounded to the first 2^64-1 submits, because
  beyond them a new token may displace the sender of a call still pending.
- `Journal.WindowAnswersForHistory`: stated below saturation of the sequence
  number, because from there on several events share one number.
- `CommandPieces.SameTextIff`: for names that hold a quote or a backslash, says
  only that what follows the token must be the same bytes, because an
  unbalanced quote in a name can swallow the words after it.
- `CommandReader.EncodedIsRead`: asks that names hold no blank, because a line
  whose names do is not cut into its words (`Encoder.EncodingInvertsIff`).
- `Journal.SplitDrainsTileIff`: starts at a cursor no later than what had been
  recorded, because past it there is no history to tile.
- `summarize_event`: completions, prompts and unknown records are dropped from
  a drain's answer after its reads; the drain is modelled before that filter.
- `Protocol.Connection.ConsumeOutbound`: does not model the overflow of the
  cursor addition for counts near 2^64, which no buffer length reaches.
- `Protocol.Connection.ReceiveBytes`: does not model `usize` limits or the
  depth of the call stack on deeply nested values.
- The framer's buffer, the journal's deque and the registries' ordered maps are
  values in fields; sharing of memory and iteration order are not modelled.
- `current_or_next_stop`: it reads the target and the journal under different
  locks and may return an older stop; nothing is claimed of it.
- The Steel engine and Scheme values that no MI value becomes; the fallback to
  display strings and its truncation.
- The rmcp server, tool argument structs, resources, configuration,
  `raw_guard.rs`, `mi_types.rs`, `version.rs`, Display implementations and
  tracing: thin wrappers and static tables.
- `mi_quote_param` in `bindings.rs`: the codec's encoder is modelled instead.
- The `MiVersion` hint: stored and returned only.
