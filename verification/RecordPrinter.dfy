// Records written out as lines, and read back.
//
// Exactly the records the types and the grammar's alphabet allow are read off
// some line, and each of them can be written on a line of its own.
module RecordPrinter {
  import opened Octets
  import opened Wrappers
  import opened Ast
  import opened RecordSyntax
  import opened ValueGrammar
  import CString
  import Decimal
  import Utf8

  ghost predicate WellFormedToken(token: Option<nat>) {
    token.Some? ==> token.value <= U64_MAX
  }

  ghost predicate WellFormedAsync(ar: AsyncRecord) {
    WellFormedToken(ar.token) && IsIdentifier(ar.class_) && WellFormedResults(ar.results)
  }

  ghost predicate WellFormed(r: Record) {
    match r
    case Result(rr) => WellFormedToken(rr.token) && WellFormedResults(rr.results)
    case Exec(ar) => WellFormedAsync(ar)
    case Status(ar) => WellFormedAsync(ar)
    case Notify(ar) => WellFormedAsync(ar)
    case Console(text) => Utf8.Valid(text)
    case Target(text) => Utf8.Valid(text)
    case Log(text) => Utf8.Valid(text)
  }

  function PrintToken(token: Option<nat>): (text: Bytes)
    ensures Decimal.AllDigits(text)
  {
    if token.Some? then Decimal.Text(token.value) else []
  }

  function PrintTrailing(fs: seq<Field>): Bytes {
    if fs == [] then [] else [','] + (fs[0].name + ['='] + Print(fs[0].value)) + PrintTrailing(fs[1..])
  }

  function PrintAsync(prefix: Byte, ar: AsyncRecord): Bytes {
    PrintToken(ar.token) + ([prefix] + (ar.class_ + PrintTrailing(ar.results)))
  }

  function PrintRecord(r: Record): Bytes {
    match r
    case Result(rr) => PrintToken(rr.token) + (['^'] + (ClassName(rr.class_) + PrintTrailing(rr.results)))
    case Exec(ar) => PrintAsync('*', ar)
    case Status(ar) => PrintAsync('+', ar)
    case Notify(ar) => PrintAsync('=', ar)
    case Console(text) => ['~'] + CString.Encode(text)
    case Target(text) => ['@'] + CString.Encode(text)
    case Log(text) => ['&'] + CString.Encode(text)
  }

  // ---- Reading back ----

  lemma {:induction false} TrailingHasTrees(fs: seq<Field>) returns (ts: seq<FieldTree>)
    requires WellFormedResults(fs)
    ensures WellFormedFields(ts) && TrailingText(ts) == PrintTrailing(fs) && FieldsMeaning(ts) == fs
  {
    if fs == [] {
      ts := [];
    } else {
      hide Print, Text, Meaning, WellFormedValue, ValueGrammar.WellFormed;
      var value := PrintHasTree(fs[0].value);
      var rest := TrailingHasTrees(fs[1..]);
      ts := [FieldTree(fs[0].name, value)] + rest;
      assert ts[1..] == rest;
    }
  }

  lemma TokenReads(token: Option<nat>)
    requires WellFormedToken(token)
    ensures RecordSyntax.WellFormedToken(PrintToken(token)) && TokenMeaning(PrintToken(token)) == token
  {
    if token.Some? {
      Decimal.ValueOfText(token.value);
    }
  }

  lemma AsyncHasTree(prefix: Byte, ar: AsyncRecord) returns (t: RecordTree)
    requires prefix in "*+=" && WellFormedAsync(ar)
    ensures WellFormedRecord(t) && RecordText(t) == PrintAsync(prefix, ar)
    ensures RecordMeaning(t) == AsyncOf(prefix, ar)
  {
    hide PrintTrailing, PrintToken, TrailingText, TokenMeaning;
    TokenReads(ar.token);
    var fs := TrailingHasTrees(ar.results);
    t := AsyncTree(PrintToken(ar.token), prefix, ar.class_, fs);
  }

  lemma StreamHasTree(channel: Byte, text: Bytes) returns (t: RecordTree)
    requires channel in "~@&" && Utf8.Valid(text)
    ensures WellFormedRecord(t) && RecordText(t) == [channel] + CString.Encode(text)
    ensures RecordMeaning(t) == StreamOf(channel, text)
  {
    CString.CanonicalAtomsSpell(text);
    t := StreamTree(channel, CString.CanonicalAtoms(text));
  }

  lemma RecordHasTree(r: Record) returns (t: RecordTree)
    requires WellFormed(r)
    ensures WellFormedRecord(t) && RecordText(t) == PrintRecord(r) && RecordMeaning(t) == r
  {
    hide PrintTrailing, PrintToken, TrailingText, TokenMeaning, CString.Encode, PrintAsync;
    hide RecordMeaning, RecordText, WellFormedRecord;
    match r
    case Result(rr) =>
      t := ResultHasTree(rr);
    case Exec(ar) => t := AsyncHasTree('*', ar);
    case Status(ar) => t := AsyncHasTree('+', ar);
    case Notify(ar) => t := AsyncHasTree('=', ar);
    case Console(text) => t := StreamHasTree('~', text);
    case Target(text) => t := StreamHasTree('@', text);
    case Log(text) => t := StreamHasTree('&', text);
  }

  lemma ResultHasTree(rr: ResultRecord) returns (t: RecordTree)
    requires WellFormed(Result(rr))
    ensures WellFormedRecord(t) && RecordText(t) == PrintRecord(Result(rr)) && RecordMeaning(t) == Result(rr)
  {
    hide PrintTrailing, PrintToken, TrailingText, TokenMeaning;
    TokenReads(rr.token);
    var fs := TrailingHasTrees(rr.results);
    t := ResultTree(PrintToken(rr.token), rr.class_, fs);
  }

  // A printed record parses back to itself.
  lemma RecordRoundTrip(r: Record)
    requires WellFormed(r)
    ensures ParseRecord(PrintRecord(r)) == Success(r)
  {
    hide *;
    var t := RecordHasTree(r);
    RecordComplete(t);
  }

  lemma DerivedIsWellFormed(t: RecordTree)
    requires WellFormedRecord(t)
    ensures WellFormed(RecordMeaning(t))
  {
    hide WellFormedResults, FieldsMeaning, CString.Decoded;
    match t
    case ResultTree(_, _, results) => FieldsMeaningIsWellFormed(results);
    case AsyncTree(_, _, _, results) => FieldsMeaningIsWellFormed(results);
    case StreamTree(_, _) =>
  }

  // The records lines are read as are exactly the well-formed ones.
  lemma ReadableIffWellFormed(r: Record)
    ensures WellFormed(r) <==> exists line: Bytes :: ParseRecord(line) == Success(r)
  {
    hide *;
    if WellFormed(r) {
      RecordRoundTrip(r);
    }
    forall line: Bytes | ParseRecord(line) == Success(r)
      ensures WellFormed(r)
    {
      var t := RecordSound(line);
      DerivedIsWellFormed(t);
    }
  }

  // ---- One line ----

  ghost predicate Clean(s: Bytes) {
    forall k | 0 <= k < |s| :: !CString.IsControl(s[k])
  }

  lemma {:induction false} PrintIsClean(v: Value)
    requires WellFormedValue(v)
    ensures Clean(Print(v))
    decreases v, 0
  {
    match v
    case Const(text) => CString.EncodingHasNoControls(text);
    case Tuple(fields) => PrintFieldsIsClean(fields);
    case List(list) =>
      match list {
        case Empty =>
        case Values(values) => PrintValuesIsClean(values);
        case Results(results) => PrintFieldsIsClean(results);
      }
  }

  lemma {:induction false} PrintFieldsIsClean(fs: seq<Field>)
    requires WellFormedResults(fs)
    ensures Clean(PrintFields(fs))
    decreases fs, 1
  {
    if fs != [] {
      PrintIsClean(fs[0].value);
      PrintFieldsIsClean(fs[1..]);
    }
  }

  lemma {:induction false} PrintValuesIsClean(vs: seq<Value>)
    requires WellFormedElements(vs)
    ensures Clean(PrintValues(vs))
    decreases vs, 1
  {
    if vs != [] {
      PrintIsClean(vs[0]);
      PrintValuesIsClean(vs[1..]);
    }
  }

  lemma {:induction false} TrailingIsClean(fs: seq<Field>)
    requires WellFormedResults(fs)
    ensures Clean(PrintTrailing(fs))
  {
    if fs != [] {
      hide Print, WellFormedValue;
      PrintIsClean(fs[0].value);
      TrailingIsClean(fs[1..]);
    }
  }

  lemma AsyncIsClean(prefix: Byte, ar: AsyncRecord)
    requires prefix in "*+=" && WellFormedAsync(ar)
    ensures Clean(PrintAsync(prefix, ar)) && PrintAsync(prefix, ar) != [] && PrintAsync(prefix, ar)[0] != '('
  {
    hide PrintTrailing, Decimal.Text;
    TrailingIsClean(ar.results);
  }

  lemma ResultIsClean(rr: ResultRecord)
    requires WellFormed(Result(rr))
    ensures Clean(PrintRecord(Result(rr))) && PrintRecord(Result(rr)) != [] && PrintRecord(Result(rr))[0] != '('
  {
    hide PrintTrailing, Decimal.Text, ClassName;
    TrailingIsClean(rr.results);
    ClassRoundTrip(rr.class_);
  }

  // A printed record holds no control byte and cannot be taken for the prompt.
  lemma RecordIsClean(r: Record)
    requires WellFormed(r)
    ensures Clean(PrintRecord(r)) && PrintRecord(r) != [] && PrintRecord(r)[0] != '('
  {
    hide PrintAsync, CString.Encode;
    match r
    case Result(rr) => ResultIsClean(rr);
    case Exec(ar) => AsyncIsClean('*', ar);
    case Status(ar) => AsyncIsClean('+', ar);
    case Notify(ar) => AsyncIsClean('=', ar);
    case Console(text) => CString.EncodingHasNoControls(text);
    case Target(text) => CString.EncodingHasNoControls(text);
    case Log(text) => CString.EncodingHasNoControls(text);
  }
}
