// The value productions of "GDB/MI Output Syntax" as concrete syntax trees.
//
// A tree records one derivation: which production was used and how every
// byte of every literal was spelled. The main results say that parsing
// accepts exactly the texts of trees and returns the value of the tree, and
// so that texts of values are prefix-free and printing is undone by parsing.
module ValueGrammar {
  import opened Octets
  import opened Wrappers
  import opened Ast
  import opened ValueSyntax
  import CString
  import Utf8

  datatype ValueTree =
    | ConstTree(atoms: seq<CString.Atom>)
    | TupleTree(fields: seq<FieldTree>)
    | EmptyListTree
    | ValuesTree(values: seq<ValueTree>)
    | ResultsTree(results: seq<FieldTree>)

  datatype FieldTree = FieldTree(name: Bytes, value: ValueTree)

  ghost predicate IsIdentifier(name: Bytes) {
    name != [] && forall k | 0 <= k < |name| :: IsIdentifierByte(name[k])
  }

  // ---- Derivations ----

  ghost predicate WellFormed(t: ValueTree)
    decreases t, 0
  {
    match t
    case ConstTree(atoms) => CString.WellFormedLiteral(atoms)
    case TupleTree(fields) => WellFormedFields(fields)
    case EmptyListTree => true
    case ValuesTree(values) => values != [] && WellFormedValues(values)
    case ResultsTree(results) => results != [] && WellFormedFields(results)
  }

  ghost predicate WellFormedField(f: FieldTree)
    decreases f, 0
  {
    IsIdentifier(f.name) && WellFormed(f.value)
  }

  ghost predicate WellFormedFields(fs: seq<FieldTree>)
    decreases fs, 1
  {
    fs == [] || (WellFormedField(fs[0]) && WellFormedFields(fs[1..]))
  }

  ghost predicate WellFormedValues(ts: seq<ValueTree>)
    decreases ts, 1
  {
    ts == [] || (WellFormed(ts[0]) && WellFormedValues(ts[1..]))
  }

  ghost function Text(t: ValueTree): (text: Bytes)
    ensures text != []
    decreases t, 0
  {
    match t
    case ConstTree(atoms) => CString.LiteralText(atoms)
    case TupleTree(fields) => ['{'] + FieldsText(fields) + ['}']
    case EmptyListTree => ['[', ']']
    case ValuesTree(values) => ['['] + ValuesText(values) + [']']
    case ResultsTree(results) => ['['] + FieldsText(results) + [']']
  }

  ghost function FieldText(f: FieldTree): (text: Bytes)
    ensures text != []
    decreases f, 0
  {
    f.name + ['='] + Text(f.value)
  }

  ghost function FieldsText(fs: seq<FieldTree>): Bytes
    decreases fs, 1
  {
    if fs == [] then []
    else FieldText(fs[0]) + (if |fs| == 1 then [] else [','] + FieldsText(fs[1..]))
  }

  ghost function ValuesText(ts: seq<ValueTree>): Bytes
    decreases ts, 1
  {
    if ts == [] then []
    else Text(ts[0]) + (if |ts| == 1 then [] else [','] + ValuesText(ts[1..]))
  }

  // The value a derivation denotes.
  ghost function Meaning(t: ValueTree): Value
    requires WellFormed(t)
    decreases t, 0
  {
    match t
    case ConstTree(atoms) => Const(CString.Decoded(atoms))
    case TupleTree(fields) => Tuple(FieldsMeaning(fields))
    case EmptyListTree => List(Empty)
    case ValuesTree(values) => List(Values(ValuesMeaning(values)))
    case ResultsTree(results) => List(Results(FieldsMeaning(results)))
  }

  ghost function FieldMeaning(f: FieldTree): Field
    requires WellFormedField(f)
    decreases f, 0
  {
    Field(f.name, Meaning(f.value))
  }

  ghost function FieldsMeaning(fs: seq<FieldTree>): seq<Field>
    requires WellFormedFields(fs)
    decreases fs, 1
  {
    if fs == [] then [] else [FieldMeaning(fs[0])] + FieldsMeaning(fs[1..])
  }

  ghost function ValuesMeaning(ts: seq<ValueTree>): seq<Value>
    requires WellFormedValues(ts)
    decreases ts, 1
  {
    if ts == [] then [] else [Meaning(ts[0])] + ValuesMeaning(ts[1..])
  }

  // ---- Completeness: every derivable text parses to its value, whatever follows ----

  lemma {:induction false} IdentifierEndIs(s: Bytes, i: nat, name: Bytes)
    requires At(s, i, name) && forall k | 0 <= k < |name| :: IsIdentifierByte(name[k])
    requires i + |name| < |s| ==> !IsIdentifierByte(s[i + |name|])
    ensures IdentifierEnd(s, i) == i + |name|
    decreases |name|
  {
    if name != [] {
      AtByte(s, i, name, 0);
      AtConcat(s, i, name[..1], name[1..]);
      assert name == name[..1] + name[1..];
      IdentifierEndIs(s, i + 1, name[1..]);
    }
  }

  lemma NameStarts(s: Bytes, i: nat, name: Bytes)
    requires IsIdentifier(name) && At(s, i, name + ['='])
    ensures LooksLikeResult(s, i) && ParseVariable(s, i) == Parsed(name, i + |name|)
    ensures i + |name| < |s| && s[i + |name|] == '='
  {
    AtConcat(s, i, name, ['=']);
    AtByte(s, i + |name|, ['='], 0);
    IdentifierEndIs(s, i, name);
  }

  lemma FirstByte(t: ValueTree)
    ensures
      Text(t)[0] == match t
      case ConstTree(_) => '"'
      case TupleTree(_) => '{'
      case _ => '['
  {
  }

  lemma ValueStarts(s: Bytes, i: nat, t: ValueTree)
    requires At(s, i, Text(t))
    ensures i < |s| && s[i] == Text(t)[0] && !LooksLikeResult(s, i)
  {
    AtByte(s, i, Text(t), 0);
    FirstByte(t);
  }

  lemma {:induction false} ValueComplete(s: Bytes, i: nat, t: ValueTree)
    requires WellFormed(t) && At(s, i, Text(t))
    ensures ParseValue(s, i) == Parsed(Meaning(t), i + |Text(t)|)
    decreases t, 0
  {
    hide ParseTuple, ParseList, ParseFields, ParseValues, CString.Parse, CString.LiteralText, LooksLikeResult;
    hide FieldsText, ValuesText, FieldsMeaning, ValuesMeaning, WellFormedFields, WellFormedValues;
    ValueStarts(s, i, t);
    FirstByte(t);
    match t
    case ConstTree(atoms) =>
      CString.LiteralComplete(s, i, atoms);
    case TupleTree(fields) =>
      Bracketed(s, i, '{', FieldsText(fields), '}');
      if fields == [] {
        NoFields();
        EmptyTuple(s, i);
      } else {
        FieldsStart(s, i + 1, fields);
        FieldsComplete(s, i + 1, fields, '}');
        FullTuple(s, i);
      }
    case EmptyListTree =>
      AtByte(s, i, ['[', ']'], 1);
      EmptyList(s, i);
    case ValuesTree(values) =>
      Bracketed(s, i, '[', ValuesText(values), ']');
      ValuesStart(s, i + 1, values);
      ValuesComplete(s, i + 1, values);
      ListOfValues(s, i, ValuesMeaning(values), i + |Text(t)|);
    case ResultsTree(results) =>
      Bracketed(s, i, '[', FieldsText(results), ']');
      FieldsStart(s, i + 1, results);
      FieldsComplete(s, i + 1, results, ']');
      ListOfResults(s, i, FieldsMeaning(results), i + |Text(t)|);
  }

  lemma Bracketed(s: Bytes, i: nat, open: Byte, text: Bytes, close: Byte)
    requires At(s, i, [open] + text + [close])
    ensures At(s, i + 1, text) && At(s, i + 1, text + [close])
    ensures i + |text| + 1 < |s| && s[i] == open && s[i + |text| + 1] == close
  {
    AtConcat(s, i, [open] + text, [close]);
    AtConcat(s, i, [open], text);
    AtConcat(s, i + 1, text, [close]);
    AtByte(s, i, [open], 0);
    AtByte(s, i + 1 + |text|, [close], 0);
  }

  lemma NoFields()
    ensures FieldsText([]) == [] && FieldsMeaning([]) == []
  {
  }

  // How a tuple and a list parse, by what stands behind the opening bracket.

  lemma EmptyTuple(s: Bytes, i: nat)
    requires i + 1 < |s| && s[i] == '{' && s[i + 1] == '}'
    ensures ParseTuple(s, i) == Parsed([], i + 2)
  {
  }

  lemma FullTuple(s: Bytes, i: nat)
    requires i + 1 < |s| && s[i] == '{' && IsIdentifierByte(s[i + 1])
    ensures ParseTuple(s, i) == ParseFields(s, i + 1, '}')
  {
  }

  lemma EmptyList(s: Bytes, i: nat)
    requires i + 1 < |s| && s[i] == '[' && s[i + 1] == ']'
    ensures ParseList(s, i) == Parsed(Empty, i + 2)
  {
  }

  lemma ListOfValues(s: Bytes, i: nat, values: seq<Value>, next: nat)
    requires i + 1 < |s| && s[i] == '[' && s[i + 1] != ']' && !LooksLikeResult(s, i + 1)
    requires ParseValues(s, i + 1) == Parsed(values, next)
    ensures ParseList(s, i) == Parsed(Values(values), next)
  {
    hide ParseValues, ParseFields, LooksLikeResult;
  }

  lemma ListOfResults(s: Bytes, i: nat, fields: seq<Field>, next: nat)
    requires i + 1 < |s| && s[i] == '[' && LooksLikeResult(s, i + 1)
    requires ParseFields(s, i + 1, ']') == Parsed(fields, next)
    ensures ParseList(s, i) == Parsed(Results(fields), next)
  {
    hide ParseValues, ParseFields;
  }

  // How a comma-separated sequence parses, by what stands behind its first item.

  lemma LastField(s: Bytes, i: nat, close: Byte, field: Field, n: nat)
    requires i <= |s| && close in "}]"
    requires ParseResult(s, i) == Parsed(field, n) && n < |s| && s[n] == close
    ensures ParseFields(s, i, close) == Parsed([field], n + 1)
  {
    hide ParseResult, LooksLikeResult;
  }

  lemma MoreFields(s: Bytes, i: nat, close: Byte, field: Field, n: nat, rest: seq<Field>, next: nat)
    requires i <= |s| && ParseResult(s, i) == Parsed(field, n) && n < |s| && s[n] == ','
    requires LooksLikeResult(s, n + 1) && ParseFields(s, n + 1, close) == Parsed(rest, next)
    ensures ParseFields(s, i, close) == Parsed([field] + rest, next)
  {
    hide ParseResult, LooksLikeResult;
  }

  lemma LastValue(s: Bytes, i: nat, value: Value, n: nat)
    requires i <= |s| && ParseValue(s, i) == Parsed(value, n) && n < |s| && s[n] == ']'
    ensures ParseValues(s, i) == Parsed([value], n + 1)
  {
    hide ParseValue, LooksLikeResult;
  }

  lemma MoreValues(s: Bytes, i: nat, value: Value, n: nat, rest: seq<Value>, next: nat)
    requires i <= |s| && ParseValue(s, i) == Parsed(value, n) && n < |s| && s[n] == ','
    requires !LooksLikeResult(s, n + 1) && ParseValues(s, n + 1) == Parsed(rest, next)
    ensures ParseValues(s, i) == Parsed([value] + rest, next)
  {
    hide ParseValue, LooksLikeResult;
  }

  lemma FieldsStart(s: Bytes, i: nat, fs: seq<FieldTree>)
    requires fs != [] && WellFormedFields(fs) && At(s, i, FieldsText(fs))
    ensures At(s, i, FieldText(fs[0]))
    ensures LooksLikeResult(s, i) && IsIdentifierByte(s[i])
  {
    var f := fs[0];
    AtConcat(s, i, FieldText(f), if |fs| == 1 then [] else [','] + FieldsText(fs[1..]));
    AtConcat(s, i, f.name + ['='], Text(f.value));
    NameStarts(s, i, f.name);
    AtConcat(s, i, f.name, ['=']);
    AtByte(s, i, f.name, 0);
  }

  lemma ValuesStart(s: Bytes, i: nat, ts: seq<ValueTree>)
    requires ts != [] && At(s, i, ValuesText(ts))
    ensures At(s, i, Text(ts[0]))
    ensures !LooksLikeResult(s, i) && s[i] in "\"{["
  {
    AtConcat(s, i, Text(ts[0]), if |ts| == 1 then [] else [','] + ValuesText(ts[1..]));
    ValueStarts(s, i, ts[0]);
    FirstByte(ts[0]);
  }

  lemma {:induction false} FieldComplete(s: Bytes, i: nat, f: FieldTree)
    requires WellFormedField(f) && At(s, i, FieldText(f))
    ensures ParseResult(s, i) == Parsed(FieldMeaning(f), i + |FieldText(f)|)
    decreases f, 0
  {
    hide Text, Meaning, WellFormed, ParseValue, IsIdentifier, LooksLikeResult;
    AtConcat(s, i, f.name + ['='], Text(f.value));
    NameStarts(s, i, f.name);
    ValueComplete(s, i + |f.name| + 1, f.value);
  }

  lemma {:induction false} FieldsComplete(s: Bytes, i: nat, fs: seq<FieldTree>, close: Byte)
    requires fs != [] && WellFormedFields(fs) && close in "}]"
    requires At(s, i, FieldsText(fs) + [close])
    ensures ParseFields(s, i, close) == Parsed(FieldsMeaning(fs), i + |FieldsText(fs)| + 1)
    decreases fs, 1
  {
    hide At, ParseResult, ParseFields, FieldText, FieldMeaning, WellFormedField, LooksLikeResult;
    var f, rest := fs[0], fs[1..];
    var n := i + |FieldText(f)|;
    if |fs| == 1 {
      assert FieldsText(fs) == FieldText(f);
      AtConcat(s, i, FieldText(f), [close]);
      AtByte(s, n, [close], 0);
      FieldComplete(s, i, f);
      assert FieldsMeaning(fs) == [FieldMeaning(f)];
      LastField(s, i, close, FieldMeaning(f), n);
    } else {
      assert FieldsText(fs) + [close] == FieldText(f) + ([','] + (FieldsText(rest) + [close]));
      AtConcat(s, i, FieldText(f), [','] + (FieldsText(rest) + [close]));
      AtConcat(s, n, [','], FieldsText(rest) + [close]);
      AtByte(s, n, [','], 0);
      AtConcat(s, n + 1, FieldsText(rest), [close]);
      FieldComplete(s, i, f);
      FieldsStart(s, n + 1, rest);
      FieldsComplete(s, n + 1, rest, close);
      MoreFields(s, i, close, FieldMeaning(f), n, FieldsMeaning(rest), i + |FieldsText(fs)| + 1);
    }
  }

  lemma {:induction false} ValuesComplete(s: Bytes, i: nat, ts: seq<ValueTree>)
    requires ts != [] && WellFormedValues(ts)
    requires At(s, i, ValuesText(ts) + [']'])
    ensures ParseValues(s, i) == Parsed(ValuesMeaning(ts), i + |ValuesText(ts)| + 1)
    decreases ts, 1
  {
    hide At, ParseValue, ParseValues, Text, Meaning, WellFormed, LooksLikeResult;
    var t, rest := ts[0], ts[1..];
    var n := i + |Text(t)|;
    if |ts| == 1 {
      assert ValuesText(ts) == Text(t);
      AtConcat(s, i, Text(t), [']']);
      AtByte(s, n, [']'], 0);
      ValueComplete(s, i, t);
      assert ValuesMeaning(ts) == [Meaning(t)];
      LastValue(s, i, Meaning(t), n);
    } else {
      assert ValuesText(ts) + [']'] == Text(t) + ([','] + (ValuesText(rest) + [']']));
      AtConcat(s, i, Text(t), [','] + (ValuesText(rest) + [']']));
      AtConcat(s, n, [','], ValuesText(rest) + [']']);
      AtByte(s, n, [','], 0);
      AtConcat(s, n + 1, ValuesText(rest), [']']);
      ValueComplete(s, i, t);
      ValuesStart(s, n + 1, rest);
      ValuesComplete(s, n + 1, rest);
      MoreValues(s, i, Meaning(t), n, ValuesMeaning(rest), i + |ValuesText(ts)| + 1);
    }
  }

  // ---- Soundness: whatever parses has a derivation with that text and value ----

  // t derives the text at i that parsed as r.
  ghost predicate Derives(s: Bytes, i: nat, t: ValueTree, r: Parsed<Value>) {
    WellFormed(t) && At(s, i, Text(t)) && r == Parsed(Meaning(t), i + |Text(t)|)
  }

  ghost predicate DerivesField(s: Bytes, i: nat, f: FieldTree, r: Parsed<Field>) {
    WellFormedField(f) && At(s, i, FieldText(f)) && r == Parsed(FieldMeaning(f), i + |FieldText(f)|)
  }

  ghost predicate DerivesFields(s: Bytes, i: nat, fs: seq<FieldTree>, close: Byte, r: Parsed<seq<Field>>) {
    && fs != [] && WellFormedFields(fs)
    && At(s, i, FieldsText(fs) + [close])
    && r == Parsed(FieldsMeaning(fs), i + |FieldsText(fs)| + 1)
  }

  ghost predicate DerivesValues(s: Bytes, i: nat, ts: seq<ValueTree>, r: Parsed<seq<Value>>) {
    && ts != [] && WellFormedValues(ts)
    && At(s, i, ValuesText(ts) + [']'])
    && r == Parsed(ValuesMeaning(ts), i + |ValuesText(ts)| + 1)
  }

  lemma {:induction false} ValueSound(s: Bytes, i: nat) returns (t: ValueTree)
    requires i <= |s| && ParseValue(s, i).Parsed?
    ensures Derives(s, i, t, ParseValue(s, i))
    decreases |s| - i, 1
  {
    if s[i] == '"' {
      var atoms := CString.LiteralSound(s, i);
      t := ConstTree(atoms);
    } else if s[i] == '{' {
      t := TupleSound(s, i);
    } else {
      t := ListSound(s, i);
    }
  }

  lemma {:induction false} TupleSound(s: Bytes, i: nat) returns (t: ValueTree)
    requires i < |s| && s[i] == '{' && ParseTuple(s, i).Parsed?
    ensures Derives(s, i, t, ParseValue(s, i))
    decreases |s| - i, 0
  {
    hide FieldsText, FieldsMeaning, WellFormedFields, ParseFields, ParseList, CString.Parse;
    var fields: seq<FieldTree> := [];
    NoFields();
    EmptyIsWellFormed();
    if i + 1 < |s| && s[i + 1] == '}' {
      assert At(s, i, ['{'] + FieldsText(fields) + ['}']);
    } else {
      fields := FieldsSound(s, i + 1, '}');
      Rebracket(s, i, '{', FieldsText(fields), '}');
    }
    t := TupleTree(fields);
  }

  lemma EmptyIsWellFormed()
    ensures WellFormedFields([])
  {
  }

  lemma {:induction false} ListSound(s: Bytes, i: nat) returns (t: ValueTree)
    requires i < |s| && s[i] == '[' && ParseList(s, i).Parsed?
    ensures Derives(s, i, t, ParseValue(s, i))
    decreases |s| - i, 0
  {
    hide FieldsText, FieldsMeaning, WellFormedFields, ParseFields, ParseTuple, CString.Parse;
    hide ValuesText, ValuesMeaning, WellFormedValues, ParseValues, LooksLikeResult;
    if i + 1 < |s| && s[i + 1] == ']' {
      t := EmptyListTree;
      assert At(s, i, ['[', ']']);
    } else if LooksLikeResult(s, i + 1) {
      var results := FieldsSound(s, i + 1, ']');
      Rebracket(s, i, '[', FieldsText(results), ']');
      t := ResultsTree(results);
    } else {
      var values := ValuesSound(s, i + 1);
      Rebracket(s, i, '[', ValuesText(values), ']');
      t := ValuesTree(values);
    }
  }

  lemma Rebracket(s: Bytes, i: nat, open: Byte, text: Bytes, close: Byte)
    requires i < |s| && s[i] == open && At(s, i + 1, text + [close])
    ensures At(s, i, [open] + text + [close])
  {
    assert [open] + text + [close] == [open] + (text + [close]);
    AtConcat(s, i, [open], text + [close]);
  }

  lemma {:induction false} FieldSound(s: Bytes, i: nat) returns (f: FieldTree)
    requires i <= |s| && ParseResult(s, i).Parsed?
    ensures DerivesField(s, i, f, ParseResult(s, i))
    decreases |s| - i, 1
  {
    hide Text, Meaning, WellFormed, ParseValue;
    var e := IdentifierEnd(s, i);
    var value := ValueSound(s, e + 1);
    f := FieldTree(s[i..e], value);
    AtConcat(s, i, f.name, ['=']);
    AtConcat(s, i, f.name + ['='], Text(value));
  }

  // Results that parse begin with one that does.
  lemma FirstField(s: Bytes, i: nat, close: Byte)
    requires i <= |s| && ParseFields(s, i, close).Parsed?
    ensures ParseResult(s, i).Parsed? && ParseResult(s, i).next < |s|
    ensures
      var n := ParseResult(s, i).next;
      var field := ParseResult(s, i).value;
      if s[n] == ',' then
        && ParseFields(s, n + 1, close).Parsed?
        && ParseFields(s, i, close)
        == Parsed([field] + ParseFields(s, n + 1, close).value, ParseFields(s, n + 1, close).next)
      else s[n] == close && ParseFields(s, i, close) == Parsed([field], n + 1)
  {
    hide ParseResult, LooksLikeResult;
  }

  lemma ConsFields(f: FieldTree, rest: seq<FieldTree>, close: Byte)
    requires WellFormedField(f) && rest != [] && WellFormedFields(rest)
    ensures WellFormedFields([f] + rest) && FieldsMeaning([f] + rest) == [FieldMeaning(f)] + FieldsMeaning(rest)
    ensures FieldsText([f] + rest) + [close] == FieldText(f) + ([','] + (FieldsText(rest) + [close]))
    ensures |FieldsText([f] + rest)| == |FieldText(f)| + 1 + |FieldsText(rest)|
  {
    hide FieldText, FieldMeaning, WellFormedField;
    assert ([f] + rest)[1..] == rest;
  }

  lemma OneField(f: FieldTree)
    requires WellFormedField(f)
    ensures WellFormedFields([f]) && FieldsMeaning([f]) == [FieldMeaning(f)] && FieldsText([f]) == FieldText(f)
  {
    hide FieldText, FieldMeaning, WellFormedField;
    assert [f][1..] == [];
    assert FieldsMeaning([f][1..]) == [];
  }

  lemma {:induction false} FieldsSound(s: Bytes, i: nat, close: Byte) returns (fs: seq<FieldTree>)
    requires i <= |s| && ParseFields(s, i, close).Parsed?
    ensures DerivesFields(s, i, fs, close, ParseFields(s, i, close))
    decreases |s| - i, 2
  {
    hide At, ParseResult, ParseFields, FieldText, FieldMeaning, WellFormedField, LooksLikeResult;
    hide FieldsText, FieldsMeaning, WellFormedFields;
    FirstField(s, i, close);
    var f := FieldSound(s, i);
    var n := i + |FieldText(f)|;
    AtOne(s, n, s[n]);
    if s[n] == ',' {
      var rest := FieldsSound(s, n + 1, close);
      fs := [f] + rest;
      ConsFields(f, rest, close);
      AtConcat(s, n, [','], FieldsText(rest) + [close]);
      AtConcat(s, i, FieldText(f), [','] + (FieldsText(rest) + [close]));
    } else {
      fs := [f];
      OneField(f);
      AtConcat(s, i, FieldText(f), [close]);
    }
  }

  // Values that parse begin with one that does.
  lemma FirstValue(s: Bytes, i: nat)
    requires i <= |s| && ParseValues(s, i).Parsed?
    ensures ParseValue(s, i).Parsed? && ParseValue(s, i).next < |s|
    ensures
      var n := ParseValue(s, i).next;
      var value := ParseValue(s, i).value;
      if s[n] == ',' then
        && ParseValues(s, n + 1).Parsed?
        && ParseValues(s, i) == Parsed([value] + ParseValues(s, n + 1).value, ParseValues(s, n + 1).next)
      else s[n] == ']' && ParseValues(s, i) == Parsed([value], n + 1)
  {
    hide ParseValue, LooksLikeResult;
  }

  lemma ConsValues(t: ValueTree, rest: seq<ValueTree>)
    requires WellFormed(t) && rest != [] && WellFormedValues(rest)
    ensures WellFormedValues([t] + rest) && ValuesMeaning([t] + rest) == [Meaning(t)] + ValuesMeaning(rest)
    ensures ValuesText([t] + rest) + [']'] == Text(t) + ([','] + (ValuesText(rest) + [']']))
    ensures |ValuesText([t] + rest)| == |Text(t)| + 1 + |ValuesText(rest)|
  {
    hide Text, Meaning, WellFormed;
    assert ([t] + rest)[1..] == rest;
  }

  lemma OneValue(t: ValueTree)
    requires WellFormed(t)
    ensures WellFormedValues([t]) && ValuesMeaning([t]) == [Meaning(t)] && ValuesText([t]) == Text(t)
  {
    hide Text, Meaning, WellFormed;
    assert [t][1..] == [];
    assert ValuesMeaning([t][1..]) == [];
  }

  lemma {:induction false} ValuesSound(s: Bytes, i: nat) returns (ts: seq<ValueTree>)
    requires i <= |s| && ParseValues(s, i).Parsed?
    ensures DerivesValues(s, i, ts, ParseValues(s, i))
    decreases |s| - i, 2
  {
    hide At, ParseValue, ParseValues, Text, Meaning, WellFormed, LooksLikeResult;
    hide ValuesText, ValuesMeaning, WellFormedValues;
    FirstValue(s, i);
    var t := ValueSound(s, i);
    var n := i + |Text(t)|;
    AtOne(s, n, s[n]);
    if s[n] == ',' {
      var rest := ValuesSound(s, n + 1);
      ts := [t] + rest;
      ConsValues(t, rest);
      AtConcat(s, n, [','], ValuesText(rest) + [']']);
      AtConcat(s, i, Text(t), [','] + (ValuesText(rest) + [']']));
    } else {
      ts := [t];
      OneValue(t);
      AtConcat(s, i, Text(t), [']']);
    }
  }

  lemma AtOne(s: Bytes, i: nat, b: Byte)
    requires i < |s| && s[i] == b
    ensures At(s, i, [b])
  {
  }

  // ---- Consequences ----

  // Two derivations of one text denote one value.
  lemma Unambiguous(t: ValueTree, u: ValueTree)
    requires WellFormed(t) && WellFormed(u) && Text(t) == Text(u)
    ensures Meaning(t) == Meaning(u)
  {
    ValueComplete(Text(t), 0, t);
    ValueComplete(Text(u), 0, u);
  }

  // No accepted value text is a proper prefix of another.
  lemma PrefixFree(a: Bytes, b: Bytes)
    requires ParseValue(a, 0).Parsed? && ParseValue(a, 0).next == |a|
    requires ParseValue(b, 0).Parsed? && ParseValue(b, 0).next == |b|
    requires a <= b
    ensures a == b
  {
    var t := ValueSound(a, 0);
    assert Text(t) == a;
    assert At(b, 0, a);
    ValueComplete(b, 0, t);
  }

  // The values the types of the AST and the grammar's alphabet allow.
  ghost predicate WellFormedValue(v: Value)
    decreases v, 0
  {
    match v
    case Const(text) => Utf8.Valid(text)
    case Tuple(fields) => WellFormedResults(fields)
    case List(list) =>
      match list
      case Empty => true
      case Values(values) => values != [] && WellFormedElements(values)
      case Results(results) => results != [] && WellFormedResults(results)
  }

  ghost predicate WellFormedResults(fs: seq<Field>)
    decreases fs, 1
  {
    fs == [] || (IsIdentifier(fs[0].name) && WellFormedValue(fs[0].value) && WellFormedResults(fs[1..]))
  }

  ghost predicate WellFormedElements(vs: seq<Value>)
    decreases vs, 1
  {
    vs == [] || (WellFormedValue(vs[0]) && WellFormedElements(vs[1..]))
  }

  // Parsing only ever returns such values.
  lemma {:induction false} MeaningIsWellFormed(t: ValueTree)
    requires WellFormed(t)
    ensures WellFormedValue(Meaning(t))
    decreases t, 0
  {
    match t
    case ConstTree(_) =>
    case TupleTree(fields) => FieldsMeaningIsWellFormed(fields);
    case EmptyListTree =>
    case ValuesTree(values) => ValuesMeaningIsWellFormed(values);
    case ResultsTree(results) => FieldsMeaningIsWellFormed(results);
  }

  lemma {:induction false} FieldsMeaningIsWellFormed(fs: seq<FieldTree>)
    requires WellFormedFields(fs)
    ensures WellFormedResults(FieldsMeaning(fs)) && |FieldsMeaning(fs)| == |fs|
    decreases fs, 1
  {
    if fs != [] {
      MeaningIsWellFormed(fs[0].value);
      FieldsMeaningIsWellFormed(fs[1..]);
      assert FieldsMeaning(fs)[1..] == FieldsMeaning(fs[1..]);
    }
  }

  lemma {:induction false} ValuesMeaningIsWellFormed(ts: seq<ValueTree>)
    requires WellFormedValues(ts)
    ensures WellFormedElements(ValuesMeaning(ts)) && |ValuesMeaning(ts)| == |ts|
    decreases ts, 1
  {
    if ts != [] {
      MeaningIsWellFormed(ts[0]);
      ValuesMeaningIsWellFormed(ts[1..]);
      assert ValuesMeaning(ts)[1..] == ValuesMeaning(ts[1..]);
    }
  }

  // ---- Printing ----

  // The grammar's printer over the c-string encoder.
  function Print(v: Value): Bytes
    decreases v, 0
  {
    match v
    case Const(text) => CString.Encode(text)
    case Tuple(fields) => ['{'] + PrintFields(fields) + ['}']
    case List(list) =>
      match list
      case Empty => ['[', ']']
      case Values(values) => ['['] + PrintValues(values) + [']']
      case Results(results) => ['['] + PrintFields(results) + [']']
  }

  function PrintFields(fs: seq<Field>): Bytes
    decreases fs, 1
  {
    if fs == [] then []
    else fs[0].name + ['='] + Print(fs[0].value) + (if |fs| == 1 then [] else [','] + PrintFields(fs[1..]))
  }

  function PrintValues(vs: seq<Value>): Bytes
    decreases vs, 1
  {
    if vs == [] then []
    else Print(vs[0]) + (if |vs| == 1 then [] else [','] + PrintValues(vs[1..]))
  }

  lemma {:induction false} PrintHasTree(v: Value) returns (t: ValueTree)
    requires WellFormedValue(v)
    ensures WellFormed(t) && Text(t) == Print(v) && Meaning(t) == v
    decreases v, 0
  {
    match v
    case Const(text) =>
      CString.CanonicalAtomsSpell(text);
      t := ConstTree(CString.CanonicalAtoms(text));
    case Tuple(fields) =>
      var trees := PrintFieldsHaveTrees(fields);
      t := TupleTree(trees);
    case List(list) =>
      match list {
        case Empty =>
          t := EmptyListTree;
        case Values(values) =>
          var trees := PrintValuesHaveTrees(values);
          t := ValuesTree(trees);
        case Results(results) =>
          var trees := PrintFieldsHaveTrees(results);
          t := ResultsTree(trees);
      }
  }

  lemma {:induction false} PrintFieldsHaveTrees(fs: seq<Field>) returns (ts: seq<FieldTree>)
    requires WellFormedResults(fs)
    ensures WellFormedFields(ts) && |ts| == |fs|
    ensures FieldsText(ts) == PrintFields(fs) && FieldsMeaning(ts) == fs
    decreases fs, 1
  {
    if fs == [] {
      ts := [];
    } else {
      hide Print, Text, Meaning, WellFormedValue, WellFormed;
      var value := PrintHasTree(fs[0].value);
      var rest := PrintFieldsHaveTrees(fs[1..]);
      ts := [FieldTree(fs[0].name, value)] + rest;
      assert ts[1..] == rest;
    }
  }

  lemma {:induction false} PrintValuesHaveTrees(vs: seq<Value>) returns (ts: seq<ValueTree>)
    requires WellFormedElements(vs)
    ensures WellFormedValues(ts) && |ts| == |vs|
    ensures ValuesText(ts) == PrintValues(vs) && ValuesMeaning(ts) == vs
    decreases vs, 1
  {
    if vs == [] {
      ts := [];
    } else {
      hide Print, Text, Meaning, WellFormedValue, WellFormed;
      var value := PrintHasTree(vs[0]);
      var rest := PrintValuesHaveTrees(vs[1..]);
      ts := [value] + rest;
      assert ts[1..] == rest;
    }
  }

  // A printed value parses back to itself, stopping where it ends, whatever follows.
  lemma PrintParses(v: Value, s: Bytes, i: nat)
    requires WellFormedValue(v) && At(s, i, Print(v))
    ensures ParseValue(s, i) == Parsed(v, i + |Print(v)|)
  {
    var t := PrintHasTree(v);
    ValueComplete(s, i, t);
  }
}
