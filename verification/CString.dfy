// C-string literals: the decoder, its grammar, and the encoder.
//
// `Parse` says what decoding at an offset yields; `CStringParser` proves the
// loops against it. The grammar side is a list of atoms, one per spelling of
// a byte, and the main results say that decoding recognises exactly the
// spellings of the grammar and that it inverts the encoder.
module CString {
  import opened Octets
  import opened Wrappers
  import opened Ast
  import Utf8

  // ---- Decoding ----

  // The byte a single-letter escape stands for.
  function NamedEscape(c: Byte): Option<Byte> {
    if c == '"' || c == '\\' || c == '\'' || c == '?' then Some(c)
    else if c == 'a' then Some('\U{7}')
    else if c == 'b' then Some('\U{8}')
    else if c == 'f' then Some('\U{C}')
    else if c == 'n' then Some('\n')
    else if c == 'r' then Some('\r')
    else if c == 't' then Some('\t')
    else if c == 'v' then Some('\U{B}')
    else None
  }

  predicate IsOctal(b: Byte) { '0' <= b <= '7' }

  predicate IsHex(b: Byte) { IsDigit(b) || 'a' <= b <= 'f' || 'A' <= b <= 'F' }

  function HexValue(b: Byte): (n: nat)
    requires IsHex(b)
    ensures n < 16
  {
    if IsDigit(b) then b as int - '0' as int
    else if 'a' <= b <= 'f' then b as int - 'a' as int + 10
    else b as int - 'A' as int + 10
  }

  function ReadHex(s: Bytes, i: nat, escape: nat): (r: Parsed<nat>)
    ensures r.Parsed? ==> r.value < 16 && r.next == i + 1 <= |s|
  {
    if i >= |s| then Failed(CodecError(InvalidCString(TruncatedEscape), escape))
    else if IsHex(s[i]) then Parsed(HexValue(s[i]), i + 1)
    else Failed(CodecError(InvalidCString(InvalidHexDigit(s[i])), i))
  }

  // Length of the run of octal digits at i, at most `limit`.
  function OctalRun(s: Bytes, i: nat, limit: nat): (n: nat)
    ensures n <= limit && (i <= |s| ==> i + n <= |s|)
    ensures forall k | i <= k < i + n :: k < |s| && IsOctal(s[k])
    ensures n < limit && i + n < |s| ==> !IsOctal(s[i + n])
    decreases limit
  {
    if limit == 0 || i >= |s| || !IsOctal(s[i]) then 0
    else 1 + OctalRun(s, i + 1, limit - 1)
  }

  function OctalValue(digits: Bytes): nat
    requires forall k | 0 <= k < |digits| :: IsOctal(digits[k])
  {
    if digits == [] then 0
    else
      var last := digits[|digits| - 1];
      assert IsOctal(last);
      OctalValue(digits[..|digits| - 1]) * 8 + (last as int - '0' as int)
  }

  // An octal escape keeps the low eight bits of its value.
  function OctalByte(digits: Bytes): Byte
    requires forall k | 0 <= k < |digits| :: IsOctal(digits[k])
  {
    (OctalValue(digits) % 256) as char
  }

  function DecodeEscape(s: Bytes, i: nat): (r: Parsed<Byte>)
    requires i < |s| && s[i] == '\\'
    ensures r.Parsed? ==> i + 2 <= r.next <= |s|
  {
    if i + 1 == |s| then Failed(CodecError(InvalidCString(TruncatedEscape), i))
    else
      var c := s[i + 1];
      if NamedEscape(c).Some? then Parsed(NamedEscape(c).value, i + 2)
      else if c == 'x' then
        var (hi, _) :- ReadHex(s, i + 2, i);
        var (lo, next) :- ReadHex(s, i + 3, i);
        Parsed((hi * 16 + lo) as char, next)
      else if IsOctal(c) then
        var n := OctalRun(s, i + 1, 3);
        Parsed(OctalByte(s[i + 1..i + 1 + n]), i + 1 + n)
      else Failed(CodecError(InvalidCString(InvalidEscape(c)), i))
  }

  // One decoded byte of a literal's contents.
  function DecodeByte(s: Bytes, i: nat): (r: Parsed<Byte>)
    requires i < |s| && s[i] != '"'
    ensures r.Parsed? ==> i < r.next <= |s|
  {
    if s[i] == '\\' then DecodeEscape(s, i) else Parsed(s[i], i + 1)
  }

  // The decoded bytes from i up to the closing quote of the literal opened at `open`.
  function ParseBody(s: Bytes, i: nat, open: nat): (r: Parsed<Bytes>)
    requires i <= |s|
    ensures r.Parsed? ==> i < r.next <= |s|
    decreases |s| - i
  {
    if i == |s| then Failed(CodecError(InvalidCString(MissingCloseQuote), open))
    else if s[i] == '"' then Parsed([], i + 1)
    else
      var (b, next) :- DecodeByte(s, i);
      var (rest, end) :- ParseBody(s, next, open);
      Parsed([b] + rest, end)
  }

  function Parse(s: Bytes, i: nat): (r: Parsed<Bytes>)
    requires i <= |s|
    ensures r.Parsed? ==> i < r.next <= |s| && Utf8.Valid(r.value)
  {
    if i == |s| || s[i] != '"' then Failed(CodecError(InvalidCString(MissingOpenQuote), i))
    else
      var (text, next) :- ParseBody(s, i + 1, i);
      if Utf8.Valid(text) then Parsed(text, next) else Failed(CodecError(InvalidUtf8, i))
  }

  lemma {:induction false} BodyErrorInRange(s: Bytes, i: nat, open: nat)
    requires open <= i <= |s|
    ensures ParseBody(s, i, open).Failed? ==> ErrorInRange(ParseBody(s, i, open).error, |s|)
    decreases |s| - i
  {
    if i < |s| && s[i] != '"' {
      var r := DecodeByte(s, i);
      if r.Parsed? {
        BodyErrorInRange(s, r.next, open);
      }
    }
  }

  lemma ErrorInRangeAt(s: Bytes, i: nat)
    requires i < |s|
    ensures Parse(s, i).Failed? ==> ErrorInRange(Parse(s, i).error, |s|)
  {
    BodyErrorInRange(s, i + 1, i);
  }

  // ---- The tables ----

  // The single-letter escapes, and no others.
  const ESCAPES: map<Byte, Byte> := map[
    'n' := '\n', 'r' := '\r', 't' := '\t', 'a' := '\U{7}', 'b' := '\U{8}', 'v' := '\U{B}', 'f' := '\U{C}',
    '"' := '"', '\\' := '\\', '\'' := '\'', '?' := '?']

  lemma EscapeTable(c: Byte)
    ensures NamedEscape(c) == if c in ESCAPES then Some(ESCAPES[c]) else None
  {
  }

  const LOWER_HEX: Bytes := "0123456789abcdef"

  const UPPER_HEX: Bytes := "0123456789ABCDEF"

  // A hex digit of either case is worth its place among the sixteen.
  lemma HexTable(n: nat)
    requires n < 16
    ensures IsHex(LOWER_HEX[n]) && HexValue(LOWER_HEX[n]) == n
    ensures IsHex(UPPER_HEX[n]) && HexValue(UPPER_HEX[n]) == n
  {
  }

  lemma OnlyHex(b: Byte)
    ensures IsHex(b) <==> b in LOWER_HEX || b in UPPER_HEX
  {
    if IsHex(b) {
      assert LOWER_HEX[HexValue(b)] == b || UPPER_HEX[HexValue(b)] == b;
    }
  }

  lemma OnlyOctal(b: Byte)
    ensures IsOctal(b) <==> b in "01234567"
  {
    if IsOctal(b) {
      assert "01234567"[b as int - '0' as int] == b;
    }
  }

  // Three octal digits count 64, 8 and 1, and wrap past a byte.
  lemma OctalTable(a: nat, b: nat, c: nat)
    requires a < 8 && b < 8 && c < 8
    ensures
      var digits: Bytes := [(a + '0' as int) as char, (b + '0' as int) as char, (c + '0' as int) as char];
      (forall k | 0 <= k < 3 :: IsOctal(digits[k])) && OctalByte(digits) as int == (64 * a + 8 * b + c) % 256
  {
    var digits: Bytes := [(a + '0' as int) as char, (b + '0' as int) as char, (c + '0' as int) as char];
    assert digits[..2] == [digits[0], digits[1]] && digits[..2][..1] == [digits[0]] && digits[..1][..0] == [];
    assert OctalValue([digits[0]]) == a;
    assert OctalValue(digits[..2]) == 8 * a + b;
    assert OctalValue(digits) == 64 * a + 8 * b + c;
  }

  // ---- Grammar ----

  // One spelling of one byte inside a literal.
  datatype Atom =
    | Raw(b: Byte)
    | Named(letter: Byte)
    | Hex(hi: Byte, lo: Byte)
    | Octal(digits: Bytes)

  ghost predicate WellFormedAtom(a: Atom) {
    match a
    case Raw(b) => b != '"' && b != '\\'
    case Named(c) => NamedEscape(c).Some?
    case Hex(hi, lo) => IsHex(hi) && IsHex(lo)
    case Octal(ds) => 1 <= |ds| <= 3 && forall k | 0 <= k < |ds| :: IsOctal(ds[k])
  }

  ghost function AtomText(a: Atom): Bytes {
    match a
    case Raw(b) => [b]
    case Named(c) => ['\\', c]
    case Hex(hi, lo) => ['\\', 'x', hi, lo]
    case Octal(ds) => ['\\'] + ds
  }

  ghost function AtomByte(a: Atom): Byte
    requires WellFormedAtom(a)
  {
    match a
    case Raw(b) => b
    case Named(c) => NamedEscape(c).value
    case Hex(hi, lo) => (HexValue(hi) * 16 + HexValue(lo)) as char
    case Octal(ds) => OctalByte(ds)
  }

  // A short octal escape may not be followed by a raw octal digit: it would absorb it.
  ghost predicate Maximal(a: Atom, rest: seq<Atom>) {
    a.Octal? && |a.digits| < 3 && rest != [] && rest[0].Raw? ==> !IsOctal(rest[0].b)
  }

  ghost predicate WellFormedAtoms(atoms: seq<Atom>) {
    atoms == [] || (WellFormedAtom(atoms[0]) && Maximal(atoms[0], atoms[1..]) && WellFormedAtoms(atoms[1..]))
  }

  ghost function BodyText(atoms: seq<Atom>): Bytes {
    if atoms == [] then [] else AtomText(atoms[0]) + BodyText(atoms[1..])
  }

  ghost function Decoded(atoms: seq<Atom>): (bytes: Bytes)
    requires WellFormedAtoms(atoms)
    ensures |bytes| == |atoms|
  {
    if atoms == [] then [] else [AtomByte(atoms[0])] + Decoded(atoms[1..])
  }

  ghost function LiteralText(atoms: seq<Atom>): Bytes {
    ['"'] + BodyText(atoms) + ['"']
  }

  // A literal of the grammar: its escapes are well formed and it decodes to UTF-8.
  ghost predicate WellFormedLiteral(atoms: seq<Atom>) {
    WellFormedAtoms(atoms) && Utf8.Valid(Decoded(atoms))
  }

  lemma AtomDecodes(s: Bytes, i: nat, a: Atom)
    requires WellFormedAtom(a) && At(s, i, AtomText(a))
    requires a.Octal? && |a.digits| < 3 ==> i + |AtomText(a)| < |s| && !IsOctal(s[i + |AtomText(a)|])
    ensures s[i] != '"' && DecodeByte(s, i) == Parsed(AtomByte(a), i + |AtomText(a)|)
  {
    AtByte(s, i, AtomText(a), 0);
    if !a.Raw? {
      AtByte(s, i, AtomText(a), 1);
    }
    match a
    case Raw(_) =>
    case Named(_) =>
    case Hex(_, _) =>
      AtByte(s, i, AtomText(a), 2);
      AtByte(s, i, AtomText(a), 3);
    case Octal(ds) =>
      AtConcat(s, i, ['\\'], ds);
      OctalRunIs(s, i + 1, ds, 3);
  }

  lemma {:induction false} OctalRunIs(s: Bytes, i: nat, ds: Bytes, limit: nat)
    requires |ds| <= limit && At(s, i, ds)
    requires forall k | 0 <= k < |ds| :: IsOctal(ds[k])
    requires |ds| < limit ==> i + |ds| == |s| || !IsOctal(s[i + |ds|])
    ensures OctalRun(s, i, limit) == |ds|
    decreases |ds|
  {
    if ds != [] {
      AtConcat(s, i, ds[..1], ds[1..]);
      assert ds == ds[..1] + ds[1..];
      AtByte(s, i, ds, 0);
      OctalRunIs(s, i + 1, ds[1..], limit - 1);
    }
  }

  // What follows a short octal escape in a literal is no octal digit.
  lemma NotAbsorbed(a: Atom, rest: seq<Atom>)
    requires Maximal(a, rest) && a.Octal? && |a.digits| < 3
    ensures !IsOctal((BodyText(rest) + ['"'])[0])
  {
  }

  // Every spelling of the grammar decodes to its bytes, and decoding stops at its closing quote.
  lemma {:induction false} BodyComplete(s: Bytes, i: nat, atoms: seq<Atom>, open: nat)
    requires WellFormedAtoms(atoms) && At(s, i, BodyText(atoms) + ['"'])
    ensures ParseBody(s, i, open) == Parsed(Decoded(atoms), i + |BodyText(atoms)| + 1)
    decreases |atoms|
  {
    hide DecodeByte, AtomText, AtomByte;
    if atoms == [] {
      assert BodyText(atoms) + ['"'] == ['"'];
      AtByte(s, i, ['"'], 0);
    } else {
      var a, rest := atoms[0], atoms[1..];
      var text := AtomText(a);
      assert BodyText(atoms) + ['"'] == text + (BodyText(rest) + ['"']);
      AtConcat(s, i, text, BodyText(rest) + ['"']);
      AtByte(s, i + |text|, BodyText(rest) + ['"'], 0);
      if a.Octal? && |a.digits| < 3 {
        NotAbsorbed(a, rest);
      }
      AtomDecodes(s, i, a);
      BodyComplete(s, i + |text|, rest, open);
    }
  }

  lemma LiteralComplete(s: Bytes, i: nat, atoms: seq<Atom>)
    requires WellFormedLiteral(atoms) && At(s, i, LiteralText(atoms))
    ensures Parse(s, i) == Parsed(Decoded(atoms), i + |LiteralText(atoms)|)
  {
    assert LiteralText(atoms) == ['"'] + (BodyText(atoms) + ['"']);
    AtConcat(s, i, ['"'], BodyText(atoms) + ['"']);
    AtByte(s, i, ['"'], 0);
    BodyComplete(s, i + 1, atoms, i);
  }

  // The text at i spells the byte r, as the atom a, and nothing more could be absorbed.
  ghost predicate Spells(s: Bytes, i: nat, a: Atom, r: Parsed<Byte>) {
    && WellFormedAtom(a)
    && At(s, i, AtomText(a))
    && r == Parsed(AtomByte(a), i + |AtomText(a)|)
    && (a.Octal? && |a.digits| < 3 ==> i + |AtomText(a)| == |s| || !IsOctal(s[i + |AtomText(a)|]))
  }

  lemma AtomSound(s: Bytes, i: nat) returns (a: Atom)
    requires i < |s| && s[i] != '"' && DecodeByte(s, i).Parsed?
    ensures Spells(s, i, a, DecodeByte(s, i))
  {
    if s[i] != '\\' {
      a := Raw(s[i]);
    } else {
      hide Spells, NamedEscape, IsHex, OctalByte;
      if NamedEscape(s[i + 1]).Some? {
        a := NamedSound(s, i);
      } else if s[i + 1] == 'x' {
        a := HexSound(s, i);
      } else {
        a := OctalSound(s, i);
      }
    }
  }

  lemma NamedSound(s: Bytes, i: nat) returns (a: Atom)
    requires i + 1 < |s| && s[i] == '\\' && NamedEscape(s[i + 1]).Some?
    ensures Spells(s, i, a, Parsed(NamedEscape(s[i + 1]).value, i + 2))
  {
    hide NamedEscape;
    a := Named(s[i + 1]);
  }

  lemma HexSound(s: Bytes, i: nat) returns (a: Atom)
    requires i + 1 < |s| && s[i] == '\\' && s[i + 1] == 'x'
    requires ReadHex(s, i + 2, i).Parsed? && ReadHex(s, i + 3, i).Parsed?
    ensures Spells(s, i, a,
      Parsed((ReadHex(s, i + 2, i).value * 16 + ReadHex(s, i + 3, i).value) as char, i + 4))
  {
    hide HexValue;
    a := Hex(s[i + 2], s[i + 3]);
  }

  lemma OctalSound(s: Bytes, i: nat) returns (a: Atom)
    requires i + 1 < |s| && s[i] == '\\' && IsOctal(s[i + 1])
    ensures
      var n := OctalRun(s, i + 1, 3);
      Spells(s, i, a, Parsed(OctalByte(s[i + 1..i + 1 + n]), i + 1 + n))
  {
    hide OctalByte;
    var n := OctalRun(s, i + 1, 3);
    a := Octal(s[i + 1..i + 1 + n]);
    assert s[i..i + 1 + n] == ['\\'] + s[i + 1..i + 1 + n];
  }

  // Whatever decodes is a spelling of the grammar.
  lemma {:induction false} BodySound(s: Bytes, i: nat, open: nat) returns (atoms: seq<Atom>)
    requires i <= |s| && ParseBody(s, i, open).Parsed?
    ensures WellFormedAtoms(atoms) && At(s, i, BodyText(atoms) + ['"'])
    ensures ParseBody(s, i, open) == Parsed(Decoded(atoms), i + |BodyText(atoms)| + 1)
    decreases |s| - i
  {
    hide DecodeByte, AtomText, AtomByte, IsOctal;
    if s[i] == '"' {
      atoms := [];
      assert BodyText(atoms) + ['"'] == ['"'];
    } else {
      var a := AtomSound(s, i);
      var next := i + |AtomText(a)|;
      var rest := BodySound(s, next, open);
      atoms := [a] + rest;
      AtByte(s, next, BodyText(rest) + ['"'], 0);
      RawStarts(rest);
      assert atoms[1..] == rest;
      AtConcat(s, i, AtomText(a), BodyText(rest) + ['"']);
      assert BodyText(atoms) + ['"'] == AtomText(a) + (BodyText(rest) + ['"']);
    }
  }

  lemma RawStarts(atoms: seq<Atom>)
    ensures atoms != [] && atoms[0].Raw? ==> (BodyText(atoms) + ['"'])[0] == atoms[0].b
  {
  }

  lemma LiteralSound(s: Bytes, i: nat) returns (atoms: seq<Atom>)
    requires i <= |s| && Parse(s, i).Parsed?
    ensures WellFormedLiteral(atoms) && At(s, i, LiteralText(atoms))
    ensures Parse(s, i) == Parsed(Decoded(atoms), i + |LiteralText(atoms)|)
  {
    atoms := BodySound(s, i + 1, i);
    AtConcat(s, i, ['"'], BodyText(atoms) + ['"']);
    assert LiteralText(atoms) == ['"'] + (BodyText(atoms) + ['"']);
  }

  // ---- Encoding ----

  predicate IsControl(b: Byte) { b as int < 0x20 || b as int == 0x7F }

  // The lower-case hex digit of a nibble; there is none for anything larger.
  function HexNibble(n: nat): (b: Byte)
    ensures n < 16 <==> IsHex(b)
    ensures n < 16 ==> HexValue(b) == n
  {
    if n <= 9 then (n + '0' as int) as char
    else if n <= 15 then (n - 10 + 'a' as int) as char
    else '?'
  }

  // The one spelling the encoder chooses for each byte.
  function EncodeByte(b: Byte): Bytes {
    if b == '"' then "\\\""
    else if b == '\\' then "\\\\"
    else if b == '\n' then "\\n"
    else if b == '\r' then "\\r"
    else if b == '\t' then "\\t"
    else if b == '\U{7}' then "\\a"
    else if b == '\U{8}' then "\\b"
    else if b == '\U{B}' then "\\v"
    else if b == '\U{C}' then "\\f"
    else if IsControl(b) then ['\\', 'x', HexNibble(b as int / 16), HexNibble(b as int % 16)]
    else [b]
  }

  // A byte is rewritten only if it must be: a quote, a backslash or a control byte. One that has a
  // letter is written with it, and any other control byte with two hex digits.
  lemma RewrittenIff(b: Byte)
    ensures EncodeByte(b) == [b] <==> b != '"' && b != '\\' && !IsControl(b)
    ensures (exists letter :: letter in ESCAPES && ESCAPES[letter] == b && (IsControl(b) || letter == b)
                              && EncodeByte(b) == ['\\', letter])
       <==> b in ESCAPES.Values && b != '\'' && b != '?'
    ensures EncodeByte(b) != [b] ==> EncodeByte(b)[0] == '\\' && (|EncodeByte(b)| == 2 || |EncodeByte(b)| == 4)
  {
    if b in ESCAPES.Values && b != '\'' && b != '?' {
      var letter := EncodeByte(b)[1];
      assert letter in ESCAPES && ESCAPES[letter] == b && EncodeByte(b) == ['\\', letter];
    }
  }

  function EncodeBody(text: Bytes): Bytes {
    if text == [] then [] else EncodeByte(text[0]) + EncodeBody(text[1..])
  }

  function Encode(text: Bytes): Bytes {
    ['"'] + EncodeBody(text) + ['"']
  }

  // The encoder's spelling of b as an atom of the grammar.
  ghost function CanonicalAtom(b: Byte): (a: Atom)
    ensures WellFormedAtom(a) && !a.Octal?
    ensures AtomText(a) == EncodeByte(b) && AtomByte(a) == b
  {
    if b == '"' || b == '\\' then Named(b)
    else if b == '\n' then Named('n')
    else if b == '\r' then Named('r')
    else if b == '\t' then Named('t')
    else if b == '\U{7}' then Named('a')
    else if b == '\U{8}' then Named('b')
    else if b == '\U{B}' then Named('v')
    else if b == '\U{C}' then Named('f')
    else if IsControl(b) then Hex(HexNibble(b as int / 16), HexNibble(b as int % 16))
    else Raw(b)
  }

  ghost function CanonicalAtoms(text: Bytes): (atoms: seq<Atom>)
    ensures |atoms| == |text| && (text != [] ==> atoms[0] == CanonicalAtom(text[0]))
  {
    if text == [] then [] else [CanonicalAtom(text[0])] + CanonicalAtoms(text[1..])
  }

  lemma {:induction false} CanonicalAtomsSpell(text: Bytes)
    ensures WellFormedAtoms(CanonicalAtoms(text))
    ensures BodyText(CanonicalAtoms(text)) == EncodeBody(text)
    ensures Decoded(CanonicalAtoms(text)) == text
  {
    if text != [] {
      CanonicalAtomsSpell(text[1..]);
      assert CanonicalAtoms(text)[1..] == CanonicalAtoms(text[1..]);
    }
  }

  // Decoding inverts encoding, whatever follows the literal.
  lemma EncodeParses(text: Bytes, s: Bytes, i: nat)
    requires Utf8.Valid(text) && At(s, i, Encode(text))
    ensures Parse(s, i) == Parsed(text, i + |Encode(text)|)
  {
    CanonicalAtomsSpell(text);
    LiteralComplete(s, i, CanonicalAtoms(text));
  }

  lemma {:induction false} EncodingHasNoControls(text: Bytes)
    ensures forall k | 0 <= k < |Encode(text)| :: !IsControl(Encode(text)[k])
  {
    BodyHasNoControls(text);
  }

  // In numbers: nothing below a space and no DEL is ever written raw.
  lemma EncodingIsPrintable(text: Bytes)
    ensures forall k | 0 <= k < |Encode(text)| :: 0x20 <= Encode(text)[k] as int != 0x7F
  {
    EncodingHasNoControls(text);
    assert forall b: Byte :: b as int < 0x20 || b as int == 0x7F ==> IsControl(b);
    hide IsControl, Encode;
  }

  lemma {:induction false} BodyHasNoControls(text: Bytes)
    ensures forall k | 0 <= k < |EncodeBody(text)| :: !IsControl(EncodeBody(text)[k])
  {
    if text != [] {
      BodyHasNoControls(text[1..]);
    }
  }

  // Encoding keeps valid UTF-8 valid: only one-byte characters are rewritten, to ASCII.
  lemma {:induction false} BodyIsValidUtf8(text: Bytes)
    requires Utf8.Valid(text)
    ensures Utf8.Valid(EncodeBody(text))
    decreases |text|
  {
    hide EncodeByte, Utf8.CharLength;
    if text != [] {
      var n := Utf8.CharLength(text);
      var head, rest := text[..n], text[n..];
      BodyIsValidUtf8(rest);
      HeadIsValidUtf8(text, n);
      EncodeConcat(head, rest);
      assert text == head + rest;
      Utf8.ValidConcat(EncodeBody(head), EncodeBody(rest));
    }
  }

  lemma HeadIsValidUtf8(text: Bytes, n: nat)
    requires n == Utf8.CharLength(text) > 0
    ensures Utf8.Valid(EncodeBody(text[..n]))
  {
    hide Utf8.CharLength;
    var head := text[..n];
    if n == 1 {
      assert head == [text[0]] && EncodeBody(head) == EncodeByte(text[0]) + EncodeBody(head[1..]);
      Utf8.AsciiIsValid(EncodeBody(head));
    } else {
      HighBytesPass(head);
      Utf8.CharLengthPrefix(text);
      assert head[n..] == [];
      Utf8.ValidPrepend(head, n);
    }
  }

  lemma {:induction false} EncodeConcat(a: Bytes, b: Bytes)
    ensures EncodeBody(a + b) == EncodeBody(a) + EncodeBody(b)
  {
    hide EncodeByte;
    if a == [] {
      assert a + b == b;
    } else {
      EncodeConcat(a[1..], b);
      assert (a + b)[0] == a[0] && (a + b)[1..] == a[1..] + b;
      var head := EncodeByte(a[0]);
      assert head + (EncodeBody(a[1..]) + EncodeBody(b)) == (head + EncodeBody(a[1..])) + EncodeBody(b);
    }
  }

  lemma {:induction false} HighBytesPass(text: Bytes)
    requires forall k | 0 <= k < |text| :: 0x80 <= text[k] as int
    ensures EncodeBody(text) == text
  {
    if text != [] {
      HighBytesPass(text[1..]);
      assert 0x80 <= text[0] as int;
    }
  }

  lemma EncodeIsValidUtf8(text: Bytes)
    requires Utf8.Valid(text)
    ensures Utf8.Valid(Encode(text))
  {
    BodyIsValidUtf8(text);
    Utf8.AsciiIsValid(['"']);
    Utf8.ValidConcat(['"'], EncodeBody(text));
    Utf8.ValidConcat(['"'] + EncodeBody(text), ['"']);
  }
}
