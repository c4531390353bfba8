// Bytes, byte strings and the ASCII classes the MI grammar is written in.
//
// A byte is a character below 256, so that literals can be written as
// they appear in the protocol; nothing here decodes text.
module Octets {
  type Byte = c: char | c as int < 0x100
  type Bytes = seq<Byte>

  const U64_MAX: nat := 0xFFFF_FFFF_FFFF_FFFF

  predicate IsDigit(b: Byte) { '0' <= b <= '9' }

  predicate IsLower(b: Byte) { 'a' <= b <= 'z' }

  predicate IsIdentifierByte(b: Byte) {
    IsDigit(b) || IsLower(b) || 'A' <= b <= 'Z' || b == '_' || b == '-'
  }

  // text occurs in s at offset i
  ghost predicate At(s: Bytes, i: nat, text: Bytes) {
    i + |text| <= |s| && s[i..i + |text|] == text
  }

  lemma AtConcat(s: Bytes, i: nat, a: Bytes, b: Bytes)
    ensures At(s, i, a + b) <==> At(s, i, a) && At(s, i + |a|, b)
  {
    if At(s, i, a + b) {
      assert s[i..i + |a|] == s[i..i + |a + b|][..|a|];
      assert s[i + |a|..i + |a| + |b|] == s[i..i + |a + b|][|a|..];
    }
    if At(s, i, a) && At(s, i + |a|, b) {
      assert s[i..i + |a| + |b|] == s[i..i + |a|] + s[i + |a|..i + |a| + |b|];
    }
  }

  lemma AtByte(s: Bytes, i: nat, text: Bytes, k: nat)
    requires At(s, i, text) && k < |text|
    ensures i + k < |s| && s[i + k] == text[k]
  {
    assert s[i..i + |text|][k] == s[i + k];
  }

  const UPPER: Bytes := "ABCDEFGHIJKLMNOPQRSTUVWXYZ"

  const LOWER: Bytes := "abcdefghijklmnopqrstuvwxyz"

  const DIGITS: Bytes := "0123456789"

  lemma UpperAlphabet(b: Byte)
    ensures b in UPPER <==> 'A' <= b <= 'Z'
  {
    if 'A' <= b <= 'Z' {
      assert UPPER[b as int - 'A' as int] == b;
    }
  }

  lemma LowerAlphabet(b: Byte)
    ensures b in LOWER <==> IsLower(b)
  {
    if 'a' <= b <= 'z' {
      assert LOWER[b as int - 'a' as int] == b;
    }
  }

  lemma DigitAlphabet(b: Byte)
    ensures b in DIGITS <==> IsDigit(b)
  {
    if '0' <= b <= '9' {
      assert DIGITS[b as int - '0' as int] == b;
    }
  }

  // The alphabet of names, spelt out.
  lemma IdentifierAlphabet(b: Byte)
    ensures IsIdentifierByte(b) <==> b in UPPER || b in LOWER || b in DIGITS || b == '_' || b == '-'
  {
    UpperAlphabet(b);
    LowerAlphabet(b);
    DigitAlphabet(b);
  }
}
