// UTF-8 validity against the characters it encodes.
//
// Section 3 of RFC 3629 writes each Unicode scalar value in one to four
// bytes; valid text is what a sequence of scalar values is written as.
module Utf8Scalars {
  import opened Octets
  import Utf8

  predicate IsScalar(c: nat) {
    c <= 0x10FFFF && !(0xD800 <= c <= 0xDFFF)
  }

  function Encode(c: nat): (bytes: Bytes)
    requires IsScalar(c)
    ensures 1 <= |bytes| <= 4
  {
    if c < 0x80 then [c as char]
    else if c < 0x800 then [(0xC0 + c / 64) as char, (0x80 + c % 64) as char]
    else if c < 0x1_0000 then
      [(0xE0 + c / 4096) as char, (0x80 + c / 64 % 64) as char, (0x80 + c % 64) as char]
    else
      [(0xF0 + c / 262144) as char, (0x80 + c / 4096 % 64) as char, (0x80 + c / 64 % 64) as char,
       (0x80 + c % 64) as char]
  }

  ghost predicate AreScalars(cs: seq<nat>) {
    forall k | 0 <= k < |cs| :: IsScalar(cs[k])
  }

  function EncodeAll(cs: seq<nat>): Bytes
    requires forall k | 0 <= k < |cs| :: IsScalar(cs[k])
  {
    if cs == [] then [] else Encode(cs[0]) + EncodeAll(cs[1..])
  }

  // A scalar value is written as one character, whatever follows.
  lemma EncodeIsChar(c: nat, rest: Bytes)
    requires IsScalar(c)
    ensures Utf8.CharLength(Encode(c) + rest) == |Encode(c)|
  {
    var s := Encode(c) + rest;
    var b := Encode(c);
    assert forall k | 0 <= k < |b| :: s[k] == b[k];
    if c < 0x80 {
    } else if c < 0x800 {
      TwoBytes(c);
    } else if c < 0x1_0000 {
      ThreeBytes(c);
    } else {
      FourBytes(c);
    }
  }

  lemma TwoBytes(c: nat)
    requires 0x80 <= c < 0x800
    ensures 0xC2 <= 0xC0 + c / 64 <= 0xDF
  {
  }

  lemma ThreeBytes(c: nat)
    requires 0x800 <= c < 0x1_0000 && IsScalar(c)
    ensures Utf8.ThreeByteLead(0xE0 + c / 4096, 0x80 + c / 64 % 64)
  {
    assert c / 4096 == c / 64 / 64;
  }

  lemma FourBytes(c: nat)
    requires 0x1_0000 <= c <= 0x10FFFF
    ensures Utf8.FourByteLead(0xF0 + c / 262144, 0x80 + c / 4096 % 64)
  {
    assert c / 262144 == c / 4096 / 64;
  }

  // The scalar value of the character s starts with.
  function Decode(s: Bytes): (c: nat)
    requires Utf8.CharLength(s) > 0
    ensures IsScalar(c)
  {
    var n, b := Utf8.CharLength(s), s[0] as int;
    if n == 1 then b
    else if n == 2 then (b - 0xC0) * 64 + (s[1] as int - 0x80)
    else if n == 3 then Three(b - 0xE0, s[1] as int - 0x80, s[2] as int - 0x80)
    else Four(b - 0xF0, s[1] as int - 0x80, s[2] as int - 0x80, s[3] as int - 0x80)
  }

  lemma DecodeInverts(s: Bytes)
    requires Utf8.CharLength(s) > 0
    ensures Encode(Decode(s)) == s[..Utf8.CharLength(s)]
  {
    var n := Utf8.CharLength(s);
    if n == 1 {
      assert s[..1] == [s[0]];
    } else if n == 2 {
      assert s[..2] == [s[0], s[1]];
    } else if n == 3 {
      assert s[..3] == [s[0], s[1], s[2]];
    } else {
      assert s[..4] == [s[0], s[1], s[2], s[3]];
    }
  }

  lemma Peel(m: nat, z: nat)
    requires z < 64
    ensures (m * 64 + z) / 64 == m && (m * 64 + z) % 64 == z
  {
  }

  lemma DivideTwice(c: nat)
    ensures c / 4096 == c / 64 / 64 && c / 262144 == c / 64 / 64 / 64
  {
  }

  function Three(x: nat, y: nat, z: nat): (c: nat)
    requires x < 16 && y < 64 && z < 64 && Utf8.ThreeByteLead(0xE0 + x, 0x80 + y)
    ensures 0x800 <= c < 0x1_0000 && IsScalar(c)
    ensures c / 4096 == x && c / 64 % 64 == y && c % 64 == z
  {
    Peel(x, y);
    Peel(x * 64 + y, z);
    DivideTwice((x * 64 + y) * 64 + z);
    (x * 64 + y) * 64 + z
  }

  function Four(w: nat, x: nat, y: nat, z: nat): (c: nat)
    requires w < 5 && x < 64 && y < 64 && z < 64 && Utf8.FourByteLead(0xF0 + w, 0x80 + x)
    ensures 0x1_0000 <= c <= 0x10FFFF
    ensures c / 262144 == w && c / 4096 % 64 == x && c / 64 % 64 == y && c % 64 == z
  {
    var hi := w * 64 + x;
    Peel(w, x);
    Peel(hi, y);
    Peel(hi * 64 + y, z);
    DivideTwice((hi * 64 + y) * 64 + z);
    (hi * 64 + y) * 64 + z
  }

  lemma {:induction false} EncodedIsValid(cs: seq<nat>)
    requires AreScalars(cs)
    ensures Utf8.Valid(EncodeAll(cs))
  {
    if cs != [] {
      var head, rest := Encode(cs[0]), EncodeAll(cs[1..]);
      EncodedIsValid(cs[1..]);
      EncodeIsChar(cs[0], rest);
      assert (head + rest)[|head|..] == rest;
    }
  }

  lemma {:induction false} ValidIsEncoded(s: Bytes) returns (cs: seq<nat>)
    requires Utf8.Valid(s)
    ensures AreScalars(cs) && EncodeAll(cs) == s
    decreases |s|
  {
    if s == [] {
      cs := [];
    } else {
      var n := Utf8.CharLength(s);
      var rest := ValidIsEncoded(s[n..]);
      DecodeInverts(s);
      hide Encode, Decode, Utf8.CharLength, IsScalar;
      cs := [Decode(s)] + rest;
      assert cs[1..] == rest;
      assert s == s[..n] + s[n..];
    }
  }

  // Text is valid exactly when it is what some sequence of scalar values is written as.
  lemma ValidIffEncoded(s: Bytes)
    ensures Utf8.Valid(s) <==> exists cs: seq<nat> :: AreScalars(cs) && EncodeAll(cs) == s
  {
    if Utf8.Valid(s) {
      var cs := ValidIsEncoded(s);
    }
    forall cs: seq<nat> | AreScalars(cs) && EncodeAll(cs) == s
      ensures Utf8.Valid(s)
    {
      EncodedIsValid(cs);
    }
  }
}
