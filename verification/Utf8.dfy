// UTF-8 validity as the grammar of section 4 of RFC 3629 defines it.
module Utf8 {
  import opened Octets

  predicate Tail(b: Byte) { 0x80 <= b as int <= 0xBF }

  // Number of bytes of the UTF-8 character s starts with; 0 when there is none.
  function CharLength(s: Bytes): (n: nat)
    ensures n <= |s|
    ensures n > 1 ==> forall k | 0 <= k < n :: 0x80 <= s[k] as int
    ensures n == 1 ==> s[0] as int < 0x80
  {
    if |s| == 0 then 0
    else
      var b := s[0] as int;
      if b <= 0x7F then 1
      else if 0xC2 <= b <= 0xDF && |s| >= 2 && Tail(s[1]) then 2
      else if |s| >= 3 && Tail(s[2]) && ThreeByteLead(b, s[1] as int) then 3
      else if |s| >= 4 && Tail(s[2]) && Tail(s[3]) && FourByteLead(b, s[1] as int) then 4
      else 0
  }

  predicate ThreeByteLead(b: int, c: int) {
    || (b == 0xE0 && 0xA0 <= c <= 0xBF)
    || (0xE1 <= b <= 0xEC && 0x80 <= c <= 0xBF)
    || (b == 0xED && 0x80 <= c <= 0x9F)
    || (0xEE <= b <= 0xEF && 0x80 <= c <= 0xBF)
  }

  predicate FourByteLead(b: int, c: int) {
    || (b == 0xF0 && 0x90 <= c <= 0xBF)
    || (0xF1 <= b <= 0xF3 && 0x80 <= c <= 0xBF)
    || (b == 0xF4 && 0x80 <= c <= 0x8F)
  }

  predicate Valid(s: Bytes) {
    s == [] || (CharLength(s) > 0 && Valid(s[CharLength(s)..]))
  }

  lemma ValidPrepend(s: Bytes, n: nat)
    requires 0 < n <= |s| && CharLength(s) == n && Valid(s[n..])
    ensures Valid(s)
  {
  }

  lemma {:induction false} ValidConcat(s: Bytes, t: Bytes)
    requires Valid(s) && Valid(t)
    ensures Valid(s + t)
    decreases |s|
  {
    if s == [] {
      assert s + t == t;
    } else {
      var n := CharLength(s);
      ConcatStep(s, t, n);
      ValidConcat(s[n..], t);
      ValidPrepend(s + t, n);
    }
  }

  lemma ConcatStep(s: Bytes, t: Bytes, n: nat)
    requires 0 < n <= |s| && CharLength(s) == n
    ensures CharLength(s + t) == n && (s + t)[n..] == s[n..] + t
  {
  }

  lemma CharLengthPrefix(s: Bytes)
    ensures CharLength(s[..CharLength(s)]) == CharLength(s)
  {
  }

  lemma {:induction false} AsciiIsValid(s: Bytes)
    requires forall k | 0 <= k < |s| :: s[k] as int < 0x80
    ensures Valid(s)
  {
    if s != [] {
      AsciiIsValid(s[1..]);
    }
  }
}
