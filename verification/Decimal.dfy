// Decimal digit strings and the 64-bit tokens written in them.
module Decimal {
  import opened Octets

  function DigitValue(b: Byte): (n: nat)
    requires IsDigit(b)
    ensures n <= 9
  {
    b as int - '0' as int
  }

  function Digit(n: nat): (b: Byte)
    requires n <= 9
    ensures IsDigit(b) && DigitValue(b) == n
  {
    (n + '0' as int) as char
  }

  predicate AllDigits(s: Bytes) {
    forall k | 0 <= k < |s| :: IsDigit(s[k])
  }

  // The number a digit string denotes; leading zeros are allowed.
  function Value(digits: Bytes): nat
    requires AllDigits(digits)
  {
    if digits == [] then 0
    else
      var last := |digits| - 1;
      Value(digits[..last]) * 10 + DigitValue(digits[last])
  }

  // The canonical digit string of a number.
  function Text(n: nat): (digits: Bytes)
    ensures AllDigits(digits) && digits != []
  {
    if n < 10 then [Digit(n)] else Text(n / 10) + [Digit(n % 10)]
  }

  lemma ValueSnoc(digits: Bytes, b: Byte)
    requires AllDigits(digits) && IsDigit(b)
    ensures AllDigits(digits + [b])
    ensures Value(digits + [b]) == Value(digits) * 10 + DigitValue(b)
  {
    assert (digits + [b])[..|digits|] == digits;
  }

  lemma {:induction false} ValueOfText(n: nat)
    ensures Value(Text(n)) == n
  {
    if n < 10 {
      assert Text(n)[..0] == [];
    } else {
      ValueOfText(n / 10);
      ValueSnoc(Text(n / 10), Digit(n % 10));
    }
  }

  // A digit string is worth at least any of its prefixes.
  lemma {:induction false} PrefixIsSmaller(digits: Bytes, k: nat)
    requires AllDigits(digits) && k <= |digits|
    ensures Value(digits[..k]) <= Value(digits)
    decreases |digits| - k
  {
    if k == |digits| {
      assert digits[..k] == digits;
    } else {
      assert digits[..k + 1] == digits[..k] + [digits[k]];
      ValueSnoc(digits[..k], digits[k]);
      PrefixIsSmaller(digits, k + 1);
    }
  }

  // Taking one more digit of a run multiplies and adds, and never exceeds the whole.
  lemma ValueGrows(digits: Bytes, k: nat)
    requires AllDigits(digits) && k < |digits|
    ensures Value(digits[..k + 1]) == Value(digits[..k]) * 10 + DigitValue(digits[k]) <= Value(digits)
  {
    assert digits[..k + 1] == digits[..k] + [digits[k]];
    ValueSnoc(digits[..k], digits[k]);
    PrefixIsSmaller(digits, k + 1);
  }

  function Pow10(k: nat): nat {
    if k == 0 then 1 else 10 * Pow10(k - 1)
  }

  lemma {:induction false} Pow10Grows(j: nat, k: nat)
    requires j <= k
    ensures Pow10(j) <= Pow10(k)
    decreases k - j
  {
    if j < k {
      Pow10Grows(j, k - 1);
    }
  }

  // Twenty digits hold every 64-bit number.
  lemma TwentyDigitsSuffice()
    ensures U64_MAX < Pow10(20)
  {
    assert Pow10(5) == 100_000;
    assert Pow10(10) == 10_000_000_000;
    assert Pow10(15) == 1_000_000_000_000_000;
    assert Pow10(20) == 100_000_000_000_000_000_000;
  }

  // Append the decimal digits of n, collected lowest first in a 20-byte buffer.
  method WriteU64(out: Bytes, n: nat) returns (r: Bytes)
    requires n <= U64_MAX
    ensures r == out + Text(n)
  {
    if n == 0 {
      return out + ['0'];
    }
    var buf, len := CollectDigits(n);
    r := AppendReversed(out, buf, len);
    assert [] + Reversed(buf[..len]) == Reversed(buf[..len]);
  }

  method CollectDigits(n: nat) returns (buf: array<Byte>, len: nat)
    requires n <= U64_MAX
    requires n != 0
    ensures len <= buf.Length == 20 && Collected(n, 0, buf[..len])
  {
    hide Covers, Collected, Text, Digit;
    buf := new Byte[20](_ => '\U{0}');
    len := 0;
    var left: nat := n;
    CollectNone(n);
    assert buf[..0] == [];
    while left != 0
      invariant len <= 20 && Covers(n, left, len)
      invariant Collected(n, left, buf[..len])
      decreases left
    {
      Room(n, left, len);
      CollectOne(n, left, buf[..len]);
      Shrinks(n, left, len);
      ghost var before := buf[..len];
      buf[len] := Digit(left % 10);
      len := len + 1;
      assert buf[..len] == before + [buf[len - 1]];
      left := left / 10;
    }
  }

  method AppendReversed(out: Bytes, buf: array<Byte>, len: nat) returns (r: Bytes)
    requires len <= buf.Length
    ensures r == out + Reversed(buf[..len])
  {
    r := out;
    var i := len;
    while i > 0
      invariant 0 <= i <= len
      invariant r + Reversed(buf[..i]) == out + Reversed(buf[..len])
    {
      i := i - 1;
      assert buf[..i + 1] == buf[..i] + [buf[i]];
      ReversedSnoc(buf[..i], buf[i]);
      r := r + [buf[i]];
    }
  }

  ghost function Reversed(s: Bytes): Bytes {
    if s == [] then [] else [s[|s| - 1]] + Reversed(s[..|s| - 1])
  }

  lemma ReversedSnoc(s: Bytes, b: Byte)
    ensures Reversed(s + [b]) == [b] + Reversed(s)
  {
    assert (s + [b])[..|s|] == s;
  }

  // The digits of n are those of what is left followed by those collected, reversed.
  ghost predicate Collected(n: nat, left: nat, digits: Bytes) {
    Text(n) == (if left == 0 then [] else Text(left)) + Reversed(digits)
  }

  ghost predicate Covers(n: nat, left: nat, len: nat) {
    left * Pow10(len) <= n
  }

  lemma CollectNone(n: nat)
    ensures n != 0 ==> Collected(n, n, [])
    ensures Covers(n, n, 0)
  {
  }

  lemma CollectOne(n: nat, left: nat, digits: Bytes)
    requires left != 0 && Collected(n, left, digits)
    ensures Collected(n, left / 10, digits + [Digit(left % 10)])
  {
    var digit := Digit(left % 10);
    var front: Bytes := if left / 10 == 0 then [] else Text(left / 10);
    ReversedSnoc(digits, digit);
    assert Text(left) == front + [digit];
    assert (front + [digit]) + Reversed(digits) == front + ([digit] + Reversed(digits));
  }

  lemma Room(n: nat, left: nat, len: nat)
    requires n <= U64_MAX && left != 0 && Covers(n, left, len)
    ensures len < 20
  {
    if len >= 20 {
      Pow10Grows(20, len);
      TwentyDigitsSuffice();
      AtLeast(left, Pow10(len));
    }
  }

  lemma AtLeast(a: nat, b: nat)
    requires a >= 1
    ensures b <= a * b
  {
    assert a * b == b + (a - 1) * b;
  }

  lemma Shrinks(n: nat, left: nat, len: nat)
    requires Covers(n, left, len)
    ensures Covers(n, left / 10, len + 1)
  {
    var q, p := left / 10, Pow10(len);
    assert q * (10 * p) == (10 * q) * p;
    assert (10 * q) * p <= left * p;
  }
}
