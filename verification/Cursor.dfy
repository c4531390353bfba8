// The byte cursor every recursive-descent method of the parser advances.
module Cursors {
  import opened Octets
  import opened Wrappers
  import opened Ast

  class Cursor {
    const input: Bytes
    var pos: nat

    ghost predicate Valid()
      reads this
    {
      pos <= |input|
    }

    constructor (input: Bytes)
      ensures Valid() && this.input == input && pos == 0
    {
      this.input := input;
      pos := 0;
    }

    predicate AtEnd()
      reads this
    {
      pos >= |input|
    }

    function PeekAt(offset: nat): Option<Byte>
      reads this
    {
      if pos + offset < |input| then Some(input[pos + offset]) else None
    }

    function Peek(): Option<Byte>
      reads this
    {
      PeekAt(0)
    }

    // The byte moved over; at the end of the input there is none, and the cursor stays.
    method Advance() returns (b: Option<Byte>)
      requires Valid()
      modifies this
      ensures Valid()
      ensures old(pos) < |input| ==> b == Some(input[old(pos)]) && pos == old(pos) + 1
      ensures old(pos) == |input| ==> b == None && pos == old(pos)
    {
      b := Peek();
      if b.Some? {
        pos := pos + 1;
      }
    }

    method ExpectByte(expected: Byte) returns (r: Result<(), CodecError>)
      requires Valid()
      modifies this
      ensures Valid() && Agrees(this, r, Expect(input, old(pos), expected))
    {
      match Peek()
      case Some(b) =>
        if b == expected {
          pos := pos + 1;
          return Success(());
        }
        return Failure(CodecError(UnexpectedByte(ExpectedByte(expected), b), pos));
      case None =>
        return Failure(CodecError(UnexpectedEnd, pos));
    }
  }

  function Expect(s: Bytes, i: nat, expected: Byte): (r: Parsed<()>)
    requires i <= |s|
    ensures r.Parsed? <==> At(s, i, [expected])
    ensures r.Parsed? ==> r.next == i + 1
    ensures r.Failed? ==> ErrorInRange(r.error, |s|) && r.error.offset == i
  {
    if i == |s| then Failed(CodecError(UnexpectedEnd, i))
    else if s[i] == expected then Parsed((), i + 1)
    else Failed(CodecError(UnexpectedByte(ExpectedByte(expected), s[i]), i))
  }

  // A method's result and the cursor it leaves match what parsing at an offset yields.
  ghost predicate Agrees<T>(cursor: Cursor, r: Result<T, CodecError>, p: Parsed<T>)
    reads cursor
  {
    match p
    case Parsed(value, next) => r == Success(value) && cursor.pos == next
    case Failed(error) => r == Failure(error)
  }

  // What a loop has collected so far in front of what is left to parse.
  ghost function Prepended<T>(out: seq<T>, rest: Parsed<seq<T>>): Parsed<seq<T>> {
    match rest
    case Parsed(tail, next) => Parsed(out + tail, next)
    case Failed(error) => Failed(error)
  }

  lemma PrependNone<T>(rest: Parsed<seq<T>>)
    ensures Prepended([], rest) == rest
  {
    if rest.Parsed? {
      assert [] + rest.value == rest.value;
    }
  }

  lemma PrependOne<T>(out: seq<T>, item: T, rest: Parsed<seq<T>>)
    ensures Prepended(out, Prepended([item], rest)) == Prepended(out + [item], rest)
  {
    if rest.Parsed? {
      assert out + ([item] + rest.value) == (out + [item]) + rest.value;
    }
  }
}
