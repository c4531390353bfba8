// Byte-to-line reassembly over a lazily compacted buffer.
//
// The specification is the pure split of a byte stream at its newlines. The
// framer keeps, in ghost fields, everything it has received and yielded, so
// its invariant speaks about whole runs of pushes and pops.
module Framing {
  import opened Octets
  import opened Wrappers

  datatype Frame = Line(bytes: Bytes) | GroupTerminator

  // ---- Splitting a stream at its newlines ----

  // Length of the part of s before its first newline.
  function LineLength(s: Bytes): (k: nat)
    ensures k <= |s| && '\n' !in s[..k]
    ensures k < |s| ==> s[k] == '\n'
  {
    if s == [] || s[0] == '\n' then 0
    else
      var k := LineLength(s[1..]);
      assert s[..k + 1] == [s[0]] + s[1..][..k];
      k + 1
  }

  // "(gdb)" followed by spaces and tabs only.
  predicate IsGroupTerminator(line: Bytes) {
    "(gdb)" <= line && forall k | 5 <= k < |line| :: line[k] == ' ' || line[k] == '\t'
  }

  // One carriage return before the newline belongs to the terminator.
  function StripReturn(line: Bytes): Bytes {
    if line != [] && line[|line| - 1] == '\r' then line[..|line| - 1] else line
  }

  function FrameOf(line: Bytes): Frame {
    if IsGroupTerminator(StripReturn(line)) then GroupTerminator else Line(StripReturn(line))
  }

  // The complete lines of a stream, without their newlines.
  function Lines(s: Bytes): seq<Bytes>
    decreases |s|
  {
    var k := LineLength(s);
    if k == |s| then [] else [s[..k]] + Lines(s[k + 1..])
  }

  // What follows the last newline.
  function Rest(s: Bytes): Bytes
    decreases |s|
  {
    var k := LineLength(s);
    if k == |s| then s else Rest(s[k + 1..])
  }

  function FramesOf(lines: seq<Bytes>): (frames: seq<Frame>)
    ensures |frames| == |lines|
    ensures forall k | 0 <= k < |lines| :: frames[k] == FrameOf(lines[k])
  {
    seq(|lines|, k requires 0 <= k < |lines| => FrameOf(lines[k]))
  }

  function Frames(s: Bytes): seq<Frame> {
    FramesOf(Lines(s))
  }

  ghost function Unlines(lines: seq<Bytes>): Bytes {
    if lines == [] then [] else (lines[0] + ['\n']) + Unlines(lines[1..])
  }

  function Newlines(s: Bytes): nat {
    if s == [] then 0 else (if s[0] == '\n' then 1 else 0) + Newlines(s[1..])
  }

  lemma {:induction false} LineLengthIs(s: Bytes, k: nat)
    requires k <= |s| && '\n' !in s[..k] && (k < |s| ==> s[k] == '\n')
    ensures LineLength(s) == k
  {
    if s != [] && s[0] != '\n' {
      assert s[1..][..k - 1] == s[..k][1..];
      LineLengthIs(s[1..], k - 1);
    }
  }

  lemma Assoc(a: Bytes, b: Bytes, c: Bytes)
    ensures a + (b + c) == (a + b) + c
  {
  }

  lemma CutFirst(line: Bytes, tail: Bytes)
    requires '\n' !in line
    ensures
      var s := (line + ['\n']) + tail;
      Lines(s) == [line] + Lines(tail) && Rest(s) == Rest(tail)
  {
    var s := (line + ['\n']) + tail;
    assert s[..|line|] == line && s[|line| + 1..] == tail;
    LineLengthIs(s, |line|);
  }

  lemma CutNothing(s: Bytes)
    requires '\n' !in s
    ensures Lines(s) == [] && Rest(s) == s
  {
    assert s[..|s|] == s;
    LineLengthIs(s, |s|);
  }

  // The split loses nothing, and it is the only way to cut the stream into lines.
  lemma {:induction false} SplitIsExact(s: Bytes)
    ensures Unlines(Lines(s)) + Rest(s) == s
    ensures '\n' !in Rest(s) && forall line | line in Lines(s) :: '\n' !in line
    decreases |s|
  {
    hide Lines, Rest, Unlines;
    var k := LineLength(s);
    if k == |s| {
      assert s[..k] == s;
      CutNothing(s);
      UnlinesNone();
    } else {
      var line, tail := s[..k], s[k + 1..];
      Recompose(s, k);
      CutFirst(line, tail);
      SplitIsExact(tail);
      UnlinesOne(line, Lines(tail));
      Assoc(line + ['\n'], Unlines(Lines(tail)), Rest(tail));
    }
  }

  lemma UnlinesNone()
    ensures Unlines([]) == []
  {
  }

  lemma UnlinesOne(line: Bytes, more: seq<Bytes>)
    ensures Unlines([line] + more) == (line + ['\n']) + Unlines(more)
  {
    assert ([line] + more)[1..] == more;
  }

  lemma {:induction false} SplitIsUnique(lines: seq<Bytes>, rest: Bytes)
    requires '\n' !in rest && forall line | line in lines :: '\n' !in line
    ensures Lines(Unlines(lines) + rest) == lines && Rest(Unlines(lines) + rest) == rest
  {
    hide Lines, Rest;
    if lines == [] {
      assert [] + rest == rest;
      CutNothing(rest);
    } else {
      var line, more := lines[0], lines[1..];
      SplitIsUnique(more, rest);
      Assoc(line + ['\n'], Unlines(more), rest);
      CutFirst(line, Unlines(more) + rest);
      assert lines == [line] + more;
    }
  }

  lemma {:induction false} UnlinesConcat(a: seq<Bytes>, b: seq<Bytes>)
    ensures Unlines(a + b) == Unlines(a) + Unlines(b)
  {
    hide Unlines;
    if a == [] {
      assert a + b == b;
      UnlinesNone();
      assert [] + Unlines(b) == Unlines(b);
    } else {
      var more := a[1..];
      UnlinesConcat(more, b);
      assert a == [a[0]] + more && a + b == [a[0]] + (more + b);
      UnlinesOne(a[0], more);
      UnlinesOne(a[0], more + b);
      Assoc(a[0] + ['\n'], Unlines(more), Unlines(b));
    }
  }

  // Chunking: splitting a stream in two pieces and carrying the rest over is splitting it whole.
  lemma SplitConcat(a: Bytes, b: Bytes)
    ensures Lines(a + b) == Lines(a) + Lines(Rest(a) + b)
    ensures Rest(a + b) == Rest(Rest(a) + b)
    ensures Frames(a + b) == Frames(a) + Frames(Rest(a) + b)
  {
    hide Lines, Rest, Unlines;
    var carried := Rest(a) + b;
    SplitIsExact(a);
    SplitIsExact(carried);
    var first, more := Lines(a), Lines(carried);
    UnlinesConcat(first, more);
    Assoc(Unlines(first), Rest(a), b);
    Assoc(Unlines(first), Unlines(more), Rest(carried));
    SplitIsUnique(first + more, Rest(carried));
    FramesConcat(first, more);
  }

  lemma FramesConcat(a: seq<Bytes>, b: seq<Bytes>)
    ensures FramesOf(a + b) == FramesOf(a) + FramesOf(b)
  {
    hide FrameOf;
  }

  // There is one line per newline.
  lemma {:induction false} LineCount(s: Bytes)
    ensures |Lines(s)| == Newlines(s)
    decreases |s|
  {
    var k := LineLength(s);
    NewlinesConcat(s[..k], s[k..]);
    assert s == s[..k] + s[k..];
    NoNewlines(s[..k]);
    if k < |s| {
      LineCount(s[k + 1..]);
      assert s[k..][1..] == s[k + 1..];
    }
  }

  lemma {:induction false} NewlinesConcat(a: Bytes, b: Bytes)
    ensures Newlines(a + b) == Newlines(a) + Newlines(b)
  {
    if a == [] {
      assert a + b == b;
    } else {
      NewlinesConcat(a[1..], b);
      assert (a + b)[1..] == a[1..] + b;
    }
  }

  lemma {:induction false} NoNewlines(s: Bytes)
    requires '\n' !in s
    ensures Newlines(s) == 0
  {
    if s != [] {
      NoNewlines(s[1..]);
    }
  }

  // A stream, the frames already taken from it and the bytes left over stay in step when bytes arrive...
  lemma PushKeepsSplit(received: Bytes, yielded: seq<Frame>, live: Bytes, bytes: Bytes)
    requires Frames(received) == yielded + Frames(live) && Rest(received) == Rest(live)
    ensures Frames(received + bytes) == yielded + Frames(live + bytes)
    ensures Rest(received + bytes) == Rest(live + bytes)
  {
    hide Frames, Rest;
    SplitConcat(received, bytes);
    SplitConcat(live, bytes);
    var more := Frames(Rest(live) + bytes);
    assert (yielded + Frames(live)) + more == yielded + (Frames(live) + more);
  }

  // ... and when a line is taken.
  lemma PopKeepsSplit(live: Bytes)
    requires LineLength(live) < |live|
    ensures
      var k := LineLength(live);
      && Frames(live) == [FrameOf(live[..k])] + Frames(live[k + 1..])
      && Rest(live) == Rest(live[k + 1..])
  {
    var k := LineLength(live);
    hide Lines, Rest, LineLength, FrameOf, FramesOf;
    var line, tail := live[..k], live[k + 1..];
    Recompose(live, k);
    CutFirst(line, tail);
    FramesConcat([line], Lines(tail));
    FramesOne(line);
  }

  lemma Recompose(s: Bytes, k: nat)
    requires k < |s| && s[k] == '\n'
    ensures (s[..k] + ['\n']) + s[k + 1..] == s
  {
  }

  lemma FramesOne(line: Bytes)
    ensures FramesOf([line]) == [FrameOf(line)]
  {
    hide FrameOf;
  }

  lemma StripSlice(buf: Bytes, start: nat, end: nat)
    requires start <= end <= |buf|
    ensures StripReturn(buf[start..end])
         == buf[start..if end > start && buf[end - 1] == '\r' then end - 1 else end]
  {
    var line := buf[start..end];
    if end > start {
      assert line[|line| - 1] == buf[end - 1];
      assert line[..|line| - 1] == buf[start..end - 1];
    }
  }

  // Stripping before testing for the prompt is what makes a frame.
  lemma FrameIs(buf: Bytes, start: nat, end: nat)
    requires start <= end <= |buf|
    ensures
      var line := buf[start..if end > start && buf[end - 1] == '\r' then end - 1 else end];
      FrameOf(buf[start..end]) == if IsGroupTerminator(line) then GroupTerminator else Line(line)
  {
    hide StripReturn, IsGroupTerminator;
    StripSlice(buf, start, end);
  }

  lemma LineEnds(s: Bytes)
    ensures LineLength(s) == |s| <==> '\n' !in s
    ensures LineLength(s) < |s| ==> s[LineLength(s)] == '\n'
  {
    assert LineLength(s) == |s| ==> s[..LineLength(s)] == s;
  }

  ghost predicate Blanks(s: Bytes) {
    forall k | 0 <= k < |s| :: s[k] == ' ' || s[k] == '\t'
  }

  // The prompt is "(gdb)" with nothing but spaces and tabs behind it; any other line is passed on,
  // short of one carriage return at its end.
  lemma FrameOfIff(line: Bytes)
    ensures FrameOf(line) == GroupTerminator
       <==> exists blanks: Bytes ::
              Blanks(blanks) && (line == "(gdb)" + blanks || line == ("(gdb)" + blanks) + ['\r'])
    ensures FrameOf(line).Line? ==>
              var body := FrameOf(line).bytes;
              line == body + ['\r'] || (line == body && (line == [] || line[|line| - 1] != '\r'))
  {
    var body := StripReturn(line);
    if line != [] && line[|line| - 1] == '\r' {
      assert line == body + ['\r'];
    }
    if IsGroupTerminator(body) {
      var blanks := body[5..];
      assert body == "(gdb)" + blanks && Blanks(blanks);
    }
    forall blanks: Bytes | Blanks(blanks) && (line == "(gdb)" + blanks || line == ("(gdb)" + blanks) + ['\r'])
      ensures IsGroupTerminator(body)
    {
      PromptStrips(line, blanks);
    }
  }

  lemma PromptStrips(line: Bytes, blanks: Bytes)
    requires Blanks(blanks) && (line == "(gdb)" + blanks || line == ("(gdb)" + blanks) + ['\r'])
    ensures StripReturn(line) == "(gdb)" + blanks && IsGroupTerminator("(gdb)" + blanks)
  {
    var text := "(gdb)" + blanks;
    assert text[|text| - 1] != '\r';
    if line == text + ['\r'] {
      assert line[..|line| - 1] == text;
    }
    assert forall k | 5 <= k < |text| :: text[k] == blanks[k - 5];
    assert "(gdb)" <= text;
  }

  lemma FirstNewline(buf: Bytes, start: nat, k: nat)
    requires start <= k <= |buf| && (k < |buf| ==> buf[k] == '\n')
    requires forall j | start <= j < k :: buf[j] != '\n'
    ensures LineLength(buf[start..]) == k - start
  {
    var live := buf[start..];
    assert forall j | 0 <= j < k - start :: live[j] == buf[start + j];
    LineLengthIs(live, k - start);
  }

  // ---- The framer ----

  class Framer {
    var buf: Bytes
    var readPos: nat

    ghost var received: Bytes      // every byte ever pushed
    ghost var yielded: seq<Frame>  // every frame ever popped
    ghost var consumed: nat        // bytes behind the read cursor over the whole run
    ghost var shifted: nat         // bytes moved by compactions over the whole run

    // What was received is what was yielded and what is live.
    ghost predicate Exact()
      reads this
    {
      && readPos <= |buf|
      && Frames(received) == yielded + Frames(Live())
      && Rest(received) == Rest(Live())
      && |received| == consumed + |Live()|
    }

    // The shifting so far is paid for, and so is the next compaction at the midpoint.
    ghost predicate Valid()
      reads this
    {
      Exact() && shifted + 2 * readPos <= 2 * consumed
    }

    // The bytes received but not yet yielded.
    ghost function Live(): Bytes
      reads this
      requires readPos <= |buf|
    {
      buf[readPos..]
    }

    constructor ()
      ensures Valid() && Live() == []
      ensures received == [] && yielded == [] && consumed == 0 && shifted == 0
    {
      buf, readPos := [], 0;
      received, yielded, consumed, shifted := [], [], 0, 0;
    }

    // Append bytes, first reclaiming the dead prefix once it reaches the midpoint.
    method Push(bytes: Bytes)
      requires Valid()
      modifies this
      ensures Valid()
      ensures Live() == old(Live()) + bytes
      ensures received == old(received) + bytes && yielded == old(yielded) && consumed == old(consumed)
      ensures readPos == 0 || readPos < |old(Live())|
      ensures shifted <= 2 * consumed
    {
      hide Frames, Rest;
      ghost var live := Live();
      PushKeepsSplit(received, yielded, live, bytes);
      if readPos != 0 && readPos >= |buf| / 2 {
        Compact();
      }
      buf := buf + bytes;
      received := received + bytes;
      assert Live() == live + bytes;
    }

    // Yield the next complete line, if the buffer holds one.
    method Pop() returns (frame: Option<Frame>)
      requires Valid()
      modifies this
      ensures Valid()
      ensures received == old(received) && shifted == old(shifted) && buf == old(buf)
      ensures frame.None? <==> '\n' !in old(Live())
      ensures frame.None? ==> Live() == old(Live()) && yielded == old(yielded)
      ensures frame.Some? ==>
                var live := old(Live());
                && LineLength(live) < |live|
                && frame.value == FrameOf(live[..LineLength(live)])
                && Live() == live[LineLength(live) + 1..]
                && yielded == old(yielded) + [frame.value]
    {
      hide Frames, Rest, LineLength, IsGroupTerminator, FrameOf;
      ghost var live := Live();
      ghost var k := LineLength(live);
      var newline := FindNewline();
      LineEnds(live);
      if newline == |buf| {
        return None;
      }
      var lineStart := readPos;
      PopKeepsSplit(live);
      // Only one carriage return is stripped.
      var lineEnd := if newline > lineStart && buf[newline - 1] == '\r' then newline - 1 else newline;
      var line := buf[lineStart..lineEnd];
      FrameIs(buf, lineStart, newline);
      var found := if IsGroupTerminator(line) then GroupTerminator else Line(line);
      assert buf[lineStart..newline] == live[..k];
      readPos := newline + 1;
      consumed := consumed + (newline + 1 - lineStart);
      yielded := yielded + [found];
      assert Live() == live[k + 1..];
      assert (old(yielded) + [found]) + Frames(Live()) == old(yielded) + ([found] + Frames(Live()));
      return Some(found);
    }

    // Offset in the buffer of the first unread newline, or its end.
    method FindNewline() returns (k: nat)
      requires Valid()
      ensures readPos <= k <= |buf| && k - readPos == LineLength(Live())
    {
      hide Frames, Rest, LineLength;
      k := readPos;
      while k < |buf| && buf[k] != '\n'
        invariant readPos <= k <= |buf|
        invariant forall j | readPos <= j < k :: buf[j] != '\n'
      {
        k := k + 1;
      }
      FirstNewline(buf, readPos, k);
    }

    method PendingBytes() returns (n: nat)
      requires Valid()
      ensures n == |Live()| && '\n' !in Rest(received)
    {
      n := |buf| - readPos;
      SplitIsExact(received);
    }

    // Drop the dead prefix; the live bytes are what gets moved.
    method Compact()
      requires Exact()
      modifies this
      ensures Exact() && readPos == 0
      ensures Live() == old(Live())
      ensures received == old(received) && yielded == old(yielded) && consumed == old(consumed)
      ensures shifted == old(shifted) + if old(readPos) == 0 then 0 else |old(Live())|
    {
      if readPos == 0 {
        return;
      }
      ghost var live := Live();
      shifted := shifted + (|buf| - readPos);
      buf := buf[readPos..];
      readPos := 0;
      assert Live() == live;
    }
  }
}
