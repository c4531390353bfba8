// The bounded, sequenced event journal against the full history of events.
module Journal {
  import opened Octets
  import opened Wrappers
  import opened Events

  datatype Entry = Entry(number: nat, event: Event)

  // ---- The full history ----

  // Sequence number of the k-th event; numbering saturates at the 64-bit maximum.
  function Number(k: nat): (n: nat)
    ensures 1 <= n <= U64_MAX && (k < U64_MAX ==> n == k + 1)
  {
    if k + 1 < U64_MAX then k + 1 else U64_MAX
  }

  // The events of a history from the k-th on, numbered.
  function Numbered(history: seq<Event>, k: nat): (entries: seq<Entry>)
    requires k <= |history|
    ensures |entries| == |history| - k
    ensures forall j | 0 <= j < |entries| :: entries[j] == Entry(Number(k + j), history[k + j])
  {
    seq(|history| - k, j requires 0 <= j < |history| - k => Entry(Number(k + j), history[k + j]))
  }

  // How many of the oldest events a journal of this capacity has dropped.
  function Evicted(history: seq<Event>, capacity: nat): (k: nat)
    ensures k <= |history|
  {
    if |history| <= capacity then 0 else |history| - capacity
  }

  function Retained(history: seq<Event>, capacity: nat): seq<Entry> {
    Numbered(history, Evicted(history, capacity))
  }

  predicate IsStopAfter(e: Entry, cursor: nat) {
    e.event.StoppedAt? && e.number > cursor
  }

  // The first stop past the cursor.
  function FindStop(entries: seq<Entry>, cursor: nat): (r: Option<(nat, StoppedEvent)>)
    ensures r.None? ==> forall e | e in entries :: !IsStopAfter(e, cursor)
    ensures r.Some? ==> exists k | 0 <= k < |entries| ::
                && IsStopAfter(entries[k], cursor) && r.value == (entries[k].number, entries[k].event.stop)
                && forall j | 0 <= j < k :: !IsStopAfter(entries[j], cursor)
  {
    if entries == [] then None
    else if IsStopAfter(entries[0], cursor) then Some((entries[0].number, entries[0].event.stop))
    else FindStop(entries[1..], cursor)
  }

  function After(entries: seq<Entry>, cursor: nat): seq<Entry> {
    if entries == [] then []
    else (if entries[0].number > cursor then [entries[0]] else []) + After(entries[1..], cursor)
  }

  // The last stop of a history, whether or not it is still retained.
  function LatestStop(history: seq<Event>): Option<(nat, StoppedEvent)> {
    if history == [] then None
    else
      var last := |history| - 1;
      if history[last].StoppedAt? then Some((Number(last), history[last].stop)) else LatestStop(history[..last])
  }

  // It is the last there is, under its own number.
  lemma {:induction false} LatestStopIff(history: seq<Event>, number: nat, stop: StoppedEvent)
    ensures LatestStop(history) == Some((number, stop))
       <==> exists k :: 0 <= k < |history| && IsLastStop(history, k) && history[k].stop == stop && number == Number(k)
  {
    hide Number;
    if history != [] {
      var last := |history| - 1;
      LatestStopIff(history[..last], number, stop);
      if !history[last].StoppedAt? {
        assert forall k | 0 <= k < last :: IsLastStop(history, k) <==> IsLastStop(history[..last], k);
      } else {
        assert IsLastStop(history, last);
      }
    }
  }

  ghost predicate IsLastStop(history: seq<Event>, k: nat)
    requires k < |history|
  {
    history[k].StoppedAt? && forall j | k < j < |history| :: !history[j].StoppedAt?
  }

  // ---- Looking past a cursor in the retained window and in the whole history ----

  lemma {:induction false} FindStopConcat(a: seq<Entry>, b: seq<Entry>, cursor: nat)
    ensures FindStop(a + b, cursor) == if FindStop(a, cursor).Some? then FindStop(a, cursor) else FindStop(b, cursor)
  {
    if a == [] {
      assert a + b == b;
    } else {
      assert (a + b)[0] == a[0] && (a + b)[1..] == a[1..] + b;
      FindStopConcat(a[1..], b, cursor);
    }
  }

  lemma {:induction false} AfterConcat(a: seq<Entry>, b: seq<Entry>, cursor: nat)
    ensures After(a + b, cursor) == After(a, cursor) + After(b, cursor)
  {
    if a == [] {
      assert a + b == b;
    } else {
      assert (a + b)[0] == a[0] && (a + b)[1..] == a[1..] + b;
      AfterConcat(a[1..], b, cursor);
    }
  }

  lemma {:induction false} NothingPast(entries: seq<Entry>, cursor: nat)
    requires forall e | e in entries :: e.number <= cursor
    ensures FindStop(entries, cursor) == None && After(entries, cursor) == []
  {
    if entries != [] {
      NothingPast(entries[1..], cursor);
    }
  }

  lemma {:induction false} EverythingPast(entries: seq<Entry>, cursor: nat)
    requires forall e | e in entries :: e.number > cursor
    ensures After(entries, cursor) == entries
  {
    if entries != [] {
      EverythingPast(entries[1..], cursor);
      assert entries == [entries[0]] + entries[1..];
    }
  }

  lemma SplitNumbered(history: seq<Event>, k: nat)
    requires k <= |history|
    ensures Numbered(history, 0) == Numbered(history, 0)[..k] + Numbered(history, k)
  {
  }

  // What the journal still holds answers for the whole history when nothing past the cursor was
  // dropped, that is when the number after the cursor is retained or yet to come.
  lemma WindowAnswersForHistory(history: seq<Event>, capacity: nat, cursor: nat)
    requires |history| < U64_MAX
    requires Evicted(history, capacity) <= cursor
    ensures FindStop(Retained(history, capacity), cursor) == FindStop(Numbered(history, 0), cursor)
    ensures After(Retained(history, capacity), cursor) == After(Numbered(history, 0), cursor)
  {
    hide FindStop, After;
    var all, k := Numbered(history, 0), Evicted(history, capacity);
    SplitNumbered(history, k);
    NothingPast(all[..k], cursor);
    FindStopConcat(all[..k], Numbered(history, k), cursor);
    AfterConcat(all[..k], Numbered(history, k), cursor);
  }

  // Past a cursor, the history is its own suffix.
  lemma AfterIsSuffix(history: seq<Event>, cursor: nat)
    requires |history| < U64_MAX && cursor <= |history|
    ensures After(Numbered(history, 0), cursor) == Numbered(history, cursor)
  {
    hide After;
    var all := Numbered(history, 0);
    SplitNumbered(history, cursor);
    NothingPast(all[..cursor], cursor);
    EverythingPast(Numbered(history, cursor), cursor);
    AfterConcat(all[..cursor], Numbered(history, cursor), cursor);
  }

  // ---- Draining ----

  datatype Drained = Drained(events: seq<Entry>, cursor: nat, truncated: bool)

  // The three reads of a drain take the lock one after the other: what had been recorded by each.
  datatype Reads = Reads(earliest: seq<Event>, events: seq<Event>, cursor: seq<Event>)

  ghost predicate InOrder(r: Reads) {
    r.earliest <= r.events <= r.cursor
  }

  function EarliestOf(entries: seq<Entry>): Option<nat> {
    if entries == [] then None else Some(entries[0].number)
  }

  function Drain(r: Reads, capacity: nat, cursor: nat): Drained {
    var earliest := EarliestOf(Retained(r.earliest, capacity));
    Drained(
      After(Retained(r.events, capacity), cursor),
      Number(|r.cursor|) - 1,
      earliest.Some? && cursor + 1 < earliest.value)
  }

  // An event past the cursor is no longer retained.
  ghost predicate Lost(history: seq<Event>, capacity: nat, cursor: nat) {
    exists k | 0 <= k < Evicted(history, capacity) :: Number(k) > cursor
  }

  lemma LostIs(history: seq<Event>, capacity: nat, cursor: nat)
    requires |history| < U64_MAX
    ensures Lost(history, capacity, cursor) <==> capacity + cursor < |history|
  {
    var k := Evicted(history, capacity);
    if cursor < k {
      assert Number(k - 1) == k;
    }
  }

  // The flag says exactly that an event past the cursor had been dropped by the first read.
  lemma TruncatedMeansEvicted(r: Reads, capacity: nat, cursor: nat)
    requires capacity > 0 && |r.earliest| < U64_MAX
    ensures Drain(r, capacity, cursor).truncated <==> Lost(r.earliest, capacity, cursor)
  {
    hide After, Lost;
    LostIs(r.earliest, capacity, cursor);
  }

  // It is right about the events returned exactly unless the first such loss came between the
  // first two reads, which takes enough recording to push the cursor out of the window.
  lemma FlagIsRightIff(r: Reads, capacity: nat, cursor: nat)
    requires capacity > 0 && InOrder(r) && |r.events| < U64_MAX
    ensures (Drain(r, capacity, cursor).truncated <==> Lost(r.events, capacity, cursor))
       <==> !(|r.earliest| <= capacity + cursor < |r.events|)
  {
    hide Drain, Lost;
    TruncatedMeansEvicted(r, capacity, cursor);
    LostIs(r.earliest, capacity, cursor);
    LostIs(r.events, capacity, cursor);
  }

  // A drain returns what is past its cursor and still retained at the second read.
  lemma DrainReturns(r: Reads, capacity: nat, cursor: nat)
    requires InOrder(r) && |r.cursor| < U64_MAX && cursor <= |r.events|
    ensures
      var k := Evicted(r.events, capacity);
      Drain(r, capacity, cursor).events == Numbered(r.events, if k < cursor then cursor else k)
    ensures Drain(r, capacity, cursor).cursor == |r.cursor|
  {
    hide After;
    var k := Evicted(r.events, capacity);
    if k <= cursor {
      WindowAnswersForHistory(r.events, capacity, cursor);
      AfterIsSuffix(r.events, cursor);
    } else {
      EverythingPast(Numbered(r.events, k), cursor);
    }
  }

  // Each drain of a chain starts after the one before it ended.
  ghost predicate Growing(drains: seq<Reads>) {
    && (forall k | 0 <= k < |drains| :: InOrder(drains[k]))
    && (forall k | 0 < k < |drains| :: drains[k - 1].cursor <= drains[k].earliest)
  }

  // The events of a chain of drains, each from the cursor the one before it returned.
  ghost function DrainChain(drains: seq<Reads>, capacity: nat, cursor: nat): seq<Entry>
    decreases |drains|
  {
    if drains == [] then []
    else
      var d := Drain(drains[0], capacity, cursor);
      d.events + DrainChain(drains[1..], capacity, d.cursor)
  }

  // In every drain of a chain, nothing was recorded between reading the events and reading the
  // cursor, and nothing past the cursor had left the window when the events were read.
  ghost predicate Undisturbed(drains: seq<Reads>, capacity: nat, cursor: nat)
    decreases |drains|
  {
    drains != [] ==>
      var r := drains[0];
      && |r.events| == |r.cursor| && |r.events| <= capacity + cursor
      && Undisturbed(drains[1..], capacity, |r.cursor|)
  }

  ghost predicate NeverTruncated(drains: seq<Reads>, capacity: nat, cursor: nat)
    decreases |drains|
  {
    drains != [] ==>
      var d := Drain(drains[0], capacity, cursor);
      !d.truncated && NeverTruncated(drains[1..], capacity, d.cursor)
  }

  lemma TailGrows(drains: seq<Reads>)
    requires |drains| > 1 && Growing(drains)
    ensures Growing(drains[1..]) && drains[1..][|drains| - 2] == drains[|drains| - 1]
    ensures drains[0].cursor <= drains[1..][0].events
  {
    assert forall k | 0 <= k < |drains[1..]| :: drains[1..][k] == drains[k + 1];
    assert drains[0].cursor <= drains[1].earliest;
  }

  lemma {:induction false} LastIsLongest(drains: seq<Reads>)
    requires drains != [] && Growing(drains)
    ensures drains[0].cursor <= drains[|drains| - 1].cursor
    decreases |drains|
  {
    if |drains| > 1 {
      TailGrows(drains);
      LastIsLongest(drains[1..]);
    }
  }

  lemma TileTwo(first: seq<Event>, last: seq<Event>, cursor: nat)
    requires first <= last && cursor <= |first|
    ensures Numbered(first, cursor) + Numbered(last, |first|) == Numbered(last, cursor)
  {
  }

  // Chained drains return no more events than were recorded, and as many exactly when undisturbed.
  lemma {:induction false} ChainCounts(drains: seq<Reads>, capacity: nat, cursor: nat)
    requires drains != [] && Growing(drains)
    requires |drains[|drains| - 1].cursor| < U64_MAX && cursor <= |drains[0].events|
    ensures
      var recorded := |drains[|drains| - 1].cursor| - cursor;
      && |DrainChain(drains, capacity, cursor)| <= recorded
      && (|DrainChain(drains, capacity, cursor)| == recorded <==> Undisturbed(drains, capacity, cursor))
    decreases |drains|
  {
    hide Drain, Numbered;
    var r := drains[0];
    LastIsLongest(drains);
    DrainReturns(r, capacity, cursor);
    if |drains| == 1 {
      assert drains[1..] == [];
    } else {
      TailGrows(drains);
      ChainCounts(drains[1..], capacity, |r.cursor|);
    }
  }

  // Undisturbed drains return the history past the first cursor.
  lemma {:induction false} UndisturbedTiles(drains: seq<Reads>, capacity: nat, cursor: nat)
    requires drains != [] && Growing(drains)
    requires |drains[|drains| - 1].cursor| < U64_MAX && cursor <= |drains[0].events|
    requires Undisturbed(drains, capacity, cursor)
    ensures cursor <= |drains[|drains| - 1].cursor|
    ensures DrainChain(drains, capacity, cursor) == Numbered(drains[|drains| - 1].cursor, cursor)
    decreases |drains|
  {
    hide Drain, Numbered;
    var r, last := drains[0], drains[|drains| - 1].cursor;
    LastIsLongest(drains);
    DrainReturns(r, capacity, cursor);
    assert r.events == r.cursor;
    if |drains| == 1 {
      assert drains[1..] == [];
      assert Numbered(r.cursor, cursor) + [] == Numbered(r.cursor, cursor);
    } else {
      TailGrows(drains);
      UndisturbedTiles(drains[1..], capacity, |r.cursor|);
      TileTwo(r.cursor, last, cursor);
    }
  }

  // However recording falls between and inside them, chained drains tile the history, with no gap
  // and no repeat, exactly when undisturbed.
  lemma SplitDrainsTileIff(drains: seq<Reads>, capacity: nat, cursor: nat)
    requires drains != [] && Growing(drains)
    requires |drains[|drains| - 1].cursor| < U64_MAX && cursor <= |drains[0].events|
    ensures cursor <= |drains[|drains| - 1].cursor|
    ensures DrainChain(drains, capacity, cursor) == Numbered(drains[|drains| - 1].cursor, cursor)
       <==> Undisturbed(drains, capacity, cursor)
  {
    hide Undisturbed, DrainChain;
    LastIsLongest(drains);
    ChainCounts(drains, capacity, cursor);
    if Undisturbed(drains, capacity, cursor) {
      UndisturbedTiles(drains, capacity, cursor);
    }
  }

  // Drains whose reads are not interleaved with recording tile exactly when none is flagged.
  lemma DrainsTile(drains: seq<Reads>, capacity: nat, cursor: nat)
    requires capacity > 0 && drains != [] && Growing(drains)
    requires forall k | 0 <= k < |drains| :: drains[k].earliest == drains[k].cursor
    requires |drains[|drains| - 1].cursor| < U64_MAX && cursor <= |drains[0].events|
    ensures cursor <= |drains[|drains| - 1].cursor|
    ensures DrainChain(drains, capacity, cursor) == Numbered(drains[|drains| - 1].cursor, cursor)
       <==> NeverTruncated(drains, capacity, cursor)
  {
    hide Undisturbed, DrainChain, NeverTruncated;
    SplitDrainsTileIff(drains, capacity, cursor);
    UnflaggedIsUndisturbed(drains, capacity, cursor);
  }

  lemma {:induction false} UnflaggedIsUndisturbed(drains: seq<Reads>, capacity: nat, cursor: nat)
    requires capacity > 0 && drains != [] && Growing(drains)
    requires forall k | 0 <= k < |drains| :: drains[k].earliest == drains[k].cursor
    requires |drains[|drains| - 1].cursor| < U64_MAX && cursor <= |drains[0].events|
    ensures NeverTruncated(drains, capacity, cursor) <==> Undisturbed(drains, capacity, cursor)
    decreases |drains|
  {
    hide Drain, Lost;
    var r := drains[0];
    LastIsLongest(drains);
    TruncatedMeansEvicted(r, capacity, cursor);
    LostIs(r.earliest, capacity, cursor);
    DrainReturns(r, capacity, cursor);
    if |drains| == 1 {
      assert drains[1..] == [];
    } else {
      TailGrows(drains);
      assert forall k | 0 <= k < |drains[1..]| :: drains[1..][k] == drains[k + 1];
      UnflaggedIsUndisturbed(drains[1..], capacity, |r.cursor|);
    }
  }

  // A drain that was not flagged and the next one leave no gap exactly when nothing was recorded
  // between reading the events and the cursor, and nothing past the cursor was evicted between
  // the first two reads.
  lemma SplitDrainTilesIff(r: Reads, next: seq<Event>, capacity: nat, cursor: nat)
    requires InOrder(r) && r.cursor <= next && cursor <= |r.events| && |next| < U64_MAX && capacity > 0
    requires !Drain(r, capacity, cursor).truncated
    requires !Drain(Reads(next, next, next), capacity, |r.cursor|).truncated
    ensures
      var first := Drain(r, capacity, cursor);
      var second := Drain(Reads(next, next, next), capacity, first.cursor);
      first.events + second.events == Numbered(next, cursor)
      <==> |r.events| == |r.cursor| && Evicted(r.events, capacity) <= cursor
  {
    hide Drain, Numbered, Lost;
    var again := Reads(next, next, next);
    var drains := [r, again];
    DrainReturns(r, capacity, cursor);
    TruncatedMeansEvicted(again, capacity, |r.cursor|);
    LostIs(next, capacity, |r.cursor|);
    assert drains[1..] == [again] && [again][1..] == [];
    var second := Drain(again, capacity, |r.cursor|).events;
    assert second + [] == second;
    assert DrainChain([again], capacity, |r.cursor|) == second;
    assert Undisturbed([again], capacity, |r.cursor|);
    SplitDrainsTileIff(drains, capacity, cursor);
  }

  // An eviction between the first two reads is not flagged, although nothing was recorded later.
  lemma SplitDrainLosesEvent(a: Event, b: Event)
    ensures
      var d := Drain(Reads([a], [a, b], [a, b]), 1, 0);
      !d.truncated && d.events == [Entry(2, b)] && d.cursor == 2 && Lost([a, b], 1, 0)
  {
    hide Drain, Lost;
    var r := Reads([a], [a, b], [a, b]);
    DrainReturns(r, 1, 0);
    TruncatedMeansEvicted(r, 1, 0);
    LostIs([a], 1, 0);
    LostIs([a, b], 1, 0);
    assert Numbered([a, b], 1) == [Entry(2, b)];
  }

  // ---- The journal ----

  class EventJournal {
    var nextSeq: nat
    var entries: seq<Entry>
    var latestStopped: Option<(nat, StoppedEvent)>
    ghost var history: seq<Event>  // every event ever recorded

    // The journal is the numbered tail of the history, whatever the history.
    ghost predicate Valid(capacity: nat)
      reads this
    {
      && nextSeq == Number(|history|)
      && entries == Retained(history, capacity)
      && latestStopped == LatestStop(history)
    }

    constructor (ghost capacity: nat)
      ensures Valid(capacity) && history == []
    {
      nextSeq, entries, latestStopped, history := 1, [], None, [];
      new;
      assert Retained([], capacity) == [];
    }

    method Push(event: Event, capacity: nat) returns (number: nat)
      requires Valid(capacity)
      modifies this
      ensures Valid(capacity)
      ensures history == old(history) + [event] && number == Number(|old(history)|)
    {
      hide Numbered, Number;
      number := nextSeq;
      nextSeq := if nextSeq < U64_MAX then nextSeq + 1 else U64_MAX;
      if event.StoppedAt? {
        latestStopped := Some((number, event.stop));
      }
      entries := entries + [Entry(number, event)];
      ghost var k: nat := Evicted(history, capacity);
      Append(history, event, k);
      history := history + [event];
      while |entries| > capacity
        invariant k <= |history| && |history| - |entries| == k <= Evicted(history, capacity)
        invariant entries == Numbered(history, k)
        modifies this`entries
        decreases |entries|
      {
        DropOldest(history, k);
        entries := entries[1..];
        k := k + 1;
      }
    }

    lemma Append(h: seq<Event>, event: Event, k: nat)
      requires k <= |h|
      ensures Number(|h| + 1) == if Number(|h|) < U64_MAX then Number(|h|) + 1 else U64_MAX
      ensures Numbered(h + [event], k) == Numbered(h, k) + [Entry(Number(|h|), event)]
      ensures LatestStop(h + [event]) == if event.StoppedAt? then Some((Number(|h|), event.stop)) else LatestStop(h)
    {
      NextNumber(|h|);
      hide Number;
      AppendEntry(h, event, k);
      AppendStop(h, event);
    }

    lemma NextNumber(k: nat)
      ensures Number(k + 1) == if Number(k) < U64_MAX then Number(k) + 1 else U64_MAX
    {
    }

    lemma AppendEntry(h: seq<Event>, event: Event, k: nat)
      requires k <= |h|
      ensures Numbered(h + [event], k) == Numbered(h, k) + [Entry(Number(|h|), event)]
    {
      hide Number;
    }

    lemma AppendStop(h: seq<Event>, event: Event)
      ensures LatestStop(h + [event]) == if event.StoppedAt? then Some((Number(|h|), event.stop)) else LatestStop(h)
    {
      hide Number;
      assert (h + [event])[..|h|] == h;
    }

    lemma DropOldest(h: seq<Event>, k: nat)
      requires k < |h|
      ensures Numbered(h, k)[1..] == Numbered(h, k + 1)
    {
    }

    method Cursor(ghost capacity: nat) returns (cursor: nat)
      requires Valid(capacity)
      ensures |history| < U64_MAX ==> cursor == |history|
      ensures forall k | 0 <= k < |history| && |history| < U64_MAX :: Number(k) <= cursor
    {
      cursor := nextSeq - 1;
    }

    method FindStopAfter(cursor: nat, ghost capacity: nat) returns (r: Option<(nat, StoppedEvent)>)
      requires Valid(capacity)
      ensures r == FindStop(Retained(history, capacity), cursor)
    {
      for k := 0 to |entries|
        invariant FindStop(entries, cursor) == FindStop(entries[k..], cursor)
      {
        assert entries[k..][0] == entries[k] && entries[k..][1..] == entries[k + 1..];
        if entries[k].event.StoppedAt? && entries[k].number > cursor {
          return Some((entries[k].number, entries[k].event.stop));
        }
      }
      return None;
    }

    method EventsAfter(cursor: nat, ghost capacity: nat) returns (r: seq<Entry>)
      requires Valid(capacity)
      ensures r == After(Retained(history, capacity), cursor)
    {
      r := [];
      for k := 0 to |entries|
        invariant r + After(entries[k..], cursor) == After(entries, cursor)
      {
        assert entries[k..][0] == entries[k] && entries[k..][1..] == entries[k + 1..];
        if entries[k].number > cursor {
          ghost var rest := After(entries[k + 1..], cursor);
          assert (r + [entries[k]]) + rest == r + ([entries[k]] + rest);
          r := r + [entries[k]];
        } else {
          assert [] + After(entries[k + 1..], cursor) == After(entries[k + 1..], cursor);
        }
      }
      assert entries[|entries|..] == [];
    }

    method EarliestSeq(ghost capacity: nat) returns (r: Option<nat>)
      requires Valid(capacity)
      ensures r == EarliestOf(Retained(history, capacity))
    {
      r := if entries == [] then None else Some(entries[0].number);
    }

    method LatestEvent(ghost capacity: nat) returns (r: Option<Entry>)
      requires Valid(capacity)
      ensures capacity > 0 && history != [] ==>
                r == Some(Entry(Number(|history| - 1), history[|history| - 1]))
      ensures history == [] ==> r == None
    {
      r := if entries == [] then None else Some(entries[|entries| - 1]);
    }

    // What other tasks record while a drain does not hold the lock.
    method PushAll(events: seq<Event>, capacity: nat)
      requires Valid(capacity)
      modifies this
      ensures Valid(capacity) && history == old(history) + events
    {
      hide Valid;
      for k := 0 to |events|
        invariant Valid(capacity) && history == old(history) + events[..k]
      {
        var number := Push(events[k], capacity);
      }
    }

    // The three reads of a drain; `before` and `after` are recorded by other tasks between them.
    method DrainEvents(cursor: nat, capacity: nat, before: seq<Event>, after: seq<Event>) returns (d: Drained)
      requires Valid(capacity)
      modifies this
      ensures Valid(capacity) && history == old(history) + before + after
      ensures d == Drain(Reads(old(history), old(history) + before, history), capacity, cursor)
    {
      hide Numbered, Number, After;
      var earliest := EarliestSeq(capacity);
      PushAll(before, capacity);
      var events := EventsAfter(cursor, capacity);
      PushAll(after, capacity);
      d := Drained(events, nextSeq - 1, earliest.Some? && cursor + 1 < earliest.value);
    }
  }
}
