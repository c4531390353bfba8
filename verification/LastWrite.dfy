// What a table entry holds after a run: what was last put there, unless it was removed since.
module LastWrite {
  import opened Wrappers

  // What one step does to the entry under some key.
  datatype Effect<V> = Kept | Removed | Put(value: V)

  function Affected<V>(before: Option<V>, e: Effect<V>): Option<V> {
    match e
    case Kept => before
    case Removed => None
    case Put(v) => Some(v)
  }

  function Entry<K, V>(m: map<K, V>, key: K): Option<V> {
    if key in m then Some(m[key]) else None
  }

  // The k-th effect leads from the k-th value of the entry to the next.
  ghost predicate Follows<V(!new)>(entries: seq<Option<V>>, effects: seq<Effect<V>>) {
    && |entries| == |effects| + 1
    && forall k | 0 <= k < |effects| :: entries[k + 1] == Affected(entries[k], effects[k])
  }

  ghost predicate KeptFrom<V(!new)>(effects: seq<Effect<V>>, k: nat) {
    forall j | k <= j < |effects| :: effects[j].Kept?
  }

  // v was put by some step and kept ever since, or was there first and kept throughout.
  ghost predicate Stands<V(!new)>(first: Option<V>, effects: seq<Effect<V>>, v: V) {
    || (first == Some(v) && KeptFrom(effects, 0))
    || exists k :: 0 <= k < |effects| && effects[k] == Put(v) && KeptFrom(effects, k + 1)
  }

  lemma {:induction false} LastWriteWins<V(!new)>(entries: seq<Option<V>>, effects: seq<Effect<V>>, v: V)
    requires Follows(entries, effects)
    ensures entries[|effects|] == Some(v) <==> Stands(entries[0], effects, v)
    decreases |effects|
  {
    if effects != [] {
      var last := |effects| - 1;
      var before := effects[..last];
      LastWriteWins(entries[..|effects|], before, v);
      match effects[last]
      case Kept =>
        KeptEnd(effects);
        assert forall k | 0 <= k < last :: before[k] == effects[k];
      case Removed =>
        assert forall k | 0 <= k <= last :: !KeptFrom(effects, k);
      case Put(w) =>
        assert KeptFrom(effects, last + 1);
        assert forall k | 0 <= k <= last :: !KeptFrom(effects, k);
    }
  }

  lemma KeptEnd<V(!new)>(effects: seq<Effect<V>>)
    requires effects != [] && effects[|effects| - 1].Kept?
    ensures forall k | 0 <= k <= |effects| - 1 :: KeptFrom(effects, k) <==> KeptFrom(effects[..|effects| - 1], k)
    ensures KeptFrom(effects, |effects|)
  {
    var before := effects[..|effects| - 1];
    assert forall j | 0 <= j < |before| :: before[j] == effects[j];
  }
}
