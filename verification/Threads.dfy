// The thread registry.
module Threads {
  import opened Octets
  import opened Wrappers
  import opened Ast
  import opened ResultsView

  datatype ThreadState = Moving | Halted

  datatype ThreadInfo = ThreadInfo(
    id: Bytes,
    groupId: Option<Bytes>,
    state: Option<ThreadState>,
    name: Option<Bytes>)

  type ThreadMap = map<Bytes, ThreadInfo>

  predicate IsAll(thread: Option<Bytes>) {
    thread == None || thread == Some("all")
  }

  function Created(m: ThreadMap, results: seq<Field>): ThreadMap {
    match GetStr(results, "id")
    case None => m
    case Some(id) =>
      var group := GetStr(results, "group-id");
      if id !in m then m[id := ThreadInfo(id, group, None, None)]
      else if m[id].groupId.None? then m[id := m[id].(groupId := group)]
      else m
  }

  function Exited(m: ThreadMap, results: seq<Field>): ThreadMap {
    match GetStr(results, "id")
    case None => m
    case Some(id) => m - {id}
  }

  function SetAll(m: ThreadMap, state: ThreadState): ThreadMap {
    map t | t in m :: m[t].(state := Some(state))
  }

  // A named thread is created when it is not known; no name, or "all", means every known thread.
  function SetState(m: ThreadMap, thread: Option<Bytes>, state: ThreadState): ThreadMap {
    if IsAll(thread) then SetAll(m, state)
    else
      var id := thread.value;
      var info := if id in m then m[id] else ThreadInfo(id, None, None, None);
      m[id := info.(state := Some(state))]
  }

  // Whether an exec record naming `thread` is about the thread t.
  predicate Covers(thread: Option<Bytes>, t: Bytes) {
    IsAll(thread) || thread == Some(t)
  }

  // An exec record reaches exactly the threads it covers, makes known only the one it names, and
  // changes nothing but the state.
  lemma StateReachesCovered(m: ThreadMap, thread: Option<Bytes>, state: ThreadState)
    ensures
      var q := SetState(m, thread, state);
      && q.Keys == m.Keys + (if IsAll(thread) then {} else {thread.value})
      && (forall t | t in q && !Covers(thread, t) :: t in m && q[t] == m[t])
      && (forall t | t in q && Covers(thread, t) :: q[t].state == Some(state))
      && (forall t | t in m :: q[t].(state := m[t].state) == m[t])
  {
  }

  class ThreadRegistry {
    var byId: ThreadMap

    constructor ()
      ensures byId == map[]
    {
      byId := map[];
    }

    method OnThreadCreated(results: seq<Field>)
      modifies this
      ensures byId == Created(old(byId), results)
    {
      var id := GetStr(results, "id");
      if id.None? {
        return;
      }
      var groupId := GetStr(results, "group-id");
      if id.value in byId {
        var info := byId[id.value];
        if info.groupId.None? {
          byId := byId[id.value := info.(groupId := groupId)];
        }
      } else {
        byId := byId[id.value := ThreadInfo(id.value, groupId, None, None)];
      }
    }

    method OnThreadExited(results: seq<Field>)
      modifies this
      ensures byId == Exited(old(byId), results)
    {
      var id := GetStr(results, "id");
      if id.None? {
        return;
      }
      byId := byId - {id.value};
    }

    method OnRunning(thread: Option<Bytes>)
      modifies this
      ensures byId == SetState(old(byId), thread, Moving)
    {
      if thread.None? || thread.value == "all" {
        MarkAll(Moving);
      } else {
        Mark(thread.value, Moving);
      }
    }

    method OnStopped(thread: Option<Bytes>)
      modifies this
      ensures byId == SetState(old(byId), thread, Halted)
    {
      if thread.None? || thread.value == "all" {
        MarkAll(Halted);
      } else {
        Mark(thread.value, Halted);
      }
    }

    method Mark(id: Bytes, state: ThreadState)
      requires id != "all"
      modifies this
      ensures byId == SetState(old(byId), Some(id), state)
    {
      if id !in byId {
        byId := byId[id := ThreadInfo(id, None, None, None)];
      }
      byId := byId[id := byId[id].(state := Some(state))];
    }

    // Visit every known thread once, in any order.
    method MarkAll(state: ThreadState)
      modifies this
      ensures byId == SetAll(old(byId), state)
    {
      var todo := byId.Keys;
      while todo != {}
        invariant todo <= byId.Keys == old(byId).Keys
        invariant forall t | t in byId ::
            byId[t] == if t in todo then old(byId)[t] else old(byId)[t].(state := Some(state))
        decreases |todo|
      {
        var t :| t in todo;
        byId := byId[t := byId[t].(state := Some(state))];
        todo := todo - {t};
      }
    }
  }
}
