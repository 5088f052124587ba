/** The state shared by the two map-backed stores (tm.go and
    src/task_manager.go), whose Init, AddTask and loading code are the same:
    the counter and the map, the id invariant, and the effect of Init,
    AddTask and a plain delete. */
module MapStore {
  import opened Tasks

  /** The abstract state of a TaskManager: its counter and its map. */
  datatype Store = Store(nextId: int, tasks: map<int, Task>)

  /** The id invariant: every id in use lies below the counter, so the
      counter is always an unused id. */
  ghost predicate IdsBelowNext(s: Store)
  {
    forall id :: id in s.tasks ==> id < s.nextId
  }

  /** Every task has a creation time, and its completedAt is zero exactly
      when it is pending. */
  ghost predicate AllStamped(m: map<int, Task>)
  {
    forall id :: id in m ==> m[id].createdAt != ZeroTime && Stamped(m[id])
  }

  /** Init: load the file's entries into the map, then count on from the
      largest id (or from 0). */
  ghost function Initialized(s: Store, loaded: map<int, Task>): (r: Store)
    ensures r.tasks == s.tasks + loaded
    ensures IdsBelowNext(r) && 1 <= r.nextId
    ensures r.nextId == 1 || r.nextId - 1 in r.tasks
  {
    var m := s.tasks + loaded;
    Store(MaxKey(m.Keys) + 1, m)
  }

  function Added(s: Store, desc: string, now: Time): Store
  {
    if |desc| == 0 then s
    else Store(s.nextId + 1, s.tasks[s.nextId := Task(desc, false, now, ZeroTime)])
  }

  function Deleted(s: Store, id: int): Store
  {
    s.(tasks := s.tasks - {id})
  }

  // ---------------------------------------------------------------------
  // Properties

  /** Reloading a file that holds ids {1, 2, 3} sets the counter to 4; one
      that holds {5, 9} sets it to 10. */
  lemma ReloadSetsCounter(t1: Task, t2: Task, t3: Task)
    ensures Initialized(Store(1, map[]), map[1 := t1, 2 := t2, 3 := t3]).nextId == 4
    ensures Initialized(Store(1, map[]), map[5 := t1, 9 := t2]).nextId == 10
  {
    var a: map<int, Task> := map[] + map[1 := t1, 2 := t2, 3 := t3];
    assert a.Keys == {1, 2, 3};
    MaxKeyIs(a.Keys, 3);
    var b: map<int, Task> := map[] + map[5 := t1, 9 := t2];
    assert b.Keys == {5, 9};
    MaxKeyIs(b.Keys, 9);
  }

  /** Loading into an empty store keeps exactly the file's mapping. */
  lemma ReloadKeepsSavedTasks(m: map<int, Task>)
    ensures Initialized(Store(1, map[]), Decoded(Document(m)).value).tasks == m
  {
    assert map[] + m == m;
  }

  /** Reloading a store's map from a fresh manager gives back the same map,
      and the same counter exactly when the counter is one past the largest id. */
  lemma ReloadRestoresStore(s: Store)
    ensures Initialized(Store(1, map[]), s.tasks).tasks == s.tasks
    ensures Initialized(Store(1, map[]), s.tasks) == s <==> s.nextId == MaxKey(s.tasks.Keys) + 1
  {
    assert map[] + s.tasks == s.tasks;
  }

  /** A freshly initialised store with one task added reloads into an equal
      store, counter included. */
  lemma AddThenReloadIsEqual(desc: string, now: Time)
    requires |desc| > 0
    ensures var s := Added(Initialized(Store(1, map[]), map[]), desc, now);
      Initialized(Store(1, map[]), s.tasks) == s
  {
    var e: map<int, Task> := map[] + map[];
    assert e.Keys == {};
    MaxKeyIs(e.Keys, 0);
    var s := Added(Initialized(Store(1, map[]), map[]), desc, now);
    assert s.tasks.Keys == {1};
    MaxKeyIs(s.tasks.Keys, 1);
    ReloadRestoresStore(s);
  }

  /** Across a restart the counter is recomputed from the file, so the id of
      a deleted newest task is handed out again. */
  lemma RestartReusesDeletedTopId(t1: Task, t2: Task)
    ensures var s := Deleted(Store(3, map[1 := t1, 2 := t2]), 2);
      && s.nextId == 3
      && Initialized(Store(1, map[]), s.tasks).nextId == 2
  {
    var s := Deleted(Store(3, map[1 := t1, 2 := t2]), 2);
    assert s.tasks == map[1 := t1];
    assert (map[] + s.tasks).Keys == {1};
    MaxKeyIs((map[] + s.tasks).Keys, 1);
  }

  /** A non-empty description is stored under the old counter, which was
      unused, and nothing else changes; an empty one changes nothing. */
  lemma AddAssignsFreshId(s: Store, desc: string, now: Time)
    requires IdsBelowNext(s)
    ensures var r := Added(s, desc, now);
      && IdsBelowNext(r)
      && (|desc| == 0 ==> r == s)
      && (|desc| > 0 ==>
            && s.nextId !in s.tasks
            && r.nextId == s.nextId + 1
            && r.tasks.Keys == s.tasks.Keys + {s.nextId}
            && r.tasks[s.nextId] == Task(desc, false, now, ZeroTime)
            && forall id :: id in s.tasks ==> r.tasks[id] == s.tasks[id])
  {
  }

  /** Delete removes exactly the given key. */
  lemma DeleteRemovesOnlyId(s: Store, id: int)
    ensures var r := Deleted(s, id);
      && r.nextId == s.nextId
      && r.tasks.Keys == s.tasks.Keys - {id}
      && (forall k :: k in r.tasks ==> r.tasks[k] == s.tasks[k])
      && (id !in s.tasks ==> r == s)
  {
    if id !in s.tasks {
      assert s.tasks - {id} == s.tasks;
    }
  }
}
