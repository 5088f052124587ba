/** The later map-backed task store of src/task_manager.go: one ToggleTask
    replaces the two directional operations, the filters are the strings
    "c" and "nc", and the file is replaced atomically through a temporary
    file. */
module SrcStore {
  import opened Tasks
  import opened MapStore

  /** The tasks ListTasks shows for a filter string: "c" the completed ones,
      "nc" the pending ones, anything else all of them. */
  predicate Shown(filter: string, t: Task)
  {
    (filter == "c" && t.completed) || (filter == "nc" && !t.completed) || (filter != "c" && filter != "nc")
  }

  /** The tasks ClearTasks keeps: "c" keeps the pending ones, "nc" the
      completed ones, anything else none. */
  predicate KeptByClear(filter: string, t: Task)
  {
    (filter == "c" && !t.completed) || (filter == "nc" && t.completed)
  }

  // ---------------------------------------------------------------------
  // The effect of each operation on the abstract state

  function Toggled(s: Store, id: int, now: Time): Store
  {
    if id !in s.tasks then s
    else
      var t := s.tasks[id];
      var u := if t.completed then t.(completed := false, completedAt := ZeroTime)
               else t.(completed := true, completedAt := now);
      s.(tasks := s.tasks[id := u])
  }

  /** DeleteTask as written: the presence check is inverted, so a present id
      is kept and only an absent id reaches the (no-op) delete. */
  function DeletedAsWritten(s: Store, id: int): Store
  {
    if id in s.tasks then s else s.(tasks := s.tasks - {id})
  }

  function Cleared(s: Store, filter: string): Store
  {
    s.(tasks := Filtered(s.tasks, t => KeptByClear(filter, t)))
  }

  function Listed(s: Store, filter: string): Listing
  {
    if |s.tasks| == 0 then NoTasks
    else Ids(SortedIds(Filtered(s.tasks, t => Shown(filter, t)).Keys))
  }

  // ---------------------------------------------------------------------
  // Properties of single operations

  /** Toggle flips the flag of a present task, stamps completedAt with the
      clock when it becomes completed and resets it when it becomes pending,
      and touches no other task; an absent id changes nothing. */
  lemma ToggleFlipsOnlyId(s: Store, id: int, now: Time)
    ensures var r := Toggled(s, id, now);
      && r.nextId == s.nextId
      && r.tasks.Keys == s.tasks.Keys
      && (forall k :: k in s.tasks && k != id ==> r.tasks[k] == s.tasks[k])
      && (id !in s.tasks ==> r == s)
      && (id in s.tasks ==>
            var t, u := s.tasks[id], r.tasks[id];
            && u.completed == !t.completed
            && u.description == t.description && u.createdAt == t.createdAt
            && u.completedAt == (if u.completed then now else ZeroTime)
            && (now != ZeroTime ==> Stamped(u)))
  {
  }

  /** Toggling twice restores the flag; a pending task (completedAt zero)
      comes back exactly, a completed one carries the second clock reading. */
  lemma ToggleTwice(s: Store, id: int, now1: Time, now2: Time)
    requires id in s.tasks
    ensures var r := Toggled(Toggled(s, id, now1), id, now2);
      && r.tasks.Keys == s.tasks.Keys
      && r.tasks[id].completed == s.tasks[id].completed
      && r.tasks[id].description == s.tasks[id].description
      && r.tasks[id].createdAt == s.tasks[id].createdAt
      && (!s.tasks[id].completed && s.tasks[id].completedAt == ZeroTime ==> r == s)
      && (s.tasks[id].completed ==> r.tasks[id].completedAt == now2)
  {
    var once := Toggled(s, id, now1);
    ToggleFlipsOnlyId(s, id, now1);
    ToggleFlipsOnlyId(once, id, now2);
    var r := Toggled(once, id, now2);
    if !s.tasks[id].completed && s.tasks[id].completedAt == ZeroTime {
      assert r.tasks[id] == s.tasks[id];
      assert r.tasks == s.tasks;
    }
  }

  /** The delete as written keeps a present task, and on an absent id it
      changes nothing although it saves and reports a deletion. */
  lemma DeleteAsWrittenKeepsPresentTask(s: Store, id: int)
    requires id in s.tasks
    ensures id in DeletedAsWritten(s, id).tasks
    ensures DeletedAsWritten(s, id) == s
  {
  }

  /** The delete test: after adding "Task to delete 1" and "Task to delete 2"
      to a fresh store, deleting 1 should leave only task 2. The code as
      written leaves both; the corrected delete leaves one. */
  lemma DeleteTestScenario(now: Time)
    ensures var s := Added(Added(Store(1, map[]), "Task to delete 1", now), "Task to delete 2", now);
      && 1 in DeletedAsWritten(s, 1).tasks && |DeletedAsWritten(s, 1).tasks| == 2
      && 1 !in Deleted(s, 1).tasks && |Deleted(s, 1).tasks| == 1
  {
    var s := Added(Added(Store(1, map[]), "Task to delete 1", now), "Task to delete 2", now);
    assert s.tasks.Keys == {1, 2};
    assert Deleted(s, 1).tasks.Keys == {2};
  }

  /** ClearTasks keeps exactly the tasks ListTasks would not show for the
      same filter ("c" keeps the pending tasks, "nc" the completed ones, and
      every other filter empties the map), and it never moves the counter. */
  lemma ClearKeepsWhatListHides(s: Store, filter: string)
    ensures forall id :: id in Cleared(s, filter).tasks <==> id in s.tasks && !Shown(filter, s.tasks[id])
    ensures filter != "c" && filter != "nc" ==> Cleared(s, filter).tasks == map[]
    ensures Cleared(s, filter).nextId == s.nextId
  {
    var c := Cleared(s, filter).tasks;
    assert forall id :: id in c <==> id in s.tasks && KeptByClear(filter, s.tasks[id]);
    if filter != "c" && filter != "nc" {
      assert c.Keys == {};
    }
  }

  /** Clearing "c" and then "nc" empties any store. */
  lemma ClearBothEmpties(s: Store)
    ensures Cleared(Cleared(s, "c"), "nc").tasks == map[]
  {
    var once := Cleared(s, "c").tasks;
    assert forall id :: id in once ==> !once[id].completed;
    var twice := Cleared(Cleared(s, "c"), "nc").tasks;
    assert forall id :: id in twice ==> id in once && once[id].completed;
    assert twice.Keys == {};
  }

  /** The selection half of ListTasks: "No tasks to show" exactly for an
      empty store, otherwise the matching ids, each once, ascending. */
  lemma ListSelectsMatchingIds(s: Store, filter: string)
    ensures Listed(s, filter).NoTasks? <==> s.tasks == map[]
    ensures Listed(s, filter).Ids? ==>
      && StrictlyAscending(Listed(s, filter).ids)
      && forall id :: id in Listed(s, filter).ids <==> id in s.tasks && Shown(filter, s.tasks[id])
  {
    if |s.tasks| == 0 {
      assert s.tasks.Keys == {};
    } else {
      var f := Filtered(s.tasks, t => Shown(filter, t));
      assert forall id :: id in f <==> id in s.tasks && Shown(filter, s.tasks[id]);
    }
  }

  /** The end-to-end scenario: add "buy milk" (id 1) and "write report"
      (id 2), toggle 2, delete 1; a reload gives back the same state, and
      clearing everything leaves the counter at 3. */
  lemma Scenario(t1: Time, t2: Time, t3: Time)
    ensures var s := Deleted(Toggled(Added(Added(Store(1, map[]), "buy milk", t1), "write report", t2), 2, t3), 1);
      && s == Store(3, map[2 := Task("write report", true, t2, t3)])
      && Initialized(Store(1, map[]), s.tasks) == s
      && Cleared(s, "a") == Store(3, map[])
  {
    var s2 := Added(Added(Store(1, map[]), "buy milk", t1), "write report", t2);
    assert s2.tasks.Keys == {1, 2};
    var s := Deleted(Toggled(s2, 2, t3), 1);
    var want := map[2 := Task("write report", true, t2, t3)];
    assert s.tasks.Keys == {2};
    assert s.tasks == want;
    assert (map[] + want).Keys == {2};
    MaxKeyIs((map[] + want).Keys, 2);
    ClearKeepsWhatListHides(s, "a");
  }

  /** The clear test: three tasks, the second toggled; clearing "c" drops
      only task 2, clearing "nc" drops the rest, the next two tasks still get
      ids 4 and 5, and clearing with any other filter empties the map. */
  lemma ClearTestScenario(now: Time)
    requires now != ZeroTime
    ensures var s := Toggled(Added(Added(Added(Store(1, map[]), "Task 1", now), "Task 2", now), "Task 3", now), 2, now);
      && Cleared(s, "c").tasks.Keys == {1, 3}
      && Cleared(Cleared(s, "c"), "nc").tasks == map[]
      && Added(Added(Cleared(Cleared(s, "c"), "nc"), "Task 4", now), "Task 5", now).tasks.Keys == {4, 5}
      && Cleared(Added(Added(Cleared(Cleared(s, "c"), "nc"), "Task 4", now), "Task 5", now), "a").tasks == map[]
  {
    var s3 := Added(Added(Added(Store(1, map[]), "Task 1", now), "Task 2", now), "Task 3", now);
    assert s3.tasks.Keys == {1, 2, 3} && s3.nextId == 4;
    var s := Toggled(s3, 2, now);
    assert s.tasks[2].completed && !s.tasks[1].completed && !s.tasks[3].completed;
    ClearKeepsWhatListHides(s, "c");
    var c := Cleared(s, "c");
    assert c.tasks.Keys == {1, 3};
    ClearBothEmpties(s);
    var e := Cleared(c, "nc");
    ClearKeepsWhatListHides(c, "nc");
    assert e.nextId == 4;
    var f := Added(Added(e, "Task 4", now), "Task 5", now);
    assert f.tasks.Keys == {4, 5};
    ClearKeepsWhatListHides(f, "a");
  }

  /** The save test: after two adds to a fresh store, the saved document
      decodes to exactly the two tasks, at ids 1 and 2. */
  lemma SaveTestScenario(now: Time)
    ensures var s := Added(Added(Store(1, map[]), "Task to save 1", now), "Task to save 2", now);
      && Decoded(Document(s.tasks)) == Some(s.tasks)
      && s.tasks.Keys == {1, 2}
      && s.tasks[1].description == "Task to save 1"
      && s.tasks[2].description == "Task to save 2"
  {
    var s := Added(Added(Store(1, map[]), "Task to save 1", now), "Task to save 2", now);
    assert s.tasks.Keys == {1, 2};
  }

  // ---------------------------------------------------------------------
  // Any sequence of operations

  datatype Op =
    | Add(desc: string, now: Time)
    | Delete(id: int)
    | Toggle(id: int, now: Time)
    | Clear(filter: string)

  function Step(s: Store, op: Op): Store
  {
    match op
    case Add(desc, now) => Added(s, desc, now)
    case Delete(id) => Deleted(s, id)
    case Toggle(id, now) => Toggled(s, id, now)
    case Clear(filter) => Cleared(s, filter)
  }

  function Run(s: Store, ops: seq<Op>): Store
    decreases |ops|
  {
    if ops == [] then s else Run(Step(s, ops[0]), ops[1..])
  }

  lemma StepKeepsIds(s: Store, op: Op)
    requires IdsBelowNext(s)
    ensures IdsBelowNext(Step(s, op))
    ensures s.nextId <= Step(s, op).nextId
    ensures forall id :: id < s.nextId && id !in s.tasks ==> id !in Step(s, op).tasks
  {
    match op
    case Clear(filter) => ClearKeepsWhatListHides(s, filter);
    case Toggle(id, now) => ToggleFlipsOnlyId(s, id, now);
    case _ =>
  }

  /** An id that was used and then deleted or cleared is never assigned
      again, whatever operations follow; the counter never decreases. */
  lemma {:induction false} RetiredIdStaysRetired(s: Store, ops: seq<Op>, id: int)
    requires IdsBelowNext(s)
    requires id < s.nextId && id !in s.tasks
    ensures id !in Run(s, ops).tasks
    ensures IdsBelowNext(Run(s, ops)) && s.nextId <= Run(s, ops).nextId
    decreases |ops|
  {
    if ops != [] {
      StepKeepsIds(s, ops[0]);
      RetiredIdStaysRetired(Step(s, ops[0]), ops[1..], id);
    }
  }

  predicate ClockSet(op: Op)
  {
    match op
    case Add(_, now) => now != ZeroTime
    case Toggle(_, now) => now != ZeroTime
    case _ => true
  }

  /** With a clock that never reads the zero time, "completedAt is zero iff
      the task is pending" holds after every run that starts with it. */
  lemma {:induction false} RunKeepsStamps(s: Store, ops: seq<Op>)
    requires AllStamped(s.tasks)
    requires forall i :: 0 <= i < |ops| ==> ClockSet(ops[i])
    ensures AllStamped(Run(s, ops).tasks)
    decreases |ops|
  {
    if ops != [] {
      assert ClockSet(ops[0]);
      if ops[0].Toggle? {
        ToggleFlipsOnlyId(s, ops[0].id, ops[0].now);
      }
      var t := Step(s, ops[0]);
      assert AllStamped(t.tasks);
      RunKeepsStamps(t, ops[1..]);
    }
  }

  // ---------------------------------------------------------------------
  // The TaskManager of src/task_manager.go

  class TaskManager {
    var nextId: int
    var tasks: map<int, Task>
    const path: string
    /** The file at path. */
    var disk: StoredFile
    /** The file at path + ".tmp"; None when there is none. */
    var tmp: Option<StoredFile>

    function Model(): Store
      reads this
    {
      Store(nextId, tasks)
    }

    /** The id invariant, the file was read successfully (a malformed file
        ends the program in Init), and no temporary file is left between
        operations. */
    ghost predicate Valid()
      reads this
    {
      IdsBelowNext(Model()) && (disk.Blank? || disk.Document?) && tmp == None
    }

    /** NewTaskManager: no I/O is done here; onDisk is what the file at path holds. */
    constructor (path: string, onDisk: StoredFile)
      ensures IdsBelowNext(Model()) && tmp == None && Model() == Store(1, map[])
      ensures this.path == path && disk == onDisk
    {
      nextId := 1;
      tasks := map[];
      this.path := path;
      disk := onDisk;
      tmp := None;
    }

    /** Merges the file's entries into the map; a malformed file makes the
        program panic, reported here as ok == false with nothing changed. */
    method LoadTasksFromFile() returns (ok: bool)
      modifies this
      ensures ok <==> !old(disk).Malformed?
      ensures ok ==> tasks == old(tasks) + Decoded(old(disk)).value && disk == AfterLoad(old(disk))
      ensures !ok ==> tasks == old(tasks) && disk == old(disk)
      ensures nextId == old(nextId) && tmp == old(tmp)
    {
      match disk
      case Missing =>
        disk := Blank;
        ok := true;
      case Blank =>
        assert tasks + map[] == tasks;
        ok := true;
      case Document(entries) =>
        tasks := tasks + entries;
        ok := true;
      case Malformed =>
        ok := false;
    }

    /** First step of a save: the temporary file receives the whole map
        while the destination is left as it was. */
    method WriteTemporary()
      modifies this`tmp
      ensures tmp == Some(Document(tasks))
    {
      tmp := Some(Document(tasks));
    }

    /** Second step: the temporary file is renamed over the destination. */
    method RenameOverDestination()
      requires tmp.Some?
      modifies this`tmp, this`disk
      ensures disk == old(tmp).value && tmp == None
    {
      disk := tmp.value;
      tmp := None;
    }

    /** The destination only ever holds the previous complete document or
        the new one. */
    method SaveTasksToFile()
      modifies this`tmp, this`disk
      ensures disk == Document(tasks) && tmp == None
    {
      WriteTemporary();
      assert disk == old(disk);
      RenameOverDestination();
    }

    method Init() returns (ok: bool)
      modifies this
      ensures ok <==> !old(disk).Malformed?
      ensures ok ==> Model() == Initialized(old(Model()), Decoded(old(disk)).value)
      ensures ok ==> disk == AfterLoad(old(disk)) && IdsBelowNext(Model())
      ensures !ok ==> Model() == old(Model()) && disk == old(disk)
      ensures tmp == old(tmp)
      ensures ok && old(tmp) == None ==> Valid()
    {
      ok := LoadTasksFromFile();
      if !ok {
        return;
      }
      ghost var loaded, file, temp := tasks, disk, tmp;
      nextId := 0;
      var rest := tasks.Keys;
      while exists id :: id in rest
        invariant tasks == loaded && disk == file && tmp == temp
        invariant rest <= tasks.Keys
        invariant 0 <= nextId
        invariant forall id :: id in tasks && id !in rest ==> id <= nextId
        invariant nextId == 0 || (nextId in tasks && nextId !in rest)
        decreases rest
      {
        var id :| id in rest;
        nextId := if nextId > id then nextId else id;
        rest := rest - {id};
      }
      MaxKeyIs(tasks.Keys, nextId);
      nextId := nextId + 1;
    }

    /** Adds a task under the next id and reports that id; an empty
        description is ignored and nothing is saved. */
    method AddTask(desc: string, now: Time) returns (newId: Option<int>)
      requires Valid()
      modifies this
      ensures Valid()
      ensures Model() == Added(old(Model()), desc, now)
      ensures newId == if |desc| == 0 then None else Some(old(nextId))
      ensures |desc| > 0 ==> old(nextId) !in old(tasks)
      ensures disk == if |desc| == 0 then old(disk) else Document(tasks)
    {
      if |desc| == 0 {
        newId := None;
        return;
      }
      tasks := tasks[nextId := Task(desc, false, now, ZeroTime)];
      nextId := nextId + 1;
      SaveTasksToFile();
      newId := Some(nextId - 1);
    }

    /** DeleteTask exactly as written: a present id is reported as not found
        and kept; an absent id goes through the delete, a save, and a
        "has been deleted" report. */
    method DeleteTaskAsWritten(id: int) returns (reportedDeleted: bool)
      requires Valid()
      modifies this
      ensures Valid()
      ensures reportedDeleted <==> id !in old(tasks)
      ensures Model() == DeletedAsWritten(old(Model()), id) == old(Model())
      ensures disk == if reportedDeleted then Document(tasks) else old(disk)
    {
      if id in tasks {
        return false;
      }
      tasks := tasks - {id};
      SaveTasksToFile();
      return true;
    }

    /** DeleteTask as its test expects it: a present id is removed and saved,
        an absent id is reported and nothing changes. */
    method DeleteTask(id: int) returns (found: bool)
      requires Valid()
      modifies this
      ensures Valid()
      ensures found <==> id in old(tasks)
      ensures Model() == Deleted(old(Model()), id)
      ensures disk == if found then Document(tasks) else old(disk)
    {
      if id !in tasks {
        assert tasks - {id} == tasks;
        return false;
      }
      tasks := tasks - {id};
      SaveTasksToFile();
      return true;
    }

    method ToggleTask(id: int, now: Time) returns (found: bool)
      requires Valid()
      modifies this
      ensures Valid()
      ensures found <==> id in old(tasks)
      ensures Model() == Toggled(old(Model()), id, now)
      ensures disk == if found then Document(tasks) else old(disk)
    {
      if id !in tasks {
        return false;
      }
      var task := tasks[id];
      if task.completed {
        task := task.(completed := false, completedAt := ZeroTime);
      } else {
        task := task.(completed := true, completedAt := now);
      }
      tasks := tasks[id := task];
      SaveTasksToFile();
      return true;
    }

    /** Keeps the tasks the filter does not name and always saves. */
    method ClearTasks(filter: string)
      requires Valid()
      modifies this
      ensures Valid()
      ensures Model() == Cleared(old(Model()), filter)
      ensures disk == Document(tasks)
    {
      var ts := Where(tasks, (t: Task) => (filter == "c" && !t.completed) || (filter == "nc" && t.completed));
      if filter != "c" && filter != "nc" {
        ts := map[];  // clear all
      }
      assert forall id :: id in ts <==> id in tasks && KeptByClear(filter, tasks[id]);
      assert ts == Filtered(tasks, t => KeptByClear(filter, t));
      tasks := ts;
      SaveTasksToFile();
    }

    /** The selection half of ListTasks: which ids are printed, in order. */
    method ListTasks(filter: string) returns (r: Listing)
      ensures r.NoTasks? <==> tasks == map[]
      ensures r.Ids? ==> StrictlyAscending(r.ids)
      ensures r.Ids? ==> forall id :: id in r.ids <==> id in tasks && Shown(filter, tasks[id])
      ensures r == Listed(Model(), filter)
    {
      if |tasks| == 0 {
        assert tasks.Keys == {};
        return NoTasks;
      }
      var ts := Where(tasks, (t: Task) => (filter == "c" && t.completed) || (filter == "nc" && !t.completed));
      if filter != "c" && filter != "nc" {
        ts := tasks;
      }
      assert forall id :: id in ts <==> id in tasks && Shown(filter, tasks[id]);
      assert ts == Filtered(tasks, t => Shown(filter, t));
      r := Ids(SortedIds(ts.Keys));
    }
  }
}
