/** The map-backed task store of tm.go: a TaskManager that holds an id
    counter and an id -> task map, and writes the whole map to its file
    after every change. Filters are the strings "completed" and "pending". */
module TmStore {
  import opened Tasks
  import opened MapStore

  /** The tasks ListTasks shows for a filter string. */
  predicate Shown(filter: string, t: Task)
  {
    if filter == "completed" then t.completed
    else if filter == "pending" then !t.completed
    else true
  }

  /** The tasks ClearTasks keeps for a filter string; any other string clears all. */
  predicate KeptByClear(filter: string, t: Task)
  {
    if filter == "completed" then !t.completed
    else if filter == "pending" then t.completed
    else false
  }

  // ---------------------------------------------------------------------
  // The effect of each operation on the abstract state

  function MarkedCompleted(s: Store, id: int, now: Time): Store
  {
    if id in s.tasks then s.(tasks := s.tasks[id := s.tasks[id].(completed := true, completedAt := now)])
    else s
  }

  function MarkedPending(s: Store, id: int): Store
  {
    if id in s.tasks then s.(tasks := s.tasks[id := s.tasks[id].(completed := false, completedAt := ZeroTime)])
    else s
  }

  function Cleared(s: Store, filter: string): Store
  {
    s.(tasks := Filtered(s.tasks, t => KeptByClear(filter, t)))
  }

  function Listed(s: Store, filter: string): Listing
  {
    if |s.tasks| == 0 then NoTasks
    else Ids(SortedIds(Filtered(s.tasks, t => Shown(filter, t)).Keys))
  }

  // ---------------------------------------------------------------------
  // Properties of single operations

  /** Complete and Uncheck change only the flag and completedAt of a present
      task, keep description and createdAt, and keep tasks stamped. */
  lemma MarkingKeepsTheRest(s: Store, id: int, now: Time)
    requires id in s.tasks
    ensures var c := MarkedCompleted(s, id, now).tasks;
      && c.Keys == s.tasks.Keys
      && c[id] == Task(s.tasks[id].description, true, s.tasks[id].createdAt, now)
      && (forall k :: k in s.tasks && k != id ==> c[k] == s.tasks[k])
      && (now != ZeroTime ==> Stamped(c[id]))
    ensures var p := MarkedPending(s, id).tasks;
      && p.Keys == s.tasks.Keys
      && p[id] == Task(s.tasks[id].description, false, s.tasks[id].createdAt, ZeroTime)
      && (forall k :: k in s.tasks && k != id ==> p[k] == s.tasks[k])
      && Stamped(p[id])
  {
  }

  /** ClearTasks keeps exactly the tasks ListTasks would not show for the
      same filter, so "completed" keeps the pending tasks, "pending" keeps
      the completed ones, and every other string empties the map. */
  lemma ClearKeepsWhatListHides(s: Store, filter: string)
    ensures forall id :: id in Cleared(s, filter).tasks <==> id in s.tasks && !Shown(filter, s.tasks[id])
    ensures filter != "completed" && filter != "pending" ==> Cleared(s, filter).tasks == map[]
    ensures Cleared(s, filter).nextId == s.nextId
  {
    var c := Cleared(s, filter).tasks;
    assert forall id :: id in c <==> id in s.tasks && KeptByClear(filter, s.tasks[id]);
    if filter != "completed" && filter != "pending" {
      assert c.Keys == {};
    }
  }

  /** Clearing the completed tasks and then the pending ones empties the store. */
  lemma ClearBothEmpties(s: Store)
    ensures Cleared(Cleared(s, "completed"), "pending").tasks == map[]
  {
    var once := Cleared(s, "completed").tasks;
    assert forall id :: id in once ==> !once[id].completed;
    var twice := Cleared(Cleared(s, "completed"), "pending").tasks;
    assert forall id :: id in twice ==> id in once && once[id].completed;
    assert twice.Keys == {};
  }

  /** The selection half of ListTasks: "No tasks to show" exactly for an
      empty store, otherwise the matching ids, each once, ascending. */
  lemma ListSelectsMatchingIds(s: Store, filter: string)
    ensures Listed(s, filter).NoTasks? <==> s.tasks == map[]
    ensures Listed(s, filter).Ids? ==>
      && StrictlyAscending(Listed(s, filter).ids)
      && forall id :: id in Listed(s, filter).ids <==> id in s.tasks && Shown(filter, s.tasks[id])
  {
    if |s.tasks| == 0 {
      assert s.tasks.Keys == {};
    } else {
      var f := Filtered(s.tasks, t => Shown(filter, t));
      assert forall id :: id in f <==> id in s.tasks && Shown(filter, s.tasks[id]);
    }
  }

  // ---------------------------------------------------------------------
  // Any sequence of operations

  datatype Op =
    | Add(desc: string, now: Time)
    | Delete(id: int)
    | Complete(id: int, now: Time)
    | Uncheck(id: int)
    | Clear(filter: string)

  function Step(s: Store, op: Op): Store
  {
    match op
    case Add(desc, now) => Added(s, desc, now)
    case Delete(id) => Deleted(s, id)
    case Complete(id, now) => MarkedCompleted(s, id, now)
    case Uncheck(id) => MarkedPending(s, id)
    case Clear(filter) => Cleared(s, filter)
  }

  function Run(s: Store, ops: seq<Op>): Store
    decreases |ops|
  {
    if ops == [] then s else Run(Step(s, ops[0]), ops[1..])
  }

  /** Every step keeps the id invariant, never lowers the counter, and
      never brings back an unused id below the counter. */
  lemma StepKeepsIds(s: Store, op: Op)
    requires IdsBelowNext(s)
    ensures IdsBelowNext(Step(s, op))
    ensures s.nextId <= Step(s, op).nextId
    ensures forall id :: id < s.nextId && id !in s.tasks ==> id !in Step(s, op).tasks
  {
    if op.Clear? {
      ClearKeepsWhatListHides(s, op.filter);
    }
  }

  /** Over any run the invariant holds and the counter never decreases. */
  lemma {:induction false} RunKeepsIds(s: Store, ops: seq<Op>)
    requires IdsBelowNext(s)
    ensures IdsBelowNext(Run(s, ops))
    ensures s.nextId <= Run(s, ops).nextId
    decreases |ops|
  {
    if ops != [] {
      StepKeepsIds(s, ops[0]);
      RunKeepsIds(Step(s, ops[0]), ops[1..]);
    }
  }

  /** An id that was used and then deleted or cleared is never reused. */
  lemma {:induction false} RetiredIdStaysRetired(s: Store, ops: seq<Op>, id: int)
    requires IdsBelowNext(s)
    requires id < s.nextId && id !in s.tasks
    ensures id !in Run(s, ops).tasks
    decreases |ops|
  {
    if ops != [] {
      StepKeepsIds(s, ops[0]);
      RetiredIdStaysRetired(Step(s, ops[0]), ops[1..], id);
    }
  }

  predicate ClockSet(op: Op)
  {
    match op
    case Add(_, now) => now != ZeroTime
    case Complete(_, now) => now != ZeroTime
    case _ => true
  }

  /** With a clock that never reads the zero time, "completedAt is zero iff
      the task is pending" holds after every run that starts with it. */
  lemma {:induction false} RunKeepsStamps(s: Store, ops: seq<Op>)
    requires AllStamped(s.tasks)
    requires forall i :: 0 <= i < |ops| ==> ClockSet(ops[i])
    ensures AllStamped(Run(s, ops).tasks)
    decreases |ops|
  {
    if ops != [] {
      var t := Step(s, ops[0]);
      assert ClockSet(ops[0]);
      assert AllStamped(t.tasks);
      RunKeepsStamps(t, ops[1..]);
    }
  }

  // ---------------------------------------------------------------------
  // The TaskManager of tm.go

  class TaskManager {
    var nextId: int
    var tasks: map<int, Task>
    const path: string
    /** The file at path. */
    var disk: StoredFile

    function Model(): Store
      reads this
    {
      Store(nextId, tasks)
    }

    /** The id invariant, and the file exists and was read successfully:
        SaveTasksToFile opens it without O_CREATE, and a malformed file ends
        the program in Init, so only a store Init has loaded is changed. */
    ghost predicate Valid()
      reads this
    {
      IdsBelowNext(Model()) && (disk.Blank? || disk.Document?)
    }

    /** NewTaskManager: no I/O is done here; onDisk is what the file at path holds. */
    constructor (path: string, onDisk: StoredFile)
      ensures IdsBelowNext(Model()) && Model() == Store(1, map[])
      ensures this.path == path && disk == onDisk
    {
      nextId := 1;
      tasks := map[];
      this.path := path;
      disk := onDisk;
    }

    /** Merges the file's entries into the map; a malformed file makes the
        program panic, reported here as ok == false with nothing changed. */
    method LoadTasksFromFile() returns (ok: bool)
      modifies this
      ensures ok <==> !old(disk).Malformed?
      ensures ok ==> tasks == old(tasks) + Decoded(old(disk)).value && disk == AfterLoad(old(disk))
      ensures !ok ==> tasks == old(tasks) && disk == old(disk)
      ensures nextId == old(nextId)
    {
      match disk
      case Missing =>
        disk := Blank;
        ok := true;
      case Blank =>
        assert tasks + map[] == tasks;
        ok := true;
      case Document(entries) =>
        tasks := tasks + entries;
        ok := true;
      case Malformed =>
        ok := false;
    }

    /** Truncates the existing file and writes the whole map to it; on a
        missing file the open fails and the program panics. */
    method SaveTasksToFile()
      requires !disk.Missing?
      modifies this`disk
      ensures disk == Document(tasks)
    {
      disk := Document(tasks);
    }

    method Init() returns (ok: bool)
      modifies this
      ensures ok <==> !old(disk).Malformed?
      ensures ok ==> Model() == Initialized(old(Model()), Decoded(old(disk)).value)
      ensures ok ==> disk == AfterLoad(old(disk)) && Valid()
      ensures !ok ==> Model() == old(Model()) && disk == old(disk)
    {
      ok := LoadTasksFromFile();
      if !ok {
        return;
      }
      ghost var loaded, file := tasks, disk;
      nextId := 0;
      var rest := tasks.Keys;
      while exists id :: id in rest
        invariant tasks == loaded && disk == file
        invariant rest <= tasks.Keys
        invariant 0 <= nextId
        invariant forall id :: id in tasks && id !in rest ==> id <= nextId
        invariant nextId == 0 || (nextId in tasks && nextId !in rest)
        decreases rest
      {
        var id :| id in rest;
        nextId := if nextId > id then nextId else id;
        rest := rest - {id};
      }
      MaxKeyIs(tasks.Keys, nextId);
      nextId := nextId + 1;
    }

    /** Adds a task under the next id and reports that id; an empty
        description is ignored and nothing is saved. */
    method AddTask(desc: string, now: Time) returns (newId: Option<int>)
      requires Valid()
      modifies this
      ensures Valid()
      ensures Model() == Added(old(Model()), desc, now)
      ensures newId == if |desc| == 0 then None else Some(old(nextId))
      ensures |desc| > 0 ==> old(nextId) !in old(tasks)
      ensures disk == if |desc| == 0 then old(disk) else Document(tasks)
    {
      if |desc| == 0 {
        newId := None;
        return;
      }
      tasks := tasks[nextId := Task(desc, false, now, ZeroTime)];
      nextId := nextId + 1;
      SaveTasksToFile();
      newId := Some(nextId - 1);
    }

    /** Removes a present id and saves; an absent id is reported and nothing is saved. */
    method DeleteTask(id: int) returns (found: bool)
      requires Valid()
      modifies this
      ensures Valid()
      ensures found <==> id in old(tasks)
      ensures Model() == Deleted(old(Model()), id)
      ensures disk == if found then Document(tasks) else old(disk)
    {
      if id in tasks {
        tasks := tasks - {id};
        SaveTasksToFile();
        return true;
      }
      assert tasks - {id} == tasks;
      return false;
    }

    method CompleteTask(id: int, now: Time) returns (found: bool)
      requires Valid()
      modifies this
      ensures Valid()
      ensures found <==> id in old(tasks)
      ensures Model() == MarkedCompleted(old(Model()), id, now)
      ensures disk == if found then Document(tasks) else old(disk)
    {
      if id in tasks {
        var task := tasks[id];
        task := task.(completed := true, completedAt := now);
        tasks := tasks[id := task];
        SaveTasksToFile();
        return true;
      }
      return false;
    }

    method UncheckTask(id: int) returns (found: bool)
      requires Valid()
      modifies this
      ensures Valid()
      ensures found <==> id in old(tasks)
      ensures Model() == MarkedPending(old(Model()), id)
      ensures disk == if found then Document(tasks) else old(disk)
    {
      if id in tasks {
        var task := tasks[id];
        task := task.(completed := false, completedAt := ZeroTime);
        tasks := tasks[id := task];
        SaveTasksToFile();
        return true;
      }
      return false;
    }

    /** Keeps the tasks the filter does not name and always saves. */
    method ClearTasks(filter: string)
      requires Valid()
      modifies this
      ensures Valid()
      ensures Model() == Cleared(old(Model()), filter)
      ensures disk == Document(tasks)
    {
      var ts: map<int, Task> := map[];
      if filter == "completed" {
        ts := Where(tasks, (t: Task) => !t.completed);
      } else if filter == "pending" {
        ts := Where(tasks, (t: Task) => t.completed);
      }
      // any other filter clears every task
      assert ts == Filtered(tasks, t => KeptByClear(filter, t));
      tasks := ts;
      SaveTasksToFile();
    }

    /** The selection half of ListTasks: which ids are printed, in order. */
    method ListTasks(filter: string) returns (r: Listing)
      ensures r.NoTasks? <==> tasks == map[]
      ensures r.Ids? ==> StrictlyAscending(r.ids)
      ensures r.Ids? ==> forall id :: id in r.ids <==> id in tasks && Shown(filter, tasks[id])
      ensures r == Listed(Model(), filter)
    {
      if |tasks| == 0 {
        assert tasks.Keys == {};
        return NoTasks;
      }
      var ts: map<int, Task>;
      if filter == "completed" {
        ts := Where(tasks, (t: Task) => t.completed);
      } else if filter == "pending" {
        ts := Where(tasks, (t: Task) => !t.completed);
      } else {
        ts := tasks;
      }
      assert forall id :: id in ts <==> id in tasks && Shown(filter, tasks[id]);
      assert ts == Filtered(tasks, t => Shown(filter, t));
      r := Ids(SortedIds(ts.Keys));
    }
  }
}
