/** The earliest task store, of main.go: every task carries its own int32
    ID, the tasks live in a slice in insertion order, and the manager keeps
    the largest ID handed out so far. */
module SliceStore {
  import Tasks

  type Time = Tasks.Time
  const ZeroTime: Time := Tasks.ZeroTime

  newtype Int32 = x: int | -0x8000_0000 <= x < 0x8000_0000
  const MaxInt32: Int32 := 0x7fff_ffff
  const MinInt32: Int32 := -0x8000_0000

  /** Go's int32 increment: it wraps around to MinInt32 at the top. */
  function Inc32(x: Int32): Int32
  {
    if x == MaxInt32 then MinInt32 else x + 1
  }

  datatype Task = Task(id: Int32, description: string, completed: bool, createdAt: Time, completedAt: Time)

  /** The JSON array at the store's path, as FromFile finds it. */
  datatype StoredList =
    | Missing                      // opened with O_CREATE, so it is created empty
    | Blank                        // zero length: nothing to unmarshal
    | Document(entries: seq<Task>) // json.Unmarshal replaces the slice with these
    | Malformed                    // json.Unmarshal fails and the program panics

  /** Init's running maximum over the slice, starting from 0. */
  function MaxId(ts: seq<Task>): (m: Int32)
    ensures 0 <= m
    ensures forall i :: 0 <= i < |ts| ==> ts[i].id <= m
    ensures m == 0 || exists i :: 0 <= i < |ts| && ts[i].id == m
  {
    if ts == [] then 0
    else
      var rest := MaxId(ts[..|ts| - 1]);
      var last := ts[|ts| - 1].id;
      if last > rest then last else rest
  }

  ghost predicate IdsAtMost(ts: seq<Task>, bound: Int32)
  {
    forall i :: 0 <= i < |ts| ==> ts[i].id <= bound
  }

  ghost predicate UniqueIds(ts: seq<Task>)
  {
    forall i, j :: 0 <= i < j < |ts| ==> ts[i].id != ts[j].id
  }

  /** The index of the first task that carries id, if any. */
  function FirstMatch(ts: seq<Task>, id: Int32): (k: Tasks.Option<nat>)
    ensures k.Some? ==> k.value < |ts| && ts[k.value].id == id
    ensures k.Some? ==> forall j :: 0 <= j < k.value ==> ts[j].id != id
    ensures k.None? ==> forall j :: 0 <= j < |ts| ==> ts[j].id != id
  {
    if ts == [] then Tasks.None
    else if ts[0].id == id then Tasks.Some(0)
    else
      match FirstMatch(ts[1..], id)
      case None => Tasks.None
      case Some(k) => Tasks.Some(k + 1)
  }

  /** The index DeleteTask removes: the first match, or 0 when the search
      finds nothing and idx keeps its zero value. */
  function DeleteIndex(ts: seq<Task>, id: Int32): nat
  {
    match FirstMatch(ts, id)
    case Some(k) => k
    case None => 0
  }

  /** The slice after DeleteTask: one element spliced out. */
  function Removed(ts: seq<Task>, id: Int32): seq<Task>
    requires |ts| > 0
  {
    var k := DeleteIndex(ts, id);
    ts[..k] + ts[k + 1..]
  }

  /** The slice after the corrected delete: unchanged when no task matches. */
  function RemovedIfPresent(ts: seq<Task>, id: Int32): seq<Task>
  {
    match FirstMatch(ts, id)
    case Some(k) => ts[..k] + ts[k + 1..]
    case None => ts
  }

  /** The slice after CompleteTask: the first matching task is marked done. */
  function MarkedCompleted(ts: seq<Task>, id: Int32, now: Time): seq<Task>
  {
    match FirstMatch(ts, id)
    case Some(k) => ts[k := ts[k].(completed := true, completedAt := now)]
    case None => ts
  }

  // ---------------------------------------------------------------------
  // Properties

  /** The first match is the only index that is a match with no match before it. */
  lemma FirstMatchIs(ts: seq<Task>, id: Int32, k: nat)
    requires k < |ts| && ts[k].id == id
    requires forall j :: 0 <= j < k ==> ts[j].id != id
    ensures FirstMatch(ts, id) == Tasks.Some(k)
  {
  }

  /** Init on a store whose file holds no tasks resets the counter from the
      1 of main's literal to 0, so the first task still gets ID 1. */
  lemma EmptyLoadRestartsAtOne()
    ensures MaxId([]) == 0 && Inc32(MaxId([])) == 1
  {
  }

  /** Below the int32 limit the appended ID is larger than every ID in the
      slice, so it is fresh, and both the bound and uniqueness carry over. */
  lemma AppendedIdIsFresh(ts: seq<Task>, currMaxId: Int32, desc: string, now: Time)
    requires IdsAtMost(ts, currMaxId) && currMaxId < MaxInt32
    ensures var t := Task(Inc32(currMaxId), desc, false, now, ZeroTime);
      && t.id as int == currMaxId as int + 1
      && (forall i :: 0 <= i < |ts| ==> ts[i].id < t.id)
      && IdsAtMost(ts + [t], t.id)
      && (UniqueIds(ts) ==> UniqueIds(ts + [t]))
  {
  }

  /** At the int32 limit the increment wraps: the appended ID is MinInt32,
      below the IDs already in the slice, and the bound is lost. */
  lemma AppendAtLimitWraps(t0: Task, desc: string, now: Time)
    requires t0.id == MaxInt32
    ensures Inc32(MaxInt32) == MinInt32
    ensures !IdsAtMost([t0] + [Task(Inc32(MaxInt32), desc, false, now, ZeroTime)], Inc32(MaxInt32))
  {
    var s := [t0] + [Task(Inc32(MaxInt32), desc, false, now, ZeroTime)];
    assert s[0].id > Inc32(MaxInt32);
  }

  /** DeleteTask splices out one element and keeps the order of the others:
      the first task carrying id when there is one, otherwise the first task. */
  lemma RemovedSplicesOne(ts: seq<Task>, id: Int32)
    requires |ts| > 0
    ensures var r := Removed(ts, id); var k := DeleteIndex(ts, id);
      && k < |ts|
      && |r| == |ts| - 1
      && (forall j :: 0 <= j < k ==> r[j] == ts[j])
      && (forall j :: k <= j < |r| ==> r[j] == ts[j + 1])
      && ((exists j :: 0 <= j < |ts| && ts[j].id == id) ==>
            ts[k].id == id && forall j :: 0 <= j < k ==> ts[j].id != id)
      && ((forall j :: 0 <= j < |ts| ==> ts[j].id != id) ==> r == ts[1..])
  {
    var k := DeleteIndex(ts, id);
    var r := Removed(ts, id);
    if FirstMatch(ts, id).None? {
      assert k == 0;
      assert r == ts[1..];
    }
  }

  /** Removing one element keeps the IDs below the bound and distinct. */
  lemma SpliceKeepsIds(ts: seq<Task>, k: nat, bound: Int32)
    requires k < |ts|
    ensures IdsAtMost(ts, bound) ==> IdsAtMost(ts[..k] + ts[k + 1..], bound)
    ensures UniqueIds(ts) ==> UniqueIds(ts[..k] + ts[k + 1..])
  {
    var r := ts[..k] + ts[k + 1..];
    assert forall j :: 0 <= j < |r| ==> r[j] == ts[if j < k then j else j + 1];
  }

  /** CompleteTask marks the first matching task only: IDs, descriptions,
      creation times and the length are kept, every other task is untouched,
      and with no match nothing changes. */
  lemma MarkingTouchesFirstMatchOnly(ts: seq<Task>, id: Int32, now: Time)
    ensures var r := MarkedCompleted(ts, id, now);
      && |r| == |ts|
      && (forall j :: 0 <= j < |ts| ==> r[j].id == ts[j].id && r[j].description == ts[j].description
                                         && r[j].createdAt == ts[j].createdAt)
      && (FirstMatch(ts, id).None? ==> r == ts)
      && (FirstMatch(ts, id).Some? ==>
            var k := FirstMatch(ts, id).value;
            && r[k].completed && r[k].completedAt == now
            && forall j :: 0 <= j < |ts| && j != k ==> r[j] == ts[j])
  {
  }

  /** The corrected delete: a missing id changes nothing, a present one
      removes only its first occurrence. */
  lemma RemovedIfPresentIsSafe(ts: seq<Task>, id: Int32)
    ensures (forall j :: 0 <= j < |ts| ==> ts[j].id != id) ==> RemovedIfPresent(ts, id) == ts
    ensures (exists j :: 0 <= j < |ts| && ts[j].id == id) ==>
      && |ts| > 0
      && RemovedIfPresent(ts, id) == Removed(ts, id)
      && |RemovedIfPresent(ts, id)| == |ts| - 1
  {
    if exists j :: 0 <= j < |ts| && ts[j].id == id {
      assert FirstMatch(ts, id).Some?;
    }
  }

  /** With the program's own delete, asking to delete an ID that no task
      carries removes the first task instead. */
  lemma DeleteOfMissingIdRemovesFirstTask(t1: Task, t2: Task)
    requires t1.id == 1 && t2.id == 2
    ensures Removed([t1, t2], 99) == [t2]
    ensures RemovedIfPresent([t1, t2], 99) == [t1, t2]
  {
    assert FirstMatch([t1, t2], 99).None?;
  }

  // ---------------------------------------------------------------------
  // The TaskManager of main.go

  class TaskManager {
    var currMaxId: Int32
    var tasks: seq<Task>
    const path: string
    /** The file at path. */
    var disk: StoredList

    /** Every ID is at most the counter, so the next ID is fresh. */
    ghost predicate Valid()
      reads this
    {
      IdsAtMost(tasks, currMaxId)
    }

    /** The literal main builds: counter 1, no tasks. onDisk is what the file at path holds. */
    constructor (path: string, onDisk: StoredList)
      ensures currMaxId == 1 && tasks == [] && Valid()
      ensures this.path == path && disk == onDisk
    {
      currMaxId := 1;
      tasks := [];
      this.path := path;
      disk := onDisk;
    }

    /** Replaces the slice with the file's array; a malformed file makes the
        program panic, reported here as ok == false with nothing changed. */
    method FromFile() returns (ok: bool)
      modifies this
      ensures ok <==> !old(disk).Malformed?
      ensures tasks == if old(disk).Document? then old(disk).entries else old(tasks)
      ensures disk == if old(disk).Missing? then Blank else old(disk)
      ensures currMaxId == old(currMaxId)
    {
      match disk
      case Missing =>
        disk := Blank;
        ok := true;
      case Blank =>
        ok := true;
      case Document(entries) =>
        tasks := entries;
        ok := true;
      case Malformed =>
        ok := false;
    }

    method Init() returns (ok: bool)
      modifies this
      ensures ok <==> !old(disk).Malformed?
      ensures tasks == if old(disk).Document? then old(disk).entries else old(tasks)
      ensures ok ==> currMaxId == MaxId(tasks) && Valid()
      ensures !ok ==> currMaxId == old(currMaxId)
      ensures disk == if old(disk).Missing? then Blank else old(disk)
    {
      ok := FromFile();
      if !ok {
        return;
      }
      var maxId: Int32 := 0;
      for i := 0 to |tasks|
        invariant maxId == MaxId(tasks[..i])
      {
        assert tasks[..i + 1][..i] == tasks[..i];
        if tasks[i].id > maxId {
          maxId := tasks[i].id;
        }
      }
      assert tasks[..|tasks|] == tasks;
      currMaxId := maxId;
    }

    /** Appends a task with the next ID; there is no check on the description. */
    method AddTask(desc: string, now: Time)
      modifies this
      ensures currMaxId == Inc32(old(currMaxId))
      ensures tasks == old(tasks) + [Task(currMaxId, desc, false, now, ZeroTime)]
      ensures old(Valid()) && old(currMaxId) < MaxInt32 ==> Valid()
      ensures old(Valid()) && old(currMaxId) < MaxInt32 && old(UniqueIds(tasks)) ==> UniqueIds(tasks)
      ensures disk == old(disk)
    {
      if Valid() && currMaxId < MaxInt32 {
        AppendedIdIsFresh(tasks, currMaxId, desc, now);
      }
      var newTask := Task(Inc32(currMaxId), desc, false, now, ZeroTime);
      tasks := tasks + [newTask];
      currMaxId := Inc32(currMaxId);
    }

    /** The linear search with break, then the splice; on an empty slice the
        splice is out of range and the program panics. */
    method DeleteTask(id: Int32)
      requires |tasks| > 0
      modifies this
      ensures tasks == Removed(old(tasks), id)
      ensures old(Valid()) ==> Valid()
      ensures old(UniqueIds(tasks)) ==> UniqueIds(tasks)
      ensures currMaxId == old(currMaxId) && disk == old(disk)
    {
      var idx := 0;
      var i := 0;
      while i < |tasks|
        invariant 0 <= i <= |tasks|
        invariant idx == 0
        invariant forall j :: 0 <= j < i ==> tasks[j].id != id
      {
        if tasks[i].id == id {
          idx := i;
          break;
        }
        i := i + 1;
      }
      if i < |tasks| {
        FirstMatchIs(tasks, id, idx);
      }
      SpliceKeepsIds(tasks, idx, currMaxId);
      tasks := tasks[..idx] + tasks[idx + 1..];
    }

    /** The delete the search evidently intends: nothing is removed when no
        task carries id. */
    method DeleteTaskIfPresent(id: Int32) returns (found: bool)
      modifies this
      ensures found <==> exists j :: 0 <= j < |old(tasks)| && old(tasks)[j].id == id
      ensures tasks == RemovedIfPresent(old(tasks), id)
      ensures old(Valid()) ==> Valid()
      ensures old(UniqueIds(tasks)) ==> UniqueIds(tasks)
      ensures currMaxId == old(currMaxId) && disk == old(disk)
    {
      var i := 0;
      while i < |tasks|
        invariant 0 <= i <= |tasks|
        invariant forall j :: 0 <= j < i ==> tasks[j].id != id
      {
        if tasks[i].id == id {
          FirstMatchIs(tasks, id, i);
          SpliceKeepsIds(tasks, i, currMaxId);
          tasks := tasks[..i] + tasks[i + 1..];
          return true;
        }
        i := i + 1;
      }
      return false;
    }

    /** Marks the first task carrying id as completed, in place. */
    method CompleteTask(id: Int32, now: Time)
      modifies this
      ensures tasks == MarkedCompleted(old(tasks), id, now)
      ensures old(Valid()) ==> Valid()
      ensures old(UniqueIds(tasks)) ==> UniqueIds(tasks)
      ensures currMaxId == old(currMaxId) && disk == old(disk)
    {
      var i := 0;
      while i < |tasks|
        invariant 0 <= i <= |tasks|
        invariant forall j :: 0 <= j < i ==> tasks[j].id != id
      {
        if tasks[i].id == id {
          FirstMatchIs(tasks, id, i);
          tasks := tasks[i := tasks[i].(completed := true, completedAt := now)];
          return;
        }
        i := i + 1;
      }
    }
  }
}
