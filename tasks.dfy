/** Definitions shared by the two map-backed task stores (tm.go and
    src/task_manager.go): the task record, the backing file as the loader
    finds it, the running maximum of the loaded ids, the filtering loop and
    the ascending id order used for listing. */
module Tasks {

  datatype Option<T> = None | Some(value: T)

  /** A timestamp in seconds; ZeroTime stands for Go's zero time.Time. */
  type Time = int
  const ZeroTime: Time := 0

  datatype Task = Task(description: string, completed: bool, createdAt: Time, completedAt: Time)

  /** completedAt is the zero time exactly when the task is still pending. */
  predicate Stamped(t: Task)
  {
    (t.completedAt == ZeroTime) <==> !t.completed
  }

  /** What the selection half of ListTasks yields: the distinct "No tasks to
      show" case for an empty store, or the ids to print, in order. */
  datatype Listing = NoTasks | Ids(ids: seq<int>)

  /** The JSON document at the store's path, as LoadTasksFromFile finds it. */
  datatype StoredFile =
    | Missing                            // opened with O_CREATE, so it is created empty
    | Blank                              // zero length: nothing to unmarshal
    | Document(entries: map<int, Task>)  // a well-formed id -> task object
    | Malformed                          // json.Unmarshal fails and the program panics

  /** The entries json.Unmarshal merges into the in-memory map; None when decoding fails. */
  function Decoded(f: StoredFile): Option<map<int, Task>>
  {
    match f
    case Missing => Some(map[])
    case Blank => Some(map[])
    case Document(entries) => Some(entries)
    case Malformed => None
  }

  /** The file left behind by loading it: a missing file has been created empty. */
  function AfterLoad(f: StoredFile): StoredFile
  {
    if f.Missing? then Blank else f
  }

  /** The running maximum Init computes: it starts at 0 and takes the max with every id. */
  ghost function MaxKey(ks: set<int>): (m: int)
    ensures 0 <= m
    ensures forall k :: k in ks ==> k <= m
    ensures m == 0 || m in ks
    decreases ks
  {
    if exists k :: k in ks then
      var k :| k in ks;
      var rest := MaxKey(ks - {k});
      assert forall j :: j in ks ==> j == k || j in ks - {k};
      if k > rest then k else rest
    else
      0
  }

  /** The three properties of MaxKey determine it. */
  lemma MaxKeyIs(ks: set<int>, m: int)
    requires 0 <= m
    requires forall k :: k in ks ==> k <= m
    requires m == 0 || m in ks
    ensures MaxKey(ks) == m
  {
  }

  predicate StrictlyAscending(s: seq<int>)
  {
    forall i, j :: 0 <= i < j < |s| ==> s[i] < s[j]
  }

  lemma {:induction false} MinExists(ks: set<int>)
    requires exists k :: k in ks
    ensures exists m :: m in ks && forall k :: k in ks ==> m <= k
    decreases ks
  {
    var x :| x in ks;
    assert forall k :: k in ks ==> k == x || k in ks - {x};
    if forall k :: k !in ks - {x} {
      assert forall k :: k in ks ==> x <= k;
    } else {
      MinExists(ks - {x});
      var m :| m in ks - {x} && forall k :: k in ks - {x} ==> m <= k;
      if x < m {
        assert forall k :: k in ks ==> x <= k;
      } else {
        assert forall k :: k in ks ==> m <= k;
      }
    }
  }

  /** Putting the least element in front of an ascending listing of the
      others gives an ascending listing of the whole set. */
  lemma PrependLeast(ks: set<int>, m: int, rest: seq<int>)
    requires m in ks && forall k :: k in ks ==> m <= k
    requires StrictlyAscending(rest)
    requires forall k :: k in rest <==> k in ks - {m}
    requires |rest| == |ks - {m}|
    ensures StrictlyAscending([m] + rest)
    ensures forall k :: k in [m] + rest <==> k in ks
    ensures |[m] + rest| == |ks|
  {
    forall j | 0 <= j < |rest|
      ensures m < rest[j]
    {
      assert rest[j] in rest;
    }
  }

  /** The ids of a set in ascending order: what collecting the keys and
      sort.Ints produce for ListTasks. */
  function SortedIds(ks: set<int>): (s: seq<int>)
    ensures StrictlyAscending(s)
    ensures forall k :: k in s <==> k in ks
    ensures |s| == |ks|
    decreases ks
  {
    if exists k :: k in ks then
      MinExists(ks);
      var m :| m in ks && forall k :: k in ks ==> m <= k;
      var rest := SortedIds(ks - {m});
      PrependLeast(ks, m, rest);
      [m] + rest
    else
      assert ks == {};
      []
  }

  /** The entries of m whose task satisfies keep. */
  function Filtered(m: map<int, Task>, keep: Task -> bool): map<int, Task>
  {
    map id | id in m && keep(m[id]) :: m[id]
  }

  /** The loop the source writes to build a filtered copy `ts` of the task map. */
  method Where(m: map<int, Task>, keep: Task -> bool) returns (ts: map<int, Task>)
    ensures forall id :: id in ts <==> id in m && keep(m[id])
    ensures forall id :: id in ts ==> ts[id] == m[id]
    ensures ts == Filtered(m, keep)
  {
    ts := map[];
    var rest := m.Keys;
    while exists id :: id in rest
      invariant rest <= m.Keys
      invariant forall id :: id in ts <==> id in m && id !in rest && keep(m[id])
      invariant forall id :: id in ts ==> ts[id] == m[id]
      decreases rest
    {
      var id :| id in rest;
      if keep(m[id]) {
        ts := ts[id := m[id]];
      }
      rest := rest - {id};
    }
    var f := Filtered(m, keep);
    assert forall id :: id in ts.Keys <==> id in f.Keys;
    assert ts.Keys == f.Keys;
  }
}
