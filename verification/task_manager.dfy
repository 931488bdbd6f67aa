/** `TaskManager` of src/task.rs: the in-memory task list loaded once from
    the store, queried and changed in place, and written back by `sync` only
    when a change was made. */
module TaskManagement {
  import opened Outcomes
  import opened StdText
  import opened LineCodec
  import opened TaskRecord

  /** The position of the first task with the given id (`get_index`). */
  function FirstIndexOf(ts: seq<Task>, id: string): (r: Option<nat>)
    ensures r.Some? ==> r.value < |ts| && ts[r.value].id == id
    ensures r.Some? ==> forall j :: 0 <= j < r.value ==> ts[j].id != id
    ensures r.None? <==> forall j :: 0 <= j < |ts| ==> ts[j].id != id
  {
    if ts == [] then None
    else if ts[0].id == id then Some(0)
    else match FirstIndexOf(ts[1..], id)
      case None => None
      case Some(i) => Some(i + 1)
  }

  /** The tasks not yet done, in stored order (`unfinished`). */
  function Pending(ts: seq<Task>): (r: seq<Task>)
    ensures |r| <= |ts|
    ensures forall t :: t in r <==> t in ts && !t.done
  {
    if ts == [] then []
    else if ts[0].done then Pending(ts[1..])
    else [ts[0]] + Pending(ts[1..])
  }

  /** The order of the unfinished tasks is the stored order: filtering works
      piece by piece. */
  lemma {:induction false} PendingAppend(a: seq<Task>, b: seq<Task>)
    ensures Pending(a + b) == Pending(a) + Pending(b)
  {
    if a == [] {
      assert a + b == b;
    } else {
      assert (a + b)[0] == a[0] && (a + b)[1..] == a[1..] + b;
      PendingAppend(a[1..], b);
      if !a[0].done {
        Associative([a[0]], Pending(a[1..]), Pending(b));
      }
    }
  }

  /** The effect of `done` on the list: the first task with the id gets its
      flag set, nothing else changes, and no flag is ever cleared. */
  function MarkFirstDone(ts: seq<Task>, id: string): (r: seq<Task>)
    ensures |r| == |ts|
    ensures forall k :: 0 <= k < |ts| ==>
      r[k].id == ts[k].id && r[k].name == ts[k].name && r[k].date == ts[k].date && (ts[k].done ==> r[k].done)
    ensures match FirstIndexOf(ts, id)
      case None => r == ts
      case Some(i) => r[i].done && forall k :: 0 <= k < |ts| && k != i ==> r[k] == ts[k]
  {
    match FirstIndexOf(ts, id)
    case None => ts
    case Some(i) => ts[i := ts[i].(done := true)]
  }

  /** The effect of `remove` on the list: only the first task with the id is
      dropped, the others keep their order. */
  function RemoveFirst(ts: seq<Task>, id: string): (r: seq<Task>)
    ensures match FirstIndexOf(ts, id)
      case None => r == ts
      case Some(i) => |r| == |ts| - 1 && r[..i] == ts[..i] && r[i..] == ts[i + 1..]
    ensures multiset(r) <= multiset(ts)
  {
    match FirstIndexOf(ts, id)
    case None => ts
    case Some(i) =>
      assert ts == ts[..i] + [ts[i]] + ts[i + 1..];
      ts[..i] + ts[i + 1..]
  }

  /** No two tasks share an id. */
  ghost predicate UniqueIds(ts: seq<Task>)
  {
    forall i, j :: 0 <= i < j < |ts| ==> ts[i].id != ts[j].id
  }

  /** Adding a task whose id is not yet used keeps ids unique. */
  lemma AddKeepsIdsUnique(ts: seq<Task>, t: Task)
    requires UniqueIds(ts) && FirstIndexOf(ts, t.id).None?
    ensures UniqueIds(ts + [t])
  {
    forall i, j | 0 <= i < j < |ts + [t]|
      ensures (ts + [t])[i].id != (ts + [t])[j].id
    {
      if j == |ts| {
        assert (ts + [t])[i] == ts[i];
      } else {
        assert (ts + [t])[i] == ts[i] && (ts + [t])[j] == ts[j];
      }
    }
  }

  /** Marking a task done keeps ids unique. */
  lemma MarkFirstDoneKeepsIdsUnique(ts: seq<Task>, id: string)
    requires UniqueIds(ts)
    ensures UniqueIds(MarkFirstDone(ts, id))
  {
  }

  /** Dropping one element keeps ids unique. */
  lemma UniqueIdsWithout(ts: seq<Task>, i: nat)
    requires i < |ts| && UniqueIds(ts)
    ensures UniqueIds(ts[..i] + ts[i + 1..])
  {
    var r := ts[..i] + ts[i + 1..];
    assert forall a :: 0 <= a < i ==> r[a] == ts[a];
    assert forall a :: i <= a < |r| ==> r[a] == ts[a + 1];
  }

  /** Removing a task keeps ids unique. */
  lemma RemoveFirstKeepsIdsUnique(ts: seq<Task>, id: string)
    requires UniqueIds(ts)
    ensures UniqueIds(RemoveFirst(ts, id))
  {
    if FirstIndexOf(ts, id).Some? {
      UniqueIdsWithout(ts, FirstIndexOf(ts, id).value);
    }
  }

  /** With unique ids, removal is idempotent: removing the same id again
      leaves the list unchanged. */
  lemma RemoveFirstIdempotent(ts: seq<Task>, id: string)
    requires UniqueIds(ts)
    ensures RemoveFirst(RemoveFirst(ts, id), id) == RemoveFirst(ts, id)
  {
    var r := RemoveFirst(ts, id);
    match FirstIndexOf(ts, id)
    case None =>
    case Some(i) =>
      forall k | 0 <= k < |r|
        ensures r[k].id != id
      {
        if k < i {
          assert r[k] == r[..i][k];
        } else {
          assert r[k] == r[i..][k - i] == ts[k + 1];
        }
      }
  }

  /** With unique ids, once `done` found the task it is no longer listed as
      unfinished. */
  lemma MarkedTaskNotPending(ts: seq<Task>, id: string)
    requires UniqueIds(ts) && FirstIndexOf(ts, id).Some?
    ensures forall t :: t in Pending(MarkFirstDone(ts, id)) ==> t.id != id
  {
    var r := MarkFirstDone(ts, id);
    var i := FirstIndexOf(ts, id).value;
    forall t | t in Pending(r)
      ensures t.id != id
    {
      var k :| 0 <= k < |r| && r[k] == t;
      if k != i {
        assert ts[k].id == t.id;
      }
    }
  }

  /** The lines the store holds for a task list: one `to_string` line per task. */
  function EncodeTasks(ts: seq<Task>): (lines: seq<string>)
    ensures |lines| == |ts|
    ensures forall k :: 0 <= k < |ts| ==> lines[k] == EncodeTask(ts[k])
  {
    if ts == [] then [] else [EncodeTask(ts[0])] + EncodeTasks(ts[1..])
  }

  /** Reading the store: every line parsed with `Task::parse`, in order; the
      first bad line fails the whole read. */
  function DecodeTasks(lines: seq<string>): Result<seq<Task>, ParseError>
  {
    ReadLines(lines, DecodeTask)
  }

  /** Every list of tasks whose records round-trip and stay on one line each
      comes back from the store unchanged and in order. */
  lemma DecodeEncodeTasks(ts: seq<Task>)
    requires forall k :: 0 <= k < |ts| ==> Encodable(ts[k]) && LineSafe(ts[k])
    ensures DecodeTasks(WrittenLines(EncodeTasks(ts))) == Ok(ts)
  {
    var lines := EncodeTasks(ts);
    forall k | 0 <= k < |ts|
      ensures DecodeTask(lines[k]) == Ok(ts[k]) && LINE_BREAK !in lines[k]
    {
      TaskRoundTrip(ts[k]);
      LineSafeIffOneLine(ts[k]);
    }
    WrittenLinesOfSingleLines(lines);
    ReadEveryLine(lines, ts, DecodeTask);
  }

  /** A name with a line break is not read back: the record is cut into two
      lines, and the first of them ends inside the name, so its date field is
      empty and the read fails. */
  lemma LineBreakInNameIsNotReloaded(t: Task, a: string, b: string)
    requires Plain(t.id) && LINE_BREAK !in t.id
    requires t.name == a + [LINE_BREAK] + b && DELIMITER !in a && LINE_BREAK !in a && LINE_BREAK !in b
    ensures DecodeTasks(WrittenLines(EncodeTasks([t]))) == Err(BadTimestamp([]))
  {
    LineBreakInNameCutsRecord(t, a, b);
    var first := t.id + [DELIMITER] + a;
    var second := Escape(b) + [DELIMITER] + I64Text(t.date) + [DELIMITER] + BoolText(t.done);
    CutLineFails(t.id, a);
    assert [first, second][..1] == [first];
    ReadLinesFailedPrefix([first, second], 1, DecodeTask);
  }

  /** Write failures of the store. */
  datatype StoreError = WriteFailed

  /** The task file as lines, standing in for the store that task.rs reads
      and writes (its own io module is not part of this model); `writes`
      counts the write attempts. */
  class TaskStore {
    var lines: seq<string>
    var writes: nat

    constructor (initial: seq<string>)
      ensures lines == initial && writes == 0
    {
      lines := initial;
      writes := 0;
    }

    /** Read every line and parse it, stopping at the first bad one. */
    method Read() returns (r: Result<seq<Task>, ParseError>)
      ensures r == DecodeTasks(lines)
    {
      var tasks: seq<Task> := [];
      var i := 0;
      while i < |lines|
        invariant 0 <= i <= |lines|
        invariant DecodeTasks(lines[..i]) == Ok(tasks)
      {
        assert lines[..i + 1][..i] == lines[..i];
        var t := ParseTask(lines[i]);
        if t.Err? {
          ReadLinesFailedPrefix(lines, i + 1, DecodeTask);
          return Err(t.error);
        }
        tasks := tasks + [t.value];
        i := i + 1;
      }
      assert lines[..i] == lines;
      r := Ok(tasks);
    }

    /** Replace the file with one `writeln!` per task; `fault` is the I/O
      failure the environment may inject, after which the contents are
      unknown. */
    method Write(tasks: seq<Task>, fault: bool) returns (r: Outcome<StoreError>)
      modifies this
      ensures writes == old(writes) + 1
      ensures r == (if fault then Fail(WriteFailed) else Pass)
      ensures r.Pass? ==> lines == WrittenLines(EncodeTasks(tasks))
    {
      writes := writes + 1;
      if fault {
        return Fail(WriteFailed);
      }
      lines := WrittenLines(EncodeTasks(tasks));
      r := Pass;
    }
  }

  class TaskManager {
    /** All tasks, in stored order. */
    var tasks: seq<Task>
    /** Whether a change has been made since the last successful sync. */
    var dirty: bool

    constructor (loaded: seq<Task>)
      ensures tasks == loaded && !dirty
    {
      tasks := loaded;
      dirty := false;
    }

    /** `load`: read the store once; a parse failure is passed on. */
    static method Load(store: TaskStore) returns (r: Result<TaskManager, ParseError>)
      ensures DecodeTasks(store.lines).Err? ==> r == Err(DecodeTasks(store.lines).error)
      ensures DecodeTasks(store.lines).Ok? ==>
        r.Ok? && fresh(r.value) && r.value.tasks == DecodeTasks(store.lines).value && !r.value.dirty
    {
      var read := store.Read();
      if read.Err? {
        return Err(read.error);
      }
      var m := new TaskManager(read.value);
      r := Ok(m);
    }

    /** `all`: every task, in stored order. */
    function All(): (r: seq<Task>)
      reads this
      ensures |r| == |tasks| && forall k :: 0 <= k < |r| ==> r[k] == tasks[k]
    {
      tasks
    }

    /** `unfinished`: exactly the tasks not done, in stored order. */
    function Unfinished(): (r: seq<Task>)
      reads this
      ensures forall t :: t in r <==> t in tasks && !t.done
    {
      Pending(tasks)
    }

    /** `get_index`: the position of the first task with the id, if any. */
    function GetIndex(taskId: string): (r: Option<nat>)
      reads this
      ensures r.Some? ==> r.value < |tasks| && tasks[r.value].id == taskId
      ensures r.Some? ==> forall j :: 0 <= j < r.value ==> tasks[j].id != taskId
      ensures r.None? <==> forall j :: 0 <= j < |tasks| ==> tasks[j].id != taskId
    {
      FirstIndexOf(tasks, taskId)
    }

    /** `add`: append the task and note the change. */
    method Add(task: Task)
      modifies this
      ensures tasks == old(tasks) + [task] && dirty
    {
      tasks := tasks + [task];
      dirty := true;
    }

    /** `done`: mark the first task with the id done; silent when there is none. */
    method Done(taskId: string)
      modifies this
      ensures tasks == MarkFirstDone(old(tasks), taskId)
      ensures dirty == (old(dirty) || old(GetIndex(taskId)).Some?)
    {
      var index := GetIndex(taskId);
      if index.Some? {
        tasks := tasks[index.value := tasks[index.value].(done := true)];
        dirty := true;
      }
    }

    /** `remove`: drop the first task with the id; silent when there is none. */
    method Remove(taskId: string)
      modifies this
      ensures tasks == RemoveFirst(old(tasks), taskId)
      ensures dirty == (old(dirty) || old(GetIndex(taskId)).Some?)
    {
      var index := GetIndex(taskId);
      if index.Some? {
        tasks := tasks[..index.value] + tasks[index.value + 1..];
        dirty := true;
      }
    }

    /** `sync`: write the list only when dirty; a failed write is passed on
        and leaves the manager dirty, so a later sync tries again. */
    method Sync(store: TaskStore, fault: bool) returns (r: Outcome<StoreError>)
      modifies this, store
      ensures tasks == old(tasks)
      ensures !old(dirty) ==> r == Pass && !dirty && unchanged(store)
      ensures old(dirty) ==> store.writes == old(store.writes) + 1 && (r == Pass <==> !fault)
      ensures old(dirty) && r == Pass ==> !dirty && store.lines == WrittenLines(EncodeTasks(tasks))
      ensures r.Fail? ==> dirty
    {
      if dirty {
        var written := store.Write(tasks, fault);
        if written.Fail? {
          return written;
        }
      }
      dirty := false;
      r := Pass;
    }
  }

  /** A manager that changed nothing writes nothing; one change means exactly
      one write; a second sync writes nothing; a reload sees the tasks. */
  method DirtyTrackingScenario(t: Task)
    requires Encodable(t) && LineSafe(t)
  {
    var store := new TaskStore([]);
    var loaded := TaskManager.Load(store);
    var m := loaded.value;
    assert m.All() == [];
    var synced := m.Sync(store, false);
    assert store.writes == 0;
    m.Remove("zz00");
    assert !m.dirty && m.tasks == [];
    m.Add(t);
    synced := m.Sync(store, false);
    assert store.writes == 1 && !m.dirty;
    synced := m.Sync(store, false);
    assert store.writes == 1;
    DecodeEncodeTasks([t]);
    var reloaded := TaskManager.Load(store);
    assert reloaded.Ok? && reloaded.value.tasks == [t];
  }
}
