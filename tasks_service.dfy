/**
 * The in-memory task store (src/tasks/tasks.service.ts).
 *
 * The service owns one list of tasks. The functions at the top of the module
 * say what each operation does to that list, as values; the class
 * `TasksService` holds the list in a field and its methods change it in
 * place, each proved against those functions.
 */
module TaskStore {
  import opened Wrappers
  import opened TaskEntity
  import opened TaskDto

  /**
   * The one way `updateTask` fails: with no task of that id, the lookup
   * yields `undefined`, and `Object.assign` on `undefined` throws a TypeError.
   */
  datatype UpdateError = TargetUndefined

  /** The task every new store starts with. */
  const SEED: Task := Task("1", "Do something", "Do something description", DONE)

  /** The ids of the tasks in `ts`. */
  function Ids(ts: seq<Task>): set<string> {
    set t | t in ts :: t.id
  }

  /** No two tasks in `ts` share an id. */
  predicate DistinctIds(ts: seq<Task>) {
    forall i, j :: 0 <= i < j < |ts| ==> ts[i].id != ts[j].id
  }

  /** The position of the first task with this id, or `|ts|` when there is none. */
  function FirstIndex(ts: seq<Task>, id: string): (i: nat)
    ensures i <= |ts|
    ensures i < |ts| ==> ts[i].id == id
    ensures forall j :: 0 <= j < i ==> ts[j].id != id
  {
    if ts == [] then 0
    else if ts[0].id == id then 0
    else 1 + FirstIndex(ts[1..], id)
  }

  /** `getTaskById`: the first task with this id, or nothing. */
  function FindById(ts: seq<Task>, id: string): (r: Option<Task>)
    ensures r.None? <==> id !in Ids(ts)
    ensures r.Some? ==> r.value in ts && r.value.id == id
    ensures r.Some? ==> exists k :: 0 <= k < |ts| && ts[k] == r.value && forall j :: 0 <= j < k ==> ts[j].id != id
  {
    var i := FirstIndex(ts, id);
    if i < |ts| then Some(ts[i]) else None
  }

  /** `deleteTask`: the tasks of `ts` whose id is not `id`, in their order. */
  function Without(ts: seq<Task>, id: string): (r: seq<Task>)
    ensures |r| <= |ts|
    ensures forall t :: t in r <==> t in ts && t.id != id
  {
    if ts == [] then []
    else (if ts[0].id == id then [] else [ts[0]]) + Without(ts[1..], id)
  }

  /**
   * `Object.assign(task, patch)`: each field present in the patch replaces
   * the task's field; absent fields and the id stay as they were.
   */
  function ApplyPatch(t: Task, p: TaskPatch): (r: Task)
    ensures r.id == t.id
    ensures p.title.Some? ==> r.title == p.title.value
    ensures p.title.None? ==> r.title == t.title
    ensures p.description.Some? ==> r.description == p.description.value
    ensures p.description.None? ==> r.description == t.description
    ensures p.status.Some? ==> r.status == p.status.value
    ensures p.status.None? ==> r.status == t.status
  {
    Task(t.id, p.title.GetOr(t.title), p.description.GetOr(t.description), p.status.GetOr(t.status))
  }

  /** One patch holding the fields of `q`, and those of `p` that `q` leaves out. */
  function MergePatches(p: TaskPatch, q: TaskPatch): TaskPatch {
    TaskPatch(
      if q.title.Some? then q.title else p.title,
      if q.description.Some? then q.description else p.description,
      if q.status.Some? then q.status else p.status)
  }

  /** A patch with no fields changes nothing. */
  lemma EmptyPatchIsIdentity(t: Task)
    ensures ApplyPatch(t, TaskPatch(None, None, None)) == t
  {
  }

  /** Applying the same patch twice is the same as applying it once. */
  lemma ApplyPatchIdempotent(t: Task, p: TaskPatch)
    ensures ApplyPatch(ApplyPatch(t, p), p) == ApplyPatch(t, p)
  {
  }

  /** Two updates in a row are one update with the later fields winning. */
  lemma ApplyPatchCompose(t: Task, p: TaskPatch, q: TaskPatch)
    ensures ApplyPatch(ApplyPatch(t, p), q) == ApplyPatch(t, MergePatches(p, q))
  {
  }

  /** Filtering distributes over concatenation, so the kept tasks keep their relative order. */
  lemma {:induction false} WithoutConcat(a: seq<Task>, b: seq<Task>, id: string)
    ensures Without(a + b, id) == Without(a, id) + Without(b, id)
  {
    if a == [] {
      assert a + b == b;
    } else {
      assert (a + b)[1..] == a[1..] + b;
      WithoutConcat(a[1..], b, id);
    }
  }

  /** One more step of the filter: the task at position `k` is kept exactly when its id differs. */
  lemma WithoutSnoc(ts: seq<Task>, k: nat, id: string)
    requires k < |ts|
    ensures Without(ts[..k + 1], id) == Without(ts[..k], id) + (if ts[k].id == id then [] else [ts[k]])
  {
    assert ts[..k + 1] == ts[..k] + [ts[k]];
    WithoutConcat(ts[..k], [ts[k]], id);
    assert [ts[k]][1..] == [];
  }

  /** Deleting an id that no task has leaves the list as it is. */
  lemma {:induction false} WithoutAbsent(ts: seq<Task>, id: string)
    requires id !in Ids(ts)
    ensures Without(ts, id) == ts
  {
    if ts != [] {
      assert ts[0] in ts;
      assert Ids(ts[1..]) <= Ids(ts) by {
        forall x | x in Ids(ts[1..]) ensures x in Ids(ts) {
          var t :| t in ts[1..] && t.id == x;
          assert t in ts;
        }
      }
      WithoutAbsent(ts[1..], id);
    }
  }

  /** After a delete no task has the id, and the other ids are all still there. */
  lemma WithoutIds(ts: seq<Task>, id: string)
    ensures Ids(Without(ts, id)) == Ids(ts) - {id}
  {
    var r := Without(ts, id);
    forall x | x in Ids(ts) - {id} ensures x in Ids(r) {
      var t :| t in ts && t.id == x;
      assert t in r;
    }
  }

  /** Deleting twice is deleting once. */
  lemma WithoutIdempotent(ts: seq<Task>, id: string)
    ensures Without(Without(ts, id), id) == Without(ts, id)
  {
    WithoutIds(ts, id);
    WithoutAbsent(Without(ts, id), id);
  }

  /** Deleting keeps the ids pairwise distinct. */
  lemma {:induction false} WithoutDistinct(ts: seq<Task>, id: string)
    requires DistinctIds(ts)
    ensures DistinctIds(Without(ts, id))
  {
    if ts != [] {
      var rest := Without(ts[1..], id);
      WithoutDistinct(ts[1..], id);
      if ts[0].id != id {
        forall t | t in rest ensures t.id != ts[0].id {
          var k :| 0 <= k < |ts[1..]| && ts[1..][k] == t;
          assert ts[k + 1] == t;
        }
        var r := [ts[0]] + rest;
        forall i, j | 0 <= i < j < |r| ensures r[i].id != r[j].id {
          if i == 0 {
            assert r[j] in rest;
          } else {
            assert r[i] == rest[i - 1] && r[j] == rest[j - 1];
          }
        }
      } else {
        assert Without(ts, id) == rest;
      }
    }
  }

  /** With distinct ids, deleting an id that is present removes exactly one task. */
  lemma {:induction false} WithoutRemovesOne(ts: seq<Task>, id: string)
    requires DistinctIds(ts) && id in Ids(ts)
    ensures |Without(ts, id)| == |ts| - 1
  {
    if ts[0].id == id {
      WithoutAbsent(ts[1..], id);
    } else {
      assert id in Ids(ts[1..]) by {
        var t :| t in ts && t.id == id;
        assert t != ts[0];
        assert t in ts[1..];
      }
      WithoutRemovesOne(ts[1..], id);
    }
  }

  /** Once an id is deleted, looking it up finds nothing. */
  lemma FindAfterDelete(ts: seq<Task>, id: string)
    ensures FindById(Without(ts, id), id) == None
  {
    WithoutIds(ts, id);
  }

  /** With distinct ids, looking up the id of a stored task finds that very task. */
  lemma FindUnique(ts: seq<Task>, t: Task)
    requires DistinctIds(ts) && t in ts
    ensures FindById(ts, t.id) == Some(t)
  {
    var k :| 0 <= k < |ts| && ts[k] == t;
    var i := FirstIndex(ts, t.id);
    assert i <= k;
  }

  /** A task appended under a fresh id is found by that id. */
  lemma FindAfterCreate(ts: seq<Task>, t: Task)
    requires t.id !in Ids(ts)
    ensures FindById(ts + [t], t.id) == Some(t)
  {
    var s := ts + [t];
    var i := FirstIndex(s, t.id);
    assert s[|ts|] == t;
  }

  /** Appending a task under a fresh id keeps the ids pairwise distinct. */
  lemma AppendFreshDistinct(ts: seq<Task>, t: Task)
    requires DistinctIds(ts) && t.id !in Ids(ts)
    ensures DistinctIds(ts + [t])
    ensures Ids(ts + [t]) == Ids(ts) + {t.id}
  {
    var s := ts + [t];
    forall i, j | 0 <= i < j < |s| ensures s[i].id != s[j].id {
      if j == |ts| {
        assert s[i] in ts;
      }
    }
  }

  /** Patching one stored task keeps every id, and so keeps them pairwise distinct. */
  lemma PatchAtKeepsIds(ts: seq<Task>, i: nat, p: TaskPatch)
    requires i < |ts|
    ensures Ids(ts[i := ApplyPatch(ts[i], p)]) == Ids(ts)
    ensures DistinctIds(ts) ==> DistinctIds(ts[i := ApplyPatch(ts[i], p)])
  {
    var s := ts[i := ApplyPatch(ts[i], p)];
    forall x | x in Ids(ts) ensures x in Ids(s) {
      var k :| 0 <= k < |ts| && ts[k].id == x;
      assert s[k] in s;
    }
    forall x | x in Ids(s) ensures x in Ids(ts) {
      var k :| 0 <= k < |s| && s[k].id == x;
      assert ts[k] in ts;
    }
  }

  /** The task service: a list of tasks changed in place by its operations. */
  class TasksService {
    /** The stored tasks, in insertion order. */
    var tasks: seq<Task>

    /** The store's invariant: ids are pairwise distinct. */
    ghost predicate Valid()
      reads this
    {
      DistinctIds(tasks)
    }

    /** A new store holds only the seed task. */
    constructor ()
      ensures tasks == [SEED]
      ensures Valid()
    {
      tasks := [SEED];
    }

    /** `getAllTasks`: every stored task, in insertion order; nothing changes. */
    method GetAllTasks() returns (all: seq<Task>)
      ensures all == tasks
    {
      all := tasks;
    }

    /**
     * `createTask`: appends one task, OPEN, under the fresh id `id` (the
     * value `uuid()` would produce), and returns that task.
     */
    method CreateTask(id: string, title: string, description: string) returns (task: Task)
      requires id !in Ids(tasks)
      modifies this
      ensures task == Task(id, title, description, OPEN)
      ensures tasks == old(tasks) + [task]
      ensures old(Valid()) ==> Valid()
    {
      task := Task(id, title, description, OPEN);
      if Valid() {
        AppendFreshDistinct(tasks, task);
      }
      tasks := tasks + [task];
    }

    /** The linear scan of `Array.prototype.find`: the first position holding this id. */
    method FindIndex(id: string) returns (i: nat)
      ensures i == FirstIndex(tasks, id)
    {
      i := 0;
      while i < |tasks| && tasks[i].id != id
        invariant i <= |tasks|
        invariant forall j :: 0 <= j < i ==> tasks[j].id != id
      {
        i := i + 1;
      }
    }

    /** `getTaskById`: the first task with this id, or nothing when no task has it. */
    method GetTaskById(id: string) returns (found: Option<Task>)
      ensures found == FindById(tasks, id)
    {
      var i := FindIndex(id);
      found := if i < |tasks| then Some(tasks[i]) else None;
    }

    /** `deleteTask`: replaces the list by the tasks whose id differs from `id`. */
    method DeleteTask(id: string)
      modifies this
      ensures tasks == Without(old(tasks), id)
      ensures old(Valid()) ==> Valid()
    {
      var ts := tasks;
      var kept: seq<Task> := [];
      var k := 0;
      while k < |ts|
        invariant k <= |ts|
        invariant kept == Without(ts[..k], id)
      {
        WithoutSnoc(ts, k, id);
        if ts[k].id != id {
          kept := kept + [ts[k]];
        }
        k := k + 1;
      }
      assert ts[..k] == ts;
      if DistinctIds(ts) {
        WithoutDistinct(ts, id);
      }
      tasks := kept;
    }

    /**
     * `updateTask`: patches the first task with this id in place and returns
     * it; with no such task, fails as `Object.assign(undefined, …)` does and
     * changes nothing.
     */
    method UpdateTask(id: string, patch: TaskPatch) returns (r: Result<Task, UpdateError>)
      modifies this
      ensures id !in Ids(old(tasks)) ==> r == Err(TargetUndefined) && tasks == old(tasks)
      ensures id in Ids(old(tasks)) ==>
        var i := FirstIndex(old(tasks), id);
        && r == Ok(ApplyPatch(old(tasks)[i], patch))
        && tasks == old(tasks)[i := r.value]
      ensures Ids(tasks) == Ids(old(tasks))
      ensures old(Valid()) ==> Valid()
    {
      var i := FindIndex(id);
      if i == |tasks| {
        r := Err(TargetUndefined);
        return;
      }
      var updated := ApplyPatch(tasks[i], patch);
      PatchAtKeepsIds(tasks, i, patch);
      tasks := tasks[i := updated];
      r := Ok(updated);
    }
  }
}
