/**
 * `TaskManager` and the operations of taskmanager.py that change or walk its
 * task list, each proved against its specification in module `Store`.
 * Writing the list to disk after a change is not modelled.
 */
module Manager {
  import opened Tasks
  import opened Records
  import opened Seqs
  import opened Store

  class TaskManager {
    var tasks: seq<Task>

    /** `__init__`: load the records of the task file (`data`; an absent or
        empty file gives no records), reading the clock through `clock`,
        then remove duplicates. */
    constructor (data: seq<TaskRecord>, clock: Clock)
      ensures tasks == Dedup(Loaded(data, clock, |data|))
    {
      var loaded := FromDict(data, clock);
      tasks := loaded;
      new;
      var _ := RemoveDuplicates();
    }

    /** `remove_duplicates`: keep the first task of each key and count the
        others. */
    method RemoveDuplicates() returns (removed: nat)
      modifies this
      ensures tasks == Dedup(old(tasks))
      ensures removed == |old(tasks)| - |tasks|
    {
      var ts := tasks;
      ghost var whole := Dedup(ts);
      var unique: seq<Task> := [];
      var seen: set<Key> := {};
      var count := 0;
      for i := 0 to |ts|
        invariant unique + DedupFrom(KeyOf, seen, ts[i..]) == whole
        invariant count + |unique| == i
      {
        DedupWalkStep(KeyOf, seen, ts, i, unique, whole);
        var t := ts[i];
        var key := KeyOf(t);
        if key !in seen {
          unique := unique + [t];
          seen := seen + {key};
        } else {
          count := count + 1;
        }
      }
      assert ts[|ts|..] == [];
      removed := count;
      tasks := unique;
    }
  }

  /** `edit_task`: walk the list refreshing each task's status until the
      first task with the id; refuse if it is locked, otherwise overwrite its
      title and description. */
  method EditTask(manager: TaskManager, id: int, newTitle: string, newDescription: string,
                  now: int) returns (outcome: EditOutcome)
    modifies manager
    ensures Step(manager.tasks, outcome) ==
            EditStep(old(manager.tasks), id, newTitle, newDescription, now)
  {
    ghost var ts := manager.tasks;
    var i := 0;
    while i < |manager.tasks|
      invariant 0 <= i <= |ts| == |manager.tasks|
      invariant forall j :: 0 <= j < i ==> ts[j].id != id
      invariant manager.tasks == RefreshFirst(ts, i, now)
    {
      manager.tasks := manager.tasks[i := UpdateStatus(manager.tasks[i], now)];
      assert manager.tasks == RefreshFirst(ts, i + 1, now);
      var task := manager.tasks[i];
      if task.id == id {
        if LockCheck(task) {
          return EditLocked;
        }
        manager.tasks := manager.tasks[i := task.(title := newTitle, description := newDescription)];
        return Edited;
      }
      i := i + 1;
    }
    assert RefreshFirst(ts, i, now) == RefreshFirst(ts, |ts| + 1, now);
    return EditNotFound;
  }

  /** The marking step of `complete_bullet` for the 0-based bullet `index`. */
  method CompleteBullet(manager: TaskManager, id: int, index: int, now: int)
    returns (outcome: MarkOutcome)
    modifies manager
    ensures Step(manager.tasks, outcome) == MarkStep(old(manager.tasks), id, index, now)
  {
    var k := 0;
    while k < |manager.tasks| && manager.tasks[k].id != id
      invariant 0 <= k <= |manager.tasks|
      invariant forall j :: 0 <= j < k ==> manager.tasks[j].id != id
    {
      k := k + 1;
    }
    if k == |manager.tasks| {
      return MarkNotFound;
    }
    var task := manager.tasks[k];
    if LockCheck(task) {
      return MarkLocked;
    }
    if task.bullets == [] {
      return NoBullets;
    }
    if !(0 <= index < |task.bullets|) {
      return OutOfRange;
    }
    if task.bullets[index].done {
      return AlreadyDone;
    }
    task := task.(bullets := task.bullets[index := task.bullets[index].(done := true)]);
    task := UpdateStatus(task, now);
    manager.tasks := manager.tasks[k := task];
    return Marked;
  }

  /** `search`: the tasks whose title or description holds the keyword,
      ignoring case, in store order. */
  method Search(manager: TaskManager, keyword: string) returns (matches: seq<Task>)
    ensures matches == SearchResults(manager.tasks, keyword)
  {
    var ts := manager.tasks;
    matches := [];
    for i := 0 to |ts|
      invariant matches == SearchResults(ts[..i], keyword)
    {
      assert ts[..i + 1] == ts[..i] + [ts[i]];
      FilterAppend(ts[..i], ts[i], MatchesKeyword(keyword));
      if Matches(ts[i], keyword) {
        matches := matches + [ts[i]];
      }
    }
    assert ts[..|ts|] == ts;
  }

  /** `delete_task`: on a non-empty store, find the first task with the id
      and pop it when it is deletable. */
  method DeleteTask(manager: TaskManager, id: int, now: int) returns (outcome: DeleteOutcome)
    modifies manager
    ensures Step(manager.tasks, outcome) == DeleteStep(old(manager.tasks), id, now)
  {
    if manager.tasks == [] {
      return NothingToDelete;
    }
    var i := 0;
    while i < |manager.tasks|
      invariant 0 <= i <= |manager.tasks|
      invariant forall j :: 0 <= j < i ==> manager.tasks[j].id != id
    {
      var task := manager.tasks[i];
      if task.id == id {
        if IsDeletable(task, now) {
          manager.tasks := manager.tasks[..i] + manager.tasks[i + 1..];
          return Deleted;
        }
        return NotDeletable;
      }
      i := i + 1;
    }
    return DeleteNotFound;
  }

  /** `cleanup`: drop every task that is deletable at `now`. */
  method Cleanup(manager: TaskManager, now: int)
    modifies manager
    ensures manager.tasks == KeepUndeletable(old(manager.tasks), now)
  {
    manager.tasks := KeepUndeletable(manager.tasks, now);
  }
}
