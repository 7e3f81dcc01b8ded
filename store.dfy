/**
 * The specification of the task store: what each operation of
 * taskmanager.py does to the list `TaskManager.tasks`, as functions of the
 * list, with the properties they are meant to keep. The class and the
 * methods that work on the list step by step are in module `Manager`.
 */
module Store {
  import opened Tasks
  import opened Records
  import opened Seqs
  import Text

  /** The outcome of an operation on the list, with the list it leaves. */
  datatype Step<O> = Step(tasks: seq<Task>, outcome: O)

  // ---------------------------------------------------------------------
  // remove_duplicates

  /** The duplicate key: trimmed lower-case title, trimmed lower-case
      description and the exact expiry instant. */
  type Key = (string, string, int)

  /** The key `remove_duplicates` files a task under. `KeyNormalised`
      states what it holds. */
  function KeyOf(t: Task): Key {
    (Text.Lower(Text.Strip(t.title)), Text.Lower(Text.Strip(t.description)), t.expiryDate)
  }

  /** The title and description parts of a key are trimmed and hold no
      capital letter, and its last part is the expiry instant. */
  lemma KeyNormalised(t: Task)
    ensures KeyOf(t).2 == t.expiryDate
    ensures forall i :: 0 <= i < |KeyOf(t).0| ==> !Text.IsUpper(KeyOf(t).0[i])
    ensures forall i :: 0 <= i < |KeyOf(t).1| ==> !Text.IsUpper(KeyOf(t).1[i])
    ensures KeyOf(t).0 == [] || (!Text.IsSpace(KeyOf(t).0[0]) && !Text.IsSpace(KeyOf(t).0[|KeyOf(t).0| - 1]))
    ensures KeyOf(t).1 == [] || (!Text.IsSpace(KeyOf(t).1[0]) && !Text.IsSpace(KeyOf(t).1[|KeyOf(t).1| - 1]))
  {
    Text.LowerSpec(Text.Strip(t.title));
    Text.LowerSpec(Text.Strip(t.description));
  }

  /** The list `remove_duplicates` leaves: the loop keeps a task when its
      key is not yet in `seen_tasks`. `DedupSpec` states what it keeps. */
  function Dedup(ts: seq<Task>): seq<Task> {
    DedupFrom(KeyOf, {}, ts)
  }

  /** What `remove_duplicates` promises: the tasks it keeps are taken from
      the list in order, no two share a key, every key of the list survives,
      and for each key it is the first task with that key that survives. */
  lemma DedupSpec(ts: seq<Task>)
    ensures IsSubsequence(Dedup(ts), ts)
    ensures DistinctKeys(KeyOf, Dedup(ts))
    ensures KeySet(KeyOf, Dedup(ts)) == KeySet(KeyOf, ts)
    ensures forall i :: 0 <= i < |ts| && IsFirstOfKey(KeyOf, ts, i) ==> ts[i] in Dedup(ts)
  {
    DedupFromSubsequence(KeyOf, {}, ts);
    DedupFromDistinct(KeyOf, {}, ts);
    DedupFromKeys(KeyOf, {}, ts);
    forall i | 0 <= i < |ts| && IsFirstOfKey(KeyOf, ts, i) ensures ts[i] in Dedup(ts) {
      DedupFromKeepsFirst(KeyOf, {}, ts, i);
    }
  }

  /** `remove_duplicates` one task at a time: the empty list stays empty,
      and a task appended at the end is kept exactly when no earlier task has
      its key. Together these determine `Dedup`, order included. */
  lemma DedupSnoc(ts: seq<Task>, t: Task)
    ensures Dedup([]) == []
    ensures Dedup(ts + [t]) == Dedup(ts) + (if KeyOf(t) in KeySet(KeyOf, ts) then [] else [t])
  {
    DedupFromAppend(KeyOf, {}, ts, [t]);
    assert [t][1..] == [];
    assert {} + KeySet(KeyOf, ts) == KeySet(KeyOf, ts);
  }

  /** Deduplicating twice is deduplicating once. */
  lemma DedupIdempotent(ts: seq<Task>)
    ensures Dedup(Dedup(ts)) == Dedup(ts)
  {
    DedupFromDistinct(KeyOf, {}, ts);
    DedupOfDistinct(KeyOf, {}, Dedup(ts));
  }

  /** Of two tasks with the same key, the first is kept and one is removed. */
  lemma DedupPair(a: Task, b: Task)
    requires KeyOf(a) == KeyOf(b)
    ensures Dedup([a, b]) == [a]
    ensures |[a, b]| - |Dedup([a, b])| == 1
  {
    var seen: set<Key> := {} + {KeyOf(a)};
    assert KeyOf(b) in seen;
    assert [a, b][1..] == [b] && [b][1..] == [];
    assert DedupFrom(KeyOf, seen, [b]) == [];
    assert Dedup([a, b]) == [a] + DedupFrom(KeyOf, seen, [b]);
  }

  /** Two tasks agree on everything the duplicate key reads. */
  predicate SameKeyFields(x: Task, y: Task) {
    x.title == y.title && x.description == y.description && x.expiryDate == y.expiryDate
  }

  lemma KeyOfReadsKeyFields(x: Task, y: Task)
    requires SameKeyFields(x, y)
    ensures KeyOf(x) == KeyOf(y)
  {
  }

  /** The load path when every record has an expiry, as every file `to_dict`
      writes does: each pass of `from_dict` gives the tasks of the first pass
      with the same keys, so the deduplication `__init__` runs afterwards
      leaves the first pass deduplicated. */
  lemma LoadDedup(data: seq<TaskRecord>, clock: Clock)
    requires forall j :: 0 <= j < |data| ==> data[j].expiryDate.Some?
    ensures Dedup(Loaded(data, clock, |data|)) == Dedup(DecodePass(data, clock, 0))
  {
    if |data| > 0 {
      forall x, y | SameKeyFields(x, y) ensures KeyOf(x) == KeyOf(y) {
        KeyOfReadsKeyFields(x, y);
      }
      LoadedFirstPass(KeyOf, data, clock, |data|);
    }
  }

  /** For any key that reads only the title, description and expiry: the
      passes of `from_dict` over records with an expiry bring no key the first
      pass lacks, so deduplication keeps only tasks of the first pass. */
  lemma {:induction false} LoadedFirstPass<K>(key: Task -> K, data: seq<TaskRecord>, clock: Clock,
                                               n: nat)
    requires n >= 1
    requires forall j :: 0 <= j < |data| ==> data[j].expiryDate.Some?
    requires forall x, y :: SameKeyFields(x, y) ==> key(x) == key(y)
    ensures KeySet(key, Loaded(data, clock, n)) == KeySet(key, DecodePass(data, clock, 0))
    ensures DedupFrom(key, {}, Loaded(data, clock, n)) == DedupFrom(key, {}, DecodePass(data, clock, 0))
  {
    var first := DecodePass(data, clock, 0);
    if n == 1 {
      assert Loaded(data, clock, n) == first by {
        assert PassStart(|data|, 0) == 0;
        assert Loaded(data, clock, 1) == [] + first;
      }
    } else {
      LoadedFirstPass(key, data, clock, n - 1);
      var prefix := Loaded(data, clock, n - 1);
      var pass := DecodePass(data, clock, PassStart(|data|, n - 1));
      assert Loaded(data, clock, n) == prefix + pass;
      PassKeySet(key, data, clock, PassStart(|data|, n - 1));
      DedupLaterPass(key, prefix, pass, first);
      assert DedupFrom(key, {}, Loaded(data, clock, n)) == DedupFrom(key, {}, first);
    }
  }

  /** Appending a pass whose keys are those of the first pass to a prefix
      that already holds them changes neither the keys nor the deduplication. */
  lemma DedupLaterPass<K>(key: Task -> K, prefix: seq<Task>, pass: seq<Task>, first: seq<Task>)
    requires KeySet(key, prefix) == KeySet(key, first) == KeySet(key, pass)
    ensures KeySet(key, prefix + pass) == KeySet(key, first)
    ensures DedupFrom(key, {}, prefix + pass) == DedupFrom(key, {}, prefix)
  {
    KeySetAppend(key, prefix, pass);
    DedupAppendSeen(key, prefix, pass);
  }

  /** When every record has an expiry, every pass of `from_dict` has the keys
      of the first pass. */
  lemma PassKeySet<K>(key: Task -> K, data: seq<TaskRecord>, clock: Clock, start: nat)
    requires forall j :: 0 <= j < |data| ==> data[j].expiryDate.Some?
    requires forall x, y :: SameKeyFields(x, y) ==> key(x) == key(y)
    ensures KeySet(key, DecodePass(data, clock, start)) == KeySet(key, DecodePass(data, clock, 0))
  {
    PassKeyFields(data, clock, start);
    KeySetPointwise(key, DecodePass(data, clock, start), DecodePass(data, clock, 0));
  }

  /** When every record has an expiry, every pass of `from_dict` agrees with
      the first on the key fields, position by position. */
  lemma PassKeyFields(data: seq<TaskRecord>, clock: Clock, start: nat)
    requires forall j :: 0 <= j < |data| ==> data[j].expiryDate.Some?
    ensures forall j :: 0 <= j < |data| ==>
      SameKeyFields(DecodePass(data, clock, start)[j], DecodePass(data, clock, 0)[j])
  {
    forall j | 0 <= j < |data|
      ensures SameKeyFields(DecodePass(data, clock, start)[j], DecodePass(data, clock, 0)[j])
    {
      DecodeSameKeyFields(data[j], clock.Read(start + 2 * j), clock.Read(start + 2 * j + 1),
                          clock.Read(2 * j), clock.Read(2 * j + 1));
    }
  }

  /** A record with an expiry decodes to the same key fields whatever the
      clock reads. */
  lemma DecodeSameKeyFields(d: TaskRecord, e1: int, c1: int, e2: int, c2: int)
    requires d.expiryDate.Some?
    ensures SameKeyFields(Decode(d, e1, c1), Decode(d, e2, c2))
  {
  }

  /** Without an expiry the copies do not collapse: a file holding the same
      record twice with no `expiry_date` loads as four tasks once the four
      expiry readings differ, and deduplication keeps all four. */
  lemma LoadKeepsUndatedCopies(d: TaskRecord, clock: Clock)
    requires d.expiryDate.None?
    requires clock.Read(0) != clock.Read(2) && clock.Read(0) != clock.Read(4) && clock.Read(0) != clock.Read(6)
    requires clock.Read(2) != clock.Read(4) && clock.Read(2) != clock.Read(6) && clock.Read(4) != clock.Read(6)
    ensures |Loaded([d, d], clock, 2)| == 4
    ensures Dedup(Loaded([d, d], clock, 2)) == Loaded([d, d], clock, 2)
  {
    LoadedTwice(d, clock);
    DistinctExpiriesKept(Loaded([d, d], clock, 2));
  }

  /** The four tasks `from_dict` builds from a record listed twice without
      an expiry carry the four expiry readings. */
  lemma LoadedTwice(d: TaskRecord, clock: Clock)
    requires d.expiryDate.None?
    ensures var ts := Loaded([d, d], clock, 2);
      |ts| == 4 && ts[0].expiryDate == clock.Read(0) && ts[1].expiryDate == clock.Read(2) &&
      ts[2].expiryDate == clock.Read(4) && ts[3].expiryDate == clock.Read(6)
  {
    var t0, t1 := Decode(d, clock.Read(0), clock.Read(1)), Decode(d, clock.Read(2), clock.Read(3));
    var t2, t3 := Decode(d, clock.Read(4), clock.Read(5)), Decode(d, clock.Read(6), clock.Read(7));
    assert PassStart(2, 0) == 0 && PassStart(2, 1) == 4;
    assert Loaded([d, d], clock, 1) == [] + [t0, t1];
    assert Loaded([d, d], clock, 2) == Loaded([d, d], clock, 1) + [t2, t3];
  }

  /** Tasks with pairwise different expiries have pairwise different keys,
      so deduplication keeps them all. */
  lemma DistinctExpiriesKept(ts: seq<Task>)
    requires forall i, j :: 0 <= i < j < |ts| ==> ts[i].expiryDate != ts[j].expiryDate
    ensures Dedup(ts) == ts
  {
    assert DistinctKeys(KeyOf, ts) by {
      forall i, j | 0 <= i < j < |ts| ensures KeyOf(ts[i]) != KeyOf(ts[j]) {
        assert KeyOf(ts[i]).2 != KeyOf(ts[j]).2;
      }
    }
    DedupOfDistinct(KeyOf, {}, ts);
  }

  /** Saving a store whose keys are distinct and whose tasks all carry a
      creation date, then loading it again, gives back the same list,
      whatever the clock reads during the load. */
  lemma SaveLoadRoundTrip(ts: seq<Task>, saveTime: int, clock: Clock)
    requires DistinctKeys(KeyOf, ts)
    requires forall i :: 0 <= i < |ts| ==> ts[i].createdDate.Some?
    ensures Dedup(Loaded(ToDict(ts, saveTime), clock, |ts|)) == ts
  {
    var data := ToDict(ts, saveTime);
    LoadDedup(data, clock);
    FirstPassOfToDict(ts, saveTime, clock);
    DedupOfDistinct(KeyOf, {}, ts);
  }

  // ---------------------------------------------------------------------
  // get_next_id

  function MaxId(ts: seq<Task>): (m: int)
    requires ts != []
    ensures forall i :: 0 <= i < |ts| ==> ts[i].id <= m
    ensures exists i :: 0 <= i < |ts| && ts[i].id == m
  {
    if |ts| == 1 then ts[0].id
    else
      var rest := MaxId(ts[1..]);
      if ts[0].id > rest then ts[0].id else rest
  }

  /** `get_next_id`: 1 for an empty store, otherwise one more than the
      largest id, so it is larger than, and differs from, every id in use. */
  function NextId(ts: seq<Task>): (r: int)
    ensures ts == [] ==> r == 1
    ensures forall i :: 0 <= i < |ts| ==> ts[i].id < r
    ensures ts != [] ==> exists i :: 0 <= i < |ts| && ts[i].id == r - 1
  {
    if ts == [] then 1 else MaxId(ts) + 1
  }

  /** Ids 1, 2, 5 give 6; once the task with id 5 is gone the next id is 3,
      so an id that was in use can be handed out again. */
  lemma NextIdReuse(a: Task, b: Task, c: Task)
    requires a.id == 1 && b.id == 2 && c.id == 5
    ensures NextId([a, b, c]) == 6
    ensures NextId([a, b]) == 3
  {
    assert [a, b, c][1..] == [b, c] && [b, c][1..] == [c] && [a, b][1..] == [b];
    assert MaxId([c]) == 5 && MaxId([b, c]) == 5 && MaxId([a, b, c]) == 5;
    assert MaxId([b]) == 2 && MaxId([a, b]) == 2;
  }

  // ---------------------------------------------------------------------
  // Lookup by id, shared by edit_task, complete_bullet and delete_task

  /** Position of the first task with id `id`, or `|ts|` when there is none. */
  function FirstIndex(ts: seq<Task>, id: int): (k: nat)
    ensures k <= |ts|
    ensures forall j :: 0 <= j < k ==> ts[j].id != id
    ensures k < |ts| ==> ts[k].id == id
  {
    if ts == [] then 0
    else if ts[0].id == id then 0
    else 1 + FirstIndex(ts[1..], id)
  }

  // ---------------------------------------------------------------------
  // edit_task

  datatype EditOutcome = EditNotFound | EditLocked | Edited

  /** The list after refreshing the status of its first `n` tasks. */
  function RefreshFirst(ts: seq<Task>, n: nat, now: int): seq<Task> {
    seq(|ts|, i requires 0 <= i < |ts| => if i < n then UpdateStatus(ts[i], now) else ts[i])
  }

  /** `edit_task`: refresh every task walked past up to the first with the
      id; refuse when that one is locked; otherwise give it the new title and
      description. The expiry is never written. */
  function EditStep(ts: seq<Task>, id: int, newTitle: string, newDescription: string,
                    now: int): (r: Step<EditOutcome>)
    ensures |r.tasks| == |ts|
    ensures forall i :: 0 <= i < |ts| ==>
      r.tasks[i].id == ts[i].id && r.tasks[i].expiryDate == ts[i].expiryDate &&
      r.tasks[i].bullets == ts[i].bullets
  {
    var k := FirstIndex(ts, id);
    var walked := RefreshFirst(ts, k + 1, now);
    if k == |ts| then Step(walked, EditNotFound)
    else if LockCheck(walked[k]) then Step(walked, EditLocked)
    else Step(walked[k := walked[k].(title := newTitle, description := newDescription)], Edited)
  }

  /** When `edit_task` refuses and when it edits. */
  lemma EditOutcomes(ts: seq<Task>, id: int, newTitle: string, newDescription: string, now: int)
    ensures var r := EditStep(ts, id, newTitle, newDescription, now);
      && (r.outcome == EditNotFound <==> forall i :: 0 <= i < |ts| ==> ts[i].id != id)
      && (r.outcome == EditLocked <==>
            exists i :: 0 <= i < |ts| && ts[i].id == id &&
              (IsExpired(ts[FirstIndex(ts, id)], now) || AllDone(ts[FirstIndex(ts, id)].bullets)))
  {
    var k := FirstIndex(ts, id);
    if k < |ts| {
      LockAfterUpdate(ts[k], now);
    }
  }

  /** The walk of `edit_task`: every task up to and including the first
      with the id has its status refreshed, the tasks after it are untouched,
      and ids, dates, priorities and checklists never change; in particular
      the expiry is left as it was. */
  lemma EditRefreshes(ts: seq<Task>, id: int, newTitle: string, newDescription: string, now: int)
    ensures var r := EditStep(ts, id, newTitle, newDescription, now);
      var k := FirstIndex(ts, id);
      && |r.tasks| == |ts|
      && (forall i :: 0 <= i < |ts| ==>
            r.tasks[i].(title := ts[i].title, description := ts[i].description,
                        status := ts[i].status) == ts[i])
      && (forall i :: 0 <= i < |ts| && i <= k ==>
            r.tasks[i].status == StatusOf(ts[i], now))
      && (forall i :: k < i < |ts| ==> r.tasks[i] == ts[i])
  {
  }

  /** The title and description change only when `edit_task` edits, and
      then only those of the first task with the id; a refused edit leaves
      every task as it was apart from its cached status. */
  lemma EditChangesText(ts: seq<Task>, id: int, newTitle: string, newDescription: string, now: int)
    ensures var r := EditStep(ts, id, newTitle, newDescription, now);
      var k := FirstIndex(ts, id);
      && (r.outcome != Edited ==>
            forall i :: 0 <= i < |ts| ==> r.tasks[i].(status := ts[i].status) == ts[i])
      && (r.outcome == Edited ==>
            && k < |ts|
            && r.tasks[k].title == newTitle && r.tasks[k].description == newDescription
            && forall i :: 0 <= i < |ts| && i != k ==> r.tasks[i].(status := ts[i].status) == ts[i])
  {
  }

  // ---------------------------------------------------------------------
  // complete_bullet, the marking step

  datatype MarkOutcome = MarkNotFound | MarkLocked | NoBullets | OutOfRange | AlreadyDone | Marked

  /** The marking step of `complete_bullet` for the 0-based bullet `index`:
      the lock test reads the cached status without refreshing it; a marked
      bullet is set done and the task's status is then refreshed. */
  function MarkStep(ts: seq<Task>, id: int, index: int, now: int): (r: Step<MarkOutcome>)
    ensures |r.tasks| == |ts|
    ensures forall i :: 0 <= i < |ts| ==>
      r.tasks[i].id == ts[i].id && r.tasks[i].expiryDate == ts[i].expiryDate &&
      |r.tasks[i].bullets| == |ts[i].bullets|
  {
    var k := FirstIndex(ts, id);
    if k == |ts| then Step(ts, MarkNotFound)
    else if LockCheck(ts[k]) then Step(ts, MarkLocked)
    else if ts[k].bullets == [] then Step(ts, NoBullets)
    else if !(0 <= index < |ts[k].bullets|) then Step(ts, OutOfRange)
    else if ts[k].bullets[index].done then Step(ts, AlreadyDone)
    else
      var bullets := ts[k].bullets[index := ts[k].bullets[index].(done := true)];
      Step(ts[k := UpdateStatus(ts[k].(bullets := bullets), now)], Marked)
  }

  /** A bullet is marked exactly when the first task with the id is not
      locked by its cached status and the bullet exists and is not done yet;
      every other outcome leaves the list as it was. */
  lemma MarkOutcomes(ts: seq<Task>, id: int, index: int, now: int)
    ensures var r := MarkStep(ts, id, index, now);
      var k := FirstIndex(ts, id);
      && (r.outcome == MarkNotFound <==> k == |ts|)
      && (r.outcome == MarkLocked <==> k < |ts| && LockCheck(ts[k]))
      && (r.outcome == NoBullets <==> k < |ts| && !LockCheck(ts[k]) && ts[k].bullets == [])
      && (r.outcome == OutOfRange <==>
            k < |ts| && !LockCheck(ts[k]) && ts[k].bullets != [] &&
            !(0 <= index < |ts[k].bullets|))
      && (r.outcome == AlreadyDone <==>
            k < |ts| && !LockCheck(ts[k]) && 0 <= index < |ts[k].bullets| &&
            ts[k].bullets[index].done)
      && (r.outcome == Marked <==>
            k < |ts| && !LockCheck(ts[k]) && 0 <= index < |ts[k].bullets| &&
            !ts[k].bullets[index].done)
      && (r.outcome != Marked ==> r.tasks == ts)
  {
  }

  /** Marking changes one bullet of one task, and that task's status. */
  lemma MarkChanges(ts: seq<Task>, id: int, index: int, now: int)
    requires MarkStep(ts, id, index, now).outcome == Marked
    ensures var r := MarkStep(ts, id, index, now).tasks;
      var k := FirstIndex(ts, id);
      && k < |ts| && |r| == |ts|
      && (forall i :: 0 <= i < |ts| && i != k ==> r[i] == ts[i])
      && |r[k].bullets| == |ts[k].bullets|
      && r[k].bullets[index] == ts[k].bullets[index].(done := true)
      && (forall j :: 0 <= j < |ts[k].bullets| && j != index ==> r[k].bullets[j] == ts[k].bullets[j])
      && r[k].(bullets := ts[k].bullets, status := ts[k].status) == ts[k]
      && r[k].status == StatusOf(r[k], now)
  {
  }

  /** Marking the last open bullet of an unexpired task completes it, and
      from then on the task is locked against marking. */
  lemma MarkLastCompletes(ts: seq<Task>, id: int, index: int, now: int, otherIndex: int)
    requires MarkStep(ts, id, index, now).outcome == Marked
    requires var t := ts[FirstIndex(ts, id)];
      now <= t.expiryDate &&
      forall j :: 0 <= j < |t.bullets| && j != index ==> t.bullets[j].done
    ensures var r := MarkStep(ts, id, index, now).tasks;
      r[FirstIndex(ts, id)].status == StatusCompleted &&
      MarkStep(r, id, otherIndex, now).outcome == MarkLocked
  {
    var k := FirstIndex(ts, id);
    var r := MarkStep(ts, id, index, now).tasks;
    MarkChanges(ts, id, index, now);
    StatusRule(r[k], now);
    assert FirstIndex(r, id) == k;
  }

  /** A task with three bullets, one of them done, that has not expired:
      marking the second leaves it in progress, marking the third completes it. */
  lemma MarkScenario(t: Task, x: string, y: string, z: string, now: int)
    requires t.bullets == [Bullet(x, true), Bullet(y, false), Bullet(z, false)]
    requires now <= t.expiryDate && t.status == StatusInProgress
    ensures var s1 := MarkStep([t], t.id, 1, now);
      var s2 := MarkStep(s1.tasks, t.id, 2, now);
      && s1.outcome == Marked && s1.tasks[0].status == StatusInProgress
      && s2.outcome == Marked && s2.tasks[0].status == StatusCompleted
  {
    StatusNamesDistinct();
    var s1 := MarkStep([t], t.id, 1, now);
    assert s1.tasks[0].bullets == [Bullet(x, true), Bullet(y, true), Bullet(z, false)];
    assert !s1.tasks[0].bullets[2].done;
    assert !AllDone(s1.tasks[0].bullets);
    var s2 := MarkStep(s1.tasks, t.id, 2, now);
    assert s2.tasks[0].bullets == [Bullet(x, true), Bullet(y, true), Bullet(z, true)];
  }

  // ---------------------------------------------------------------------
  // delete_task

  datatype DeleteOutcome = NothingToDelete | DeleteNotFound | NotDeletable | Deleted

  /** `delete_task`: with an empty store nothing is asked; otherwise the
      first task with the id is removed when it is deletable. */
  function DeleteStep(ts: seq<Task>, id: int, now: int): (r: Step<DeleteOutcome>)
    ensures |r.tasks| == if r.outcome == Deleted then |ts| - 1 else |ts|
    ensures multiset(r.tasks) <= multiset(ts)
  {
    if ts == [] then Step(ts, NothingToDelete)
    else
      var k := FirstIndex(ts, id);
      if k == |ts| then Step(ts, DeleteNotFound)
      else if IsDeletable(ts[k], now) then
        assert ts == ts[..k] + [ts[k]] + ts[k + 1..];
        Step(ts[..k] + ts[k + 1..], Deleted)
      else Step(ts, NotDeletable)
  }

  /** `delete_task` deletes exactly when the first task with the id is
      deletable; every other outcome leaves the list as it was. */
  lemma DeleteOutcomes(ts: seq<Task>, id: int, now: int)
    ensures var r := DeleteStep(ts, id, now);
      var k := FirstIndex(ts, id);
      && (r.outcome == NothingToDelete <==> ts == [])
      && (r.outcome == DeleteNotFound <==> ts != [] && k == |ts|)
      && (r.outcome == Deleted <==> k < |ts| && IsDeletable(ts[k], now))
      && (r.outcome == NotDeletable <==> k < |ts| && !IsDeletable(ts[k], now))
      && (r.outcome != Deleted ==> r.tasks == ts)
  {
  }

  /** A deletion removes only the first task with the id; the tasks before
      and after it stay, in order. */
  lemma DeleteRemovesFirstMatch(ts: seq<Task>, id: int, now: int)
    requires DeleteStep(ts, id, now).outcome == Deleted
    ensures var r := DeleteStep(ts, id, now).tasks;
      var k := FirstIndex(ts, id);
      && k < |ts| && ts[k].id == id && IsDeletable(ts[k], now)
      && |r| == |ts| - 1
      && r[..k] == ts[..k] && r[k..] == ts[k + 1..]
      && multiset(r) + multiset{ts[k]} == multiset(ts)
  {
    var k := FirstIndex(ts, id);
    var r := DeleteStep(ts, id, now).tasks;
    assert r == ts[..k] + ts[k + 1..];
    RemoveAt(ts, k);
  }

  /** Two minutes after expiry a task cannot be deleted; six minutes after,
      it can. */
  lemma DeleteWindow(t: Task)
    ensures DeleteStep([t], t.id, t.expiryDate + 2 * 60 * 1000000).outcome == NotDeletable
    ensures DeleteStep([t], t.id, t.expiryDate + 6 * 60 * 1000000) == Step([], Deleted)
  {
  }

  // ---------------------------------------------------------------------
  // cleanup

  /** The test of `cleanup`'s comprehension: not deletable at `now`. */
  function Undeletable(now: int): Task -> bool {
    t => !IsDeletable(t, now)
  }

  /** The list `cleanup` leaves: no task in it is deletable. */
  function KeepUndeletable(ts: seq<Task>, now: int): (r: seq<Task>)
    ensures |r| <= |ts|
    ensures forall i :: 0 <= i < |r| ==> !IsDeletable(r[i], now)
  {
    Filter(ts, Undeletable(now))
  }

  /** `cleanup` keeps exactly the tasks that are not deletable, each as many
      times as it occurs, in their order, and keeps the whole list when none
      is deletable. */
  lemma CleanupKeeps(ts: seq<Task>, now: int)
    ensures forall t :: t in KeepUndeletable(ts, now) <==> t in ts && !IsDeletable(t, now)
    ensures forall t ::
      multiset(KeepUndeletable(ts, now))[t] == if IsDeletable(t, now) then 0 else multiset(ts)[t]
    ensures IsSubsequence(KeepUndeletable(ts, now), ts)
    ensures (forall i :: 0 <= i < |ts| ==> !IsDeletable(ts[i], now)) ==> KeepUndeletable(ts, now) == ts
  {
    FilterSpec(ts, Undeletable(now));
  }

  /** After a cleanup no remaining task can be deleted at the same instant,
      so a second cleanup changes nothing and `delete_task` deletes nothing. */
  lemma CleanupLeavesNothingDeletable(ts: seq<Task>, now: int, id: int)
    ensures KeepUndeletable(KeepUndeletable(ts, now), now) == KeepUndeletable(ts, now)
    ensures DeleteStep(KeepUndeletable(ts, now), id, now).outcome != Deleted
  {
    FilterIdempotent(ts, Undeletable(now));
    var r := KeepUndeletable(ts, now);
    var k := FirstIndex(r, id);
    if k < |r| {
      assert Undeletable(now)(r[k]);
    }
  }

  // ---------------------------------------------------------------------
  // search

  /** `search`'s test: the lower-cased keyword occurs in the lower-cased
      title or the lower-cased description. */
  predicate Matches(t: Task, keyword: string) {
    var k := Text.Lower(keyword);
    Text.Contains(Text.Lower(t.title), k) || Text.Contains(Text.Lower(t.description), k)
  }

  function MatchesKeyword(keyword: string): Task -> bool {
    t => Matches(t, keyword)
  }

  /** The tasks `search` lists, in store order: all of them match. */
  function SearchResults(ts: seq<Task>, keyword: string): (r: seq<Task>)
    ensures |r| <= |ts|
    ensures forall i :: 0 <= i < |r| ==> Matches(r[i], keyword)
  {
    Filter(ts, MatchesKeyword(keyword))
  }

  /** `search` lists exactly the matching tasks, each as many times as it
      occurs, in store order. */
  lemma SearchProperties(ts: seq<Task>, keyword: string)
    ensures forall t :: t in SearchResults(ts, keyword) <==> t in ts && Matches(t, keyword)
    ensures forall t ::
      multiset(SearchResults(ts, keyword))[t] == if Matches(t, keyword) then multiset(ts)[t] else 0
    ensures IsSubsequence(SearchResults(ts, keyword), ts)
  {
    FilterSpec(ts, MatchesKeyword(keyword));
  }

  /** `search` ignores the case of the keyword, and the empty keyword lists
      every task. */
  lemma SearchIgnoresCase(ts: seq<Task>, keyword: string)
    ensures SearchResults(ts, Text.Lower(keyword)) == SearchResults(ts, keyword)
    ensures SearchResults(ts, "") == ts
  {
    Text.LowerIdempotent(keyword);
    FilterAgreeing(ts, MatchesKeyword(Text.Lower(keyword)), MatchesKeyword(keyword));
    assert Text.Lower("") == "";
    forall t: Task ensures MatchesKeyword("")(t) {
      Text.ContainsEmpty(Text.Lower(t.title));
    }
    FilterSpec(ts, MatchesKeyword(""));
  }
}
