# Task lifecycle engine of `taskmanager.py`, modelled in Dafny

`taskmanager.py` is a console task tracker. A task has an id, a title, a
description, an expiry instant, a priority, a checklist of bullets
(`{"text", "done"}`) and a cached status string. This project models the
non-interactive logic of that file:

- the status engine of `Task`: `is_expired`, `is_deletable`, the four-way
  decision of `update_status` and the edit lock of `lock_check`;
- the record mapping of `TaskManager.to_dict` and `TaskManager.from_dict`;
- the store operations on `TaskManager.tasks`: `remove_duplicates`,
  `get_next_id`, `edit_task`, the bullet-marking step of `complete_bullet`,
  `search`, `delete_task` and `cleanup`.

Timestamps are integers counting microseconds, the resolution of Python's
`datetime`, so "five minutes" is `5 * 60 * 1000000`. `from_dict` calls
`datetime.now()` twice per record it decodes, and the model reads those calls
in order from a `Clock`: a list of readings, followed by one reading for
every later call. Every other operation takes a single reading, the
parameter `now`. For `cleanup`, `edit_task` and `to_dict`, which read the
clock once per task, that single reading is a simplification; "## Left out"
says what it leaves out.

## Layout

| file | module | contents |
|---|---|---|
| `wrappers.dfy` | `Wrappers` | `Option`, for record fields that may be missing |
| `text.dfy` | `Text` | ASCII `lower()`, `strip()` and the substring test `in`, with their lemmas |
| `seqs.dfy` | `Seqs` | order-preserving filter, first-occurrence deduplication on a key, repetition, and their lemmas |
| `tasks.dfy` | `Tasks` | `Bullet`, `Task`, the status engine |
| `records.dfy` | `Records` | stored records with optional fields, the clock readings of a load, `to_dict`, `from_dict` |
| `store.dfy` | `Store` | each store operation as a function of the task list, with its properties |
| `manager.dfy` | `Manager` | the class `TaskManager` and the operations that change or walk its list, each proved equal to its `Store` function |

Tasks are values (`datatype Task`). The store is a class whose `tasks` field
is a sequence. Each operation that changes the list is a method whose
postcondition equates the new list and its outcome with a function in `Store`
(`EditStep`, `MarkStep`, `DeleteStep`, `KeepUndeletable`, `Dedup`). The
properties are lemmas about those functions.

## Behaviour as written

The model follows the code, including these points where the code differs
from what its authors evidently meant:

- `all()` over an empty checklist is true, so an unexpired task with no
  bullets is "completed" and therefore locked (`Tasks.EmptyChecklistCompletes`).
  The intended rule that an empty checklist is never "all done" is not what
  the code does.
- `any(["done"] for b in self.bullets)` at taskmanager.py:53 tests the
  constant non-empty list `["done"]`, so it only says whether the checklist is
  non-empty. An unexpired task with bullets that are not all done is
  "in progress...", and `update_status` never yields "not started"
  (`Tasks.StatusRule`). `Tasks.IntendedStatusOf` tests `b["done"]` instead. It
  is a reference definition only, and `Tasks.StatusAsWrittenVsIntended`
  states exactly where the two differ. Nothing else in the model uses it.
- `edit_task` assigns the new expiry to `task.expiry_update`, an attribute
  nothing reads, so an edit never changes `expiry_date` (`Store.EditRefreshes`).
- The nested loop of `from_dict` rebinds `d`, so for each record it appends
  the decoding of the whole list again (`Records.FromDict`). When every record
  is complete, the result is the decoded list repeated `len(data)` times
  (`Records.LoadedComplete`). Each pass reads the clock afresh, because
  `d.get("expiry_date", datetime.now().isoformat())` calls `now()` even when
  the field is present. When every record has an expiry, the later passes
  repeat the keys of the first, and the deduplication in `__init__` leaves
  the first pass deduplicated (`Store.LoadDedup`). A record without an
  expiry gets a new expiry reading in every pass. When those readings
  differ, its copies differ in key and all survive the deduplication
  (`Store.LoadKeepsUndatedCopies`).
- The lock test of `complete_bullet` reads the cached status without
  refreshing it first (`Store.MarkOutcomes`).
- In `complete_bullet`, everything after `break` at taskmanager.py:214 is
  still inside the `while True` body, on the path of the `except` clause. So
  after a valid id the function returns without marking anything. After an
  invalid one it reads the unbound `task_id`. The model states what the
  marking lines (taskmanager.py:219-275) do when they run.
- `get_next_id` recomputes the largest id + 1 each time, so an id can be
  handed out again after the task holding the largest id is removed. With
  ids 1, 2 and 5 the next id is 6; once 5 is removed it is 3
  (`Store.NextIdReuse`).

## Model

| member | source | states |
|---|---|---|
| Tasks.NewTask | taskmanager.py:35-42 | a new task is "not started" and carries no creation date |
| Tasks.IsExpired | taskmanager.py:44-45 | expired only strictly after the expiry instant: not at the instant itself, already one microsecond later |
| Tasks.IsDeletable | taskmanager.py:47-48 | deletable only strictly more than five minutes after expiry: never at exactly expiry + 5 min, always one microsecond later, and only when expired |
| Tasks.AnyDoneAsWritten | taskmanager.py:53 | the `any` over the constant list `["done"]` is true exactly when the checklist is non-empty |
| Tasks.StatusRule | taskmanager.py:44-63 | status is "expired" iff `now > expiry`, whatever the bullets; otherwise "completed" iff every bullet is done, else "in progress..."; "not started" is never produced |
| Tasks.EmptyChecklistCompletes | taskmanager.py:52-59 | an unexpired task with no bullets becomes "completed" |
| Tasks.UpdateStatus | taskmanager.py:50-63 | `update_status` changes only the status, and sets it to the status rule's value |
| Tasks.LockCheck | taskmanager.py:65-66 | locked iff the cached status is "completed" or "expired" |
| Tasks.LockAfterUpdate | taskmanager.py:50-66 | after a refresh a task is locked iff it has expired or all its bullets are done |
| Tasks.StatusAsWrittenVsIntended | taskmanager.py:52-63 | the written status and the one with `any(b["done"])` agree except on an unexpired, non-empty checklist with no bullet done, where the code says "in progress..." and "not started" was meant |
| Records.ToRecord | taskmanager.py:97-107 | every field of the written record is present |
| Records.ToDict | taskmanager.py:95-109 | one complete record per task, in order, with the task's id |
| Records.Decode | taskmanager.py:116-127 | a decoded task always has a creation date; its expiry is the record's when present and the clock reading otherwise |
| Records.DecodeFields | taskmanager.py:116-127 | each present field is kept; missing fields default to id 0, "Untitleed", "no description", "low", "not started", no bullets, and the clock reading taken for each date |
| Records.DecodeComplete | taskmanager.py:116-127 | a record with every field present decodes to exactly those values, whatever the clock reads |
| Records.FromDict | taskmanager.py:111-129 | the nested loops append, for each record, one pass decoding every record, reading the clock twice per decoded record |
| Records.LoadedComplete | taskmanager.py:111-129 | when every record is complete, `from_dict` returns the decoded records repeated once per record |
| Records.DecodeToRecord | taskmanager.py:95-127 | decoding a saved task gives it back, with a missing creation date fixed at save time, whatever the load-time clock reads |
| Records.DecodePassToDict | taskmanager.py:95-129 | each pass of `from_dict` over `to_dict` gives back every task, in order |
| Records.FirstPassOfToDict | taskmanager.py:95-129 | when every task has a creation date, the first pass over `to_dict` is the saved list itself |
| Store.KeyNormalised | taskmanager.py:136-137 | the title and description parts of a key are trimmed and free of capitals; the last part is the expiry |
| Store.DedupSpec | taskmanager.py:131-145 | `remove_duplicates` keeps a subsequence in which no two tasks share a key, every key of the input survives, and each key's first task is the one kept |
| Store.DedupSnoc | taskmanager.py:132-145 | the empty list deduplicates to itself, and a task appended at the end is kept iff no earlier task has its key; together these fix `remove_duplicates`' output, order included |
| Store.DedupIdempotent | taskmanager.py:131-145 | deduplicating twice is deduplicating once |
| Store.DedupPair | taskmanager.py:135-142 | of two tasks with the same key, the first is kept and one removal is counted |
| Store.DistinctExpiriesKept | taskmanager.py:135-142 | tasks whose expiries all differ are all kept |
| Store.LoadDedup | taskmanager.py:74-76 | when every record has an expiry, deduplicating the output of `from_dict` equals deduplicating its first pass |
| Store.LoadKeepsUndatedCopies | taskmanager.py:111-129 | a record listed twice without an expiry loads as four tasks, and when the four expiry readings differ deduplication keeps all four |
| Store.SaveLoadRoundTrip | taskmanager.py:95-129 | saving and reloading a store with distinct keys and creation dates gives back the same list, whatever the clock reads |
| Store.MaxId | taskmanager.py:153 | the largest id of a non-empty store: no id exceeds it and some task holds it |
| Store.NextId | taskmanager.py:149-153 | 1 for an empty store, otherwise the largest id + 1: greater than every id in use, so it collides with none |
| Store.NextIdReuse | taskmanager.py:149-153 | ids 1, 2, 5 give 6; without the task with id 5 the next id is 3 |
| Store.FirstIndex | taskmanager.py:184-186 | the position of the first task with the id, or the length when no task has it |
| Store.EditStep | taskmanager.py:184-204 | an edit keeps the length, and every task's id, expiry and checklist |
| Store.EditOutcomes | taskmanager.py:184-204 | "not found" iff no task has the id; "locked" iff the first task with the id has expired or has all bullets done once refreshed |
| Store.EditRefreshes | taskmanager.py:184-197 | tasks up to the first match get a refreshed status, later ones are untouched, and no id, date, priority or checklist changes, so the expiry is never edited |
| Store.EditChangesText | taskmanager.py:186-200 | a refused edit changes nothing but cached statuses; an accepted one sets the title and description of the first match only |
| Store.MarkStep | taskmanager.py:219-275 | marking keeps the length, every id and expiry, and the size of every checklist |
| Store.MarkOutcomes | taskmanager.py:219-275 | each outcome holds iff its check is the first to fail: no task with the id, locked by the cached status, no bullets, index out of range, bullet already done; "marked" iff all pass; every outcome but "marked" leaves the list unchanged |
| Store.MarkChanges | taskmanager.py:265-272 | marking sets one bullet done, leaves all other bullets and tasks as they were, and refreshes that task's status |
| Store.MarkLastCompletes | taskmanager.py:271-272 | marking the last open bullet of an unexpired task makes it "completed", after which marking is refused as locked |
| Store.MarkScenario | taskmanager.py:265-272 | with one of three bullets done, marking the second leaves the task in progress and marking the third completes it |
| Store.DeleteStep | taskmanager.py:329-354 | a deletion removes exactly one task and any other outcome none, and no task is added |
| Store.DeleteOutcomes | taskmanager.py:329-354 | an empty store asks nothing; otherwise the first task with the id is deleted iff it is deletable; other outcomes change nothing |
| Store.DeleteRemovesFirstMatch | taskmanager.py:336-351 | a deletion pops only the first task with the id; the tasks before and after it stay in order |
| Store.DeleteWindow | taskmanager.py:342-349 | two minutes after expiry a delete is refused; six minutes after, it succeeds |
| Store.KeepUndeletable | taskmanager.py:357-358 | no task left by `cleanup` is deletable, and the list does not grow |
| Store.CleanupKeeps | taskmanager.py:357-359 | `cleanup` keeps exactly the tasks that are not deletable, each as often as it occurs, in order, and the whole list when none is deletable |
| Store.CleanupLeavesNothingDeletable | taskmanager.py:357-358 | after a cleanup a second cleanup changes nothing and no delete at the same instant succeeds |
| Store.SearchResults | taskmanager.py:318-321 | every task `search` lists matches the keyword, and it lists no more tasks than the store holds |
| Store.SearchProperties | taskmanager.py:315-324 | search lists exactly the tasks whose lower-cased title or description contains the lower-cased keyword, each as often as it occurs, in store order |
| Store.SearchIgnoresCase | taskmanager.py:316-319 | search gives the same list for a keyword and its lower-cased form; the empty keyword lists every task |
| Text.LowerChar | taskmanager.py:136-137 | a capital maps to its small letter, every other character stays, and whitespace stays whitespace |
| Text.Lower | taskmanager.py:136-137 | `lower()` keeps the length and leaves no capital |
| Text.LowerSpec | taskmanager.py:136-137 | `lower()` maps each character by itself, keeping every character that is not a capital |
| Text.LowerIdempotent | taskmanager.py:316-319 | lower-casing twice is lower-casing once |
| Text.Strip | taskmanager.py:136-137 | `strip()` returns the slice after the leading whitespace, neither starting nor ending with whitespace |
| Text.StripSpec | taskmanager.py:136-137 | only whitespace follows the result, and the result is empty iff the string is all whitespace |
| Text.ContainsEmpty | taskmanager.py:319 | the empty string occurs in every string |
| Text.ContainsAt | taskmanager.py:319 | `needle in hay` holds iff the needle occurs at some position of `hay` |
| Manager.TaskManager.constructor | taskmanager.py:74-77 | loading gives the output of `from_dict`, deduplicated once |
| Manager.TaskManager.RemoveDuplicates | taskmanager.py:131-145 | the loop leaves `Dedup` of the old list and counts the removed tasks as the difference in length |
| Manager.EditTask | taskmanager.py:180-204 | the walk-and-edit loop ends in the state and outcome of `EditStep` |
| Manager.CompleteBullet | taskmanager.py:219-275 | lookup and marking end in the state and outcome of `MarkStep` |
| Manager.Search | taskmanager.py:315-324 | the loop returns `SearchResults` of the store |
| Manager.DeleteTask | taskmanager.py:329-354 | the index loop with `pop` ends in the state and outcome of `DeleteStep` |
| Manager.Cleanup | taskmanager.py:357-359 | the store becomes `KeepUndeletable` of the old list |

## Left out

- Console interaction: `safe_int`, `safe_datetime`, `safe_priority`, `menu`, `main` and every `input` and `print`. Operations take already-parsed arguments and return an outcome value instead of printing a message.
- Manager.CompleteBullet: takes one already-parsed 0-based bullet index. The loop that re-asks for a bullet number up to three times, and the `ValueError` paths, are interaction and are not modelled.
- `view_tasks`: a display loop. It also refreshes each listed task's status, and that refresh is not modelled.
- `add_task`: a prompt loop. It appends one task per bullet entered, all sharing one `bullets` list, and it never saves, because `manager.save` has no call parentheses. It is not modelled.
- File and JSON handling: `load`, `save`, `os.path.exists`, `json.loads`, `json.dump`. A record sequence stands for the parsed file; an absent or empty file is the empty sequence. Saving after each change is not modelled, and neither is the `self.save` without parentheses in `__init__`.
- Date formats: `strptime`, `isoformat`, `fromisoformat`. Dates are integers. `edit_task` parses the new expiry with the mismatched format `"%Y-%m_%d %H:%M"`, so a date typed as asked raises after the title and description were already overwritten in memory. The model assumes the parse returned, which the source's result never uses.
- Records.ToDict: `getattr(t, "created_date", datetime.now())` reads the clock once per task. The model uses one save instant `now` for the whole list. This matters only for tasks without a creation date, which are then stamped with the same instant.
- Store.KeepUndeletable: the comprehension of `cleanup` calls `is_deletable()`, and so reads the clock, once per task. The model judges every task at one instant `now`, so it does not capture a cleanup during which the clock passes a task's expiry + 5 min. Example: two tasks with the same expiry, where the first reading falls before that bound and the second after it. The source keeps the first task and drops the second; the model keeps or drops both. Manager.Cleanup inherits this.
- Store.EditStep: the walk of `edit_task` calls `update_status()`, and so reads the clock, once per task it passes. The model refreshes every walked task at one instant `now`, so it does not capture a walk during which the clock passes a walked task's expiry. Manager.EditTask inherits this.
- `datetime.now()` elsewhere is a parameter: `now` for one reading, a `Clock` listing the readings for `from_dict`.
- Tasks.StatusOf, Tasks.AllDone, Store.KeyOf, Store.Dedup and Store.Matches carry no postcondition of their own. Their properties are stated by other lemmas: `Tasks.StatusRule` for `StatusOf` and `AllDone`, `Store.KeyNormalised` for `KeyOf`, `Store.DedupSpec` and `Store.DedupSnoc` for `Dedup`, and `Store.SearchProperties` for `Matches`.
- Tasks.IsDeletable: timestamps are unbounded integers, but Python dates run only from year 1 to year 9999. For an expiry less than five minutes before `datetime.max`, `expiry_date + timedelta(minutes=5)` raises `OverflowError`, and the program ends. The model returns "not deletable" instead. Store.DeleteStep, Store.KeepUndeletable, Manager.DeleteTask and Manager.Cleanup inherit this. The model also does not capture the `TypeError` raised when an expiry read from a file carries a time zone and is compared with the naive `datetime.now()`.
- Aliasing: tasks built from the same list object share their `bullets` list. This happens for one record's copies in `from_dict` and for the tasks of one `add_task` call. Here bullets are values, so marking a bullet in one task does not mark it in another.
- Text: `lower()` and `strip()` are modelled on ASCII. Non-ASCII case mapping and Unicode whitespace are not.
- Malformed records: a bullet without `"done"`, a non-string title or a date that is not ISO makes the source raise. The model's records are typed, so these cases cannot occur.
