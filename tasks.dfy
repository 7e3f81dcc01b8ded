/**
 * The `Task` record of taskmanager.py and its status engine: expiry,
 * deletion eligibility, the status decision of `update_status` and the
 * edit lock of `lock_check`.
 *
 * Timestamps are integers counting microseconds (the resolution of Python's
 * `datetime`); the current time is the explicit parameter `now`.
 */
module Tasks {
  import opened Wrappers

  /** A checklist item, stored in the source as `{"text": ..., "done": ...}`. */
  datatype Bullet = Bullet(text: string, done: bool)

  /** A task. `status` is the cached status string: it is whatever was last
      assigned or loaded, and is only brought up to date by `UpdateStatus`.
      `createdDate` is absent on a task built by `Task(...)` and present on
      a task decoded by `from_dict`. */
  datatype Task = Task(
    id: int,
    title: string,
    description: string,
    createdDate: Option<int>,
    expiryDate: int,
    priority: string,
    bullets: seq<Bullet>,
    status: string)

  const StatusNotStarted: string := "not started"
  const StatusInProgress: string := "in progress..."
  const StatusCompleted: string := "completed"
  const StatusExpired: string := "expired"

  /** `timedelta(minutes=5)` in microseconds. */
  const DeleteGrace: int := 5 * 60 * 1000000

  /** `Task.__init__`: a new task starts "not started" and has no creation date. */
  function NewTask(id: int, title: string, description: string, expiryDate: int,
                   priority: string, bullets: seq<Bullet>): (t: Task)
    ensures t.status == StatusNotStarted && t.createdDate.None?
  {
    Task(id, title, description, None, expiryDate, priority, bullets, StatusNotStarted)
  }

  /** `is_expired`: strictly after the expiry instant, so not yet at the
      expiry instant itself and already one microsecond later. */
  function IsExpired(t: Task, now: int): (r: bool)
    ensures now <= t.expiryDate ==> !r
    ensures now == t.expiryDate + 1 ==> r
  {
    now > t.expiryDate
  }

  /** `is_deletable`: strictly more than five minutes after expiry. */
  function IsDeletable(t: Task, now: int): (r: bool)
    ensures r ==> IsExpired(t, now)
    ensures now <= t.expiryDate + DeleteGrace ==> !r
    ensures now == t.expiryDate + DeleteGrace + 1 ==> r
  {
    now > t.expiryDate + DeleteGrace
  }

  /** `all(b["done"] for b in bullets)`; true of an empty checklist. */
  predicate AllDone(bullets: seq<Bullet>) {
    forall i :: 0 <= i < |bullets| ==> bullets[i].done
  }

  /** Python's `any` over lists: some item is a non-empty (truthy) list. */
  predicate AnyTruthy(items: seq<seq<string>>) {
    exists i :: 0 <= i < |items| && items[i] != []
  }

  /** `any(["done"] for b in bullets)` as written: the generator yields the
      constant list `["done"]` once per bullet, so the result only says
      whether the checklist is non-empty. */
  function AnyDoneAsWritten(bullets: seq<Bullet>): (r: bool)
    ensures r <==> bullets != []
  {
    var items := seq(|bullets|, _ => ["done"]);
    assert bullets != [] ==> items[0] != [];
    AnyTruthy(items)
  }

  /** The decision of `update_status`: the four-way match on
      `(is_expired, all_done, any_done)`. It reads only the expiry and the
      checklist. Its last arm cannot be reached (see `StatusRule`, which
      states the whole rule). */
  function StatusOf(t: Task, now: int): string {
    match (IsExpired(t, now), AllDone(t.bullets), AnyDoneAsWritten(t.bullets))
    case (true, _, _) => StatusExpired
    case (false, true, _) => StatusCompleted
    case (false, false, true) => StatusInProgress
    case (false, false, false) => StatusNotStarted
  }

  /** `update_status`: recompute the cached status; nothing else changes. */
  function UpdateStatus(t: Task, now: int): (r: Task)
    ensures r.(status := t.status) == t
    ensures r.status == StatusOf(t, now)
  {
    t.(status := StatusOf(t, now))
  }

  /** `lock_check`: the cached status is "completed" or "expired". */
  function LockCheck(t: Task): (r: bool)
    ensures r <==> t.status == StatusCompleted || t.status == StatusExpired
  {
    t.status in [StatusCompleted, StatusExpired]
  }

  /** The four status strings are pairwise distinct. */
  lemma StatusNamesDistinct()
    ensures StatusExpired != StatusCompleted && StatusExpired != StatusInProgress
    ensures StatusExpired != StatusNotStarted && StatusCompleted != StatusInProgress
    ensures StatusCompleted != StatusNotStarted && StatusInProgress != StatusNotStarted
  {
    assert StatusExpired[0] != StatusCompleted[0] && StatusExpired[0] != StatusInProgress[0];
    assert StatusExpired[0] != StatusNotStarted[0] && StatusCompleted[0] != StatusInProgress[0];
    assert StatusCompleted[0] != StatusNotStarted[0] && StatusInProgress[0] != StatusNotStarted[0];
  }

  /** The whole status rule as written: expiry dominates; otherwise an
      all-done checklist (the empty one included) is "completed" and any
      other is "in progress..."; "not started" is never produced. */
  lemma StatusRule(t: Task, now: int)
    ensures StatusOf(t, now) == StatusExpired <==> now > t.expiryDate
    ensures StatusOf(t, now) == StatusCompleted <==> now <= t.expiryDate && AllDone(t.bullets)
    ensures StatusOf(t, now) == StatusInProgress <==> now <= t.expiryDate && !AllDone(t.bullets)
    ensures StatusOf(t, now) != StatusNotStarted
  {
    StatusNamesDistinct();
    if now <= t.expiryDate && !AllDone(t.bullets) {
      assert t.bullets != [];
    }
  }

  /** An unexpired task with an empty checklist is "completed", because
      `all()` of nothing is true. */
  lemma EmptyChecklistCompletes(t: Task, now: int)
    requires now <= t.expiryDate && t.bullets == []
    ensures StatusOf(t, now) == StatusCompleted
  {
  }

  /** After a refresh the lock holds exactly for expired tasks and tasks whose
      every bullet is done. */
  lemma LockAfterUpdate(t: Task, now: int)
    ensures LockCheck(UpdateStatus(t, now)) <==> IsExpired(t, now) || AllDone(t.bullets)
  {
    StatusRule(t, now);
  }

  /** The evidently intended decision, with `any(b["done"] for b in bullets)`:
      kept separate from `StatusOf`, which the rest of the model uses. */
  function IntendedStatusOf(t: Task, now: int): string {
    if IsExpired(t, now) then StatusExpired
    else if AllDone(t.bullets) then StatusCompleted
    else if exists i :: 0 <= i < |t.bullets| && t.bullets[i].done then StatusInProgress
    else StatusNotStarted
  }

  /** The status as written and the intended one differ exactly on an
      unexpired, non-empty checklist with no bullet done: the code says
      "in progress..." where "not started" was meant. */
  lemma StatusAsWrittenVsIntended(t: Task, now: int)
    ensures var bullets := t.bullets;
      var noneDone := forall i :: 0 <= i < |bullets| ==> !bullets[i].done;
      if now <= t.expiryDate && bullets != [] && noneDone then
        StatusOf(t, now) == StatusInProgress && IntendedStatusOf(t, now) == StatusNotStarted
      else
        StatusOf(t, now) == IntendedStatusOf(t, now)
  {
    var bullets := t.bullets;
    if now <= t.expiryDate && bullets != [] && !AllDone(bullets) {
      if forall i :: 0 <= i < |bullets| ==> !bullets[i].done {
        assert !bullets[0].done;
      }
    } else if now <= t.expiryDate && bullets != [] {
      assert bullets[0].done;
    }
  }
}
