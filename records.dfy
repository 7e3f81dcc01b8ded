/**
 * The record mapping of `TaskManager.to_dict` and `TaskManager.from_dict`.
 * A stored record is a task whose fields may each be missing; reading the
 * JSON text and parsing ISO dates is the caller's work, so a record holds
 * the already-parsed values.
 */
module Records {
  import opened Wrappers
  import opened Tasks
  import opened Seqs

  datatype TaskRecord = TaskRecord(
    id: Option<int>,
    title: Option<string>,
    description: Option<string>,
    createdDate: Option<int>,
    expiryDate: Option<int>,
    priority: Option<string>,
    status: Option<string>,
    bullets: Option<seq<Bullet>>)

  const DefaultId: int := 0
  const DefaultTitle: string := "Untitleed"
  const DefaultDescription: string := "no description"
  const DefaultPriority: string := "low"

  /** Every field of the record is present. */
  predicate IsComplete(d: TaskRecord) {
    d.id.Some? && d.title.Some? && d.description.Some? && d.createdDate.Some? &&
    d.expiryDate.Some? && d.priority.Some? && d.status.Some? && d.bullets.Some?
  }

  /** One element of `to_dict`; a task without a creation date is written
      with `now` in its place. */
  function ToRecord(t: Task, now: int): (d: TaskRecord)
    ensures IsComplete(d)
  {
    TaskRecord(Some(t.id), Some(t.title), Some(t.description),
               Some(t.createdDate.GetOr(now)), Some(t.expiryDate), Some(t.priority),
               Some(t.status), Some(t.bullets))
  }

  /** `to_dict`: one complete record per task, in store order. */
  function ToDict(tasks: seq<Task>, now: int): (ds: seq<TaskRecord>)
    ensures |ds| == |tasks|
    ensures forall i :: 0 <= i < |ds| ==> IsComplete(ds[i]) && ds[i].id == Some(tasks[i].id)
  {
    seq(|tasks|, i requires 0 <= i < |tasks| => ToRecord(tasks[i], now))
  }

  /** The successive readings of `datetime.now()`: the listed readings in
      order, then `later` for every further call. */
  datatype Clock = Clock(readings: seq<int>, later: int) {
    /** The reading the `n`-th call returns, counting from 0. */
    function Read(n: nat): int {
      if n < |readings| then readings[n] else later
    }
  }

  /** The task one record of `from_dict` builds. Both `d.get` defaults call
      `datetime.now()` whether or not the field is present: `expiryNow` is the
      reading taken for the expiry, `createdNow` the one for the creation date.
      A decoded task always has a creation date, and the reading is used for
      the expiry only when the record has none. */
  function Decode(d: TaskRecord, expiryNow: int, createdNow: int): (t: Task)
    ensures t.createdDate.Some?
    ensures d.expiryDate.Some? ==> t.expiryDate == d.expiryDate.value
    ensures d.expiryDate.None? ==> t.expiryDate == expiryNow
  {
    NewTask(d.id.GetOr(DefaultId), d.title.GetOr(DefaultTitle),
            d.description.GetOr(DefaultDescription), d.expiryDate.GetOr(expiryNow),
            d.priority.GetOr(DefaultPriority), d.bullets.GetOr([]))
      .(createdDate := Some(d.createdDate.GetOr(createdNow)),
        status := d.status.GetOr(StatusNotStarted))
  }

  /** Each field present in the record is kept; each missing one takes its
      default: id 0, title "Untitleed", description "no description",
      priority "low", status "not started", no bullets, and the clock
      reading for each of the two dates. */
  lemma DecodeFields(d: TaskRecord, expiryNow: int, createdNow: int)
    ensures var t := Decode(d, expiryNow, createdNow);
      && t.id == (if d.id.Some? then d.id.value else DefaultId)
      && t.title == (if d.title.Some? then d.title.value else DefaultTitle)
      && t.description == (if d.description.Some? then d.description.value else DefaultDescription)
      && t.createdDate == Some(if d.createdDate.Some? then d.createdDate.value else createdNow)
      && t.expiryDate == (if d.expiryDate.Some? then d.expiryDate.value else expiryNow)
      && t.priority == (if d.priority.Some? then d.priority.value else DefaultPriority)
      && t.status == (if d.status.Some? then d.status.value else StatusNotStarted)
      && t.bullets == (if d.bullets.Some? then d.bullets.value else [])
  {
  }

  /** Decoding a complete record keeps every field it holds; the clock
      plays no part. */
  lemma DecodeComplete(d: TaskRecord, expiryNow: int, createdNow: int)
    requires IsComplete(d)
    ensures Decode(d, expiryNow, createdNow) ==
            Task(d.id.value, d.title.value, d.description.value, d.createdDate,
                 d.expiryDate.value, d.priority.value, d.bullets.value, d.status.value)
  {
  }

  /** One pass of the inner loop of `from_dict`, whose first clock reading is
      `clock.Read(start)`: record `j` reads `clock.Read(start + 2 * j)` for its expiry and
      `clock.Read(start + 2 * j + 1)` for its creation date. */
  function DecodePass(data: seq<TaskRecord>, clock: Clock, start: nat): (ts: seq<Task>)
    ensures |ts| == |data|
  {
    seq(|data|, j requires 0 <= j < |data| =>
      Decode(data[j], clock.Read(start + 2 * j), clock.Read(start + 2 * j + 1)))
  }

  /** The number of clock readings taken before pass `i` of the outer loop
      over `width` records: `2 * width * i`. */
  function PassStart(width: nat, i: nat): nat {
    if i == 0 then 0 else PassStart(width, i - 1) + 2 * width
  }

  /** The first `n` passes of the outer loop of `from_dict`, one after the other. */
  function Loaded(data: seq<TaskRecord>, clock: Clock, n: nat): seq<Task> {
    if n == 0 then [] else Loaded(data, clock, n - 1) + DecodePass(data, clock, PassStart(|data|, n - 1))
  }

  /** `from_dict`: for each record of `data` the inner loop, which rebinds
      `d`, decodes the whole of `data` again, reading the clock twice per
      record. */
  method FromDict(data: seq<TaskRecord>, clock: Clock) returns (tasks: seq<Task>)
    ensures tasks == Loaded(data, clock, |data|)
  {
    tasks := [];
    var calls: nat := 0;
    for i := 0 to |data|
      invariant calls == PassStart(|data|, i)
      invariant tasks == Loaded(data, clock, i)
    {
      ghost var pass := DecodePass(data, clock, calls);
      for j := 0 to |data|
        invariant calls == PassStart(|data|, i) + 2 * j
        invariant tasks == Loaded(data, clock, i) + pass[..j]
      {
        var expiryNow := clock.Read(calls);
        var createdNow := clock.Read(calls + 1);
        var task := Decode(data[j], expiryNow, createdNow);
        calls := calls + 2;
        assert pass[j] == task;
        assert pass[..j + 1] == pass[..j] + [task];
        tasks := tasks + [task];
      }
      assert pass[..|data|] == pass;
    }
  }

  /** When every record is complete the clock plays no part: each pass
      decodes the same list, and `from_dict` returns it repeated once per
      record. */
  lemma {:induction false} LoadedComplete(data: seq<TaskRecord>, clock: Clock, n: nat)
    requires forall j :: 0 <= j < |data| ==> IsComplete(data[j])
    ensures Loaded(data, clock, n) == Repeat(DecodePass(data, clock, 0), n)
  {
    if n > 0 {
      LoadedComplete(data, clock, n - 1);
      var start := PassStart(|data|, n - 1);
      forall j | 0 <= j < |data|
        ensures DecodePass(data, clock, start)[j] == DecodePass(data, clock, 0)[j]
      {
        DecodeComplete(data[j], clock.Read(start + 2 * j), clock.Read(start + 2 * j + 1));
        DecodeComplete(data[j], clock.Read(2 * j), clock.Read(2 * j + 1));
      }
    }
  }

  /** The task as saved and reloaded: a missing creation date becomes the
      save time. */
  function Stamped(t: Task, now: int): (s: Task)
    ensures s.createdDate.Some?
    ensures t.createdDate.Some? ==> s == t
  {
    t.(createdDate := Some(t.createdDate.GetOr(now)))
  }

  /** Reloading a saved record gives the task back, with its creation date
      fixed at save time; the load-time clock readings play no part. */
  lemma DecodeToRecord(t: Task, saveTime: int, expiryNow: int, createdNow: int)
    ensures Decode(ToRecord(t, saveTime), expiryNow, createdNow) == Stamped(t, saveTime)
  {
  }

  /** Each pass of `from_dict` over `to_dict` gives back every task in
      order, each stamped with its creation date. */
  lemma DecodePassToDict(tasks: seq<Task>, saveTime: int, clock: Clock, start: nat)
    ensures |DecodePass(ToDict(tasks, saveTime), clock, start)| == |tasks|
    ensures forall i :: 0 <= i < |tasks| ==>
      DecodePass(ToDict(tasks, saveTime), clock, start)[i] == Stamped(tasks[i], saveTime)
  {
    forall i | 0 <= i < |tasks|
      ensures DecodePass(ToDict(tasks, saveTime), clock, start)[i] == Stamped(tasks[i], saveTime)
    {
      DecodeToRecord(tasks[i], saveTime, clock.Read(start + 2 * i), clock.Read(start + 2 * i + 1));
    }
  }

  /** When every task has a creation date, the first pass of `from_dict`
      over `to_dict` is the list itself. */
  lemma FirstPassOfToDict(tasks: seq<Task>, saveTime: int, clock: Clock)
    requires forall i :: 0 <= i < |tasks| ==> tasks[i].createdDate.Some?
    ensures DecodePass(ToDict(tasks, saveTime), clock, 0) == tasks
  {
    DecodePassToDict(tasks, saveTime, clock, 0);
  }
}
