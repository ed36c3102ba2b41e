/**
 The task store and one uninterrupted dispatch over it (internal/scheduler/store.go).
 */
module Tasks {
  import opened Wrappers
  import opened Text
  import opened Sorting
  import opened Calendar
  import opened Schedules
  import opened Builder

  datatype Source = Source(description: string, targetType: string, targetID: int, userID: int)

  datatype Task = Task(
    id: string,
    content: string,
    description: string,
    repeat: bool,
    nextRunAt: int,
    source: Source,
    createdAt: int,
    sch: Schedule
  )

  const TASK_PREFIX := "task-"

  function TaskKey(t: Task): Key {
    Key(t.nextRunAt, t.id)
  }

  // ------------------------------------------------- describing a rule

  const WEEKDAYS := ["Sun", "Mon", "Tue", "Wed", "Thu", "Fri", "Sat"]

  function WeekdayName(d: int): string {
    if 0 <= d <= 6 then WEEKDAYS[d] else "%!Weekday(" + Signed(d) + ")"
  }

  /** The lists that the description of a rule looks into are not empty. */
  predicate Describable(s: Schedule) {
    && (Repeats(s) ==> s.times != [])
    && (s.kind.Weekly? ==> s.days != [])
    && (s.kind.Monthly? ==> s.daysOfMonth != [])
    && (s.kind.Yearly? ==> s.dates != [])
  }

  function PaddedYear(y: int): string {
    var digits := Decimal(if y < 0 then -y else y);
    var zeros := if |digits| < 4 then seq(4 - |digits|, _ => '0') else "";
    (if y < 0 then "-" else "") + zeros + digits
  }

  function FormatInstant(t: Instant): string {
    var d := Civil(LocalDay(t));
    PaddedYear(d.year) + "-" + Padded(d.month) + "-" + Padded(d.day) + " " + FormatMinute(MinuteOfDay(t))
  }

  function Describe(s: Schedule): string
    requires Describable(s)
  {
    match s.kind
    case Once => FormatInstant(s.at) + " (once)"
    case Relative => FormatDuration(s.dur) + " later (once)"
    case Daily => "every day at " + FormatMinute(s.times[0])
    case Weekly => "every " + WeekdayName(s.days[0]) + " at " + FormatMinute(s.times[0])
    case Monthly => "every month on day " + Signed(s.daysOfMonth[0]) + " at " + FormatMinute(s.times[0])
    case Yearly => "every year on " + FormatMonthDay(s.dates[0]) + " at " + FormatMinute(s.times[0])
  }

  function Sample(kind: Kind): Schedule {
    Schedule(kind, 0, 90 * NS_PER_MINUTE, [1], [31], [MonthDay(2, 29)], [485])
  }

  /** How rules of each kind read. */
  lemma DescribeSamples()
    ensures Describe(Sample(Daily)) == "every day at 08:05"
    ensures Describe(Sample(Weekly)) == "every Mon at 08:05"
    ensures Describe(Sample(Monthly)) == "every month on day 31 at 08:05"
    ensures Describe(Sample(Yearly)) == "every year on 02-29 at 08:05"
    ensures Describe(Sample(Relative)) == "90 minutes later (once)"
    ensures Describe(Sample(Once)) == "1970-01-01 08:00 (once)"
  {
    hide *;
    PartsRead();
    DurationReads();
    EpochReads();
    SampleParts();
    assert "every day at " + "08:05" == "every day at 08:05";
    assert "every " + "Mon" + " at " + "08:05" == "every Mon at 08:05";
    assert "every month on day " + "31" + " at " + "08:05" == "every month on day 31 at 08:05";
    assert "every year on " + "02-29" + " at " + "08:05" == "every year on 02-29 at 08:05";
    assert "90 minutes" + " later (once)" == "90 minutes later (once)";
    assert "1970-01-01 08:00" + " (once)" == "1970-01-01 08:00 (once)";
  }

  lemma SampleParts()
    ensures forall kind :: Describable(Sample(kind))
    ensures Describe(Sample(Daily)) == "every day at " + FormatMinute(485)
    ensures Describe(Sample(Weekly)) == "every " + "Mon" + " at " + FormatMinute(485)
    ensures Describe(Sample(Monthly)) == "every month on day " + Signed(31) + " at " + FormatMinute(485)
    ensures Describe(Sample(Yearly)) == "every year on " + FormatMonthDay(MonthDay(2, 29)) + " at " + FormatMinute(485)
    ensures Describe(Sample(Relative)) == FormatDuration(90 * NS_PER_MINUTE) + " later (once)"
    ensures Describe(Sample(Once)) == FormatInstant(0) + " (once)"
  {
    hide FormatMinute, FormatMonthDay, Signed, FormatDuration, FormatInstant;
  }

  lemma SmallNumerals()
    ensures Padded(0) == "00" && Padded(1) == "01" && Padded(2) == "02" && Padded(5) == "05" && Padded(8) == "08"
    ensures Padded(29) == "29" && Decimal(9) == "9" && Decimal(31) == "31"
  {
    TwoDigitNumeral(29);
    TwoDigitNumeral(31);
    hide Decimal;
  }

  lemma TwoDigitNumeral(n: nat)
    requires 10 <= n < 100
    ensures Decimal(n) == [DigitChar(n / 10), DigitChar(n % 10)]
  {
  }

  lemma PartsRead()
    ensures FormatMinute(485) == "08:05" && FormatMinute(480) == "08:00"
    ensures FormatMonthDay(MonthDay(2, 29)) == "02-29" && Signed(31) == "31"
  {
    SmallNumerals();
    hide Padded, Decimal;
  }

  lemma DurationReads()
    ensures FormatDuration(90 * NS_PER_MINUTE) == "90 minutes"
    ensures FormatDuration(90 * NS_PER_SECOND) == "90 seconds"
    ensures FormatDuration(36 * NS_PER_HOUR) == "36 hours" && FormatDuration(48 * NS_PER_HOUR) == "2 days"
  {
    assert Signed(90) == "90" && Signed(36) == "36" && Signed(2) == "2" by {
      TwoDigitNumeral(90);
      TwoDigitNumeral(36);
    }
    hide Signed;
  }

  lemma EpochReads()
    ensures FormatInstant(0) == "1970-01-01 08:00"
  {
    hide Civil, LocalDay, MinuteOfDay, Padded, PaddedYear, FormatMinute, DayNumber;
    SmallNumerals();
    PartsRead();
    YearReads();
    DayNumberRoundTrip(Date(1970, 1, 1));
    KnownDates();
    EpochMorning();
  }

  lemma EpochMorning()
    ensures LocalDay(0) == 0 && MinuteOfDay(0) == 480
  {
  }

  lemma YearReads()
    ensures PaddedYear(1970) == "1970"
  {
    TwoDigitNumeral(19);
    assert Decimal(197) == Decimal(19) + ['7'];
    assert Decimal(1970) == Decimal(197) + ['0'];
  }

  /** A rule that fires at all can be described without indexing an empty list. */
  lemma FiringIsDescribable(s: Schedule, now: Instant)
    requires NextOf(s, now).Some?
    ensures Describable(s)
  {
    if Repeats(s) {
      NextShape(s, now);
      hide LocalDay, InstantAt, Civil;
    }
  }

  function NewTask(id: string, content: string, sch: Schedule, src: Source, now: Instant): Task
    requires NextOf(sch, now).Some? && Describable(sch)
  {
    Task(id, content, Describe(sch), Repeats(sch), Unix(NextOf(sch, now).value), src, Unix(now), sch)
  }

  // ------------------------------------------------- consistency of a task table

  /** Keys are the ids of their tasks, and every id was handed out by this store. */
  ghost predicate Consistent(tasks: map<string, Task>, nextID: nat) {
    forall id :: id in tasks ==>
      tasks[id].id == id && Numbered(TASK_PREFIX, id, nextID) && tasks[id].repeat == Repeats(tasks[id].sch)
  }

  // ------------------------------------------------- firing one task, and all due tasks

  predicate Due(t: Task, now: Instant) {
    t.nextRunAt <= Unix(now)
  }

  /** What a fired task becomes; a task without a next time is removed. */
  function Advanced(t: Task, now: Instant): Option<Task> {
    var next := NextOf(t.sch, now);
    if !t.repeat || next.None? then None else Some(t.(nextRunAt := Unix(next.value)))
  }

  function Settled(tasks: map<string, Task>, id: string, t: Option<Task>): map<string, Task> {
    match t
    case None => tasks - {id}
    case Some(t) => tasks[id := t]
  }

  /** One mutex section of dispatch: the event, if the task still exists and is still due. */
  function Captured(tasks: map<string, Task>, id: string, now: Instant): Option<Task> {
    if id in tasks && Due(tasks[id], now) then Some(tasks[id]) else None
  }

  function AfterCapture(tasks: map<string, Task>, id: string, now: Instant): map<string, Task> {
    if Captured(tasks, id, now).Some? then Settled(tasks, id, Advanced(tasks[id], now)) else tasks
  }

  /** The table after every task in `ids` has fired at `now`, each on its own. */
  function Fired(tasks: map<string, Task>, ids: set<string>, now: Instant): map<string, Task> {
    map id | id in tasks && (id in ids ==> Advanced(tasks[id], now).Some?) ::
      if id in ids then Advanced(tasks[id], now).value else tasks[id]
  }

  function DueIds(tasks: map<string, Task>, now: Instant): set<string> {
    set id | id in tasks && Due(tasks[id], now)
  }

  /** `due` lists exactly the due tasks, each once, by firing time; ties in any order. */
  ghost predicate DueList(tasks: map<string, Task>, now: Instant, due: seq<Task>) {
    && (forall x :: x in due <==> Stored(TaskKey, tasks, x) && Due(x, now))
    && (forall i, j :: 0 <= i < j < |due| ==> due[i].nextRunAt <= due[j].nextRunAt && due[i].id != due[j].id)
  }

  function Ids(ts: seq<Task>): set<string> {
    set t | t in ts :: t.id
  }

  lemma FireOneMore(tasks: map<string, Task>, ids: set<string>, id: string, now: Instant)
    requires id in tasks && id !in ids && Due(tasks[id], now)
    ensures AfterCapture(Fired(tasks, ids, now), id, now) == Fired(tasks, ids + {id}, now)
    ensures Captured(Fired(tasks, ids, now), id, now) == Some(tasks[id])
  {
    hide Advanced, Due;
  }

  /** A task that has just fired is not due again at the same instant. */
  lemma AdvancedNotDue(t: Task, now: Instant)
    requires t.repeat == Repeats(t.sch) && Advanced(t, now).Some?
    ensures !Due(Advanced(t, now).value, now)
  {
    hide NextOf;
    NextIsLater(t.sch, now);
    UnixCompare(NextOf(t.sch, now).value, now);
  }

  /** After every due task has fired nothing is due. */
  lemma NothingDueAfter(tasks: map<string, Task>, nextID: nat, now: Instant)
    requires Consistent(tasks, nextID)
    ensures var after := Fired(tasks, DueIds(tasks, now), now); forall id :: id in after ==> !Due(after[id], now)
  {
    hide Advanced, Due, Numbered;
    var after := Fired(tasks, DueIds(tasks, now), now);
    forall id | id in after
      ensures !Due(after[id], now)
    {
      if id in DueIds(tasks, now) {
        AdvancedNotDue(tasks[id], now);
      }
    }
  }

  /** So a second pass at the same instant has nothing to fire. */
  lemma SecondPassEmpty(tasks: map<string, Task>, nextID: nat, now: Instant, due: seq<Task>)
    requires Consistent(tasks, nextID)
    requires DueList(Fired(tasks, DueIds(tasks, now), now), now, due)
    ensures due == []
  {
    assert due != [] ==> due[0] in due;
    hide Advanced, Due, Consistent, Fired;
    NothingDueAfter(tasks, nextID, now);
  }

  lemma AddKeepsConsistent(tasks: map<string, Task>, nextID: nat, t: Task)
    requires Consistent(tasks, nextID) && t.id == Id(TASK_PREFIX, nextID + 1) && t.repeat == Repeats(t.sch)
    ensures Consistent(tasks[t.id := t], nextID + 1) && t.id !in tasks
  {
    NextIdIsFresh(TASK_PREFIX, nextID);
    hide Id;
  }

  // ------------------------------------------------- the store

  class Store {
    var tasks: map<string, Task>
    var nextID: nat

    ghost predicate Valid()
      reads this
    {
      Consistent(tasks, nextID)
    }

    constructor ()
      ensures Valid() && tasks == map[] && nextID == 0
    {
      tasks := map[];
      nextID := 0;
    }

    method AddAt(content: string, sch: Option<Schedule>, src: Source, now: Instant) returns (r: Result<Task>)
      requires Valid()
      modifies this
      ensures Valid()
      ensures r.Success? <==> sch.Some? && NextOf(sch.value, now).Some?
      ensures r.Failure? ==> tasks == old(tasks) && nextID == old(nextID)
      ensures r.Success? ==>
                && nextID == old(nextID) + 1 && Id(TASK_PREFIX, nextID) !in old(tasks)
                && Describable(sch.value) && r.value == NewTask(Id(TASK_PREFIX, nextID), content, sch.value, src, now)
                && tasks == old(tasks)[Id(TASK_PREFIX, nextID) := r.value]
      ensures r.Success? ==>
                && r.value.id == Id(TASK_PREFIX, nextID) && r.value.content == content && r.value.source == src
                && r.value.sch == sch.value && r.value.createdAt == Unix(now) && r.value.repeat == Repeats(sch.value)
      ensures sch.Some? && sch.value.kind.Once? ==>
                (r.Success? <==> now < sch.value.at) && (r.Success? ==> r.value.nextRunAt == Unix(sch.value.at))
      ensures sch.Some? && sch.value.kind.Relative? ==> r.Success? && r.value.nextRunAt == Unix(now + sch.value.dur)
      ensures r.Success? && Good(sch.value) ==>
                exists t :: Least(sch.value, now, t) && r.value.nextRunAt == Unix(t)
    {
      hide NextOf, Consistent, Least, Good;
      if sch.None? {
        return Failure;
      }
      var next := Next(sch.value, now);
      if next.None? {
        return Failure;
      }
      FiringIsDescribable(sch.value, now);
      if Good(sch.value) {
        NextIsLeast(sch.value, now);
      }
      hide NextOf, Describe, Id, Describable, Unix, Repeats, Consistent, Numbered;
      nextID := nextID + 1;
      var t := Task(Id(TASK_PREFIX, nextID), content, Describe(sch.value), Repeats(sch.value), Unix(next.value), src,
                    Unix(now), sch.value);
      AddKeepsConsistent(tasks, nextID - 1, t);
      tasks := tasks[t.id := t];
      r := Success(t);
    }

    method List() returns (out: seq<Task>)
      requires Valid()
      ensures Listing(TaskKey, tasks, out) && |out| == |tasks|
      ensures forall x :: x in out <==> x.id in tasks && tasks[x.id] == x
      ensures forall i, j :: 0 <= i < j < |out| ==>
                out[i].nextRunAt < out[j].nextRunAt
                || (out[i].nextRunAt == out[j].nextRunAt && Less(out[i].id, out[j].id))
    {
      hide Less, SortBy;
      out := Values();
      SortedValuesList(TaskKey, tasks, out);
      SortPermutes(ByKey(TaskKey), out);
      out := SortBy(ByKey(TaskKey), out);
    }

    /** The stored tasks in the order a Go map happens to be ranged over. */
    method Values() returns (out: seq<Task>)
      requires Valid()
      ensures forall x :: x in out <==> Stored(TaskKey, tasks, x)
      ensures forall i, j :: 0 <= i < j < |out| ==> out[i] != out[j]
      ensures |out| == |tasks|
    {
      var ids := Enumerate(tasks.Keys);
      out := [];
      for i := 0 to |ids|
        invariant |out| == i
        invariant forall k :: 0 <= k < i ==> out[k] == tasks[ids[k]]
      {
        out := out + [tasks[ids[i]]];
      }
      EnumeratedValues(TaskKey, tasks, ids, out);
    }

    method Cancel(id: string) returns (r: Option<Task>)
      requires Valid()
      modifies this`tasks
      ensures Valid() && tasks == old(tasks) - {id}
      ensures r == if id in old(tasks) then Some(old(tasks)[id]) else None
    {
      if id !in tasks {
        assert tasks - {id} == tasks;
        return None;
      }
      r := Some(tasks[id]);
      tasks := tasks - {id};
    }

    method DueTasks(now: Instant) returns (out: seq<Task>)
      requires Valid()
      ensures DueList(tasks, now, out)
    {
      var all := Values();
      out := [];
      for i := 0 to |all|
        invariant forall x :: x in out <==> x in all[..i] && Due(x, now)
        invariant forall j, k :: 0 <= j < k < |out| ==> out[j] != out[k]
      {
        assert all[..i + 1] == all[..i] + [all[i]];
        if all[i].nextRunAt <= Unix(now) {
          assert forall j :: 0 <= j < |out| ==> out[j] in out;
          out := out + [all[i]];
        }
      }
      assert all[..|all|] == all;
      SortedDueList(tasks, nextID, now, out);
      out := SortBy(BY_RUN_TIME, out);
    }

    /** One mutex section of dispatch. */
    method Capture(id: string, now: Instant) returns (evt: Option<Task>)
      requires Valid()
      modifies this`tasks
      ensures Valid() && evt == Captured(old(tasks), id, now) && tasks == AfterCapture(old(tasks), id, now)
      ensures forall other :: other in old(tasks) && other != id ==> other in tasks && tasks[other] == old(tasks)[other]
      ensures evt.None? ==> tasks == old(tasks)
      ensures evt.Some? ==>
                && id in old(tasks) && evt.value == old(tasks)[id] && tasks.Keys + {id} == old(tasks).Keys
                && (id in tasks ==> tasks[id] == evt.value.(nextRunAt := tasks[id].nextRunAt) && evt.value.repeat)
    {
      if id !in tasks || tasks[id].nextRunAt > Unix(now) {
        return None;
      }
      var cur := tasks[id];
      evt := Some(cur);
      var next := Next(cur.sch, now);
      if !cur.repeat || next.None? {
        tasks := tasks - {cur.id};
      } else {
        tasks := tasks[id := cur.(nextRunAt := Unix(next.value))];
      }
    }
  }

  const BY_RUN_TIME: (Task, Task) -> bool := (a: Task, b: Task) => a.nextRunAt <= b.nextRunAt

  lemma SortedByRunTime(out: seq<Task>)
    requires forall j, k :: 0 <= j < k < |out| ==> out[j] != out[k]
    ensures var sorted := SortBy(BY_RUN_TIME, out);
            && (forall x :: x in sorted <==> x in out)
            && forall i, j :: 0 <= i < j < |sorted| ==>
                 sorted[i].nextRunAt <= sorted[j].nextRunAt && sorted[i] != sorted[j]
  {
    hide SortBy;
    var sorted := SortBy(BY_RUN_TIME, out);
    SortSorts(BY_RUN_TIME, out);
    forall x
      ensures x in sorted <==> x in out
    {
      SortMembers(BY_RUN_TIME, out, x);
    }
    forall i, j | 0 <= i < j < |sorted|
      ensures sorted[i].nextRunAt <= sorted[j].nextRunAt && sorted[i] != sorted[j]
    {
      DistinctAfterSort(BY_RUN_TIME, out, i, j);
      assert BY_RUN_TIME(sorted[i], sorted[j]);
    }
  }

  lemma SortedDueList(tasks: map<string, Task>, nextID: nat, now: Instant, out: seq<Task>)
    requires Consistent(tasks, nextID)
    requires forall x :: x in out <==> Stored(TaskKey, tasks, x) && Due(x, now)
    requires forall j, k :: 0 <= j < k < |out| ==> out[j] != out[k]
    ensures DueList(tasks, now, SortBy(BY_RUN_TIME, out))
  {
    hide Due, SortBy, Stored, Consistent;
    SortedByRunTime(out);
    var sorted := SortBy(BY_RUN_TIME, out);
    forall i, j | 0 <= i < j < |sorted|
      ensures sorted[i].id != sorted[j].id
    {
      assert sorted[i] in sorted && sorted[j] in sorted;
      SameIdSameTask(tasks, sorted[i], sorted[j]);
    }
  }

  lemma SameIdSameTask(tasks: map<string, Task>, a: Task, b: Task)
    requires Stored(TaskKey, tasks, a) && Stored(TaskKey, tasks, b)
    ensures a.id == b.id ==> a == b
  {
  }

  // ------------------------------------------------- one dispatch with nobody else at the store

  /** The table after whole dispatches at each of `ticks`. */
  function Dispatched(tasks: map<string, Task>, ticks: seq<Instant>): map<string, Task> {
    if ticks == [] then tasks else
      var before, now := Dispatched(tasks, ticks[..|ticks| - 1]), ticks[|ticks| - 1];
      Fired(before, DueIds(before, now), now)
  }

  function Flattened(tss: seq<seq<Task>>): seq<Task> {
    if tss == [] then [] else Flattened(tss[..|tss| - 1]) + tss[|tss| - 1]
  }

  class Scheduler {
    const store: Store
    var fires: seq<Task>

    constructor (store: Store)
      ensures this.store == store && fires == []
    {
      this.store := store;
      fires := [];
    }

    /**
     Fires all due tasks. `accepted(i)` tells whether the i-th select sends the event or
     finds the context cancelled. `due` is the snapshot and `n` how many of its tasks the
     store has advanced past: all of them if every send was accepted, and otherwise up to
     and including the first whose send was not, which is then in nobody's hands.
     */
    method Dispatch(now: Instant, accepted: nat -> bool) returns (done: bool, ghost due: seq<Task>, ghost n: nat)
      requires store.Valid()
      modifies this`fires, store`tasks
      ensures store.Valid() && DueList(old(store.tasks), now, due)
      ensures done <==> forall i: nat :: i < |due| ==> accepted(i)
      ensures n <= |due| && store.tasks == Fired(old(store.tasks), Ids(due[..n]), now)
      ensures done ==> n == |due| && fires == old(fires) + due
      ensures !done ==> 0 < n && !accepted(n - 1) && forall i: nat :: i < n - 1 ==> accepted(i)
      ensures !done ==> fires == old(fires) + due[..n - 1]
      ensures done ==> store.tasks == Fired(old(store.tasks), DueIds(old(store.tasks), now), now)
      ensures done ==> forall id :: id in store.tasks ==> !Due(store.tasks[id], now)
    {
      hide Fired, Captured, AfterCapture, Consistent, Due, DueList, DueIds, Ids;
      var snapshot := store.DueTasks(now);
      due := snapshot;
      FireNone(store.tasks, now);
      assert Ids(due[..0]) == {} by {
        NoIds();
      }
      for i := 0 to |snapshot|
        invariant store.Valid() && store.nextID == old(store.nextID)
        invariant store.tasks == Fired(old(store.tasks), Ids(due[..i]), now)
        invariant fires == old(fires) + due[..i]
        invariant forall j: nat :: j < i ==> accepted(j)
      {
        FireNth(old(store.tasks), now, due, i);
        var evt := store.Capture(snapshot[i].id, now);
        if evt.Some? {
          if accepted(i) {
            fires := fires + [evt.value];
          } else {
            return false, due, i + 1;
          }
        }
        assert due[..i + 1] == due[..i] + [due[i]];
      }
      assert due[..|due|] == due;
      AllDueFired(old(store.tasks), store.nextID, now, due);
      return true, due, |due|;
    }

    /**
     The dispatch loop over the ticks of an undisturbed run; `accepted(k)(i)` is the i-th
     select of the k-th dispatch. `fired` holds the due tasks of each dispatch that
     completed; the loop ends with the first that does not, at tick `|fired|`.
     */
    method Run(ticks: seq<Instant>, accepted: nat -> nat -> bool) returns (done: bool, ghost fired: seq<seq<Task>>)
      requires store.Valid()
      modifies this`fires, store`tasks
      ensures store.Valid() && AllDispatched(old(store.tasks), ticks, accepted, fired)
      ensures done <==> |fired| == |ticks|
      ensures done ==> store.tasks == Dispatched(old(store.tasks), ticks) && fires == old(fires) + Flattened(fired)
      ensures !done ==>
                exists due, n: nat ::
                  && BrokenOff(Dispatched(old(store.tasks), ticks[..|fired|]), ticks[|fired|], accepted(|fired|),
                               due, n, store.tasks)
                  && fires == old(fires) + Flattened(fired) + due[..n - 1]
    {
      hide Fired, Consistent, Due, DueList, DueIds, Ids, AllDispatched, Dispatched, Flattened;
      fired := [];
      NothingDispatched(store.tasks, ticks, accepted);
      for k := 0 to |ticks|
        invariant store.Valid() && |fired| == k && AllDispatched(old(store.tasks), ticks, accepted, fired)
        invariant store.tasks == Dispatched(old(store.tasks), ticks[..k]) && fires == old(fires) + Flattened(fired)
      {
        var completed, due, n := Dispatch(ticks[k], accepted(k));
        if !completed {
          assert BrokenOff(Dispatched(old(store.tasks), ticks[..k]), ticks[k], accepted(k), due, n, store.tasks);
          return false, fired;
        }
        OneMoreDispatched(old(store.tasks), ticks, accepted, fired, due);
        fired := fired + [due];
      }
      assert ticks[..|ticks|] == ticks;
      return true, fired;
    }
  }

  /** `due` was due at the `k`-th tick, and every send of it was accepted. */
  ghost predicate DispatchedAt(
    tasks: map<string, Task>, ticks: seq<Instant>, accepted: nat -> nat -> bool, k: nat, due: seq<Task>)
    requires k < |ticks|
  {
    DueList(Dispatched(tasks, ticks[..k]), ticks[k], due) && forall i: nat :: i < |due| ==> accepted(k)(i)
  }

  /** The dispatches at the first `|fired|` ticks fired the lists in `fired`, every send accepted. */
  ghost predicate AllDispatched(
    tasks: map<string, Task>, ticks: seq<Instant>, accepted: nat -> nat -> bool, fired: seq<seq<Task>>)
  {
    |fired| <= |ticks| && forall k: nat :: k < |fired| ==> DispatchedAt(tasks, ticks, accepted, k, fired[k])
  }

  /** A dispatch of `due` that advanced `n` tasks and then had a send refused. */
  ghost predicate BrokenOff(
    before: map<string, Task>, now: Instant, accepted: nat -> bool, due: seq<Task>, n: nat, after: map<string, Task>)
  {
    && DueList(before, now, due) && 0 < n <= |due| && !accepted(n - 1) && (forall i: nat :: i < n - 1 ==> accepted(i))
    && after == Fired(before, Ids(due[..n]), now)
  }

  lemma NothingDispatched(tasks: map<string, Task>, ticks: seq<Instant>, accepted: nat -> nat -> bool)
    ensures AllDispatched(tasks, ticks, accepted, []) && Dispatched(tasks, ticks[..0]) == tasks && Flattened([]) == []
  {
  }

  lemma OneMoreDispatched(
    tasks: map<string, Task>, ticks: seq<Instant>, accepted: nat -> nat -> bool, fired: seq<seq<Task>>, due: seq<Task>)
    requires AllDispatched(tasks, ticks, accepted, fired) && |fired| < |ticks|
    requires DueList(Dispatched(tasks, ticks[..|fired|]), ticks[|fired|], due)
    requires forall i: nat :: i < |due| ==> accepted(|fired|)(i)
    ensures AllDispatched(tasks, ticks, accepted, fired + [due])
    ensures Flattened(fired + [due]) == Flattened(fired) + due
    ensures var before, now := Dispatched(tasks, ticks[..|fired|]), ticks[|fired|];
            Dispatched(tasks, ticks[..|fired| + 1]) == Fired(before, DueIds(before, now), now)
  {
    hide DueList, Dispatched, Flattened;
    assert DispatchedAt(tasks, ticks, accepted, |fired|, due);
    hide DispatchedAt;
    DispatchedSnoc(tasks, ticks, |fired|);
    FlattenedSnoc(fired, due);
  }

  lemma DispatchedSnoc(tasks: map<string, Task>, ticks: seq<Instant>, k: nat)
    requires k < |ticks|
    ensures var before, now := Dispatched(tasks, ticks[..k]), ticks[k];
            Dispatched(tasks, ticks[..k + 1]) == Fired(before, DueIds(before, now), now)
  {
    hide Fired, DueIds;
    assert ticks[..k + 1][..k] == ticks[..k];
  }

  lemma FlattenedSnoc(fired: seq<seq<Task>>, due: seq<Task>)
    ensures Flattened(fired + [due]) == Flattened(fired) + due
  {
    assert (fired + [due])[..|fired|] == fired;
  }

  lemma NoIds()
    ensures Ids([]) == {}
  {
  }

  lemma FireNone(tasks: map<string, Task>, now: Instant)
    ensures Fired(tasks, {}, now) == tasks
  {
  }

  lemma FireNth(tasks: map<string, Task>, now: Instant, due: seq<Task>, i: nat)
    requires DueList(tasks, now, due) && i < |due|
    ensures var before := Fired(tasks, Ids(due[..i]), now);
            && Captured(before, due[i].id, now) == Some(due[i])
            && AfterCapture(before, due[i].id, now) == Fired(tasks, Ids(due[..i + 1]), now)
  {
    hide Due, Fired, Captured, AfterCapture;
    assert due[i] in due;
    assert Stored(TaskKey, tasks, due[i]);
    assert due[i].id !in Ids(due[..i]);
    assert due[..i + 1] == due[..i] + [due[i]];
    assert Ids(due[..i + 1]) == Ids(due[..i]) + {due[i].id};
    FireOneMore(tasks, Ids(due[..i]), due[i].id, now);
  }

  lemma AllDueFired(tasks: map<string, Task>, nextID: nat, now: Instant, due: seq<Task>)
    requires Consistent(tasks, nextID) && DueList(tasks, now, due)
    ensures Ids(due) == DueIds(tasks, now)
    ensures forall id :: id in Fired(tasks, Ids(due), now) ==> !Due(Fired(tasks, Ids(due), now)[id], now)
  {
    DueListIds(tasks, nextID, now, due);
    hide Fired, Due, Consistent, DueList;
    NothingDueAfter(tasks, nextID, now);
  }

  lemma DueListIds(tasks: map<string, Task>, nextID: nat, now: Instant, due: seq<Task>)
    requires Consistent(tasks, nextID) && DueList(tasks, now, due)
    ensures Ids(due) == DueIds(tasks, now)
  {
    hide Due, Numbered;
    forall id | id in DueIds(tasks, now)
      ensures id in Ids(due)
    {
      assert Stored(TaskKey, tasks, tasks[id]);
      assert tasks[id] in due;
    }
  }

  /** A relative task is created to run its delay after creation, in whole seconds. */
  lemma RelativeFirstRun(id: string, content: string, minutes: int, hours: int, days: int, src: Source, now: Instant)
    requires 0 <= minutes && 0 <= hours && 0 <= days && (0 < minutes || 0 < hours || 0 < days)
    requires RelativeTotal(minutes, hours, days) < TWO_63
    ensures var r := BuildRelative(minutes, hours, days);
            && r.Success?
            && NewTask(id, content, r.value, src, now).nextRunAt
               == Unix(now + (minutes * 60 + hours * 3600 + days * 86400) * 1_000_000_000)
            && ReadDuration(FormatDuration(r.value.dur)) == Some(RelativeTotal(minutes, hours, days))
  {
    RelativeExactIff(minutes, hours, days);
    RelativeWholeSeconds(minutes, hours, days);
    hide FormatDuration, ReadDuration, RelativeDelay, Describe;
    DurationRoundTripIff(RelativeTotal(minutes, hours, days));
  }

  lemma RelativeWholeSeconds(minutes: int, hours: int, days: int)
    ensures RelativeTotal(minutes, hours, days) % NS_PER_SECOND == 0
  {
    assert RelativeTotal(minutes, hours, days) == (minutes * 60 + hours * 3600 + days * 86400) * NS_PER_SECOND;
  }
}
