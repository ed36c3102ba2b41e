/**
 The scheduler and its clients as atomic steps, one per mutex section or channel
 operation, interleaved in any order (internal/scheduler/store.go).
 */
module Machine {
  import opened Wrappers
  import opened Text
  import opened Sorting
  import opened Calendar
  import opened Schedules
  import opened Builder
  import opened Tasks
  import opened Ticks

  const CHANNEL_CAPACITY := 256

  /** A copy of a fired task, with the number and instant of the tick that captured it. */
  datatype Event = Event(task: Task, tick: nat, now: Instant)

  /** Where the dispatching goroutine is: `rest` are the due tasks it has still to visit. */
  datatype Phase =
    | Idle
    | Scanning(now: Instant, rest: seq<Task>)
    | Sending(event: Event, rest: seq<Task>)
    | Stopped(lost: seq<Event>)

  /**
   The shared state, with three histories that the code does not keep: the events
   delivered to the consumer, all events ever captured, and for each id the latest
   instant at which its task was created, found not due, or fired.
   */
  datatype Sys = Sys(
    tasks: map<string, Task>,
    nextID: nat,
    phase: Phase,
    channel: seq<Event>,
    tick: nat,
    delivered: seq<Event>,
    captured: seq<Event>,
    seen: map<string, Instant>
  )

  const START := Sys(map[], 0, Idle, [], 0, [], [], map[])

  datatype Step =
    | Add(content: string, sch: Schedule, src: Source, now: Instant)
    | Cancel(id: string)
    | Tick(now: Instant, due: seq<Task>)
    | Visit
    | Send
    | Receive
    | Stop

  /** Every task found not due at `now` has been looked at then. */
  function Looked(seen: map<string, Instant>, tasks: map<string, Task>, now: Instant): map<string, Instant> {
    map id | id in seen ::
      if id in tasks && !Due(tasks[id], now) && seen[id] < now then now else seen[id]
  }

  function AddStep(s: Sys, content: string, sch: Schedule, src: Source, now: Instant): Sys {
    if NextOf(sch, now).Some? then
      var id := Id(TASK_PREFIX, s.nextID + 1);
      FiringIsDescribable(sch, now);
      s.(tasks := s.tasks[id := NewTask(id, content, sch, src, now)], nextID := s.nextID + 1, seen := s.seen[id := now])
    else s
  }

  function VisitStep(s: Sys, now: Instant, rest: seq<Task>): Sys {
    if rest == [] then s.(phase := Idle) else
      var id := rest[0].id;
      match Captured(s.tasks, id, now)
      case None => s.(phase := Scanning(now, rest[1..]))
      case Some(t) =>
        var e := Event(t, s.tick, now);
        s.(tasks := AfterCapture(s.tasks, id, now), phase := Sending(e, rest[1..]),
           captured := s.captured + [e], seen := s.seen[id := now])
  }

  /** The successor state; a step that is not enabled changes nothing. */
  ghost function Apply(s: Sys, step: Step): Sys {
    match step
    case Add(content, sch, src, now) => AddStep(s, content, sch, src, now)
    case Cancel(id) => s.(tasks := s.tasks - {id})
    case Tick(now, due) =>
      if s.phase.Idle? && DueList(s.tasks, now, due) then
        s.(phase := Scanning(now, due), tick := s.tick + 1, seen := Looked(s.seen, s.tasks, now))
      else s
    case Visit => if s.phase.Scanning? then VisitStep(s, s.phase.now, s.phase.rest) else s
    case Send =>
      if s.phase.Sending? && |s.channel| < CHANNEL_CAPACITY then
        s.(phase := Scanning(s.phase.event.now, s.phase.rest), channel := s.channel + [s.phase.event])
      else s
    case Receive =>
      if s.channel != [] then s.(channel := s.channel[1..], delivered := s.delivered + [s.channel[0]]) else s
    case Stop =>
      match s.phase
      case Idle => s.(phase := Stopped([]))
      case Sending(e, _) => s.(phase := Stopped([e]))
      case _ => s
  }

  ghost function Run(s: Sys, steps: seq<Step>): Sys
    decreases |steps|
  {
    if steps == [] then s else Run(Apply(s, steps[0]), steps[1..])
  }

  // ------------------------------------------------- the table

  ghost predicate TableOk(s: Sys) {
    Consistent(s.tasks, s.nextID)
    && forall i :: 0 <= i < |s.captured| ==> Numbered(TASK_PREFIX, s.captured[i].task.id, s.nextID)
  }

  lemma ApplyTable(s: Sys, step: Step)
    requires TableOk(s)
    ensures TableOk(Apply(s, step)) && s.nextID <= Apply(s, step).nextID
  {
    hide NextOf, Describe, Id, DueList;
  }

  // ------------------------------------------------- conservation

  function InFlight(p: Phase): seq<Event> {
    match p
    case Sending(e, _) => [e]
    case Stopped(lost) => lost
    case _ => []
  }

  ghost predicate FlowOk(s: Sys) {
    && s.captured == s.delivered + s.channel + InFlight(s.phase)
    && |s.channel| <= CHANNEL_CAPACITY && |InFlight(s.phase)| <= 1
  }

  lemma ApplyFlow(s: Sys, step: Step)
    requires FlowOk(s)
    ensures FlowOk(Apply(s, step))
  {
    hide DueList, Captured, AfterCapture, NextOf, Looked, NewTask, Describable;
    if step.Receive? && s.channel != [] {
      assert s.channel == [s.channel[0]] + s.channel[1..];
    }
  }

  // ------------------------------------------------- order of one task's events

  ghost predicate OrderOk(s: Sys) {
    && (forall i, j :: 0 <= i < j < |s.captured| && s.captured[i].task.id == s.captured[j].task.id ==>
          s.captured[i].task.nextRunAt < s.captured[j].task.nextRunAt && s.captured[i].task.repeat)
    && (forall i :: 0 <= i < |s.captured| && s.captured[i].task.id in s.tasks ==>
          s.captured[i].task.nextRunAt < s.tasks[s.captured[i].task.id].nextRunAt && s.captured[i].task.repeat)
  }

  /** A task that survives firing goes on to a strictly later run. */
  lemma AdvancedIsLater(t: Task, now: Instant)
    requires t.repeat == Repeats(t.sch) && Due(t, now) && Advanced(t, now).Some?
    ensures t.nextRunAt < Advanced(t, now).value.nextRunAt && t.repeat && Advanced(t, now).value.id == t.id
  {
    hide NextOf;
    NextIsLater(t.sch, now);
    UnixCompare(NextOf(t.sch, now).value, now);
  }

  lemma AddOrder(s: Sys, content: string, sch: Schedule, src: Source, now: Instant)
    requires TableOk(s) && OrderOk(s)
    ensures OrderOk(AddStep(s, content, sch, src, now))
  {
    hide NextOf, NewTask, Id;
    NextIdIsFresh(TASK_PREFIX, s.nextID);
  }

  lemma VisitOrder(s: Sys, now: Instant, rest: seq<Task>)
    requires TableOk(s) && OrderOk(s)
    ensures OrderOk(VisitStep(s, now, rest))
  {
    hide Numbered, Due, Advanced;
    if rest != [] && Captured(s.tasks, rest[0].id, now).Some? {
      var t := s.tasks[rest[0].id];
      if Advanced(t, now).Some? {
        AdvancedIsLater(t, now);
      }
    }
  }

  lemma ApplyOrder(s: Sys, step: Step)
    requires TableOk(s) && OrderOk(s)
    ensures OrderOk(Apply(s, step))
  {
    hide AddStep, VisitStep, DueList, Looked;
    match step {
      case Add(content, sch, src, now) => AddOrder(s, content, sch, src, now);
      case Visit =>
        if s.phase.Scanning? {
          VisitOrder(s, s.phase.now, s.phase.rest);
        }
      case _ =>
    }
  }

  // ------------------------------------------------- order within a tick

  function Pending(p: Phase): seq<Task> {
    match p
    case Scanning(_, rest) => rest
    case Sending(_, rest) => rest
    case _ => []
  }

  /** The unvisited part of the snapshot still agrees with the table, up to cancellations. */
  ghost predicate SnapshotOk(s: Sys) {
    var rest := Pending(s.phase);
    && (forall i, j :: 0 <= i < j < |rest| ==> rest[i].nextRunAt <= rest[j].nextRunAt && rest[i].id != rest[j].id)
    && (forall i :: 0 <= i < |rest| ==> Numbered(TASK_PREFIX, rest[i].id, s.nextID))
    && (forall i :: 0 <= i < |rest| && rest[i].id in s.tasks ==> s.tasks[rest[i].id].nextRunAt == rest[i].nextRunAt)
  }

  ghost predicate TickOk(s: Sys) {
    && (forall i :: 0 <= i < |s.captured| ==> s.captured[i].tick <= s.tick)
    && (forall i, j :: 0 <= i < j < |s.captured| && s.captured[i].tick == s.captured[j].tick ==>
          s.captured[i].task.nextRunAt <= s.captured[j].task.nextRunAt)
    && (forall i, j :: 0 <= i < |s.captured| && s.captured[i].tick == s.tick && 0 <= j < |Pending(s.phase)| ==>
          s.captured[i].task.nextRunAt <= Pending(s.phase)[j].nextRunAt)
  }

  lemma AddSnapshot(s: Sys, content: string, sch: Schedule, src: Source, now: Instant)
    requires SnapshotOk(s) && TickOk(s)
    ensures SnapshotOk(AddStep(s, content, sch, src, now)) && TickOk(AddStep(s, content, sch, src, now))
  {
    hide NextOf, NewTask, Id;
    NextIdIsFresh(TASK_PREFIX, s.nextID);
    forall id | Numbered(TASK_PREFIX, id, s.nextID)
      ensures Numbered(TASK_PREFIX, id, s.nextID + 1) && id != Id(TASK_PREFIX, s.nextID + 1)
    {
      NumberedGrows(TASK_PREFIX, id, s.nextID, s.nextID + 1);
    }
  }

  lemma TickSnapshot(s: Sys, now: Instant, due: seq<Task>)
    requires TableOk(s) && TickOk(s) && s.phase.Idle? && DueList(s.tasks, now, due)
    ensures SnapshotOk(Apply(s, Tick(now, due))) && TickOk(Apply(s, Tick(now, due)))
  {
    hide Numbered, Due, Looked;
    forall i | 0 <= i < |due|
      ensures Stored(TaskKey, s.tasks, due[i])
    {
      assert due[i] in due;
    }
  }

  lemma OthersStay(tasks: map<string, Task>, id: string, now: Instant)
    ensures forall other :: other in AfterCapture(tasks, id, now) && other != id ==>
              other in tasks && AfterCapture(tasks, id, now)[other] == tasks[other]
  {
    hide Due, Advanced;
  }

  lemma VisitSnapshot(s: Sys, now: Instant, rest: seq<Task>)
    requires SnapshotOk(s) && s.phase == Scanning(now, rest)
    ensures SnapshotOk(VisitStep(s, now, rest))
  {
    hide Numbered, Captured, AfterCapture;
    assert Pending(s.phase) == rest;
    if rest != [] {
      var t := VisitStep(s, now, rest);
      assert Pending(t.phase) == rest[1..] && t.nextID == s.nextID;
      OthersStay(s.tasks, rest[0].id, now);
      assert forall i :: 0 <= i < |rest| - 1 ==> rest[1..][i] == rest[i + 1];
    }
  }

  lemma VisitTick(s: Sys, now: Instant, rest: seq<Task>)
    requires SnapshotOk(s) && TickOk(s) && s.phase == Scanning(now, rest)
    ensures TickOk(VisitStep(s, now, rest))
  {
    hide Numbered, Due, Advanced;
    assert Pending(s.phase) == rest;
    if rest != [] {
      assert Pending(VisitStep(s, now, rest).phase) == rest[1..];
      if Captured(s.tasks, rest[0].id, now).Some? {
        assert s.tasks[rest[0].id].nextRunAt == rest[0].nextRunAt;
      }
    }
  }

  /** Steps that capture nothing, and add nothing to the table or to the snapshot. */
  lemma ShrinkSnapshot(s: Sys, t: Sys)
    requires SnapshotOk(s) && TickOk(s)
    requires t.nextID == s.nextID && t.captured == s.captured && t.tick == s.tick
    requires forall id :: id in t.tasks ==> id in s.tasks && t.tasks[id] == s.tasks[id]
    requires Pending(t.phase) == Pending(s.phase) || Pending(t.phase) == []
    ensures SnapshotOk(t) && TickOk(t)
  {
    hide Pending, Numbered;
  }

  lemma ApplySnapshot(s: Sys, step: Step)
    requires TableOk(s) && SnapshotOk(s) && TickOk(s)
    ensures SnapshotOk(Apply(s, step)) && TickOk(Apply(s, step))
  {
    hide AddStep, VisitStep, Looked, TableOk, SnapshotOk, TickOk;
    match step {
      case Add(content, sch, src, now) => AddSnapshot(s, content, sch, src, now);
      case Tick(now, due) =>
        if s.phase.Idle? && DueList(s.tasks, now, due) {
          TickSnapshot(s, now, due);
        }
      case Visit =>
        if s.phase.Scanning? {
          VisitSnapshot(s, s.phase.now, s.phase.rest);
          VisitTick(s, s.phase.now, s.phase.rest);
        }
      case _ => ShrinkSnapshot(s, Apply(s, step));
    }
  }

  // ------------------------------------------------- what is still to be visited is due

  /** The instant of the tick in progress. */
  function PhaseNow(p: Phase): Instant {
    match p
    case Scanning(now, _) => now
    case Sending(e, _) => e.now
    case _ => 0
  }

  ghost predicate PendingDue(s: Sys) {
    forall i :: 0 <= i < |Pending(s.phase)| ==> Due(Pending(s.phase)[i], PhaseNow(s.phase))
  }

  lemma VisitPendingDue(s: Sys, now: Instant, rest: seq<Task>)
    requires PendingDue(s) && s.phase == Scanning(now, rest)
    ensures PendingDue(VisitStep(s, now, rest))
  {
    hide Due, Captured, AfterCapture;
    assert Pending(s.phase) == rest;
    if rest != [] {
      assert Pending(VisitStep(s, now, rest).phase) == rest[1..];
    }
  }

  lemma ApplyPendingDue(s: Sys, step: Step)
    requires PendingDue(s)
    ensures PendingDue(Apply(s, step))
  {
    hide AddStep, VisitStep, Looked, Due;
    match step {
      case Add(content, sch, src, now) => AddKeepsPhase(s, content, sch, src, now);
      case Tick(now, due) => assert forall i :: 0 <= i < |due| ==> due[i] in due;
      case Visit =>
        if s.phase.Scanning? {
          VisitPendingDue(s, s.phase.now, s.phase.rest);
        }
      case _ =>
        var t := Apply(s, step);
        assert Pending(t.phase) == []
               || (Pending(t.phase) == Pending(s.phase) && PhaseNow(t.phase) == PhaseNow(s.phase));
    }
  }

  lemma AddKeepsPhase(s: Sys, content: string, sch: Schedule, src: Source, now: Instant)
    ensures var t := AddStep(s, content, sch, src, now);
            t.phase == s.phase && t.captured == s.captured && t.tick == s.tick
  {
    hide NextOf, NewTask, Id;
  }

  // ------------------------------------------------- the cache

  ghost predicate SeenOk(s: Sys) {
    forall id :: id in s.tasks ==>
      id in s.seen && (Good(s.tasks[id].sch) ==> CachedFor(s.tasks[id], s.seen[id]))
  }

  lemma AddSeen(s: Sys, content: string, sch: Schedule, src: Source, now: Instant)
    requires SeenOk(s)
    ensures SeenOk(AddStep(s, content, sch, src, now))
  {
    if NextOf(sch, now).Some? && Good(sch) {
      FiringIsDescribable(sch, now);
      NewTaskCached(Id(TASK_PREFIX, s.nextID + 1), content, sch, src, now);
    }
    hide NextOf, CachedFor, Id, Describe;
  }

  lemma LookSeen(s: Sys, now: Instant)
    requires SeenOk(s)
    ensures SeenOk(s.(seen := Looked(s.seen, s.tasks, now)))
  {
    hide CachedFor, Due, Good;
    forall id | id in s.tasks && Good(s.tasks[id].sch)
      ensures CachedFor(s.tasks[id], Looked(s.seen, s.tasks, now)[id])
    {
      if !Due(s.tasks[id], now) && s.seen[id] < now {
        LookKeepsCache(s.tasks[id], s.seen[id], now);
      }
    }
  }

  lemma VisitSeen(s: Sys, now: Instant, rest: seq<Task>)
    requires SeenOk(s)
    ensures SeenOk(VisitStep(s, now, rest))
  {
    if rest != [] && Captured(s.tasks, rest[0].id, now).Some? {
      var t := s.tasks[rest[0].id];
      if Advanced(t, now).Some? {
        FireKeepsCache(t, now);
      }
    }
    hide CachedFor, Due, Good, Advanced;
  }

  lemma ApplySeen(s: Sys, step: Step)
    requires SeenOk(s)
    ensures SeenOk(Apply(s, step))
  {
    hide AddStep, VisitStep, Looked, CachedFor, Good, DueList;
    match step {
      case Add(content, sch, src, now) => AddSeen(s, content, sch, src, now);
      case Tick(now, due) => LookSeen(s, now);
      case Visit =>
        if s.phase.Scanning? {
          VisitSeen(s, s.phase.now, s.phase.rest);
        }
      case _ =>
    }
  }

  // ------------------------------------------------- every run

  ghost predicate Invariant(s: Sys) {
    TableOk(s) && FlowOk(s) && OrderOk(s) && SnapshotOk(s) && TickOk(s) && PendingDue(s) && SeenOk(s)
  }

  lemma ApplyInvariant(s: Sys, step: Step)
    requires Invariant(s)
    ensures Invariant(Apply(s, step))
  {
    hide Apply, TableOk, FlowOk, OrderOk, SnapshotOk, TickOk, PendingDue, SeenOk;
    ApplyTable(s, step);
    ApplyFlow(s, step);
    ApplyOrder(s, step);
    ApplySnapshot(s, step);
    ApplyPendingDue(s, step);
    ApplySeen(s, step);
  }

  lemma {:induction false} RunInvariant(s: Sys, steps: seq<Step>)
    requires Invariant(s)
    ensures Invariant(Run(s, steps))
    decreases |steps|
  {
    hide Invariant, Apply;
    if steps != [] {
      ApplyInvariant(s, steps[0]);
      RunInvariant(Apply(s, steps[0]), steps[1..]);
    }
  }

  lemma EmptyTable(s: Sys)
    requires s.tasks == map[] && s.captured == []
    ensures TableOk(s) && OrderOk(s) && SeenOk(s)
  {
    hide Numbered, CachedFor, Good;
  }

  lemma NothingPending(s: Sys)
    requires s.phase.Idle? && s.captured == [] && s.delivered == [] && s.channel == []
    ensures FlowOk(s) && SnapshotOk(s) && TickOk(s) && PendingDue(s)
  {
    hide Numbered, Due;
  }

  lemma StartInvariant()
    ensures Invariant(START)
  {
    hide TableOk, FlowOk, OrderOk, SnapshotOk, TickOk, PendingDue, SeenOk;
    EmptyTable(START);
    NothingPending(START);
  }

  lemma Reachable(steps: seq<Step>)
    ensures Invariant(Run(START, steps))
  {
    hide *;
    StartInvariant();
    RunInvariant(START, steps);
  }

  /**
   Under every interleaving the captured events are, in order, those delivered, those in
   the channel and at most one in flight; an event is lost only by stopping, and then
   only one.
   */
  lemma EventsConserved(steps: seq<Step>)
    ensures var s := Run(START, steps);
            && s.captured == s.delivered + s.channel + InFlight(s.phase)
            && |s.channel| <= 256 && |InFlight(s.phase)| <= 1
  {
    hide Run, TableOk, OrderOk, SnapshotOk, TickOk, SeenOk;
    Reachable(steps);
  }

  /** One task's events carry strictly increasing run times, and a one-shot task fires once. */
  lemma EventsOrdered(steps: seq<Step>, i: int, j: int)
    requires 0 <= i < j < |Run(START, steps).captured|
    ensures var a, b := Run(START, steps).captured[i], Run(START, steps).captured[j];
            && (a.task.id == b.task.id ==> a.task.nextRunAt < b.task.nextRunAt && a.task.repeat)
            && (a.tick == b.tick ==> a.task.nextRunAt <= b.task.nextRunAt)
  {
    hide Run, TableOk, FlowOk, SnapshotOk, SeenOk;
    Reachable(steps);
  }

  /**
   In every reachable state a stored repeating task is due at `now` exactly when an
   occurrence of its rule has passed since the dispatcher last looked at it.
   */
  lemma DueIffOccurrence(steps: seq<Step>, id: string, now: Instant)
    requires id in Run(START, steps).tasks && Good(Run(START, steps).tasks[id].sch)
    ensures var s := Run(START, steps);
            id in s.seen && (Due(s.tasks[id], now) <==> OccurrenceIn(s.tasks[id].sch, s.seen[id], now))
  {
    hide Run, TableOk, FlowOk, OrderOk, SnapshotOk, TickOk, CachedFor, Due, OccurrenceIn, Good;
    Reachable(steps);
    var s := Run(START, steps);
    DueIff(s.tasks[id], s.seen[id], now);
  }

  /**
   A visit captures its task exactly if the task is still stored: the dispatcher's second
   look at the run time never skips a task, only a cancellation does.
   */
  lemma VisitCapturesIff(steps: seq<Step>)
    requires var s := Run(START, steps); s.phase.Scanning? && s.phase.rest != []
    ensures var s, t := Run(START, steps), Apply(Run(START, steps), Visit);
            var id := s.phase.rest[0].id;
            && (id in s.tasks ==> t.captured == s.captured + [Event(s.tasks[id], s.tick, s.phase.now)])
            && (id !in s.tasks ==> t.captured == s.captured && t.tasks == s.tasks)
  {
    hide Run, TableOk, FlowOk, OrderOk, TickOk, SeenOk, AfterCapture;
    Reachable(steps);
    var s := Run(START, steps);
    assert Pending(s.phase)[0] == s.phase.rest[0];
  }

  // ------------------------------------------------- loss

  lemma {:induction false} StoppedStays(s: Sys, steps: seq<Step>)
    requires s.phase.Stopped?
    ensures Run(s, steps).phase == s.phase
    decreases |steps|
  {
    if steps != [] {
      PhaseAfter(s, steps[0]);
      hide Apply;
      StoppedStays(Apply(s, steps[0]), steps[1..]);
    }
  }

  /** Only stopping stops, and a stopped dispatcher stays so. */
  lemma PhaseAfter(s: Sys, step: Step)
    ensures s.phase.Stopped? ==> Apply(s, step).phase == s.phase
    ensures !s.phase.Stopped? && Apply(s, step).phase.Stopped? ==>
              step.Stop? && (s.phase.Idle? || s.phase.Sending?)
              && Apply(s, step).phase == Stopped(if s.phase.Sending? then [s.phase.event] else [])
    ensures step.Stop? && s.phase.Sending? ==> Apply(s, step).phase == Stopped([s.phase.event])
    ensures s.tick <= Apply(s, step).tick <= s.tick + 1
  {
    hide AddStep, Captured, AfterCapture, Looked, DueList;
    if step.Add? {
      AddKeepsPhase(s, step.content, step.sch, step.src, step.now);
    }
  }

  /** The context is cancelled at step `i` while the dispatcher waits to send. */
  ghost predicate StopsSending(s: Sys, steps: seq<Step>, i: int)
    requires 0 <= i < |steps|
  {
    steps[i].Stop? && Run(s, steps[..i]).phase.Sending?
  }

  lemma RunShift(s: Sys, steps: seq<Step>, i: int)
    requires 0 < i <= |steps|
    ensures Run(s, steps[..i]) == Run(Apply(s, steps[0]), steps[1..][..i - 1])
  {
    hide Apply;
    assert steps[..i][1..] == steps[1..][..i - 1];
  }

  lemma {:induction false} LostFrom(s: Sys, steps: seq<Step>)
    requires !s.phase.Stopped?
    ensures Run(s, steps).phase.Stopped? && InFlight(Run(s, steps).phase) != [] <==>
            exists i :: 0 <= i < |steps| && StopsSending(s, steps, i)
    ensures forall i :: 0 <= i < |steps| && StopsSending(s, steps, i) ==>
              Run(s, steps).phase == Stopped([Run(s, steps[..i]).phase.event])
    decreases |steps|
  {
    if steps != [] {
      var t, rest := Apply(s, steps[0]), steps[1..];
      PhaseAfter(s, steps[0]);
      assert Run(s, steps[..0]) == s;
      hide Apply;
      assert Run(s, steps) == Run(t, rest);
      forall i | 0 < i < |steps|
        ensures StopsSending(s, steps, i) <==> StopsSending(t, rest, i - 1)
        ensures Run(s, steps[..i]) == Run(t, rest[..i - 1])
      {
        RunShift(s, steps, i);
      }
      if t.phase.Stopped? {
        StoppedStays(t, rest);
        forall i | 0 <= i < |rest|
          ensures !StopsSending(t, rest, i)
        {
          StoppedStays(t, rest[..i]);
        }
        assert steps[0].Stop?;
        assert StopsSending(s, steps, 0) <==> s.phase.Sending?;
      } else {
        LostFrom(t, rest);
        assert !StopsSending(s, steps, 0);
        if i :| 0 <= i < |rest| && StopsSending(t, rest, i) {
          assert StopsSending(s, steps, i + 1);
        }
      }
    }
  }

  /**
   Exactly when a fired event is lost: a run ends stopped with an event neither delivered
   nor queued if and only if it was stopped while a send was waiting, and then it is the
   event of that send.
   */
  lemma LostIff(steps: seq<Step>)
    ensures var s := Run(START, steps);
            && (s.phase.Stopped? && s.captured != s.delivered + s.channel <==>
                exists i :: 0 <= i < |steps| && StopsSending(START, steps, i))
            && (forall i :: 0 <= i < |steps| && StopsSending(START, steps, i) ==>
                  s.captured == s.delivered + s.channel + [Run(START, steps[..i]).phase.event])
  {
    hide Run, TableOk, OrderOk, SnapshotOk, TickOk, PendingDue, SeenOk, StopsSending;
    Reachable(steps);
    LostFrom(START, steps);
    var s := Run(START, steps);
    assert InFlight(s.phase) == [] <==> s.captured == s.delivered + s.channel;
  }

  /**
   State advances before the send, so stopping at the send loses the event for good: a
   one-shot task is then neither stored, queued nor delivered.
   */
  lemma StopLosesOneShot(content: string, sch: Schedule, src: Source, created: Instant, now: Instant)
    requires !Repeats(sch) && NextOf(sch, created).Some? && Unix(NextOf(sch, created).value) <= Unix(now)
    ensures exists steps ::
              var s := Run(START, steps);
              && |s.captured| == 1 && s.captured[0].task.content == content
              && s.tasks == map[] && s.channel == [] && s.delivered == [] && s.phase == Stopped(s.captured)
  {
    hide *;
    OneShotTask(content, sch, src, created, now);
    var t := NewTask(Id(TASK_PREFIX, 1), content, sch, src, created);
    var steps := [Add(content, sch, src, created), Tick(now, [t]), Visit, Stop];
    AddToStart(content, sch, src, created);
    OneShotSent(t, created, now);
    var sending := Apply(Apply(OneTask(t, created), Tick(now, [t])), Visit);
    StopSending(sending);
    RunFour(START, steps[0], steps[1], steps[2], steps[3]);
    assert Run(START, steps) == sending.(phase := Stopped([Event(t, 1, now)]));
  }

  lemma OneShotTask(content: string, sch: Schedule, src: Source, created: Instant, now: Instant)
    requires !Repeats(sch) && NextOf(sch, created).Some? && Unix(NextOf(sch, created).value) <= Unix(now)
    ensures Describable(sch)
    ensures var t := NewTask(Id(TASK_PREFIX, 1), content, sch, src, created);
            t.content == content && !t.repeat && Due(t, now)
  {
    hide NextOf, Describe, Id, Unix;
    FiringIsDescribable(sch, created);
  }

  lemma AddToStart(content: string, sch: Schedule, src: Source, created: Instant)
    requires NextOf(sch, created).Some? && Describable(sch)
    ensures Apply(START, Add(content, sch, src, created))
            == OneTask(NewTask(Id(TASK_PREFIX, 1), content, sch, src, created), created)
  {
    hide NextOf, Describe, Id;
  }

  lemma StopSending(s: Sys)
    requires s.phase.Sending?
    ensures Apply(s, Stop) == s.(phase := Stopped([s.phase.event]))
  {
  }

  function OneTask(t: Task, created: Instant): Sys {
    Sys(map[t.id := t], 1, Idle, [], 0, [], [], map[t.id := created])
  }

  lemma OneShotSent(t: Task, created: Instant, now: Instant)
    requires !t.repeat && Due(t, now)
    ensures var s := Apply(Apply(OneTask(t, created), Tick(now, [t])), Visit);
            && s.tasks == map[] && s.channel == [] && s.delivered == []
            && s.captured == [Event(t, 1, now)] && s.phase == Sending(Event(t, 1, now), [])
  {
    hide Due, NextOf;
    assert DueList(OneTask(t, created).tasks, now, [t]);
    hide DueList, Looked;
  }

  lemma RunFour(s: Sys, a: Step, b: Step, c: Step, d: Step)
    ensures Run(s, [a, b, c, d]) == Apply(Apply(Apply(Apply(s, a), b), c), d)
  {
    hide Apply;
    var s1, s2, s3 := Apply(s, a), Apply(Apply(s, a), b), Apply(Apply(Apply(s, a), b), c);
    assert Run(s3, [d]) == Run(Apply(s3, d), []);
    assert Run(s2, [c, d]) == Run(s3, [d]);
    assert Run(s1, [b, c, d]) == Run(s2, [c, d]);
  }

  // ------------------------------------------------- one task through one tick

  /** The events of one task that one tick captured. */
  function EventsOf(es: seq<Event>, id: string, tick: nat): seq<Event> {
    if es == [] then [] else
      var e := es[|es| - 1];
      EventsOf(es[..|es| - 1], id, tick) + (if e.task.id == id && e.tick == tick then [e] else [])
  }

  lemma EventsOfSnoc(es: seq<Event>, e: Event, id: string, tick: nat)
    ensures EventsOf(es + [e], id, tick)
            == EventsOf(es, id, tick) + (if e.task.id == id && e.tick == tick then [e] else [])
  {
    assert (es + [e])[..|es|] == es;
  }

  lemma {:induction false} NoEventsYet(es: seq<Event>, id: string, tick: nat)
    requires forall i :: 0 <= i < |es| ==> es[i].tick < tick
    ensures EventsOf(es, id, tick) == []
  {
    if es != [] {
      NoEventsYet(es[..|es| - 1], id, tick);
    }
  }

  /** What a tick in progress will have made of a task: its entry, its events, its last look. */
  datatype Fate = Fate(task: Option<Task>, events: seq<Event>, seen: Option<Instant>)

  predicate Outstanding(s: Sys, id: string) {
    id in s.tasks && id in Ids(Pending(s.phase))
  }

  function SeenAt(s: Sys, id: string): Option<Instant> {
    if id in s.seen then Some(s.seen[id]) else None
  }

  function FateOf(s: Sys, id: string): Fate {
    var events := EventsOf(s.captured, id, s.tick);
    if Outstanding(s, id) then
      var now := PhaseNow(s.phase);
      Fate(Advanced(s.tasks[id], now), events + [Event(s.tasks[id], s.tick, now)], Some(now))
    else Fate(Lookup(s.tasks, id), events, SeenAt(s, id))
  }

  lemma AddFate(s: Sys, content: string, sch: Schedule, src: Source, now: Instant, id: string)
    requires SnapshotOk(s) && Numbered(TASK_PREFIX, id, s.nextID)
    ensures FateOf(AddStep(s, content, sch, src, now), id) == FateOf(s, id)
  {
    hide NextOf, NewTask, Advanced, EventsOf, Id;
    NextIdIsFresh(TASK_PREFIX, s.nextID);
  }

  /** In a reachable state a visit depends only on whether its task is still stored. */
  lemma VisitOutcome(s: Sys)
    requires SnapshotOk(s) && PendingDue(s) && s.phase.Scanning? && s.phase.rest != []
    ensures var now, rest, id := s.phase.now, s.phase.rest[1..], s.phase.rest[0].id;
            if id in s.tasks then
              var e := Event(s.tasks[id], s.tick, now);
              Apply(s, Visit) == s.(tasks := Settled(s.tasks, id, Advanced(s.tasks[id], now)),
                                    phase := Sending(e, rest), captured := s.captured + [e], seen := s.seen[id := now])
            else Apply(s, Visit) == s.(phase := Scanning(now, rest))
  {
    hide Advanced, Settled, Numbered;
    assert Pending(s.phase)[0] == s.phase.rest[0];
  }

  lemma FirstOfDistinct(ts: seq<Task>)
    requires ts != [] && forall i, j :: 0 <= i < j < |ts| ==> ts[i].id != ts[j].id
    ensures Ids(ts) == {ts[0].id} + Ids(ts[1..]) && ts[0].id !in Ids(ts[1..])
  {
    assert ts == [ts[0]] + ts[1..];
  }

  lemma VisitFate(s: Sys, id: string)
    requires TableOk(s) && SnapshotOk(s) && PendingDue(s) && s.phase.Scanning?
    ensures FateOf(Apply(s, Visit), id) == FateOf(s, id)
  {
    if s.phase.rest == [] {
      hide Advanced, EventsOf;
    } else {
      assert s.phase.rest == Pending(s.phase);
      FirstOfDistinct(s.phase.rest);
      VisitOutcome(s);
      assert s.phase.rest[0].id in s.tasks ==> s.tasks[s.phase.rest[0].id].id == s.phase.rest[0].id;
      hide Apply, Advanced, EventsOf, TableOk, SnapshotOk, PendingDue, Ids;
      if s.phase.rest[0].id in s.tasks {
        CaptureFate(s, Apply(s, Visit), id);
      }
    }
  }

  /** Capturing the next pending task settles its own fate as foretold, and no other's. */
  lemma CaptureFate(s: Sys, t: Sys, id: string)
    requires s.phase.Scanning? && s.phase.rest != []
    requires Ids(s.phase.rest) == {s.phase.rest[0].id} + Ids(s.phase.rest[1..])
    requires s.phase.rest[0].id !in Ids(s.phase.rest[1..])
    requires s.phase.rest[0].id in s.tasks && s.tasks[s.phase.rest[0].id].id == s.phase.rest[0].id
    requires var now, next := s.phase.now, s.phase.rest[0].id;
             var e := Event(s.tasks[next], s.tick, now);
             t == s.(tasks := Settled(s.tasks, next, Advanced(s.tasks[next], now)),
                     phase := Sending(e, s.phase.rest[1..]), captured := s.captured + [e], seen := s.seen[next := now])
    ensures FateOf(t, id) == FateOf(s, id)
  {
    var now, next := s.phase.now, s.phase.rest[0].id;
    hide Advanced, EventsOf, Ids;
    EventsOfSnoc(s.captured, Event(s.tasks[next], s.tick, now), id, s.tick);
    assert Lookup(t.tasks, next) == Advanced(s.tasks[next], now);
    assert id != next ==> Lookup(t.tasks, id) == Lookup(s.tasks, id);
  }

  /** No step but its own cancellation changes what a tick in progress will make of a task. */
  lemma FateStep(s: Sys, step: Step, id: string)
    requires TableOk(s) && SnapshotOk(s) && PendingDue(s) && Numbered(TASK_PREFIX, id, s.nextID)
    requires step != Cancel(id) && Apply(s, step).tick == s.tick && !Apply(s, step).phase.Stopped?
    ensures FateOf(Apply(s, step), id) == FateOf(s, id)
  {
    hide AddStep, VisitStep, Looked, Advanced, EventsOf, DueList, Ids;
    match step {
      case Add(content, sch, src, now) => AddFate(s, content, sch, src, now, id);
      case Visit =>
        if s.phase.Scanning? {
          VisitFate(s, id);
        }
      case _ =>
        assert Pending(Apply(s, step).phase) == Pending(s.phase);
    }
  }

  lemma {:induction false} TickGrows(s: Sys, steps: seq<Step>)
    ensures s.tick <= Run(s, steps).tick
    decreases |steps|
  {
    if steps != [] {
      PhaseAfter(s, steps[0]);
      hide Apply;
      TickGrows(Apply(s, steps[0]), steps[1..]);
    }
  }

  lemma {:induction false} FateRun(s: Sys, steps: seq<Step>, id: string)
    requires Invariant(s) && Numbered(TASK_PREFIX, id, s.nextID) && Cancel(id) !in steps
    requires Run(s, steps).phase.Idle? && Run(s, steps).tick == s.tick
    ensures FateOf(Run(s, steps), id) == FateOf(s, id)
    decreases |steps|
  {
    hide Apply, TableOk, FlowOk, OrderOk, SnapshotOk, TickOk, PendingDue, SeenOk, FateOf, Numbered;
    if steps != [] {
      var t, rest := Apply(s, steps[0]), steps[1..];
      assert Run(s, steps) == Run(t, rest);
      PhaseAfter(s, steps[0]);
      TickGrows(t, rest);
      if t.phase.Stopped? {
        StoppedStays(t, rest);
      }
      FateStep(s, steps[0], id);
      ApplyInvariant(s, steps[0]);
      ApplyTable(s, steps[0]);
      NumberedGrows(TASK_PREFIX, id, s.nextID, t.nextID);
      FateRun(t, rest, id);
    }
  }

  /** The last look at a task once a tick at `now` is over. */
  function SeenAfter(s: Sys, id: string, now: Instant): Option<Instant> {
    if id in s.tasks && (Due(s.tasks[id], now) || (id in s.seen && s.seen[id] < now)) then Some(now) else SeenAt(s, id)
  }

  function FiredEvents(t: Option<Task>, tick: nat, now: Instant): seq<Event> {
    if t.Some? && Due(t.value, now) then [Event(t.value, tick, now)] else []
  }

  lemma TickFate(s: Sys, now: Instant, due: seq<Task>, id: string)
    requires Invariant(s) && s.phase.Idle? && DueList(s.tasks, now, due)
    ensures FateOf(Apply(s, Tick(now, due)), id)
            == Fate(TickTask(Lookup(s.tasks, id), now), FiredEvents(Lookup(s.tasks, id), s.tick + 1, now),
                    SeenAfter(s, id, now))
  {
    hide Advanced, EventsOf, Due, FlowOk, OrderOk, SnapshotOk, PendingDue, Numbered, Run;
    NoEventsYet(s.captured, id, s.tick + 1);
    DueListIds(s.tasks, s.nextID, now, due);
  }

  /** One turn of the dispatching goroutine: a tick, and all steps from it to the next turn. */
  datatype Turn = Turn(now: Instant, due: seq<Task>, steps: seq<Step>)

  ghost function AfterTurn(s: Sys, turn: Turn): Sys {
    Run(Apply(s, Tick(turn.now, turn.due)), turn.steps)
  }

  /** The turn begins and completes in `s`, and nobody cancels `id` meanwhile. */
  ghost predicate Completes(s: Sys, turn: Turn, id: string) {
    && s.phase.Idle? && DueList(s.tasks, turn.now, turn.due) && Cancel(id) !in turn.steps
    && AfterTurn(s, turn).phase.Idle? && AfterTurn(s, turn).tick == s.tick + 1
  }

  lemma FateIdle(s: Sys, id: string)
    requires s.phase.Idle?
    ensures FateOf(s, id) == Fate(Lookup(s.tasks, id), EventsOf(s.captured, id, s.tick), SeenAt(s, id))
  {
    hide EventsOf;
  }

  lemma TurnFate(s: Sys, turn: Turn, id: string)
    requires Invariant(s) && Numbered(TASK_PREFIX, id, s.nextID) && Completes(s, turn, id)
    ensures var r := AfterTurn(s, turn);
            && Invariant(r) && Numbered(TASK_PREFIX, id, r.nextID)
            && Lookup(r.tasks, id) == TickTask(Lookup(s.tasks, id), turn.now)
            && EventsOf(r.captured, id, s.tick + 1) == FiredEvents(Lookup(s.tasks, id), s.tick + 1, turn.now)
            && SeenAt(r, id) == SeenAfter(s, id, turn.now)
  {
    var t := Apply(s, Tick(turn.now, turn.due));
    assert t.nextID == s.nextID && t.tick == s.tick + 1 by {
      hide Looked, DueList;
    }
    assert AfterTurn(s, turn) == Run(t, turn.steps);
    assert s.phase.Idle? && DueList(s.tasks, turn.now, turn.due) && Cancel(id) !in turn.steps;
    assert AfterTurn(s, turn).phase.Idle? && AfterTurn(s, turn).tick == s.tick + 1;
    hide *;
    TickFate(s, turn.now, turn.due, id);
    ApplyInvariant(s, Tick(turn.now, turn.due));
    RunInvariant(t, turn.steps);
    FateRun(t, turn.steps, id);
    RunNumbered(t, turn.steps, id);
    FateIdle(AfterTurn(s, turn), id);
  }

  lemma {:induction false} RunNumbered(s: Sys, steps: seq<Step>, id: string)
    requires Invariant(s) && Numbered(TASK_PREFIX, id, s.nextID)
    ensures Numbered(TASK_PREFIX, id, Run(s, steps).nextID)
    decreases |steps|
  {
    hide Apply, TableOk, FlowOk, OrderOk, SnapshotOk, TickOk, PendingDue, SeenOk, Numbered;
    if steps != [] {
      ApplyInvariant(s, steps[0]);
      ApplyTable(s, steps[0]);
      NumberedGrows(TASK_PREFIX, id, s.nextID, Apply(s, steps[0]).nextID);
      RunNumbered(Apply(s, steps[0]), steps[1..], id);
    }
  }

  /**
   The dispatcher under interference: whatever additions, deliveries and cancellations of
   other tasks fall into a tick, once it is over a task that was stored at its start has
   been treated exactly as if it were alone, and a repeating one has fired, once, if and
   only if an occurrence of its rule lay between the last look at it and the tick.
   */
  lemma TickFiresIff(before: seq<Step>, turn: Turn, id: string)
    requires var s := Run(START, before); id in s.tasks && Completes(s, turn, id)
    ensures var s := Run(START, before);
            var r, t := AfterTurn(s, turn), s.tasks[id];
            && Lookup(r.tasks, id) == TickTask(Some(t), turn.now)
            && EventsOf(r.captured, id, s.tick + 1) == FiredEvents(Some(t), s.tick + 1, turn.now)
            && (Good(t.sch) ==>
                  && id in s.seen
                  && SeenAt(r, id) == Some(if s.seen[id] < turn.now then turn.now else s.seen[id])
                  && |EventsOf(r.captured, id, s.tick + 1)|
                     == if OccurrenceIn(t.sch, s.seen[id], turn.now) then 1 else 0)
  {
    hide *;
    Reachable(before);
    var s := Run(START, before);
    StoredFacts(s, id);
    TurnFate(s, turn, id);
    if Good(s.tasks[id].sch) {
      DueIffOccurrence(before, id, turn.now);
      NoOccurrenceBefore(s.tasks[id].sch, s.seen[id], turn.now);
    }
    TickFiresParts(s, turn.now, id);
  }

  lemma NoOccurrenceBefore(sch: Schedule, after: Instant, upTo: Instant)
    ensures OccurrenceIn(sch, after, upTo) ==> after < upTo
  {
  }

  lemma TickFiresParts(s: Sys, now: Instant, id: string)
    requires id in s.tasks && id in s.seen
    ensures Lookup(s.tasks, id) == Some(s.tasks[id])
    ensures |FiredEvents(Some(s.tasks[id]), s.tick + 1, now)| == if Due(s.tasks[id], now) then 1 else 0
    ensures SeenAfter(s, id, now) == Some(if Due(s.tasks[id], now) || s.seen[id] < now then now else s.seen[id])
  {
  }

  // ------------------------------------------------- one task through many ticks

  ghost function AfterTurns(s: Sys, turns: seq<Turn>): Sys {
    if turns == [] then s else AfterTurn(AfterTurns(s, turns[..|turns| - 1]), turns[|turns| - 1])
  }

  function Nows(turns: seq<Turn>): seq<Instant> {
    seq(|turns|, i requires 0 <= i < |turns| => turns[i].now)
  }

  ghost predicate AllComplete(s: Sys, turns: seq<Turn>, id: string) {
    forall i :: 0 <= i < |turns| ==> Completes(AfterTurns(s, turns[..i]), turns[i], id)
  }

  /** Over any completed turns the table follows the tick-by-tick rule, task by task. */
  lemma {:induction false} TurnsFollowTicks(s: Sys, turns: seq<Turn>, id: string)
    requires Invariant(s) && s.phase.Idle? && Numbered(TASK_PREFIX, id, s.nextID) && AllComplete(s, turns, id)
    ensures var r := AfterTurns(s, turns);
            && Invariant(r) && r.phase.Idle? && Numbered(TASK_PREFIX, id, r.nextID)
            && r.tick == s.tick + |turns| && Lookup(r.tasks, id) == AfterTicks(Lookup(s.tasks, id), Nows(turns))
    decreases |turns|
  {
    hide Invariant, AfterTurn, DueList, Numbered, TickTask;
    if turns != [] {
      var init, last := turns[..|turns| - 1], turns[|turns| - 1];
      assert forall i :: 0 <= i <= |init| ==> turns[..i] == init[..i];
      assert Nows(turns)[..|init|] == Nows(init);
      TurnsFollowTicks(s, init, id);
      assert Completes(AfterTurns(s, init), last, id);
      TurnFate(AfterTurns(s, init), last, id);
    }
  }

  /** Once a tick is over no event is added to it. */
  lemma {:induction false} TickCloses(s: Sys, steps: seq<Step>, id: string, tick: nat)
    requires tick < s.tick
    ensures EventsOf(Run(s, steps).captured, id, tick) == EventsOf(s.captured, id, tick)
    decreases |steps|
  {
    if steps != [] {
      TickClosesStep(s, steps[0], id, tick);
      PhaseAfter(s, steps[0]);
      hide Apply;
      TickCloses(Apply(s, steps[0]), steps[1..], id, tick);
    }
  }

  lemma TickClosesStep(s: Sys, step: Step, id: string, tick: nat)
    requires tick < s.tick
    ensures EventsOf(Apply(s, step).captured, id, tick) == EventsOf(s.captured, id, tick)
  {
    hide AddStep, AfterCapture, Looked, DueList, EventsOf, Captured;
    match step {
      case Add(content, sch, src, now) => AddKeepsPhase(s, content, sch, src, now);
      case Visit =>
        if s.phase.Scanning? && s.phase.rest != [] {
          var t := Captured(s.tasks, s.phase.rest[0].id, s.phase.now);
          if t.Some? {
            EventsOfSnoc(s.captured, Event(t.value, s.tick, s.phase.now), id, tick);
          }
        }
      case _ =>
    }
  }

  /** The events of the `i`-th of many turns are settled by the state that turn begins in. */
  lemma {:induction false} TurnsEvents(s: Sys, turns: seq<Turn>, id: string, i: nat)
    requires Invariant(s) && s.phase.Idle? && Numbered(TASK_PREFIX, id, s.nextID) && AllComplete(s, turns, id)
    requires i < |turns|
    ensures var start := AfterTurns(s, turns[..i]);
            EventsOf(AfterTurns(s, turns).captured, id, s.tick + i + 1)
            == FiredEvents(Lookup(start.tasks, id), s.tick + i + 1, turns[i].now)
    decreases |turns|
  {
    hide *;
    var init, last := turns[..|turns| - 1], turns[|turns| - 1];
    var t := AfterTurns(s, init);
    LastTurn(s, turns);
    assert turns[..i] == init[..i] && (i < |init| ==> init[i] == turns[i]);
    CompletePrefix(s, turns, id, |turns| - 1);
    CompleteAt(s, turns, id, |turns| - 1);
    TurnsFollowTicks(s, init, id);
    if i == |init| {
      assert init[..i] == init;
      TurnFate(t, last, id);
    } else {
      TurnsEvents(s, init, id, i);
      TurnCloses(t, last, id, s.tick + i + 1);
    }
  }

  lemma LastTurn(s: Sys, turns: seq<Turn>)
    requires turns != []
    ensures AfterTurns(s, turns) == AfterTurn(AfterTurns(s, turns[..|turns| - 1]), turns[|turns| - 1])
  {
    hide AfterTurn;
  }

  lemma CompleteAt(s: Sys, turns: seq<Turn>, id: string, i: nat)
    requires AllComplete(s, turns, id) && i < |turns|
    ensures Completes(AfterTurns(s, turns[..i]), turns[i], id)
  {
    hide Completes;
  }

  lemma TurnCloses(s: Sys, turn: Turn, id: string, tick: nat)
    requires Completes(s, turn, id) && tick <= s.tick
    ensures EventsOf(AfterTurn(s, turn).captured, id, tick) == EventsOf(s.captured, id, tick)
  {
    var t := Apply(s, Tick(turn.now, turn.due));
    assert t.tick == s.tick + 1 && t.captured == s.captured;
    hide Apply, Run, EventsOf;
    TickCloses(t, turn.steps, id, tick);
  }

  /**
   Under interference the events follow the tick-by-tick rule, for every kind of rule:
   the `i`-th of any completed turns that do not cancel a stored task has captured exactly
   one event of it if the task, alone, fires at that tick, and none otherwise.
   */
  lemma EventsFollowTicks(s: Sys, turns: seq<Turn>, id: string, i: nat)
    requires Invariant(s) && s.phase.Idle? && id in s.tasks && AllComplete(s, turns, id) && i < |turns|
    ensures |EventsOf(AfterTurns(s, turns).captured, id, s.tick + i + 1)|
            == if FiresAt(Some(s.tasks[id]), Nows(turns), i) then 1 else 0
  {
    var t, nows := s.tasks[id], Nows(turns);
    StoredFacts(s, id);
    CompletePrefix(s, turns, id, i);
    assert |nows| == |turns| && nows[i] == turns[i].now;
    assert Lookup(s.tasks, id) == Some(t);
    hide *;
    TurnsEvents(s, turns, id, i);
    TurnsFollowTicks(s, turns[..i], id);
    FiredMeansFires(t, nows, i, s.tick + i + 1);
  }

  /** From a reachable state, `turns` are complete and `id` is stored at their beginning. */
  ghost predicate Interleaved(s: Sys, turns: seq<Turn>, id: string) {
    s.phase.Idle? && id in s.tasks && id in s.seen && AllComplete(s, turns, id)
  }

  /** The number of events of `id` that the `i`-th of some turns from `s` has captured. */
  ghost function EventCount(s: Sys, turns: seq<Turn>, id: string, i: nat): nat {
    |EventsOf(AfterTurns(s, turns).captured, id, s.tick + i + 1)|
  }

  /**
   The cache under interference refines the simple rule. From any reachable state, over
   forward ticks that are each completed under any interleaving in which the task is not
   cancelled, the `i`-th tick has captured exactly one event of a stored repeating task
   if an occurrence of its rule lies after the tick before (for the first one, after the
   last look) and at or before this tick, and none otherwise. A rule made by the
   builders, other than a yearly February 29, needs no proviso that it be stored still.
   */
  lemma InterleavedFiresIff(before: seq<Step>, turns: seq<Turn>, id: string, i: nat)
    requires var s := Run(START, before);
             && Interleaved(s, turns, id) && Good(s.tasks[id].sch) && Forward(s.seen[id], Nows(turns)) && i < |turns|
             && (id in AfterTurns(s, turns[..i]).tasks || Accepted(s.tasks[id].sch))
    ensures var s := Run(START, before);
            EventCount(s, turns, id, i)
            == if OccurrenceIn(s.tasks[id].sch, Before(s.seen[id], Nows(turns), i), turns[i].now) then 1 else 0
  {
    hide Run, Invariant, AllComplete, Forward, Good, Accepted, EventsOf, AfterTurns, Numbered, CachedFor;
    hide FiresAt, AfterTicks, OccurrenceIn;
    Reachable(before);
    var s := Run(START, before);
    var t, nows := s.tasks[id], Nows(turns);
    StoredFacts(s, id);
    CompletePrefix(s, turns, id, i);
    TurnsFollowTicks(s, turns[..i], id);
    if Accepted(t.sch) {
      AcceptedStays(t, s.seen[id], nows, i);
    }
    FiresIffOccurrence(t, s.seen[id], nows, i);
    EventsFollowTicks(s, turns, id, i);
  }

  /** A yearly February 29 task too, until it has fired inside the gap before a delayed leap day. */
  lemma InterleavedLeapDay(before: seq<Step>, turns: seq<Turn>, id: string, i: nat)
    requires var s := Run(START, before);
             && Interleaved(s, turns, id) && LeapDayRule(s.tasks[id].sch) && Forward(s.seen[id], Nows(turns))
             && i < |turns|
    ensures var s := Run(START, before);
            EventCount(s, turns, id, i) ==
            if OccurrenceIn(s.tasks[id].sch, Before(s.seen[id], Nows(turns), i), turns[i].now)
               && !exists j: nat :: j < i && EventCount(s, turns, id, j) == 1 && LeapGap(s.tasks[id].sch, turns[j].now)
            then 1 else 0
  {
    hide Run, Invariant, AllComplete, Forward, EventsOf, AfterTurns, CachedFor, FiresAt, AfterTicks;
    hide OccurrenceIn, LeapGap, Numbered;
    Reachable(before);
    var s := Run(START, before);
    var t, nows := s.tasks[id], Nows(turns);
    StoredFacts(s, id);
    forall j: nat | j <= i
      ensures EventCount(s, turns, id, j) == if FiresAt(Some(t), nows, j) then 1 else 0
    {
      EventsFollowTicks(s, turns, id, j);
    }
    LeapDayFiresIff(t, s.seen[id], nows, i);
  }

  /** A one-shot task has its one event at the first tick that reaches the second of its run time. */
  lemma InterleavedOneShot(before: seq<Step>, turns: seq<Turn>, id: string, i: nat)
    requires var s := Run(START, before); Interleaved(s, turns, id) && !s.tasks[id].repeat && i < |turns|
    ensures var s := Run(START, before);
            EventCount(s, turns, id, i) ==
            if Due(s.tasks[id], turns[i].now) && forall j :: 0 <= j < i ==> !Due(s.tasks[id], turns[j].now)
            then 1 else 0
  {
    hide Run, Invariant, AllComplete, EventsOf, AfterTurns, FiresAt, AfterTicks, Due;
    Reachable(before);
    var s := Run(START, before);
    EventsFollowTicks(s, turns, id, i);
    OneShotFiresIff(s.tasks[id], Nows(turns), i);
    assert forall j :: 0 <= j <= i ==> Nows(turns)[j] == turns[j].now;
  }

  lemma StoredFacts(s: Sys, id: string)
    requires Invariant(s) && id in s.tasks
    ensures Numbered(TASK_PREFIX, id, s.nextID) && id in s.seen
    ensures Good(s.tasks[id].sch) ==> CachedFor(s.tasks[id], s.seen[id])
  {
    hide FlowOk, OrderOk, SnapshotOk, TickOk, PendingDue, Numbered, Good, CachedFor;
  }

  lemma CompletePrefix(s: Sys, turns: seq<Turn>, id: string, i: nat)
    requires AllComplete(s, turns, id) && i <= |turns|
    ensures AllComplete(s, turns[..i], id) && Nows(turns[..i]) == Nows(turns)[..i]
  {
    hide Completes;
    assert forall k :: 0 <= k <= i ==> turns[..i][..k] == turns[..k];
  }

  lemma AcceptedStays(t: Task, created: Instant, ticks: seq<Instant>, i: nat)
    requires Accepted(t.sch) && CachedFor(t, created) && Forward(created, ticks) && i <= |ticks|
    ensures AfterTicks(Some(t), ticks[..i]).Some?
  {
    hide Accepted, CachedFor, Forward, FiresAt;
    AcceptedAlwaysFires(t.sch, created);
    GoneIff(t, created, ticks, i);
    forall k: nat | k < i
      ensures !DropsAt(t, ticks, k)
    {
      AcceptedAlwaysFires(t.sch, ticks[k]);
    }
  }

  lemma FiredMeansFires(t: Task, ticks: seq<Instant>, i: nat, tick: nat)
    requires i < |ticks|
    ensures |FiredEvents(AfterTicks(Some(t), ticks[..i]), tick, ticks[i])|
            == if FiresAt(Some(t), ticks, i) then 1 else 0
  {
  }

  // ------------------------------------------------- where tasks and events come from

  lemma {:induction false} RunSnoc(s: Sys, steps: seq<Step>, step: Step)
    ensures Run(s, steps + [step]) == Apply(Run(s, steps), step)
    decreases |steps|
  {
    hide Apply;
    if steps == [] {
      assert Run(s, [step]) == Run(Apply(s, step), []);
    } else {
      assert (steps + [step])[1..] == steps[1..] + [step];
      RunSnoc(Apply(s, steps[0]), steps[1..], step);
    }
  }

  /** The same task, possibly at another point of its schedule. */
  predicate SameTask(a: Task, b: Task) {
    a == b.(nextRunAt := a.nextRunAt)
  }

  /** The run time of a one-shot task created at `now`. */
  function OneShotTime(sch: Schedule, now: Instant): int {
    Unix(if sch.kind.Once? then sch.at else now + sch.dur)
  }

  /** `t` is as the call that created it described it, under the id that call handed out. */
  predicate AsAdded(t: Task, nextID: nat, content: string, sch: Schedule, src: Source, now: Instant) {
    && t.id == Id(TASK_PREFIX, nextID + 1) && t.content == content && t.source == src && t.sch == sch
    && t.createdAt == Unix(now) && t.repeat == Repeats(sch)
    && (t.repeat || t.nextRunAt == OneShotTime(sch, now))
  }

  /**
   What adding does at any moment, in the middle of a tick too: a rule with a next time
   becomes one new task under an id that is not in use, described by the call, and all
   else stays; a rule without one changes nothing.
   */
  lemma AddStores(before: seq<Step>, content: string, sch: Schedule, src: Source, now: Instant)
    ensures var s := Run(START, before);
            var t, id := Apply(s, Add(content, sch, src, now)), Id(TASK_PREFIX, s.nextID + 1);
            && (t == s <==> NextOf(sch, now).None?)
            && (sch.kind.Once? ==> (t == s <==> sch.at <= now)) && (sch.kind.Relative? ==> t != s)
            && (t != s ==>
                  && id !in s.tasks && t.tasks == s.tasks[id := t.tasks[id]] && t.nextID == s.nextID + 1
                  && AsAdded(t.tasks[id], s.nextID, content, sch, src, now)
                  && t.phase == s.phase && t.tick == s.tick && t.channel == s.channel
                  && t.captured == s.captured && t.delivered == s.delivered)
  {
    hide *;
    Reachable(before);
    NextIdIsFresh(TASK_PREFIX, Run(START, before).nextID);
    AddStoresFrom(Run(START, before), content, sch, src, now);
  }

  lemma OneShotNext(sch: Schedule, now: Instant)
    ensures sch.kind.Once? ==> (NextOf(sch, now).Some? <==> now < sch.at)
    ensures sch.kind.Relative? ==> NextOf(sch, now).Some?
    ensures NextOf(sch, now).Some? && !Repeats(sch) ==> Unix(NextOf(sch, now).value) == OneShotTime(sch, now)
  {
    hide Unix;
  }

  lemma AddStoresFrom(s: Sys, content: string, sch: Schedule, src: Source, now: Instant)
    requires Invariant(s) && !Numbered(TASK_PREFIX, Id(TASK_PREFIX, s.nextID + 1), s.nextID)
    ensures var t, id := Apply(s, Add(content, sch, src, now)), Id(TASK_PREFIX, s.nextID + 1);
            && (t == s <==> NextOf(sch, now).None?)
            && (sch.kind.Once? ==> (t == s <==> sch.at <= now)) && (sch.kind.Relative? ==> t != s)
            && (t != s ==>
                  && id !in s.tasks && t.tasks == s.tasks[id := t.tasks[id]] && t.nextID == s.nextID + 1
                  && AsAdded(t.tasks[id], s.nextID, content, sch, src, now)
                  && t.phase == s.phase && t.tick == s.tick && t.channel == s.channel
                  && t.captured == s.captured && t.delivered == s.delivered)
  {
    hide FlowOk, OrderOk, SnapshotOk, TickOk, PendingDue, SeenOk, NextOf, Describe, Id, Unix, OneShotTime, Numbered;
    OneShotNext(sch, now);
  }

  /** Step `i` of the run created the task `t`. */
  ghost predicate CreatedAt(steps: seq<Step>, i: int, t: Task)
    requires 0 <= i < |steps|
  {
    var s := Run(START, steps[..i]);
    && steps[i].Add? && Apply(s, steps[i]).nextID == s.nextID + 1
    && AsAdded(t, s.nextID, steps[i].content, steps[i].sch, steps[i].src, steps[i].now)
  }

  ghost predicate Created(steps: seq<Step>, t: Task) {
    exists i :: 0 <= i < |steps| && CreatedAt(steps, i, t)
  }

  /** A visit hands out a stored task as it is, and at most moves a repeating one on. */
  lemma VisitProvenance(s: Sys, now: Instant, rest: seq<Task>)
    requires TableOk(s)
    ensures var t := VisitStep(s, now, rest);
            && (forall id :: id in t.tasks ==>
                  id in s.tasks && SameTask(t.tasks[id], s.tasks[id])
                  && (s.tasks[id].repeat || t.tasks[id] == s.tasks[id]))
            && (forall e :: e in t.captured ==>
                  e in s.captured || (e.task.id in s.tasks && s.tasks[e.task.id] == e.task))
  {
    hide Due, NextOf, Numbered, Unix;
  }

  lemma StepProvenance(s: Sys, step: Step)
    requires TableOk(s) && !step.Add?
    ensures var t := Apply(s, step);
            && (forall id :: id in t.tasks ==>
                  id in s.tasks && SameTask(t.tasks[id], s.tasks[id])
                  && (s.tasks[id].repeat || t.tasks[id] == s.tasks[id]))
            && (forall e :: e in t.captured ==>
                  e in s.captured || (e.task.id in s.tasks && s.tasks[e.task.id] == e.task))
  {
    hide AddStep, VisitStep, TableOk, DueList, Looked;
    if step.Visit? && s.phase.Scanning? {
      VisitProvenance(s, s.phase.now, s.phase.rest);
    }
  }

  lemma CreatedStays(steps: seq<Step>, step: Step, t: Task, u: Task)
    requires Created(steps, t) && SameTask(u, t) && (t.repeat || u == t)
    ensures Created(steps + [step], u)
  {
    hide Run, Apply, OneShotTime, Unix, Id;
    var i :| 0 <= i < |steps| && CreatedAt(steps, i, t);
    assert (steps + [step])[..i] == steps[..i];
    assert CreatedAt(steps + [step], i, u);
  }

  /** Every stored task, and every event, is of a task that some call of the run described. */
  lemma {:induction false} AllCreated(steps: seq<Step>)
    ensures forall id :: id in Run(START, steps).tasks ==> Created(steps, Run(START, steps).tasks[id])
    ensures forall e :: e in Run(START, steps).captured ==> Created(steps, e.task)
  {
    if steps != [] {
      hide *;
      var before, step := steps[..|steps| - 1], steps[|steps| - 1];
      assert steps == before + [step];
      var s := Run(START, before);
      AllCreated(before);
      RunSnoc(START, before, step);
      forall t: Task | Created(before, t)
        ensures Created(steps, t)
      {
        SameAsItself(t);
        CreatedStays(before, step, t, t);
      }
      if step.Add? {
        AddCreates(before, step);
      } else {
        ReachableTable(before);
        StepProvenance(s, step);
        forall id | id in Apply(s, step).tasks
          ensures Created(steps, Apply(s, step).tasks[id])
        {
          CreatedStays(before, step, s.tasks[id], Apply(s, step).tasks[id]);
        }
      }
    }
  }

  lemma SameAsItself(t: Task)
    ensures SameTask(t, t)
  {
  }

  lemma ReachableTable(steps: seq<Step>)
    ensures TableOk(Run(START, steps))
  {
    hide Run, TableOk, FlowOk, OrderOk, SnapshotOk, TickOk, PendingDue, SeenOk;
    Reachable(steps);
  }

  lemma AddCreates(before: seq<Step>, step: Step)
    requires step.Add?
    ensures var s, t := Run(START, before), Apply(Run(START, before), step);
            && t.captured == s.captured
            && forall id :: id in t.tasks ==>
                 (id in s.tasks && t.tasks[id] == s.tasks[id]) || Created(before + [step], t.tasks[id])
  {
    hide Run, Apply, AsAdded, NextOf, Id;
    AddStores(before, step.content, step.sch, step.src, step.now);
    var steps := before + [step];
    assert steps[..|before|] == before && steps[|before|] == step;
    var s, t := Run(START, before), Apply(Run(START, before), step);
    if t != s {
      assert CreatedAt(steps, |before|, t.tasks[Id(TASK_PREFIX, s.nextID + 1)]);
    }
  }

  lemma {:induction false} NextIDGrows(s: Sys, steps: seq<Step>)
    requires TableOk(s)
    ensures s.nextID <= Run(s, steps).nextID
    decreases |steps|
  {
    hide Apply, TableOk;
    if steps != [] {
      ApplyTable(s, steps[0]);
      NextIDGrows(Apply(s, steps[0]), steps[1..]);
    }
  }

  /** No two calls create tasks of one id. */
  lemma CreatorUnique(steps: seq<Step>, i: nat, j: nat, t: Task, u: Task)
    requires i < j < |steps| && CreatedAt(steps, i, t) && CreatedAt(steps, j, u)
    ensures t.id != u.id
  {
    hide Run, Apply, TableOk, OneShotTime, Unix, Id;
    assert steps[..i + 1] == steps[..i] + [steps[i]];
    RunSnoc(START, steps[..i], steps[i]);
    ReachableTable(steps[..i + 1]);
    NextIDGrows(Run(START, steps[..i + 1]), steps[i + 1..j]);
    RunSplit(START, steps[..i + 1], steps[i + 1..j]);
    assert steps[..i + 1] + steps[i + 1..j] == steps[..j];
    var a, b := Run(START, steps[..i]).nextID, Run(START, steps[..j]).nextID;
    if Id(TASK_PREFIX, a + 1) == Id(TASK_PREFIX, b + 1) {
      IdInjective(TASK_PREFIX, a + 1, b + 1);
    }
  }

  lemma {:induction false} RunSplit(s: Sys, a: seq<Step>, b: seq<Step>)
    ensures Run(s, a + b) == Run(Run(s, a), b)
    decreases |a|
  {
    hide Apply;
    if a == [] {
      assert a + b == b;
    } else {
      assert (a + b)[1..] == a[1..] + b;
      RunSplit(Apply(s, a[0]), a[1..], b);
    }
  }

  /**
   Whatever reaches the consumer is what some client asked for: in every run each event
   delivered, queued or captured carries the content, the reply source, the rule and the
   creation time of one call, and of the very call that was given its id.
   */
  lemma EventsAsAdded(steps: seq<Step>, e: Event) returns (i: nat)
    requires var s := Run(START, steps); e in s.delivered || e in s.channel || e in s.captured
    ensures i < |steps| && CreatedAt(steps, i, e.task)
    ensures forall j, t :: 0 <= j < |steps| && CreatedAt(steps, j, t) && t.id == e.task.id ==> j == i
  {
    hide *;
    EventsConserved(steps);
    AllCreated(steps);
    i := Creator(steps, e.task);
    forall j, t | 0 <= j < |steps| && CreatedAt(steps, j, t) && t.id == e.task.id
      ensures j == i
    {
      if i < j {
        CreatorUnique(steps, i, j, e.task, t);
      } else if j < i {
        CreatorUnique(steps, j, i, t, e.task);
      }
    }
  }

  lemma Creator(steps: seq<Step>, t: Task) returns (i: nat)
    requires Created(steps, t)
    ensures i < |steps| && CreatedAt(steps, i, t)
  {
    hide CreatedAt;
    i :| i < |steps| && CreatedAt(steps, i, t);
  }

  /**
   A task for one instant, or after a delay, under interference: it has its one event at
   the first completed tick whose second reaches that of the instant asked for, and none
   at any other.
   */
  lemma InterleavedTarget(before: seq<Step>, turns: seq<Turn>, id: string, i: nat) returns (c: nat)
    requires var s := Run(START, before); Interleaved(s, turns, id) && !s.tasks[id].repeat && i < |turns|
    ensures c < |before| && CreatedAt(before, c, Run(START, before).tasks[id])
    ensures var s, target := Run(START, before), OneShotTime(before[c].sch, before[c].now);
            EventCount(s, turns, id, i) ==
            if target <= Unix(turns[i].now) && forall j :: 0 <= j < i ==> Unix(turns[j].now) < target then 1 else 0
  {
    var s := Run(START, before);
    hide Run, Apply, EventCount, OneShotTime, Unix, Id, AllComplete, CreatedAt;
    AllCreated(before);
    c := Creator(before, s.tasks[id]);
    CreatedTime(before, c, s.tasks[id]);
    InterleavedOneShot(before, turns, id, i);
  }

  lemma CreatedTime(steps: seq<Step>, i: nat, t: Task)
    requires i < |steps| && CreatedAt(steps, i, t) && !t.repeat
    ensures steps[i].Add? && t.nextRunAt == OneShotTime(steps[i].sch, steps[i].now)
  {
    hide Run, Apply, OneShotTime, Id;
  }

  // ------------------------------------------------- an undisturbed dispatch

  function Events(ts: seq<Task>, tick: nat, now: Instant): seq<Event> {
    seq(|ts|, i requires 0 <= i < |ts| => Event(ts[i], tick, now))
  }

  /** The steps of the dispatcher and of the consumer of its channel. */
  predicate Dispatching(step: Step) {
    step.Visit? || step.Send? || step.Receive?
  }

  /** `s` is `i` tasks into the dispatch of `due` that began in state `was`. */
  ghost predicate Swept(was: Sys, now: Instant, due: seq<Task>, i: nat, s: Sys) {
    && i <= |due| && s.tick == was.tick + 1 && s.tasks == Fired(was.tasks, Ids(due[..i]), now)
    && s.captured == was.captured + Events(due[..i], was.tick + 1, now)
    && match s.phase
       case Idle => i == |due|
       case Scanning(n, rest) => n == now && rest == due[i..]
       case Sending(e, rest) => e.now == now && rest == due[i..]
       case Stopped(_) => false
  }

  lemma SweptStep(was: Sys, now: Instant, due: seq<Task>, i: nat, s: Sys, step: Step) returns (j: nat)
    requires DueList(was.tasks, now, due) && Swept(was, now, due, i, s) && Dispatching(step)
    ensures Swept(was, now, due, j, Apply(s, step))
  {
    j := i;
    hide Captured, AfterCapture, Fired, DueList;
    if step.Visit? && s.phase.Scanning? && i < |due| {
      j := i + 1;
      FireNth(was.tasks, now, due, i);
      assert due[i..][0] == due[i] && due[i..][1..] == due[i + 1..];
      assert due[..i + 1] == due[..i] + [due[i]];
    }
  }

  lemma {:induction false} SweptRun(was: Sys, now: Instant, due: seq<Task>, i: nat, s: Sys, steps: seq<Step>)
    requires DueList(was.tasks, now, due) && Swept(was, now, due, i, s)
    requires forall k :: 0 <= k < |steps| ==> Dispatching(steps[k])
    ensures exists j :: Swept(was, now, due, j, Run(s, steps))
    decreases |steps|
  {
    hide DueList, Swept, Apply, Dispatching;
    if steps == [] {
      assert Swept(was, now, due, i, Run(s, steps));
    } else {
      var j := SweptStep(was, now, due, i, s, steps[0]);
      SweptRun(was, now, due, j, Apply(s, steps[0]), steps[1..]);
      assert Run(s, steps) == Run(Apply(s, steps[0]), steps[1..]);
    }
  }

  /**
   Undisturbed, the atomic steps of a tick add up to the whole dispatch, however the
   consumer's receptions fall among them: every due task fires once, its event follows
   those before it to the channel and the consumer in order, and nothing else changes.
   */
  lemma UndisturbedTick(s: Sys, now: Instant, due: seq<Task>, steps: seq<Step>)
    requires Consistent(s.tasks, s.nextID) && FlowOk(s) && s.phase.Idle? && DueList(s.tasks, now, due)
    requires forall k :: 0 <= k < |steps| ==> Dispatching(steps[k])
    requires Run(Apply(s, Tick(now, due)), steps).phase.Idle?
    ensures var t := Run(Apply(s, Tick(now, due)), steps);
            && t.tasks == Fired(s.tasks, DueIds(s.tasks, now), now)
            && t.captured == s.captured + Events(due, s.tick + 1, now)
            && t.delivered + t.channel == s.delivered + s.channel + Events(due, s.tick + 1, now)
  {
    var t := Apply(s, Tick(now, due));
    SweepBegins(s, now, due);
    DueListIds(s.tasks, s.nextID, now, due);
    ApplyFlow(s, Tick(now, due));
    hide *;
    SweptRun(s, now, due, 0, t, steps);
    var j :| Swept(s, now, due, j, Run(t, steps));
    SweepEnds(s, now, due, j, Run(t, steps));
    RunFlow(t, steps);
    IdleFlow(s);
    IdleFlow(Run(t, steps));
  }

  lemma SweepBegins(s: Sys, now: Instant, due: seq<Task>)
    requires s.phase.Idle? && DueList(s.tasks, now, due)
    ensures Swept(s, now, due, 0, Apply(s, Tick(now, due)))
  {
    assert due[..0] == [] && due[0..] == due;
    FireNone(s.tasks, now);
    NoIds();
    hide Fired, DueList, Looked;
  }

  lemma SweepEnds(was: Sys, now: Instant, due: seq<Task>, j: nat, s: Sys)
    requires Swept(was, now, due, j, s) && s.phase.Idle?
    ensures s.tasks == Fired(was.tasks, Ids(due), now) && s.captured == was.captured + Events(due, was.tick + 1, now)
  {
    hide Fired, Events;
    assert due[..|due|] == due;
  }

  lemma IdleFlow(s: Sys)
    requires FlowOk(s) && s.phase.Idle?
    ensures s.captured == s.delivered + s.channel
  {
  }

  lemma {:induction false} RunFlow(s: Sys, steps: seq<Step>)
    requires FlowOk(s)
    ensures FlowOk(Run(s, steps))
    decreases |steps|
  {
    hide FlowOk, Apply;
    if steps != [] {
      ApplyFlow(s, steps[0]);
      RunFlow(Apply(s, steps[0]), steps[1..]);
    }
  }

  // ------------------------------------------------- every tick comes to its end

  /** How many dispatcher steps the tick in progress can still take. */
  function Work(p: Phase): nat {
    match p
    case Scanning(_, rest) => 2 * |rest| + 1
    case Sending(_, rest) => 2 * |rest| + 2
    case _ => 0
  }

  /** The dispatcher takes this step: a visit, or a send for which there is room. */
  predicate Advances(s: Sys, step: Step) {
    (step.Visit? && s.phase.Scanning?) || (step.Send? && s.phase.Sending? && |s.channel| < CHANNEL_CAPACITY)
  }

  ghost function StepsTaken(s: Sys, steps: seq<Step>): nat
    decreases |steps|
  {
    if steps == [] then 0
    else (if Advances(s, steps[0]) then 1 else 0) + StepsTaken(Apply(s, steps[0]), steps[1..])
  }

  /** Within a tick every step of the dispatcher lessens its work and no other step changes it. */
  lemma WorkStep(s: Sys, step: Step)
    requires Work(s.phase) > 0 && !step.Stop?
    ensures Apply(s, step).tick == s.tick
    ensures if Advances(s, step) then Work(Apply(s, step).phase) < Work(s.phase) else Apply(s, step).phase == s.phase
    ensures !Apply(s, step).phase.Stopped?
  {
    hide AddStep, Captured, AfterCapture;
    if step.Add? {
      AddKeepsPhase(s, step.content, step.sch, step.src, step.now);
    }
  }

  /**
   A tick ends, whatever happens around it: unless it is stopped, any sequence of steps in
   which the dispatcher takes as many as its work is worth brings it back to idle within
   the tick.
   */
  lemma {:induction false} TickFinishes(s: Sys, steps: seq<Step>) returns (k: nat)
    requires !s.phase.Stopped? && (forall i :: 0 <= i < |steps| ==> !steps[i].Stop?)
    requires Work(s.phase) <= StepsTaken(s, steps)
    ensures k <= |steps| && Run(s, steps[..k]).phase.Idle? && Run(s, steps[..k]).tick == s.tick
    decreases |steps|
  {
    k := 0;
    if Work(s.phase) > 0 {
      WorkStep(s, steps[0]);
      hide Apply, Advances;
      k := TickFinishes(Apply(s, steps[0]), steps[1..]);
      RunShift(s, steps, k + 1);
      k := k + 1;
    }
  }

  /**
   Nor can it get stuck: the dispatcher can always take a step, at once or, when the
   channel is full, after one reception.
   */
  lemma NeverStuck(s: Sys)
    requires FlowOk(s) && Work(s.phase) > 0
    ensures Advances(s, Visit) || Advances(s, Send) || Advances(Apply(s, Receive), Send)
    ensures Apply(s, Receive).phase == s.phase
  {
  }

  /** So from every state that is not stopped, dispatcher and consumer alone can finish the tick. */
  lemma {:induction false} TickCanFinish(s: Sys) returns (steps: seq<Step>)
    requires FlowOk(s) && !s.phase.Stopped?
    ensures (forall k :: 0 <= k < |steps| ==> Dispatching(steps[k]))
    ensures Run(s, steps).phase.Idle? && Run(s, steps).tick == s.tick
    decreases Work(s.phase)
  {
    steps := [];
    if Work(s.phase) > 0 {
      NeverStuck(s);
      var r := Apply(s, Receive);
      ApplyFlow(s, Receive);
      var step := if Advances(r, Visit) then Visit else Send;
      var t := Apply(r, step);
      WorkStep(s, Receive);
      WorkStep(r, step);
      ApplyFlow(r, step);
      hide Apply, FlowOk;
      var rest := TickCanFinish(t);
      steps := [Receive] + ([step] + rest);
      assert Run(s, steps) == Run(r, [step] + rest);
      assert ([step] + rest)[1..] == rest;
      assert Run(r, [step] + rest) == Run(t, rest);
    }
  }

  // ------------------------------------------------- cancellation

  lemma GoneStep(s: Sys, step: Step, id: string)
    requires Consistent(s.tasks, s.nextID) && Numbered(TASK_PREFIX, id, s.nextID) && id !in s.tasks
    ensures id !in Apply(s, step).tasks && Numbered(TASK_PREFIX, id, Apply(s, step).nextID)
    ensures forall i :: |s.captured| <= i < |Apply(s, step).captured| ==> Apply(s, step).captured[i].task.id != id
    ensures |s.captured| <= |Apply(s, step).captured|
    ensures s.captured == Apply(s, step).captured[..|s.captured|]
  {
    hide NextOf, Describe, DueList, Due, Id, Looked;
    NextIdIsFresh(TASK_PREFIX, s.nextID);
    NumberedGrows(TASK_PREFIX, id, s.nextID, s.nextID + 1);
  }

  /** Once an id that was handed out is gone from the table, no later step captures it. */
  lemma {:induction false} GoneStaysGone(s: Sys, steps: seq<Step>, id: string)
    requires TableOk(s) && Numbered(TASK_PREFIX, id, s.nextID) && id !in s.tasks
    ensures id !in Run(s, steps).tasks && |s.captured| <= |Run(s, steps).captured|
    ensures s.captured == Run(s, steps).captured[..|s.captured|]
    ensures forall i :: |s.captured| <= i < |Run(s, steps).captured| ==> Run(s, steps).captured[i].task.id != id
    decreases |steps|
  {
    hide Apply, Numbered, Consistent;
    if steps != [] {
      var next := Apply(s, steps[0]);
      ApplyTable(s, steps[0]);
      GoneStep(s, steps[0], id);
      GoneStaysGone(next, steps[1..], id);
    }
  }

  /** After a successful cancellation no step of any continuation captures the task again. */
  lemma CancelledNeverFires(before: seq<Step>, id: string, after: seq<Step>)
    ensures var s := Apply(Run(START, before), Cancel(id));
            id in Run(START, before).tasks ==>
              && id !in Run(s, after).tasks && |s.captured| <= |Run(s, after).captured|
              && forall i :: |s.captured| <= i < |Run(s, after).captured| ==> Run(s, after).captured[i].task.id != id
  {
    hide Run, FlowOk, OrderOk, SnapshotOk, TickOk, SeenOk, Numbered;
    Reachable(before);
    var s := Run(START, before);
    if id in s.tasks {
      ApplyTable(s, Cancel(id));
      GoneStaysGone(Apply(s, Cancel(id)), after, id);
    }
  }

  /** No id is ever handed out twice: the next one names neither a stored nor a captured task. */
  lemma IdsNeverReused(steps: seq<Step>)
    ensures var s := Run(START, steps);
            && Id(TASK_PREFIX, s.nextID + 1) !in s.tasks
            && forall i :: 0 <= i < |s.captured| ==> s.captured[i].task.id != Id(TASK_PREFIX, s.nextID + 1)
  {
    hide Run, FlowOk, OrderOk, SnapshotOk, TickOk, SeenOk, Id, Numbered;
    Reachable(steps);
    NextIdIsFresh(TASK_PREFIX, Run(START, steps).nextID);
  }
}
