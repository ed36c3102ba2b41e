/**
 The cached next run against the simple rule: at every tick a repeating task fires
 exactly when an occurrence of its rule has passed since the tick before.
 */
module Ticks {
  import opened Wrappers
  import opened Calendar
  import opened Schedules
  import opened NextLaws
  import opened Builder
  import opened Tasks

  function Lookup(tasks: map<string, Task>, id: string): Option<Task> {
    if id in tasks then Some(tasks[id]) else None
  }

  /** What one whole dispatch at `now` makes of a task. */
  function TickTask(t: Option<Task>, now: Instant): Option<Task> {
    if t.Some? && Due(t.value, now) then Advanced(t.value, now) else t
  }

  /** A dispatch over the whole table treats every task on its own. */
  lemma DispatchIsPerTask(tasks: map<string, Task>, id: string, now: Instant)
    ensures Lookup(Fired(tasks, DueIds(tasks, now), now), id) == TickTask(Lookup(tasks, id), now)
  {
    hide Advanced, Due;
  }

  function AfterTicks(t: Option<Task>, ticks: seq<Instant>): Option<Task> {
    if ticks == [] then t else TickTask(AfterTicks(t, ticks[..|ticks| - 1]), ticks[|ticks| - 1])
  }

  /** Any number of whole dispatches over the table follow the tick-by-tick rule, task by task. */
  lemma {:induction false} DispatchesFollowTicks(tasks: map<string, Task>, ticks: seq<Instant>, id: string)
    ensures Lookup(Dispatched(tasks, ticks), id) == AfterTicks(Lookup(tasks, id), ticks)
  {
    hide Fired, DueIds, Lookup, TickTask;
    if ticks != [] {
      var earlier, now := ticks[..|ticks| - 1], ticks[|ticks| - 1];
      DispatchesFollowTicks(tasks, earlier, id);
      DispatchIsPerTask(Dispatched(tasks, earlier), id, now);
    }
  }

  predicate FiresAt(t: Option<Task>, ticks: seq<Instant>, i: nat)
    requires i < |ticks|
  {
    var before := AfterTicks(t, ticks[..i]);
    before.Some? && Due(before.value, ticks[i])
  }

  /** The instant the task was last looked at before tick `i`: a tick, or its creation. */
  function Before(created: Instant, ticks: seq<Instant>, i: nat): Instant
    requires i <= |ticks|
  {
    if i == 0 then created else ticks[i - 1]
  }

  predicate Forward(created: Instant, ticks: seq<Instant>) {
    forall i :: 0 <= i < |ticks| ==> Before(created, ticks, i) <= ticks[i]
  }

  /** The cached run is the next occurrence after `seen`. */
  predicate CachedFor(t: Task, seen: Instant) {
    t.repeat && NextOf(t.sch, seen).Some? && t.nextRunAt == Unix(NextOf(t.sch, seen).value)
  }

  ghost predicate OccurrenceIn(s: Schedule, after: Instant, upTo: Instant) {
    exists u :: Occurs(s, u) && after < u <= upTo
  }

  /** A cached task is due exactly when an occurrence has passed. */
  lemma DueIff(t: Task, seen: Instant, now: Instant)
    requires Good(t.sch) && CachedFor(t, seen)
    ensures Due(t, now) <==> OccurrenceIn(t.sch, seen, now)
  {
    hide NextOf, Occurs;
    var next := NextOf(t.sch, seen).value;
    NextIsLeast(t.sch, seen);
    NextIsLater(t.sch, seen);
    UnixCompare(next, now);
  }

  /** Looking at a task that is not due leaves its cache right for the later instant. */
  lemma LookKeepsCache(t: Task, seen: Instant, now: Instant)
    requires Good(t.sch) && CachedFor(t, seen) && !Due(t, now) && seen <= now
    ensures CachedFor(t, now)
  {
    hide NextOf;
    NextIsLater(t.sch, seen);
    UnixCompare(NextOf(t.sch, seen).value, now);
    NextStable(t.sch, seen, now);
  }

  /** Firing recomputes the cache from the tick. */
  lemma FireKeepsCache(t: Task, now: Instant)
    requires Advanced(t, now).Some?
    ensures CachedFor(Advanced(t, now).value, now) && Advanced(t, now).value.sch == t.sch
  {
    hide NextOf;
  }

  lemma {:induction false} CacheAfterTicks(t: Task, created: Instant, ticks: seq<Instant>)
    requires Good(t.sch) && CachedFor(t, created) && Forward(created, ticks)
    ensures var after := AfterTicks(Some(t), ticks);
            after.Some? ==> after.value.sch == t.sch && CachedFor(after.value, Before(created, ticks, |ticks|))
  {
    hide CachedFor, Due, Advanced, Good;
    if ticks != [] {
      var earlier, now := ticks[..|ticks| - 1], ticks[|ticks| - 1];
      var seen := Before(created, earlier, |earlier|);
      assert forall i :: 0 <= i < |earlier| ==> Before(created, earlier, i) == Before(created, ticks, i);
      assert seen == Before(created, ticks, |earlier|);
      CacheAfterTicks(t, created, earlier);
      var before := AfterTicks(Some(t), earlier);
      if before.Some? {
        if Due(before.value, now) {
          if Advanced(before.value, now).Some? {
            FireKeepsCache(before.value, now);
          }
        } else {
          LookKeepsCache(before.value, seen, now);
        }
      }
    }
  }

  /**
   For any forward sequence of ticks, a task that is still stored fires at a tick if and
   only if an occurrence of its rule lies after the tick before (or its creation) and at
   or before this one: missed occurrences coalesce, none is dropped or repeated.
   */
  lemma FiresIffOccurrence(t: Task, created: Instant, ticks: seq<Instant>, i: nat)
    requires Good(t.sch) && CachedFor(t, created) && Forward(created, ticks) && i < |ticks|
    requires AfterTicks(Some(t), ticks[..i]).Some?
    ensures FiresAt(Some(t), ticks, i) <==> OccurrenceIn(t.sch, Before(created, ticks, i), ticks[i])
  {
    hide CachedFor, Due, Good, OccurrenceIn;
    var earlier := ticks[..i];
    assert forall k :: 0 <= k <= i ==> Before(created, earlier, k) == Before(created, ticks, k);
    CacheAfterTicks(t, created, earlier);
    DueIff(AfterTicks(Some(t), earlier).value, Before(created, ticks, i), ticks[i]);
  }

  /** A new repeating task starts with a right cache. */
  lemma NewTaskCached(id: string, content: string, sch: Schedule, src: Source, now: Instant)
    requires Repeats(sch) && NextOf(sch, now).Some? && Describable(sch)
    ensures CachedFor(NewTask(id, content, sch, src, now), now)
  {
    hide NextOf, Describe;
  }

  /** The task fires at tick `i` and has no next time to go to. */
  predicate DropsAt(t: Task, ticks: seq<Instant>, i: nat)
    requires i < |ticks|
  {
    FiresAt(Some(t), ticks, i) && NextOf(t.sch, ticks[i]).None?
  }

  lemma ForwardPrefix(created: Instant, ticks: seq<Instant>, n: nat)
    requires n <= |ticks| && Forward(created, ticks)
    ensures Forward(created, ticks[..n]) && Before(created, ticks[..n], n) == Before(created, ticks, n)
  {
    assert forall i :: 0 <= i <= n ==> Before(created, ticks[..n], i) == Before(created, ticks, i);
  }

  lemma DropStep(t: Task, created: Instant, ticks: seq<Instant>, n: nat)
    requires Good(t.sch) && CachedFor(t, created) && Forward(created, ticks) && n < |ticks|
    ensures AfterTicks(Some(t), ticks[..n + 1]).None? <==>
            AfterTicks(Some(t), ticks[..n]).None? || DropsAt(t, ticks, n)
  {
    hide CachedFor, Due, Good, NextOf;
    assert ticks[..n + 1][..n] == ticks[..n];
    ForwardPrefix(created, ticks, n);
    CacheAfterTicks(t, created, ticks[..n]);
    var before := AfterTicks(Some(t), ticks[..n]);
    if before.Some? {
      RepeatsWhenCached(before.value, Before(created, ticks, n));
    }
  }

  /** A task is gone after some ticks exactly when it fired at one with no next time to go to. */
  lemma {:induction false} GoneIff(t: Task, created: Instant, ticks: seq<Instant>, n: nat)
    requires Good(t.sch) && CachedFor(t, created) && Forward(created, ticks) && n <= |ticks|
    ensures AfterTicks(Some(t), ticks[..n]).None? <==> exists i: nat :: i < n && DropsAt(t, ticks, i)
  {
    hide CachedFor, Good, DropsAt, Forward;
    if n > 0 {
      GoneIff(t, created, ticks, n - 1);
      DropStep(t, created, ticks, n - 1);
    }
  }

  lemma RepeatsWhenCached(t: Task, seen: Instant)
    requires CachedFor(t, seen)
    ensures t.repeat
  {
  }

  /** A rule whose search always succeeds is never dropped, so the simple rule holds at every tick. */
  lemma ReliableFiresIff(t: Task, created: Instant, ticks: seq<Instant>, i: nat)
    requires Good(t.sch) && CachedFor(t, created) && Forward(created, ticks) && i < |ticks|
    requires forall now :: NextOf(t.sch, now).Some?
    ensures FiresAt(Some(t), ticks, i) <==> OccurrenceIn(t.sch, Before(created, ticks, i), ticks[i])
  {
    hide CachedFor, Due, Good, NextOf, OccurrenceIn, FiresAt, AfterTicks;
    GoneIff(t, created, ticks, i);
    FiresIffOccurrence(t, created, ticks, i);
  }

  /** The leap-day rule is the exception: firing on February 29, 2096, it is dropped for good. */
  lemma LeapDayTaskDropped(t: Task)
    requires LeapDayRule(t.sch) && t.repeat
    ensures Occurs(t.sch, InstantAt(LeapDay(2096), t.sch.times[0]))
    ensures Advanced(t, InstantAt(LeapDay(2096), t.sch.times[0])) == None
  {
    hide LeapDay, InstantAt, Occurs, NextOf;
    LeapGapAfter2096(t.sch);
  }

  /**
   So a yearly February 29 task fires at a tick exactly when an occurrence has passed and
   it has not yet fired inside the gap before a delayed leap day.
   */
  lemma LeapDayFiresIff(t: Task, created: Instant, ticks: seq<Instant>, i: nat)
    requires LeapDayRule(t.sch) && CachedFor(t, created) && Forward(created, ticks) && i < |ticks|
    ensures FiresAt(Some(t), ticks, i) <==>
            OccurrenceIn(t.sch, Before(created, ticks, i), ticks[i])
            && !exists j: nat :: j < i && FiresAt(Some(t), ticks, j) && LeapGap(t.sch, ticks[j])
  {
    hide CachedFor, Due, NextOf, OccurrenceIn, FiresAt, AfterTicks, LeapGap, Forward;
    GoneIff(t, created, ticks, i);
    forall j: nat | j < i
      ensures DropsAt(t, ticks, j) <==> FiresAt(Some(t), ticks, j) && LeapGap(t.sch, ticks[j])
    {
      LeapSearchFailsIff(t.sch, ticks[j]);
    }
    if AfterTicks(Some(t), ticks[..i]).Some? {
      FiresIffOccurrence(t, created, ticks, i);
    } else {
      GoneNeverFires(Some(t), ticks, i);
    }
  }

  lemma GoneNeverFires(t: Option<Task>, ticks: seq<Instant>, i: nat)
    requires i < |ticks| && AfterTicks(t, ticks[..i]).None?
    ensures !FiresAt(t, ticks, i)
  {
  }

  /**
   End to end: a task created from any accepted daily, weekly, monthly or yearly rule
   other than February 29 fires at a tick if and only if an occurrence has passed since
   the tick before, for ever.
   */
  lemma AcceptedFiresIff(
    id: string, content: string, sch: Schedule, src: Source, created: Instant, ticks: seq<Instant>, i: nat)
    requires Accepted(sch) && Describable(sch) && NextOf(sch, created).Some?
    requires Forward(created, ticks) && i < |ticks|
    ensures FiresAt(Some(NewTask(id, content, sch, src, created)), ticks, i) <==>
            OccurrenceIn(sch, Before(created, ticks, i), ticks[i])
  {
    AcceptedAlwaysFires(sch, created);
    NewTaskCached(id, content, sch, src, created);
    var t := NewTask(id, content, sch, src, created);
    assert t.sch == sch;
    hide *;
    forall now
      ensures NextOf(t.sch, now).Some?
    {
      AcceptedAlwaysFires(sch, now);
    }
    ReliableFiresIff(t, created, ticks, i);
  }

  // ------------------------------------------------- one-shot tasks

  lemma {:induction false} OneShotWaits(t: Task, ticks: seq<Instant>)
    requires !t.repeat
    ensures AfterTicks(Some(t), ticks) ==
            if forall j :: 0 <= j < |ticks| ==> !Due(t, ticks[j]) then Some(t) else None
  {
    hide Due;
    if ticks != [] {
      OneShotWaits(t, ticks[..|ticks| - 1]);
    }
  }

  /** A one-shot task fires at the first tick that reaches the second of its run time, and only there. */
  lemma OneShotFiresIff(t: Task, ticks: seq<Instant>, i: nat)
    requires !t.repeat && i < |ticks|
    ensures FiresAt(Some(t), ticks, i) <==> Due(t, ticks[i]) && forall j :: 0 <= j < i ==> !Due(t, ticks[j])
  {
    hide Due;
    OneShotWaits(t, ticks[..i]);
  }

  /**
   End to end: a task for one instant, created before it, fires at the first tick whose
   second reaches that of the instant, and at no other tick.
   */
  lemma OnceFiresIff(
    id: string, content: string, sch: Schedule, src: Source, created: Instant, ticks: seq<Instant>, i: nat)
    requires sch.kind.Once? && created < sch.at && i < |ticks|
    ensures NextOf(sch, created) == Some(sch.at)
    ensures FiresAt(Some(NewTask(id, content, sch, src, created)), ticks, i) <==>
            Unix(sch.at) <= Unix(ticks[i]) && forall j :: 0 <= j < i ==> Unix(ticks[j]) < Unix(sch.at)
  {
    hide FiresAt, AfterTicks, Describe, Unix;
    OneShotFiresIff(NewTask(id, content, sch, src, created), ticks, i);
  }

  /**
   The run time is cut to whole seconds, so a one-shot task can fire before its target
   instant, exactly when the target is not on a whole second.
   */
  lemma OneShotEarlyIff(id: string, content: string, sch: Schedule, src: Source, created: Instant)
    requires !Repeats(sch) && NextOf(sch, created).Some? && created < NextOf(sch, created).value
    ensures var target := NextOf(sch, created).value;
            (exists now :: created <= now < target && Due(NewTask(id, content, sch, src, created), now))
            <==> target % NS_PER_SECOND != 0
  {
    hide Describe;
    var target := NextOf(sch, created).value;
    var t := NewTask(id, content, sch, src, created);
    if target % NS_PER_SECOND != 0 {
      assert Due(t, target - 1);
    } else {
      forall now | now < target
        ensures !Due(t, now)
      {
        UnixCompare(target, now);
      }
    }
  }
}
