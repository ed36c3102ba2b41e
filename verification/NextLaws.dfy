/**
 How successive answers of `Next` relate: the answer stays put until it is reached,
 never moves backwards, and iterating it enumerates every later occurrence.
 */
module NextLaws {
  import opened Wrappers
  import opened Calendar
  import opened Schedules
  import opened Builder

  /** Until its answer is reached, asking again gives the same answer, and never fails. */
  lemma NextStable(s: Schedule, now: Instant, x: Instant)
    requires Good(s) && NextOf(s, now).Some? && now <= x < NextOf(s, now).value
    ensures NextOf(s, x) == NextOf(s, now)
  {
    hide Occurs, NextOf, LocalDay;
    NextIsLeast(s, now);
    LocalDayMonotone(now, x);
    NextOccurs(s, now);
    assert LocalDay(NextOf(s, now).value) < LocalDay(now) + Horizon(s.kind) by {
      NextInsideHorizon(s, now);
    }
    NextSucceedsIff(s, x);
    NextIsLeast(s, x);
  }

  lemma NextInsideHorizon(s: Schedule, now: Instant)
    requires Repeats(s) && InDay(s.times) && NextOf(s, now).Some?
    ensures LocalDay(NextOf(s, now).value) < LocalDay(now) + Horizon(s.kind)
  {
    hide LocalDay, InstantAt, DayMatches, NextOf;
    NextShape(s, now);
    var day := LocalDay(now) + HitOffset(s, now, 0, Horizon(s.kind));
    assert day < LocalDay(now) + Horizon(s.kind) by {
      SomeMeansHit(s, now);
    }
    var k :| 0 <= k < |s.times| && NextOf(s, now).value == InstantAt(day, s.times[k]);
    InstantAtDay(day, s.times[k]);
  }

  lemma SomeMeansHit(s: Schedule, now: Instant)
    requires Repeats(s) && NextOf(s, now).Some?
    ensures HitOffset(s, now, 0, Horizon(s.kind)) < Horizon(s.kind)
  {
    hide HitOffset, FirstFrom;
  }

  lemma NextMonotone(s: Schedule, now: Instant, x: Instant)
    requires Good(s) && NextOf(s, now).Some? && NextOf(s, x).Some? && now <= x
    ensures NextOf(s, now).value <= NextOf(s, x).value
  {
    hide Occurs, NextOf;
    NextIsLeast(s, now);
    NextIsLeast(s, x);
  }

  /** The answer of the search asked `k` more times, each time from its own last answer. */
  function Nth(s: Schedule, now: Instant, k: nat): Option<Instant>
    decreases k
  {
    var first := NextOf(s, now);
    if k == 0 || first.None? then first else Nth(s, first.value, k - 1)
  }

  lemma {:induction false} NthSuccessor(s: Schedule, now: Instant, k: nat)
    requires Nth(s, now, k).Some?
    ensures Nth(s, now, k + 1) == NextOf(s, Nth(s, now, k).value)
    decreases k
  {
    hide NextOf;
    if k > 0 {
      NthSuccessor(s, NextOf(s, now).value, k - 1);
    }
  }

  /** Consecutive answers are in order with no occurrence between them. */
  lemma NthSkipsNothing(s: Schedule, now: Instant, k: nat, u: Instant)
    requires Good(s) && Nth(s, now, k + 1).Some? && Nth(s, now, k).Some?
    ensures Occurs(s, Nth(s, now, k + 1).value) && Nth(s, now, k).value < Nth(s, now, k + 1).value
    ensures !(Occurs(s, u) && Nth(s, now, k).value < u < Nth(s, now, k + 1).value)
  {
    hide Occurs, NextOf, Nth;
    NthSuccessor(s, now, k);
    NextIsLeast(s, Nth(s, now, k).value);
  }

  /** Every later occurrence is some answer of the iteration, unless a search before it failed. */
  lemma {:induction false} NthReaches(s: Schedule, now: Instant, t: Instant) returns (k: nat)
    requires Good(s) && Occurs(s, t) && now < t
    ensures Nth(s, now, k) == Some(t) || Nth(s, now, k).None?
    ensures Nth(s, now, k).None? && 0 < k ==> Nth(s, now, k - 1).Some? && Nth(s, now, k - 1).value < t
    decreases t - now
  {
    hide Occurs, NextOf;
    if NextOf(s, now).None? {
      return 0;
    }
    NextIsLeast(s, now);
    var first := NextOf(s, now).value;
    if first == t {
      return 0;
    }
    k := NthReaches(s, first, t);
    k := k + 1;
  }

  lemma {:induction false} AcceptedNeverEnds(s: Schedule, now: Instant, k: nat)
    requires Accepted(s)
    ensures Nth(s, now, k).Some?
    decreases k
  {
    hide NextOf, Accepted;
    AcceptedAlwaysFires(s, now);
    if k > 0 {
      AcceptedNeverEnds(s, NextOf(s, now).value, k - 1);
    }
  }

  /** For the rules the builders make, other than February 29, the iteration reaches every later occurrence. */
  lemma AcceptedNthReaches(s: Schedule, now: Instant, t: Instant) returns (k: nat)
    requires Accepted(s) && Occurs(s, t) && now < t
    ensures Nth(s, now, k) == Some(t)
  {
    hide Accepted, Occurs, Nth, NextOf, Good;
    AcceptedAlwaysFires(s, now);
    k := NthReaches(s, now, t);
    AcceptedNeverEnds(s, now, k);
  }

  /** A daily rule with one time steps exactly one day. */
  lemma DailyStep(s: Schedule, day: int)
    requires s.kind.Daily? && |s.times| == 1 && InDay(s.times)
    ensures NextOf(s, InstantAt(day, s.times[0])) == Some(InstantAt(day + 1, s.times[0]))
  {
    SingleTimeStep(s, day, 1);
  }

  /** A weekly rule with one weekday and one time steps exactly seven days. */
  lemma WeeklyStep(s: Schedule, day: int)
    requires s.kind.Weekly? && |s.times| == 1 && InDay(s.times)
    requires s.days == [Weekday(day)]
    ensures NextOf(s, InstantAt(day, s.times[0])) == Some(InstantAt(day + 7, s.times[0]))
  {
    assert forall d :: day < d < day + 7 ==> Weekday(d) != Weekday(day);
    SingleTimeStep(s, day, 7);
  }

  /** With one time a day, the next firing after a firing is at the next matching day. */
  lemma SingleTimeStep(s: Schedule, day: int, step: int)
    requires Repeats(s) && |s.times| == 1 && InDay(s.times)
    requires 0 < step < Horizon(s.kind) && DayMatches(s, day + step)
    requires forall d :: day < d < day + step ==> !DayMatches(s, d)
    ensures NextOf(s, InstantAt(day, s.times[0])) == Some(InstantAt(day + step, s.times[0]))
  {
    hide LocalDay, InstantAt, DayMatches;
    var now := InstantAt(day, s.times[0]);
    InstantAtDay(day, s.times[0]);
    LaterDay(now, day + step, s.times[0]);
    forall off | 0 <= off < step
      ensures !Hit(s, now, off)
    {
      FirstFromShape(s.times, 0, day + off, now);
    }
    assert Hit(s, now, step);
  }
}
