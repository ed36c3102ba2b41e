/**
 Firing rules and the bounded calendar search `Next` (internal/scheduler/schedule.go).
 */
module Schedules {
  import opened Wrappers
  import opened Calendar

  datatype Kind = Once | Relative | Daily | Weekly | Monthly | Yearly

  datatype MonthDay = MonthDay(month: int, day: int)

  datatype Schedule = Schedule(
    kind: Kind,
    at: Instant,
    dur: int,
    days: seq<int>,
    daysOfMonth: seq<int>,
    dates: seq<MonthDay>,
    times: seq<int>
  )

  predicate Repeats(s: Schedule) {
    s.kind.Daily? || s.kind.Weekly? || s.kind.Monthly? || s.kind.Yearly?
  }

  // ------------------------------------------------- the infinite calendar

  /** Whether the rule selects day `day`, for any day of the infinite calendar. */
  predicate DayMatches(s: Schedule, day: int) {
    match s.kind
    case Daily => true
    case Weekly => Weekday(day) in s.days
    case Monthly => Civil(day).day in s.daysOfMonth
    case Yearly => MonthDay(Civil(day).month, Civil(day).day) in s.dates
    case _ => false
  }

  function MinuteOfDay(t: Instant): int {
    (t + ZONE_OFFSET) % NS_PER_DAY / NS_PER_MINUTE
  }

  /** An instant at which the rule says to fire: a selected day, exactly at a listed minute. */
  predicate Occurs(s: Schedule, t: Instant) {
    DayMatches(s, LocalDay(t)) && MinuteOfDay(t) in s.times && t == InstantAt(LocalDay(t), MinuteOfDay(t))
  }

  /** `t` is the least occurrence strictly after `now`. */
  ghost predicate Least(s: Schedule, now: Instant, t: Instant) {
    Occurs(s, t) && now < t && forall u :: Occurs(s, u) && now < u ==> t <= u
  }

  /** All listed times are minutes of a day. */
  predicate InDay(times: seq<int>) {
    forall i :: 0 <= i < |times| ==> 0 <= times[i] < MINUTES_PER_DAY
  }

  /** Ascending, up to repetitions of a time already listed. */
  predicate Ordered(times: seq<int>) {
    forall i, j :: 0 <= i < j < |times| && times[j] < times[i] ==> times[j] in times[..i]
  }

  predicate Good(s: Schedule) {
    Repeats(s) && InDay(s.times) && Ordered(s.times)
  }

  lemma OccursAt(s: Schedule, day: int, minute: int)
    requires 0 <= minute < MINUTES_PER_DAY
    ensures LocalDay(InstantAt(day, minute)) == day && MinuteOfDay(InstantAt(day, minute)) == minute
    ensures DayMatches(s, day) && minute in s.times ==> Occurs(s, InstantAt(day, minute))
  {
    hide DayMatches;
  }

  // ------------------------------------------------- the search, as a function

  /** The search horizon in days. */
  function Horizon(kind: Kind): int {
    if kind.Monthly? then 370 else if kind.Yearly? then 1500 else 8
  }

  /** First listed time from index `i` on that lies after `now` on day `day`. */
  function FirstFrom(times: seq<int>, i: nat, day: int, now: Instant): Option<Instant>
    decreases |times| - i
  {
    if i >= |times| then None
    else if now < InstantAt(day, times[i]) then Some(InstantAt(day, times[i]))
    else FirstFrom(times, i + 1, day, now)
  }

  /** Whether the day `off` days after the day of `now` yields a firing time. */
  predicate Hit(s: Schedule, now: Instant, off: int) {
    DayMatches(s, LocalDay(now) + off) && FirstFrom(s.times, 0, LocalDay(now) + off, now).Some?
  }

  /** The first offset in [off, horizon) that hits, or `horizon`. */
  function HitOffset(s: Schedule, now: Instant, off: nat, horizon: nat): (r: nat)
    requires off <= horizon
    ensures off <= r <= horizon
    ensures r < horizon ==> Hit(s, now, r)
    ensures forall k :: off <= k < r ==> !Hit(s, now, k)
    decreases horizon - off
  {
    if off == horizon || Hit(s, now, off) then off else HitOffset(s, now, off + 1, horizon)
  }

  function NextOf(s: Schedule, now: Instant): Option<Instant> {
    match s.kind
    case Once => if now < s.at then Some(s.at) else None
    case Relative => Some(now + s.dur)
    case _ =>
      var off := HitOffset(s, now, 0, Horizon(s.kind));
      if off < Horizon(s.kind) then FirstFrom(s.times, 0, LocalDay(now) + off, now) else None
  }

  // ------------------------------------------------- the search, as the code runs it

  method Contains<T(==)>(values: seq<T>, v: T) returns (found: bool)
    ensures found <==> v in values
  {
    for i := 0 to |values|
      invariant v !in values[..i]
    {
      if values[i] == v {
        return true;
      }
    }
    return false;
  }

  method NextAtDay(day: int, times: seq<int>, now: Instant) returns (r: Option<Instant>)
    ensures r == FirstFrom(times, 0, day, now)
  {
    for i := 0 to |times|
      invariant FirstFrom(times, 0, day, now) == FirstFrom(times, i, day, now)
    {
      var m := times[i];
      CivilRoundTrip(day);
      hide Civil, DayNumber;
      var t := InstantAt(DayNumber(Civil(day)), m / 60 * 60 + m % 60);
      if now < t {
        return Some(t);
      }
    }
    return None;
  }

  /** The day filter of one loop iteration of `Next`. */
  method Selected(s: Schedule, day: int) returns (selected: bool)
    requires Repeats(s)
    ensures selected <==> DayMatches(s, day)
  {
    match s.kind {
      case Weekly => selected := Contains(s.days, Weekday(day));
      case Monthly => selected := Contains(s.daysOfMonth, Civil(day).day);
      case Yearly => selected := Contains(s.dates, MonthDay(Civil(day).month, Civil(day).day));
      case _ => selected := true;
    }
  }

  /** What finding or missing a time on one day of the search means for its answer. */
  lemma SearchDay(s: Schedule, now: Instant, off: nat, t: Option<Instant>)
    requires Repeats(s) && off < Horizon(s.kind) && (forall k :: 0 <= k < off ==> !Hit(s, now, k))
    requires t == if DayMatches(s, LocalDay(now) + off) then FirstFrom(s.times, 0, LocalDay(now) + off, now) else None
    ensures t.Some? ==> NextOf(s, now) == t
    ensures t.None? ==> !Hit(s, now, off)
  {
    hide LocalDay, DayMatches, FirstFrom;
    if t.Some? {
      assert Hit(s, now, off);
      assert HitOffset(s, now, 0, Horizon(s.kind)) == off;
    }
  }

  lemma SearchMisses(s: Schedule, now: Instant)
    requires Repeats(s) && forall k :: 0 <= k < Horizon(s.kind) ==> !Hit(s, now, k)
    ensures NextOf(s, now).None?
  {
    hide Hit;
  }

  lemma OneShotAnswer(s: Schedule, now: Instant)
    ensures Horizon(s.kind) > 0 && (Repeats(s) <==> !s.kind.Once? && !s.kind.Relative?)
    ensures s.kind.Once? ==> NextOf(s, now) == if now < s.at then Some(s.at) else None
    ensures s.kind.Relative? ==> NextOf(s, now) == Some(now + s.dur)
  {
  }

  method Next(s: Schedule, now: Instant) returns (r: Option<Instant>)
    ensures r == NextOf(s, now)
    ensures s.kind.Once? ==> (r.Some? <==> now < s.at) && (r.Some? ==> r.value == s.at)
    ensures s.kind.Relative? ==> r.Some? && r.value - now == s.dur
  {
    hide *;
    OneShotAnswer(s, now);
    if s.kind.Once? {
      return if now < s.at then Some(s.at) else None;
    }
    if s.kind.Relative? {
      return Some(now + s.dur);
    }
    var today := Civil(LocalDay(now));
    for off := 0 to Horizon(s.kind)
      invariant forall k :: 0 <= k < off ==> !Hit(s, now, k)
    {
      DayOverflow(LocalDay(now), off);
      // AddDate normalises an overlong day of the month by counting on from the first
      var day := DayNumber(today.(day := today.day + off));
      var selected := Selected(s, day);
      var t := None;
      if selected {
        t := NextAtDay(day, s.times, now);
      }
      SearchDay(s, now, off, t);
      if t.Some? {
        return t;
      }
    }
    SearchMisses(s, now);
    return None;
  }

  // ------------------------------------------------- the search is the minimum

  lemma {:induction false} FirstFromShape(times: seq<int>, i: nat, day: int, now: Instant)
    requires i <= |times|
    ensures FirstFrom(times, i, day, now).None? <==> forall k :: i <= k < |times| ==> InstantAt(day, times[k]) <= now
    ensures FirstFrom(times, i, day, now).Some? ==>
              exists k :: i <= k < |times| && FirstFrom(times, i, day, now).value == InstantAt(day, times[k])
                       && now < InstantAt(day, times[k])
                       && forall j :: i <= j < k ==> InstantAt(day, times[j]) <= now
    decreases |times| - i
  {
    if i < |times| {
      FirstFromShape(times, i + 1, day, now);
    }
  }

  lemma ListedBefore(times: seq<int>, k: int, j: int) returns (i: int)
    requires Ordered(times) && 0 <= k < j < |times| && times[j] < times[k]
    ensures 0 <= i < k && times[i] == times[j]
  {
    i :| 0 <= i < k && times[..k][i] == times[j];
  }

  /** With ordered times, the first listed time after `now` is the earliest one. */
  lemma FirstIsEarliest(times: seq<int>, day: int, now: Instant, minute: int)
    requires Ordered(times) && minute in times && now < InstantAt(day, minute)
    ensures FirstFrom(times, 0, day, now).Some?
    ensures FirstFrom(times, 0, day, now).value <= InstantAt(day, minute)
  {
    hide FirstFrom, Ordered;
    FirstFromShape(times, 0, day, now);
    var j :| 0 <= j < |times| && times[j] == minute;
    var k :| 0 <= k < |times| && FirstFrom(times, 0, day, now).value == InstantAt(day, times[k])
             && forall i :: 0 <= i < k ==> InstantAt(day, times[i]) <= now;
    if k < j && minute < times[k] {
      var i := ListedBefore(times, k, j);
    }
  }

  /** An occurrence after `now` makes its own day a hit. */
  lemma OccurrenceHits(s: Schedule, now: Instant, t: Instant)
    requires Repeats(s) && Occurs(s, t) && now < t
    ensures Hit(s, now, LocalDay(t) - LocalDay(now)) && LocalDay(now) <= LocalDay(t)
  {
    LocalDayMonotone(now, t);
    hide LocalDay, InstantAt, DayMatches, MinuteOfDay;
    var k :| 0 <= k < |s.times| && s.times[k] == MinuteOfDay(t);
    FirstFromShape(s.times, 0, LocalDay(t), now);
  }

  /** The answer, as an instant of the first day that hits. */
  lemma NextShape(s: Schedule, now: Instant)
    requires Repeats(s) && NextOf(s, now).Some?
    ensures var day := LocalDay(now) + HitOffset(s, now, 0, Horizon(s.kind));
            exists k :: 0 <= k < |s.times| && NextOf(s, now).value == InstantAt(day, s.times[k])
                     && now < InstantAt(day, s.times[k]) && DayMatches(s, day)
  {
    hide DayMatches, FirstFrom, LocalDay, InstantAt;
    FirstFromShape(s.times, 0, LocalDay(now) + HitOffset(s, now, 0, Horizon(s.kind)), now);
  }

  lemma NextBeatsOccurrence(s: Schedule, now: Instant, u: Instant)
    requires Good(s) && NextOf(s, now).Some? && Occurs(s, u) && now < u
    ensures NextOf(s, now).value <= u
  {
    hide DayMatches, FirstFrom, LocalDay, InstantAt, MinuteOfDay, Ordered;
    var day := LocalDay(now) + HitOffset(s, now, 0, Horizon(s.kind));
    OccurrenceHits(s, now, u);
    assert day <= LocalDay(u);
    if LocalDay(u) == day {
      FirstIsEarliest(s.times, day, now, MinuteOfDay(u));
    } else {
      NextShape(s, now);
      var k :| 0 <= k < |s.times| && NextOf(s, now).value == InstantAt(day, s.times[k]);
      assert 0 <= s.times[k] < MINUTES_PER_DAY;
      EarlierDay(day, s.times[k], LocalDay(u), MinuteOfDay(u));
    }
  }

  lemma EarlierDay(day: int, minute: int, later: int, minute': int)
    requires day < later && minute < MINUTES_PER_DAY && 0 <= minute'
    ensures InstantAt(day, minute) < InstantAt(later, minute')
  {
  }

  lemma NextOccurs(s: Schedule, now: Instant)
    requires Repeats(s) && InDay(s.times) && NextOf(s, now).Some?
    ensures Occurs(s, NextOf(s, now).value) && now < NextOf(s, now).value
  {
    hide DayMatches, FirstFrom, LocalDay, InstantAt, Occurs, NextOf;
    NextShape(s, now);
    var day := LocalDay(now) + HitOffset(s, now, 0, Horizon(s.kind));
    var k :| 0 <= k < |s.times| && NextOf(s, now).value == InstantAt(day, s.times[k])
             && now < InstantAt(day, s.times[k]);
    OccursAt(s, day, s.times[k]);
  }

  /** The bounded search returns the minimum over the whole infinite calendar. */
  lemma NextIsLeast(s: Schedule, now: Instant)
    requires Good(s) && NextOf(s, now).Some?
    ensures Least(s, now, NextOf(s, now).value)
  {
    hide NextOf, Occurs;
    NextOccurs(s, now);
    forall u | Occurs(s, u) && now < u
      ensures NextOf(s, now).value <= u
    {
      NextBeatsOccurrence(s, now, u);
    }
  }

  /** Any firing time of a repeating rule lies strictly after `now`, on a whole second. */
  lemma NextIsLater(s: Schedule, now: Instant)
    requires Repeats(s) && NextOf(s, now).Some?
    ensures now < NextOf(s, now).value && NextOf(s, now).value % NS_PER_SECOND == 0
  {
    hide NextOf, LocalDay, InstantAt;
    NextShape(s, now);
    var day := LocalDay(now) + HitOffset(s, now, 0, Horizon(s.kind));
    var k :| 0 <= k < |s.times| && NextOf(s, now).value == InstantAt(day, s.times[k])
             && now < InstantAt(day, s.times[k]);
    InstantAtWholeSeconds(day, s.times[k]);
  }

  /** The search succeeds exactly when some occurrence lies inside its horizon. */
  lemma NextSucceedsIff(s: Schedule, now: Instant)
    requires Repeats(s) && InDay(s.times)
    ensures NextOf(s, now).Some? <==>
            exists t :: Occurs(s, t) && now < t && LocalDay(t) < LocalDay(now) + Horizon(s.kind)
  {
    hide DayMatches, FirstFrom, LocalDay, InstantAt, Occurs;
    if NextOf(s, now).Some? {
      NextOccurs(s, now);
      NextShape(s, now);
      var day := LocalDay(now) + HitOffset(s, now, 0, Horizon(s.kind));
      var k :| 0 <= k < |s.times| && NextOf(s, now).value == InstantAt(day, s.times[k]);
      InstantAtDay(day, s.times[k]);
    }
    if t :| Occurs(s, t) && now < t && LocalDay(t) < LocalDay(now) + Horizon(s.kind) {
      OccurrenceHits(s, now, t);
    }
  }

  /**
   For a rule that selects any day at all, ordered times are exactly what the code
   needs: with any other list some `now` gets an answer that is not the earliest.
   */
  lemma OrderIsNecessary(s: Schedule, day: int)
    requires Repeats(s) && InDay(s.times) && DayMatches(s, day)
    ensures (forall now :: NextOf(s, now).Some? ==> Least(s, now, NextOf(s, now).value)) <==> Ordered(s.times)
  {
    hide NextOf, Least;
    if Ordered(s.times) {
      forall now | NextOf(s, now).Some?
        ensures Least(s, now, NextOf(s, now).value)
      {
        NextIsLeast(s, now);
      }
    } else {
      var i, j :| 0 <= i < j < |s.times| && s.times[j] < s.times[i] && s.times[j] !in s.times[..i];
      MisorderedTimes(s, day, i, j);
    }
  }

  lemma MisorderedTimes(s: Schedule, day: int, i: int, j: int)
    requires Repeats(s) && InDay(s.times) && DayMatches(s, day)
    requires 0 <= i < j < |s.times| && s.times[j] < s.times[i] && s.times[j] !in s.times[..i]
    ensures var now := InstantAt(day, s.times[j]) - 1;
            NextOf(s, now).Some? && !Least(s, now, NextOf(s, now).value)
  {
    hide DayMatches, LocalDay, MinuteOfDay, Occurs, FirstFrom, InstantAt;
    var t := InstantAt(day, s.times[j]);
    var now := t - 1;
    OccursAt(s, day, s.times[j]);
    OccurrenceHits(s, now, t);
    LastNanosecond(day, s.times[j]);
    if s.times[j] == 0 {
      forall k | 0 <= k < |s.times|
        ensures InstantAt(day - 1, s.times[k]) <= now
      {
        EarlierDay(day - 1, s.times[k], day, 0);
      }
      FirstFromShape(s.times, 0, day - 1, now);
    }
    assert HitOffset(s, now, 0, Horizon(s.kind)) == day - LocalDay(now);
    SkipsMisordered(s.times, day, i, j);
  }

  lemma SkipsMisordered(times: seq<int>, day: int, i: int, j: int)
    requires 0 <= i < j < |times| && times[j] < times[i] && times[j] !in times[..i]
    ensures FirstFrom(times, 0, day, InstantAt(day, times[j]) - 1).Some?
    ensures FirstFrom(times, 0, day, InstantAt(day, times[j]) - 1).value > InstantAt(day, times[j])
  {
    var now := InstantAt(day, times[j]) - 1;
    FirstFromShape(times, 0, day, now);
    var k :| 0 <= k < |times| && FirstFrom(times, 0, day, now).value == InstantAt(day, times[k])
             && now < InstantAt(day, times[k])
             && forall l :: 0 <= l < k ==> InstantAt(day, times[l]) <= now;
    assert k <= i;
    assert k < i ==> times[..i][k] == times[k];
  }

  /** One nanosecond before a minute of `day` is in `day`, or ends the day before. */
  lemma LastNanosecond(day: int, minute: int)
    requires 0 <= minute < MINUTES_PER_DAY
    ensures LocalDay(InstantAt(day, minute) - 1) == if minute == 0 then day - 1 else day
  {
  }

  // ------------------------------------------------- the horizons suffice

  /** One matching day with a listed time, inside the horizon and after today, is enough. */
  lemma MatchSucceeds(s: Schedule, now: Instant, off: int, minute: int)
    requires Repeats(s) && InDay(s.times) && minute in s.times
    requires 0 < off < Horizon(s.kind) && DayMatches(s, LocalDay(now) + off)
    ensures NextOf(s, now).Some?
  {
    hide DayMatches, InstantAt, Occurs;
    var t := InstantAt(LocalDay(now) + off, minute);
    OccursAt(s, LocalDay(now) + off, minute);
    LaterDay(now, LocalDay(now) + off, minute);
    OccurrenceHits(s, now, t);
  }

  lemma DailySucceeds(s: Schedule, now: Instant)
    requires s.kind.Daily? && InDay(s.times) && s.times != []
    ensures NextOf(s, now).Some?
  {
    MatchSucceeds(s, now, 1, s.times[0]);
  }

  lemma WeeklySucceeds(s: Schedule, now: Instant, weekday: int)
    requires s.kind.Weekly? && InDay(s.times) && s.times != []
    requires weekday in s.days && 0 <= weekday <= 6
    ensures NextOf(s, now).Some?
  {
    var today := Weekday(LocalDay(now));
    var off := if today < weekday then weekday - today else weekday - today + 7;
    assert Weekday(LocalDay(now) + off) == weekday;
    MatchSucceeds(s, now, off, s.times[0]);
  }

  /** The first day of the following month. */
  function NextMonth(d: Date): Date {
    if d.month == 12 then Date(d.year + 1, 1, 1) else Date(d.year, d.month + 1, 1)
  }

  lemma NextMonthGap(d: Date)
    requires ValidDate(d)
    ensures ValidDate(NextMonth(d))
    ensures DayNumber(NextMonth(d)) == DayNumber(d) + DaysInMonth(d.year, d.month) - d.day + 1
  {
    hide YearStart;
    YearStartStep(d.year);
  }

  /** The first date after `d` whose day of the month is `dom`. */
  function FollowingDayOfMonth(d: Date, dom: int): Date {
    var e := NextMonth(d);
    if d.day < dom <= DaysInMonth(d.year, d.month) then d.(day := dom)
    else if dom <= DaysInMonth(e.year, e.month) then e.(day := dom)
    else NextMonth(e).(day := dom)
  }

  lemma FollowingDayOfMonthWithin61(d: Date, dom: int)
    requires ValidDate(d) && 1 <= dom <= 31
    ensures ValidDate(FollowingDayOfMonth(d, dom)) && FollowingDayOfMonth(d, dom).day == dom
    ensures DayNumber(d) < DayNumber(FollowingDayOfMonth(d, dom)) <= DayNumber(d) + 61
  {
    hide YearStart;
    NextMonthGap(d);
    NextMonthGap(NextMonth(d));
  }

  /** Every day of the month from 1 to 31 comes round within 61 days. */
  lemma DayOfMonthWithin61(n: int, dom: int) returns (off: int)
    requires 1 <= dom <= 31
    ensures 0 < off <= 61 && Civil(n + off).day == dom
  {
    hide Civil, DayNumber, FollowingDayOfMonth, ValidDate;
    CivilRoundTrip(n);
    var target := FollowingDayOfMonth(Civil(n), dom);
    FollowingDayOfMonthWithin61(Civil(n), dom);
    DayNumberRoundTrip(target);
    off := DayNumber(target) - n;
  }

  /** The bound is attained in every year: between March 31 and May 31 no day is a 31st. */
  lemma DayOfMonthBoundAttained(y: int, off: int)
    requires 0 < off <= 61
    ensures var n := DayNumber(Date(y, 3, 31));
            Civil(n).day == 31 && (Civil(n + off).day == 31 <==> off == 61)
  {
    hide YearStart, Civil;
    var later := if off <= 30 then Date(y, 4, off) else Date(y, 5, off - 30);
    DayNumberRoundTrip(Date(y, 3, 31));
    DayNumberRoundTrip(later);
    assert DayNumber(later) == DayNumber(Date(y, 3, 31)) + off;
  }

  lemma MonthlySucceeds(s: Schedule, now: Instant, dom: int)
    requires s.kind.Monthly? && InDay(s.times) && s.times != []
    requires dom in s.daysOfMonth && 1 <= dom <= 31
    ensures NextOf(s, now).Some?
  {
    var off := DayOfMonthWithin61(LocalDay(now), dom);
    MatchSucceeds(s, now, off, s.times[0]);
  }

  /** The first date after `d` that falls on month-day `md`. */
  function FollowingMonthDay(d: Date, md: MonthDay): Date {
    var here := Date(d.year, md.month, md.day);
    if d.month < md.month || (d.month == md.month && d.day < md.day) then here else here.(year := d.year + 1)
  }

  lemma SameYearOrder(d: Date, e: Date)
    requires ValidDate(d) && ValidDate(e) && d.year == e.year
    requires d.month < e.month || (d.month == e.month && d.day < e.day)
    ensures DayNumber(d) < DayNumber(e) < DayNumber(d) + 366
  {
    hide YearStart, MonthOf;
    MonthOfUnique(d);
    MonthOfUnique(e);
  }

  lemma Anniversary(d: Date)
    requires ValidDate(Date(2001, d.month, d.day))
    ensures DayNumber(d) + 365 <= DayNumber(d.(year := d.year + 1)) <= DayNumber(d) + 366
  {
    hide YearStart;
    YearStartStep(d.year);
  }

  lemma FollowingMonthDayWithin366(d: Date, md: MonthDay)
    requires ValidDate(d) && ValidDate(Date(2001, md.month, md.day))
    ensures ValidDate(FollowingMonthDay(d, md))
    ensures DayNumber(d) < DayNumber(FollowingMonthDay(d, md)) <= DayNumber(d) + 366
  {
    hide DayNumber;
    var here := Date(d.year, md.month, md.day);
    Anniversary(here);
    if FollowingMonthDay(d, md) == here {
      SameYearOrder(d, here);
    } else if d != here {
      SameYearOrder(here, d);
      NewYearBetween(d, here.(year := d.year + 1));
    }
  }

  lemma NewYearBetween(d: Date, e: Date)
    requires ValidDate(d) && ValidDate(e) && e.year == d.year + 1
    ensures DayNumber(d) < DayNumber(e)
  {
    hide YearStart, MonthOf;
    YearStartStep(d.year);
    MonthOfUnique(d);
    MonthOfUnique(e);
  }

  /** Every date of the year but February 29 comes round within 366 days. */
  lemma DateWithin366(n: int, md: MonthDay) returns (off: int)
    requires ValidDate(Date(2001, md.month, md.day))
    ensures 0 < off <= 366 && MonthDay(Civil(n + off).month, Civil(n + off).day) == md
  {
    hide Civil, DayNumber;
    CivilRoundTrip(n);
    var target := FollowingMonthDay(Civil(n), md);
    FollowingMonthDayWithin366(Civil(n), md);
    DayNumberRoundTrip(target);
    off := DayNumber(target) - n;
  }

  lemma YearlySucceeds(s: Schedule, now: Instant, md: MonthDay)
    requires s.kind.Yearly? && InDay(s.times) && s.times != []
    requires md in s.dates && ValidDate(Date(2001, md.month, md.day))
    ensures NextOf(s, now).Some?
  {
    var off := DateWithin366(LocalDay(now), md);
    MatchSucceeds(s, now, off, s.times[0]);
  }

  // ------------------------------------------------- February 29

  function LeapDay(y: int): int {
    DayNumber(Date(y, 2, 29))
  }

  predicate LeapDayRule(s: Schedule) {
    s.kind.Yearly? && s.dates == [MonthDay(2, 29)] && |s.times| == 1 && InDay(s.times)
  }

  /** The first year from `y` on that is divisible by 100. */
  function CenturyFrom(y: int): int {
    (y + 99) / 100 * 100
  }

  /**
   From the moment the leap day four years before a skipped century year has fired,
   through January 20 of that century year, the next February 29 is at least
   1500 days away.
   */
  predicate LeapGap(s: Schedule, now: Instant)
    requires LeapDayRule(s)
  {
    var c := CenturyFrom(Civil(LocalDay(now)).year);
    c % 400 != 0 && InstantAt(LeapDay(c - 4), s.times[0]) <= now && LocalDay(now) <= DayNumber(Date(c, 1, 20))
  }

  lemma LeapDayMatches(s: Schedule, day: int)
    requires LeapDayRule(s)
    ensures DayMatches(s, day) <==> Leap(Civil(day).year) && day == LeapDay(Civil(day).year)
  {
    hide Civil, Leap, DayNumber;
    CivilRoundTrip(day);
    if Leap(Civil(day).year) {
      DayNumberRoundTrip(Date(Civil(day).year, 2, 29));
    }
  }

  lemma LeapNeedsFour(y: int)
    ensures y % 4 != 0 ==> !Leap(y)
  {
  }

  lemma CommonYears(y: int)
    requires y % 4 == 0
    ensures !Leap(y + 1) && !Leap(y + 2) && !Leap(y + 3)
  {
    hide Leap;
    LeapNeedsFour(y + 1);
    LeapNeedsFour(y + 2);
    LeapNeedsFour(y + 3);
  }

  /** Four years make 1461 days, or 1460 when they start with a skipped century year. */
  lemma FourYears(y: int)
    requires y % 4 == 0
    ensures YearStart(y + 4) == YearStart(y) + (if Leap(y) then 1461 else 1460)
  {
    hide YearStart, Leap;
    CommonYears(y);
    YearStartStep(y);
    YearStartStep(y + 1);
    YearStartStep(y + 2);
    YearStartStep(y + 3);
  }

  /** A multiple of 4 that is not a leap year is a skipped century year, between two leap years. */
  lemma SkippedYear(w: int)
    requires w % 4 == 0 && !Leap(w)
    ensures w % 100 == 0 && w % 400 != 0 && Leap(w - 4) && Leap(w + 4)
  {
    assert (w - 4) % 100 == 96 && (w + 4) % 100 == 4;
  }

  /** Four years on from a leap day, or eight across a skipped century. */
  lemma LeapDayGap(y: int)
    requires Leap(y)
    ensures Leap(y + 4) ==> LeapDay(y + 4) == LeapDay(y) + 1461
    ensures !Leap(y + 4) ==> (y + 4) % 100 == 0 && (y + 4) % 400 != 0 && Leap(y + 8)
    ensures !Leap(y + 4) ==> LeapDay(y + 8) == LeapDay(y) + 2921 == DayNumber(Date(y + 4, 1, 20)) + 1500
  {
    assert y % 4 == 0 && (y + 4) % 4 == 0;
    hide YearStart;
    FourYears(y);
    FourYears(y + 4);
    if !Leap(y + 4) {
      SkippedYear(y + 4);
    }
  }

  lemma LeapDaysGrow(y: int, z: int)
    requires y <= z
    ensures LeapDay(y) + 365 * (z - y) <= LeapDay(z)
  {
    hide YearStart, Leap;
    YearStartGrows(y, z);
  }

  lemma LeapDaySucceeds(s: Schedule, now: Instant, y: int)
    requires LeapDayRule(s) && Leap(y)
    requires now < InstantAt(LeapDay(y), s.times[0]) && LeapDay(y) < LocalDay(now) + 1500
    ensures NextOf(s, now).Some?
  {
    hide Civil, YearStart, DaysBefore, NextOf, LocalDay, InstantAt, Occurs;
    var t := InstantAt(LeapDay(y), s.times[0]);
    LeapDayMatches(s, LeapDay(y));
    DayNumberRoundTrip(Date(y, 2, 29));
    OccursAt(s, LeapDay(y), s.times[0]);
    NextSucceedsIff(s, now);
  }

  /** The year of the leap day a successful search found. */
  lemma LeapDayFound(s: Schedule, now: Instant) returns (y: int)
    requires LeapDayRule(s) && NextOf(s, now).Some?
    ensures Leap(y) && now < InstantAt(LeapDay(y), s.times[0]) && LeapDay(y) < LocalDay(now) + 1500
  {
    hide Civil, LeapDay, NextOf, LocalDay, InstantAt, DayMatches, MinuteOfDay, Leap;
    NextSucceedsIff(s, now);
    var t :| Occurs(s, t) && now < t && LocalDay(t) < LocalDay(now) + 1500;
    y := Civil(LocalDay(t)).year;
    LeapDayMatches(s, LocalDay(t));
  }

  lemma CenturyBounds(y: int)
    ensures var c := CenturyFrom(y);
            c % 100 == 0 && c % 4 == 0 && c - 100 < y <= c && Leap(c - 4) && (c % 400 != 0 ==> !Leap(c))
  {
    var q := (y + 99) / 100;
    var c := CenturyFrom(y);
    assert c == 100 * q && c - 4 == 100 * (q - 1) + 4 * 24;
    LeapWithinCentury(q - 1, 24);
    SkippedCentury(c);
    hide Leap;
    MultipleOf100(q);
    CenturyDivisors(c);
  }

  lemma SkippedCentury(c: int)
    ensures c % 100 == 0 && c % 400 != 0 ==> !Leap(c)
  {
  }

  lemma CenturyUnique(y: int, w: int)
    requires w % 100 == 0 && y <= w < y + 100
    ensures CenturyFrom(y) == w
  {
    assert w == w / 100 * 100;
  }

  /** Past a skipped century year the next leap year is the one four years on. */
  lemma LeapAfterSkip(y: int, c: int)
    requires Leap(y) && !Leap(c) && c % 4 == 0 && c - 4 < y
    ensures c + 4 <= y
  {
    assert y % 4 == 0 && y != c;
    hide Leap;
    assert y == 4 * (y / 4) && c == 4 * (c / 4);
  }

  lemma LeapGapFails(s: Schedule, now: Instant)
    requires LeapDayRule(s)
    ensures LeapGap(s, now) ==> NextOf(s, now).None?
  {
    hide Civil, LeapDay, CenturyFrom, NextOf, LocalDay, DayNumber, Leap;
    var c := CenturyFrom(Civil(LocalDay(now)).year);
    CenturyBounds(Civil(LocalDay(now)).year);
    if LeapGap(s, now) && NextOf(s, now).Some? {
      var y := LeapDayFound(s, now);
      LeapDayGap(c - 4);
      if y <= c - 4 {
        LeapDaysGrow(y, c - 4);
      } else {
        LeapAfterSkip(y, c);
        LeapDaysGrow(c + 4, y);
      }
    }
  }

  lemma LaterDay(now: Instant, day: int, minute: int)
    requires 0 <= minute < MINUTES_PER_DAY
    ensures LocalDay(now) < day ==> now < InstantAt(day, minute)
    ensures day < LocalDay(now) ==> InstantAt(day, minute) <= now
  {
  }

  /** When the last leap day to have fired is known, the next one is within reach unless in the gap. */
  lemma LeapDayAfter(s: Schedule, now: Instant, last: int)
    requires LeapDayRule(s) && !LeapGap(s, now)
    requires Leap(last) && InstantAt(LeapDay(last), s.times[0]) <= now
    requires LocalDay(now) < LeapDay(if Leap(last + 4) then last + 4 else last + 8)
    requires !Leap(last + 4) ==> CenturyFrom(Civil(LocalDay(now)).year) == last + 4
    ensures NextOf(s, now).Some?
  {
    var next := if Leap(last + 4) then last + 4 else last + 8;
    hide Civil, LeapDay, CenturyFrom, NextOf, LocalDay, DayNumber, InstantAt, Leap;
    LeapDayGap(last);
    LaterDay(now, LeapDay(last), s.times[0]);
    LaterDay(now, LeapDay(next), s.times[0]);
    LeapDaySucceeds(s, now, next);
  }

  /** Day bounds of a year `y` of four-year cycle `w - 3 .. w`. */
  lemma CycleBounds(n: int, y: int, w: int)
    requires y == Civil(n).year && w % 4 == 0 && y <= w < y + 4
    ensures LeapDay(w) <= n + 1200 && LeapDay(w - 4) < n && (y < w ==> n < LeapDay(w))
    ensures n < LeapDay(w + 4) && n < LeapDay(w + 8)
  {
    hide YearStart, Civil;
    assert Civil(n).year == YearOf(n) by {
      CivilYear(n);
    }
    hide YearOf;
    YearOfContains(n);
    YearStartStep(y);
    YearStartGrows(y, w);
    YearStartGrows(w - 4, y);
    YearStartGrows(y + 1, w + 4);
    YearStartGrows(y + 1, w + 8);
    if y < w {
      YearStartGrows(y + 1, w);
    }
  }

  lemma CivilYear(n: int)
    ensures Civil(n).year == YearOf(n)
  {
    hide YearOf, MonthOf, YearStart;
  }

  /** The next candidate when `w`, the multiple of 4 ending the four-year cycle, is not a leap year. */
  lemma ReachAcrossSkip(s: Schedule, now: Instant, y: int, w: int)
    requires LeapDayRule(s) && !LeapGap(s, now)
    requires y == Civil(LocalDay(now)).year && w % 4 == 0 && y <= w < y + 4 && !Leap(w)
    ensures NextOf(s, now).Some?
  {
    SkippedYear(w);
    CenturyUnique(y, w);
    hide *;
    CycleBounds(LocalDay(now), y, w);
    LaterDay(now, LeapDay(w - 4), s.times[0]);
    LeapDayAfter(s, now, w - 4);
  }

  /** The next candidate when `w` is a leap year whose leap day has fired already. */
  lemma ReachPastLeapDay(s: Schedule, now: Instant, y: int, w: int)
    requires LeapDayRule(s) && !LeapGap(s, now)
    requires y == Civil(LocalDay(now)).year && w % 4 == 0 && y <= w < y + 4 && Leap(w)
    requires InstantAt(LeapDay(w), s.times[0]) <= now
    ensures NextOf(s, now).Some?
  {
    hide *;
    LeapDayGap(w);
    if !Leap(w + 4) {
      CenturyUnique(y, w + 4);
    }
    CycleBounds(LocalDay(now), y, w);
    LeapDayAfter(s, now, w);
  }

  function MultipleOf4From(y: int): (w: int)
    ensures w % 4 == 0 && y <= w < y + 4
  {
    (y + 3) / 4 * 4
  }

  /** Outside the gap the search reaches the next leap day. */
  lemma LeapSearchReaches(s: Schedule, now: Instant)
    requires LeapDayRule(s) && !LeapGap(s, now)
    ensures NextOf(s, now).Some?
  {
    hide Civil, LeapDay, LocalDay, InstantAt, LeapGap, Leap, MultipleOf4From, NextOf;
    var y := Civil(LocalDay(now)).year;
    var w := MultipleOf4From(y);
    if !Leap(w) {
      ReachAcrossSkip(s, now, y, w);
    } else if now < InstantAt(LeapDay(w), s.times[0]) {
      CycleBounds(LocalDay(now), y, w);
      LeapDaySucceeds(s, now, w);
    } else {
      ReachPastLeapDay(s, now, y, w);
    }
  }

  /**
   The yearly February 29 rule finds its next firing exactly outside the gap before
   a leap day that follows a skipped century year.
   */
  lemma LeapSearchFailsIff(s: Schedule, now: Instant)
    requires LeapDayRule(s)
    ensures NextOf(s, now).None? <==> LeapGap(s, now)
  {
    hide LeapGap, NextOf;
    if LeapGap(s, now) {
      LeapGapFails(s, now);
    } else {
      LeapSearchReaches(s, now);
    }
  }

  /** The gap is real: at the 2096 leap day's own firing time the rule has no next time. */
  lemma LeapGapAfter2096(s: Schedule)
    requires LeapDayRule(s)
    ensures var fired := InstantAt(LeapDay(2096), s.times[0]); Occurs(s, fired) && NextOf(s, fired).None?
  {
    hide Civil, NextOf, Occurs, YearStart;
    var fired := InstantAt(LeapDay(2096), s.times[0]);
    DayNumberRoundTrip(Date(2096, 2, 29));
    LeapDayMatches(s, LeapDay(2096));
    OccursAt(s, LeapDay(2096), s.times[0]);
    FourYears(2096);
    LeapSearchFailsIff(s, fired);
  }
}
