/**
 The proleptic Gregorian calendar behind Go's `time` package, in a fixed UTC+8 zone.
 An instant is an integer number of nanoseconds since the Unix epoch, a day is an
 integer with 1970-01-01 as day 0.
 */
module Calendar {

  const NS_PER_SECOND := 1_000_000_000
  const NS_PER_MINUTE := 60_000_000_000
  const NS_PER_DAY := 86_400_000_000_000
  const ZONE_OFFSET := 28_800_000_000_000
  const MINUTES_PER_DAY := 1440

  type Instant = int

  datatype Date = Date(year: int, month: int, day: int)

  predicate Leap(y: int) {
    y % 4 == 0 && (y % 100 != 0 || y % 400 == 0)
  }

  function DaysInYear(y: int): int {
    if Leap(y) then 366 else 365
  }

  function DaysInMonth(y: int, m: int): int {
    if m == 2 then (if Leap(y) then 29 else 28)
    else if m == 4 || m == 6 || m == 9 || m == 11 then 30
    else 31
  }

  predicate ValidDate(d: Date) {
    1 <= d.month <= 12 && 1 <= d.day <= DaysInMonth(d.year, d.month)
  }

  /** Days of the year that precede month `m`. */
  function DaysBefore(y: int, m: int): int {
    var base := if m <= 1 then 0 else if m == 2 then 31 else if m == 3 then 59
                else if m == 4 then 90 else if m == 5 then 120 else if m == 6 then 151
                else if m == 7 then 181 else if m == 8 then 212 else if m == 9 then 243
                else if m == 10 then 273 else if m == 11 then 304 else if m == 12 then 334 else 365;
    if m > 2 && Leap(y) then base + 1 else base
  }

  /** The day number of January 1 of year `y`. */
  function YearStart(y: int): int {
    365 * (y - 1970) + (y - 1) / 4 - (y - 1) / 100 + (y - 1) / 400 - 477
  }

  function DayNumber(d: Date): int {
    YearStart(d.year) + DaysBefore(d.year, d.month) + d.day - 1
  }

  /** The year that contains day `n`, by 400-, 100-, 4- and 1-year cycles. */
  function YearOf(n: int): int {
    var e := n + 719162;
    var r := e % 146097;
    var n100 := if r / 36524 > 3 then 3 else r / 36524;
    var r100 := r - 36524 * n100;
    var r4 := r100 % 1461;
    var n1 := if r4 / 365 > 3 then 3 else r4 / 365;
    400 * (e / 146097) + 100 * n100 + 4 * (r100 / 1461) + n1 + 1
  }

  function MonthOf(y: int, yday: int): int {
    if yday < DaysBefore(y, 2) then 1 else if yday < DaysBefore(y, 3) then 2
    else if yday < DaysBefore(y, 4) then 3 else if yday < DaysBefore(y, 5) then 4
    else if yday < DaysBefore(y, 6) then 5 else if yday < DaysBefore(y, 7) then 6
    else if yday < DaysBefore(y, 8) then 7 else if yday < DaysBefore(y, 9) then 8
    else if yday < DaysBefore(y, 10) then 9 else if yday < DaysBefore(y, 11) then 10
    else if yday < DaysBefore(y, 12) then 11 else 12
  }

  /** The civil date of day `n`. */
  function Civil(n: int): Date {
    var y := YearOf(n);
    var yday := n - YearStart(y);
    var m := MonthOf(y, yday);
    Date(y, m, yday - DaysBefore(y, m) + 1)
  }

  /** The calendar's own rule for "tomorrow", independent of day numbers. */
  function Tomorrow(d: Date): Date {
    if d.day < DaysInMonth(d.year, d.month) then Date(d.year, d.month, d.day + 1)
    else if d.month < 12 then Date(d.year, d.month + 1, 1)
    else Date(d.year + 1, 1, 1)
  }

  /** Sunday is 0, as in Go; 1970-01-01 was a Thursday. */
  function Weekday(n: int): int {
    (n + 4) % 7
  }

  function LocalDay(t: Instant): int {
    (t + ZONE_OFFSET) / NS_PER_DAY
  }

  /** The instant `minute` minutes after local midnight of day `day`. */
  function InstantAt(day: int, minute: int): Instant {
    day * NS_PER_DAY + minute * NS_PER_MINUTE - ZONE_OFFSET
  }

  /** Go's `Unix()`: whole seconds, rounded down. */
  function Unix(t: Instant): int {
    t / NS_PER_SECOND
  }

  // ---------------------------------------------------------------- years

  /** Dividing `y - 1` instead of `y` loses one exactly at the multiples. */
  lemma PredecessorQuotients(y: int)
    ensures y / 4 == (y - 1) / 4 + (if y % 4 == 0 then 1 else 0)
    ensures y / 100 == (y - 1) / 100 + (if y % 100 == 0 then 1 else 0)
    ensures y / 400 == (y - 1) / 400 + (if y % 400 == 0 then 1 else 0)
  {
  }

  lemma CenturyDivisors(y: int)
    ensures y % 100 == 0 ==> y % 4 == 0
    ensures y % 400 == 0 ==> y % 100 == 0
  {
    if y % 100 == 0 {
      MultipleOf4(25 * (y / 100));
      assert y == 4 * (25 * (y / 100));
    }
    if y % 400 == 0 {
      MultipleOf100(4 * (y / 400));
      assert y == 100 * (4 * (y / 400));
    }
  }

  lemma MultipleOf4(k: int)
    ensures 4 * k % 4 == 0
  {
  }

  lemma MultipleOf100(k: int)
    ensures 100 * k % 100 == 0
  {
  }

  lemma YearStartStep(y: int)
    ensures YearStart(y + 1) == YearStart(y) + DaysInYear(y)
  {
    PredecessorQuotients(y);
    CenturyDivisors(y);
  }

  lemma {:induction false} YearStartGrows(y: int, z: int)
    requires y <= z
    ensures YearStart(y) + 365 * (z - y) <= YearStart(z) <= YearStart(y) + 366 * (z - y)
    decreases z - y
  {
    if y < z {
      YearStartGrows(y, z - 1);
      YearStartStep(z - 1);
    }
  }

  lemma CycleQuotients(a: int, b: int, c: int, d: int)
    requires 0 <= b <= 3 && 0 <= c <= 24 && 0 <= d <= 3
    ensures var x := 400 * a + 100 * b + 4 * c + d;
            x / 4 == 100 * a + 25 * b + c && x / 100 == 4 * a + b && x / 400 == a
  {
  }

  lemma CycleYearStart(a: int, b: int, c: int, d: int)
    requires 0 <= b <= 3 && 0 <= c <= 24 && 0 <= d <= 3
    ensures var y := 400 * a + 100 * b + 4 * c + d + 1;
            YearStart(y) == 146097 * a + 36524 * b + 1461 * c + 365 * d - 719162
  {
    CycleQuotients(a, b, c, d);
  }

  lemma CycleLeap(a: int, b: int, c: int, d: int)
    requires 0 <= b <= 3 && 0 <= c <= 24 && 0 <= d <= 3
    requires d == 3 && (c < 24 || b == 3)
    ensures Leap(400 * a + 100 * b + 4 * c + d + 1)
  {
    if c < 24 {
      LeapWithinCentury(4 * a + b, c + 1);
    } else {
      MultipleOf400(a + 1);
    }
  }

  lemma Remainder100(q: int, r: int)
    requires 0 <= r < 100
    ensures (100 * q + r) % 100 == r
  {
  }

  lemma LeapOffCentury(y: int, quarter: int)
    requires y == 4 * quarter && y % 100 != 0
    ensures Leap(y)
  {
    MultipleOf4(quarter);
  }

  lemma LeapWithinCentury(q: int, c: int)
    requires 0 < c < 25
    ensures Leap(100 * q + 4 * c)
  {
    hide Leap;
    Remainder100(q, 4 * c);
    LeapOffCentury(100 * q + 4 * c, 25 * q + c);
  }

  lemma MultipleOf400(q: int)
    ensures Leap(400 * q)
  {
    MultipleOf4(100 * q);
    assert 400 * q == 4 * (100 * q);
  }

  lemma YearOfContains(n: int)
    ensures YearStart(YearOf(n)) <= n < YearStart(YearOf(n)) + DaysInYear(YearOf(n))
  {
    hide YearStart, Leap;
    var e := n + 719162;
    var r := e % 146097;
    var n100 := if r / 36524 > 3 then 3 else r / 36524;
    var r100 := r - 36524 * n100;
    var r4 := r100 % 1461;
    var n1 := if r4 / 365 > 3 then 3 else r4 / 365;
    CycleYearStart(e / 146097, n100, r100 / 1461, n1);
    if n1 == 3 && (r100 / 1461 < 24 || n100 == 3) {
      CycleLeap(e / 146097, n100, r100 / 1461, n1);
    }
  }

  lemma YearOfUnique(n: int, y: int)
    requires YearStart(y) <= n < YearStart(y + 1)
    ensures YearOf(n) == y
  {
    hide YearStart, YearOf;
    var z := YearOf(n);
    YearOfContains(n);
    YearStartStep(z);
    if z < y {
      YearStartGrows(z + 1, y);
    } else if y < z {
      YearStartGrows(y + 1, z);
    }
  }

  // ---------------------------------------------------------------- dates

  lemma MonthOfContains(y: int, yday: int)
    requires 0 <= yday < DaysInYear(y)
    ensures var m := MonthOf(y, yday);
            1 <= m <= 12 && DaysBefore(y, m) <= yday < DaysBefore(y, m) + DaysInMonth(y, m)
  {
  }

  lemma MonthOfUnique(d: Date)
    requires ValidDate(d)
    ensures var yday := DaysBefore(d.year, d.month) + d.day - 1;
            0 <= yday < DaysInYear(d.year) && MonthOf(d.year, yday) == d.month
  {
  }

  /** Every day has a valid date, and the date gives the day back. */
  lemma CivilRoundTrip(n: int)
    ensures ValidDate(Civil(n)) && DayNumber(Civil(n)) == n
  {
    hide YearStart, YearOf, MonthOf, DaysBefore, DaysInMonth;
    YearOfContains(n);
    MonthOfContains(YearOf(n), n - YearStart(YearOf(n)));
  }

  /** Counting on from a date's day of the month counts days, however far it runs over. */
  lemma DayOverflow(n: int, off: int)
    ensures var d := Civil(n); DayNumber(d.(day := d.day + off)) == n + off
  {
    hide YearStart, Civil;
    CivilRoundTrip(n);
  }

  /** Every valid date is the date of exactly its own day. */
  lemma DayNumberRoundTrip(d: Date)
    requires ValidDate(d)
    ensures Civil(DayNumber(d)) == d
  {
    hide YearStart, YearOf, MonthOf, DaysBefore;
    YearStartStep(d.year);
    MonthOfUnique(d);
    YearOfUnique(DayNumber(d), d.year);
  }

  /** Adding one to the day number is the calendar's own "tomorrow". */
  lemma CivilSuccessor(n: int)
    ensures Civil(n + 1) == Tomorrow(Civil(n))
  {
    hide *;
    CivilRoundTrip(n);
    TomorrowIsNextDay(Civil(n));
    DayNumberRoundTrip(Tomorrow(Civil(n)));
  }

  lemma TomorrowIsNextDay(d: Date)
    requires ValidDate(d)
    ensures ValidDate(Tomorrow(d)) && DayNumber(Tomorrow(d)) == DayNumber(d) + 1
  {
    hide YearStart, Leap;
    YearStartStep(d.year);
  }

  // ---------------------------------------------------------------- instants

  /** Where the count of days, the week and the zone are fixed: the epoch, and the Monday January 1, 2024. */
  lemma KnownDates()
    ensures DayNumber(Date(1970, 1, 1)) == 0 && DayNumber(Date(2024, 1, 1)) == 19723
    ensures Weekday(DayNumber(Date(2024, 1, 1))) == 1
    ensures InstantAt(DayNumber(Date(1970, 1, 1)), 8 * 60) == 0
    ensures Unix(1_999_999_999) == 1 && Unix(-1) == -1
  {
  }

  lemma InstantAtDay(day: int, minute: int)
    requires 0 <= minute < MINUTES_PER_DAY
    ensures LocalDay(InstantAt(day, minute)) == day
  {
  }

  lemma LocalDayMonotone(a: Instant, b: Instant)
    requires a <= b
    ensures LocalDay(a) <= LocalDay(b)
  {
  }

  lemma InstantAtWholeSeconds(day: int, minute: int)
    ensures InstantAt(day, minute) % NS_PER_SECOND == 0
    ensures Unix(InstantAt(day, minute)) * NS_PER_SECOND == InstantAt(day, minute)
  {
    assert InstantAt(day, minute) == (day * 86_400 + minute * 60 - 28_800) * NS_PER_SECOND;
  }

  /** For an instant on a whole second, comparing seconds is comparing instants. */
  lemma UnixCompare(t: Instant, now: Instant)
    requires t % NS_PER_SECOND == 0
    ensures Unix(t) <= Unix(now) <==> t <= now
    ensures t > now ==> Unix(t) > Unix(now)
  {
  }
}
