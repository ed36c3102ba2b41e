/**
 Building firing rules from text and printing them (internal/scheduler/builder.go), and
 the relative-delay arithmetic that feeds them (internal/tool/schedule/tool.go).
 */
module Builder {
  import opened Wrappers
  import opened Text
  import opened Calendar
  import opened Schedules

  const NS_PER_HOUR := 3_600_000_000_000
  const TWO_63 := 0x8000_0000_0000_0000
  const TWO_64 := 0x1_0000_0000_0000_0000

  // ------------------------------------------------- reading text

  /** `unicode.IsSpace`. */
  predicate IsSpace(c: char) {
    || '\t' <= c <= '\r' || c == ' ' || c == '\U{0085}' || c == '\U{00A0}' || c == '\U{1680}'
    || '\U{2000}' <= c <= '\U{200A}' || c == '\U{2028}' || c == '\U{2029}' || c == '\U{202F}'
    || c == '\U{205F}' || c == '\U{3000}'
  }

  function TrimSpace(s: string): string {
    if s != "" && IsSpace(s[0]) then TrimSpace(s[1..])
    else if s != "" && IsSpace(s[|s| - 1]) then TrimSpace(s[..|s| - 1])
    else s
  }

  /** The parts before and after the first `sep`, if there is one. */
  function SplitFirst(s: string, sep: char): Option<(string, string)> {
    if s == "" then None
    else if s[0] == sep then Some(("", s[1..]))
    else match SplitFirst(s[1..], sep)
         case None => None
         case Some((a, b)) => Some(([s[0]] + a, b))
  }

  /** `strconv.Atoi` on a 64-bit platform. */
  function Atoi(s: string): Option<int> {
    var negative := s != "" && s[0] == '-';
    var digits := if negative || (s != "" && s[0] == '+') then s[1..] else s;
    if digits == "" || !AllDigits(digits) then None else
      var magnitude: int := DigitsValue(digits);
      var v := if negative then -magnitude else magnitude;
      if -TWO_63 <= v < TWO_63 then Some(v) else None
  }

  function ParseTime(t: string): Result<int> {
    match SplitFirst(TrimSpace(t), ':')
    case None => Failure
    case Some((h, m)) =>
      match (Atoi(h), Atoi(m))
      case (Some(hh), Some(mm)) =>
        if hh < 0 || hh > 23 || mm < 0 || mm > 59 then Failure else Success(hh * 60 + mm)
      case _ => Failure
  }

  /** Go's own test: the date survives being normalised. */
  predicate SurvivesNormalising(d: Date) {
    && 1 <= d.month <= 12 && 1 <= d.day <= 31
    && Civil(DayNumber(d)).month == d.month && Civil(DayNumber(d)).day == d.day
  }

  function ParseMonthDay(s: string): Result<MonthDay> {
    match SplitFirst(TrimSpace(s), '-')
    case None => Failure
    case Some((a, b)) =>
      match (Atoi(a), Atoi(b))
      case (Some(mo), Some(d)) =>
        if SurvivesNormalising(Date(2000, mo, d)) then Success(MonthDay(mo, d)) else Failure
      case _ => Failure
  }

  /** The two letters outside ASCII that lower to an ASCII letter are included. */
  function Lower(s: string): string {
    seq(|s|, i requires 0 <= i < |s| =>
      if 'A' <= s[i] <= 'Z' then s[i] - 'A' + 'a'
      else if s[i] == '\U{0130}' then 'i' else if s[i] == '\U{212A}' then 'k' else s[i])
  }

  function ParseWeekday(s: string): Result<int> {
    var w := Lower(TrimSpace(s));
    if w in ["mon", "monday"] then Success(1)
    else if w in ["tue", "tues", "tuesday"] then Success(2)
    else if w in ["wed", "wednesday"] then Success(3)
    else if w in ["thu", "thur", "thurs", "thursday"] then Success(4)
    else if w in ["fri", "friday"] then Success(5)
    else if w in ["sat", "saturday"] then Success(6)
    else if w in ["sun", "sunday"] then Success(0)
    else Failure
  }

  // ------------------------------------------------- builders

  function NewRelative(delay: int): Result<Schedule> {
    if delay <= 0 then Failure else Success(Schedule(Relative, 0, delay, [], [], [], []))
  }

  function NewDaily(t: string): Result<Schedule> {
    match ParseTime(t)
    case Success(m) => Success(Schedule(Daily, 0, 0, [], [], [], [m]))
    case Failure => Failure
  }

  function NewWeekly(weekday: string, t: string): Result<Schedule> {
    match (ParseWeekday(weekday), ParseTime(t))
    case (Success(d), Success(m)) => Success(Schedule(Weekly, 0, 0, [d], [], [], [m]))
    case _ => Failure
  }

  function NewMonthly(day: int, t: string): Result<Schedule> {
    if day < 1 || day > 31 then Failure else
      match ParseTime(t)
      case Success(m) => Success(Schedule(Monthly, 0, 0, [], [day], [], [m]))
      case Failure => Failure
  }

  function NewYearly(date: string, t: string): Result<Schedule> {
    match (ParseMonthDay(date), ParseTime(t))
    case (Success(md), Success(m)) => Success(Schedule(Yearly, 0, 0, [], [], [md], [m]))
    case _ => Failure
  }

  // ------------------------------------------------- printing

  function Signed(n: int): string {
    if n < 0 then "-" + Decimal(-n) else Decimal(n)
  }

  function Padded(n: int): string {
    if n < 0 then Signed(n) else Padded2(n)
  }

  function FormatMinute(m: int): string {
    Padded(m / 60) + ":" + Padded(m % 60)
  }

  function FormatMonthDay(md: MonthDay): string {
    Padded(md.month) + "-" + Padded(md.day)
  }

  function RoundedSeconds(d: int): int {
    var q, r := d / NS_PER_SECOND, d % NS_PER_SECOND;
    if 2 * r < NS_PER_SECOND || (2 * r == NS_PER_SECOND && q % 2 == 0) then q else q + 1
  }

  function Labelled(n: int, unit: string): string {
    Signed(n) + " " + unit
  }

  function FormatDuration(d: int): string {
    if d % NS_PER_MINUTE != 0 then Labelled(RoundedSeconds(d), "seconds")
    else if d % NS_PER_DAY == 0 then Labelled(d / NS_PER_DAY, "days")
    else if d % NS_PER_HOUR == 0 then Labelled(d / NS_PER_HOUR, "hours")
    else Labelled(d / NS_PER_MINUTE, "minutes")
  }

  /** What a printed duration says: its number times its unit. */
  function ReadDuration(s: string): Option<int> {
    match SplitFirst(s, ' ')
    case None => None
    case Some((n, unit)) =>
      match Atoi(n)
      case None => None
      case Some(v) =>
        if unit == "seconds" then Some(v * NS_PER_SECOND)
        else if unit == "minutes" then Some(v * NS_PER_MINUTE)
        else if unit == "hours" then Some(v * NS_PER_HOUR)
        else if unit == "days" then Some(v * NS_PER_DAY)
        else None
  }

  // ------------------------------------------------- numerals read back

  predicate Plain(s: string) {
    s != "" && AllDigits(s)
  }

  lemma DecimalAtoi(n: nat)
    requires n < TWO_63
    ensures Atoi(Decimal(n)) == Some(n) && Plain(Decimal(n))
  {
    DecimalValue(n);
    assert IsDigit(Decimal(n)[0]);
  }

  lemma PlainHasNo(s: string, c: char)
    requires Plain(s) && !IsDigit(c)
    ensures c !in s
  {
  }

  lemma PaddedAtoi(n: int)
    requires 0 <= n < 100
    ensures Atoi(Padded(n)) == Some(n) && Plain(Padded(n))
  {
    if n < 10 {
      var s := ['0', DigitChar(n)];
      assert s[..1] == ['0'] && DigitsValue(['0']) == 0;
      assert Padded(n) == s;
    } else {
      DecimalAtoi(n);
    }
  }

  lemma {:induction false} SplitAtSeparator(a: string, sep: char, b: string)
    requires sep !in a
    ensures SplitFirst(a + [sep] + b, sep) == Some((a, b))
  {
    var s := a + [sep] + b;
    if a == "" {
      assert s[1..] == b;
    } else {
      SplitAtSeparator(a[1..], sep, b);
      assert s[1..] == a[1..] + [sep] + b;
      assert [a[0]] + a[1..] == a;
    }
  }

  lemma TrimNothing(a: string, sep: char, b: string)
    requires Plain(a) && Plain(b)
    ensures TrimSpace(a + [sep] + b) == a + [sep] + b
  {
    var s := a + [sep] + b;
    assert s[0] == a[0] && s[|s| - 1] == b[|b| - 1];
    assert IsDigit(s[0]) && IsDigit(s[|s| - 1]);
  }

  // ------------------------------------------------- round trips

  // ------------------------------------------------- which texts are accepted

  predicate Blank(s: string) {
    forall i :: 0 <= i < |s| ==> IsSpace(s[i])
  }

  /** No white space at either end. */
  predicate Trimmed(s: string) {
    s != "" ==> !IsSpace(s[0]) && !IsSpace(s[|s| - 1])
  }

  lemma {:induction false} TrimSpaceShape(s: string) returns (a: string, b: string)
    ensures s == a + TrimSpace(s) + b && Blank(a) && Blank(b) && Trimmed(TrimSpace(s))
    decreases |s|
  {
    hide IsSpace;
    a, b := "", "";
    if s != "" && IsSpace(s[0]) {
      a, b := TrimSpaceShape(s[1..]);
      a := [s[0]] + a;
    } else if s != "" && IsSpace(s[|s| - 1]) {
      a, b := TrimSpaceShape(s[..|s| - 1]);
      b := b + [s[|s| - 1]];
    }
  }

  lemma {:induction false} TrimSpaceUnique(a: string, core: string, b: string)
    requires Blank(a) && Blank(b) && Trimmed(core) && core != ""
    ensures TrimSpace(a + core + b) == core
    decreases |a| + |b|
  {
    hide IsSpace;
    var s := a + core + b;
    if a != "" {
      assert s[0] == a[0] && s[1..] == a[1..] + core + b;
      TrimSpaceUnique(a[1..], core, b);
    } else if b != "" {
      assert s[0] == core[0] && s[|s| - 1] == b[|b| - 1] && s[..|s| - 1] == a + core + b[..|b| - 1];
      TrimSpaceUnique(a, core, b[..|b| - 1]);
    } else {
      assert s == core;
    }
  }

  lemma {:induction false} SplitFirstShape(s: string, sep: char)
    requires SplitFirst(s, sep).Some?
    ensures var (a, b) := SplitFirst(s, sep).value; s == a + [sep] + b && sep !in a
  {
    if s[0] != sep {
      SplitFirstShape(s[1..], sep);
    }
  }

  /** `s` is a decimal numeral, with or without a sign, for the 64-bit number `v`. */
  ghost predicate Numeral(s: string, v: int) {
    -TWO_63 <= v < TWO_63
    && exists sign, digits: string :: s == sign + digits && Digits(sign, digits, v)
  }

  predicate Digits(sign: string, digits: string, v: int) {
    && Plain(digits) && sign in ["", "+", "-"]
    && var magnitude: int := DigitsValue(digits); v == if sign == "-" then -magnitude else magnitude
  }

  /** How the sign, if any, is told from the digits. */
  function SignOf(s: string): (sign: string)
    ensures |sign| <= |s|
  {
    if s != "" && (s[0] == '-' || s[0] == '+') then s[..1] else ""
  }

  lemma AtoiSigned(s: string, v: int)
    ensures Atoi(s) == Some(v) <==> -TWO_63 <= v < TWO_63 && Digits(SignOf(s), s[|SignOf(s)|..], v)
  {
    hide DigitsValue;
    if SignOf(s) == "" {
      assert s[0..] == s;
    } else {
      assert SignOf(s) == [s[0]];
    }
  }

  lemma SignUnique(s: string, sign: string, digits: string, v: int)
    requires s == sign + digits && Digits(sign, digits, v)
    ensures sign == SignOf(s) && digits == s[|SignOf(s)|..]
  {
    hide DigitsValue;
    assert IsDigit(digits[0]);
    assert sign != "" ==> s[0] == sign[0] && s[..1] == sign;
    assert sign == "" ==> s[0] == digits[0];
  }

  lemma AtoiIff(s: string, v: int)
    ensures Atoi(s) == Some(v) <==> Numeral(s, v)
  {
    hide DigitsValue, Atoi, Digits, SignOf;
    AtoiSigned(s, v);
    SignSplits(s);
    if Numeral(s, v) {
      var sign, digits: string :| s == sign + digits && Digits(sign, digits, v);
      SignUnique(s, sign, digits, v);
    }
  }

  lemma SignSplits(s: string)
    ensures |SignOf(s)| <= |s| && s == SignOf(s) + s[|SignOf(s)|..]
  {
  }

  /** A numeral is trimmed, and contains neither a colon nor, unless negative, a hyphen. */
  lemma NumeralShape(s: string, v: int)
    requires Numeral(s, v)
    ensures s != "" && Trimmed(s) && ':' !in s && (0 < v ==> '-' !in s)
  {
    hide DigitsValue;
    var sign, digits: string :| s == sign + digits && Digits(sign, digits, v);
    assert IsDigit(digits[|digits| - 1]) && IsDigit(digits[0]);
    assert s[|s| - 1] == digits[|digits| - 1];
    assert sign == "" ==> s[0] == digits[0];
    assert forall c :: c in s ==> c in sign || IsDigit(c);
  }

  /** `t` is two numerals with `sep` between them, white space around them allowed. */
  ghost predicate Pair(t: string, sep: char, x: int, y: int) {
    exists a, s, u, b :: Written(t, sep, a, s, u, b) && Numeral(s, x) && Numeral(u, y)
  }

  predicate Written(t: string, sep: char, a: string, s: string, u: string, b: string) {
    t == a + (s + [sep] + u) + b && Blank(a) && Blank(b) && sep !in s
  }

  /** What splitting and reading a text finds is what is written there. */
  lemma PairIff(t: string, sep: char, x: int, y: int)
    ensures Pair(t, sep, x, y) <==>
            var r := SplitFirst(TrimSpace(t), sep);
            r.Some? && Atoi(r.value.0) == Some(x) && Atoi(r.value.1) == Some(y)
  {
    hide Numeral, Atoi, Blank, Trimmed, TrimSpace, SplitFirst;
    var r := SplitFirst(TrimSpace(t), sep);
    if Pair(t, sep, x, y) {
      var a, s, u, b :| Written(t, sep, a, s, u, b) && Numeral(s, x) && Numeral(u, y);
      NumeralShape(s, x);
      NumeralShape(u, y);
      TrimmedPair(s, sep, u);
      TrimSpaceUnique(a, s + [sep] + u, b);
      SplitAtSeparator(s, sep, u);
      AtoiIff(s, x);
      AtoiIff(u, y);
    }
    if r.Some? && Atoi(r.value.0) == Some(x) && Atoi(r.value.1) == Some(y) {
      var a, b := TrimSpaceShape(t);
      SplitFirstShape(TrimSpace(t), sep);
      AtoiIff(r.value.0, x);
      AtoiIff(r.value.1, y);
      assert Written(t, sep, a, r.value.0, r.value.1, b);
    }
  }

  lemma TrimmedPair(s: string, sep: char, u: string)
    requires s != "" && u != "" && Trimmed(s) && Trimmed(u)
    ensures Trimmed(s + [sep] + u)
  {
    hide IsSpace;
    var t := s + [sep] + u;
    assert t[0] == s[0] && t[|t| - 1] == u[|u| - 1];
  }

  /** Exactly the texts of an hour below 24 and a minute below 60 are times. */
  lemma ParseTimeIff(t: string, x: int)
    ensures ParseTime(t) == Success(x) <==>
            exists h, m :: Pair(t, ':', h, m) && 0 <= h < 24 && 0 <= m < 60 && x == 60 * h + m
  {
    hide Pair, Atoi, TrimSpace, SplitFirst;
    forall h, m
      ensures Pair(t, ':', h, m) <==>
              var r := SplitFirst(TrimSpace(t), ':');
              r.Some? && Atoi(r.value.0) == Some(h) && Atoi(r.value.1) == Some(m)
    {
      PairIff(t, ':', h, m);
    }
    if ParseTime(t) == Success(x) {
      var r := SplitFirst(TrimSpace(t), ':').value;
      assert Pair(t, ':', Atoi(r.0).value, Atoi(r.1).value);
    }
  }

  /** Exactly the texts of a month and a day of a leap year are month-days. */
  lemma ParseMonthDayIff(s: string, md: MonthDay)
    ensures ParseMonthDay(s) == Success(md) <==>
            Pair(s, '-', md.month, md.day) && ValidDate(Date(2000, md.month, md.day))
  {
    hide Pair, Atoi, TrimSpace, SplitFirst, SurvivesNormalising;
    PairIff(s, '-', md.month, md.day);
    SurvivesIff(Date(2000, md.month, md.day));
  }

  /** Samples: an overlong minute is refused; one-digit hours, signs and outer blanks are not. */
  lemma TimeSamples()
    ensures ParseTime("12:75").Failure? && ParseTime(" 8:05 ") == Success(485) && ParseTime("+8:5") == Success(485)
  {
    hide ParseTime, Numeral, Plain;
    Numerals();
    NoColon();
    assert "12:75" == "" + ("12" + [':'] + "75") + "";
    assert " 8:05 " == " " + ("8" + [':'] + "05") + " ";
    assert "+8:5" == "" + ("+8" + [':'] + "5") + "";
    TimeSample("12:75", "", "12", "75", "", 12, 75);
    TimeSample(" 8:05 ", " ", "8", "05", " ", 8, 5);
    TimeSample("+8:5", "", "+8", "5", "", 8, 5);
  }

  lemma NoColon()
    ensures ':' !in "12" && ':' !in "8" && ':' !in "+8" && Blank("") && Blank(" ")
  {
  }

  /** Any text of two numerals is decided by their values. */
  lemma TimeSample(t: string, a: string, s: string, u: string, b: string, h: int, m: int)
    requires t == a + (s + [':'] + u) + b && Blank(a) && Blank(b) && ':' !in s && Numeral(s, h) && Numeral(u, m)
    ensures ParseTime(t) == if 0 <= h < 24 && 0 <= m < 60 then Success(60 * h + m) else Failure
  {
    hide Pair, Atoi, TrimSpace, SplitFirst, Numeral, Blank;
    PairIntro(t, ':', a, s, u, b, h, m);
    PairIff(t, ':', h, m);
  }

  lemma PairIntro(t: string, sep: char, a: string, s: string, u: string, b: string, x: int, y: int)
    requires t == a + (s + [sep] + u) + b && Blank(a) && Blank(b) && sep !in s && Numeral(s, x) && Numeral(u, y)
    ensures Pair(t, sep, x, y)
  {
    hide Numeral, Blank;
    assert Written(t, sep, a, s, u, b);
  }

  lemma Numerals()
    ensures Numeral("8", 8) && Numeral("05", 5) && Numeral("+8", 8) && Numeral("5", 5)
    ensures Numeral("12", 12) && Numeral("75", 75)
  {
    OneDigit('8');
    OneDigit('5');
    OneDigit('0');
    TwoDigits('0', '5');
    TwoDigits('1', '2');
    TwoDigits('7', '5');
    assert "8" == "" + "8" && "05" == "" + "05" && "5" == "" + "5" && "12" == "" + "12" && "75" == "" + "75";
    assert "+8" == "+" + "8";
    assert Digits("", "8", 8) && Digits("", "05", 5) && Digits("+", "8", 8) && Digits("", "5", 5);
    assert Digits("", "12", 12) && Digits("", "75", 75);
  }

  lemma OneDigit(c: char)
    requires IsDigit(c)
    ensures AllDigits([c]) && DigitsValue([c]) == DigitValue(c)
  {
    assert [c][..0] == "";
  }

  lemma TwoDigits(c: char, d: char)
    requires IsDigit(c) && IsDigit(d)
    ensures AllDigits([c, d]) && DigitsValue([c, d]) == 10 * DigitValue(c) + DigitValue(d)
  {
    OneDigit(c);
    assert [c, d][..1] == [c];
  }

  lemma ParseTimeRange(t: string)
    requires ParseTime(t).Success?
    ensures 0 <= ParseTime(t).value < MINUTES_PER_DAY
  {
    hide TrimSpace, SplitFirst, Atoi;
  }

  /** Every minute of the day, printed, parses back to itself. */
  lemma TimeRoundTrip(m: int)
    requires 0 <= m < MINUTES_PER_DAY
    ensures ParseTime(FormatMinute(m)) == Success(m)
  {
    hide ParseTime, Padded;
    PrintedTime(m / 60, m % 60);
  }

  lemma PrintedTime(h: int, m: int)
    requires 0 <= h < 24 && 0 <= m < 60
    ensures ParseTime(Padded(h) + ":" + Padded(m)) == Success(h * 60 + m)
  {
    hide Atoi, Padded, TrimSpace, SplitFirst, Plain;
    PaddedAtoi(h);
    PaddedAtoi(m);
    PlainHasNo(Padded(h), ':');
    TrimNothing(Padded(h), ':', Padded(m));
    SplitAtSeparator(Padded(h), ':', Padded(m));
  }

  /** Printed times and dates are two digits, a sign and two digits. */
  lemma PrintedShape(m: int, md: MonthDay)
    ensures 0 <= m < MINUTES_PER_DAY ==> |FormatMinute(m)| == 5 && FormatMinute(m)[2] == ':'
    ensures ValidDate(Date(2000, md.month, md.day)) ==> |FormatMonthDay(md)| == 5 && FormatMonthDay(md)[2] == '-'
  {
    PaddedLength(m / 60);
    PaddedLength(m % 60);
    PaddedLength(md.month);
    PaddedLength(md.day);
    hide Padded;
  }

  lemma PaddedLength(n: int)
    ensures 0 <= n < 100 ==> |Padded(n)| == 2
  {
    if 10 <= n < 100 {
      assert Decimal(n) == Decimal(n / 10) + [DigitChar(n % 10)];
    }
  }

  /** Whatever time text was accepted, its printed form stands for the same time. */
  lemma AcceptedTimeRoundTrip(t: string)
    requires ParseTime(t).Success?
    ensures ParseTime(FormatMinute(ParseTime(t).value)) == ParseTime(t)
  {
    hide FormatMinute, ParseTime;
    ParseTimeRange(t);
    TimeRoundTrip(ParseTime(t).value);
  }

  /** Surviving normalisation is being a date of the calendar. */
  lemma SurvivesIff(d: Date)
    ensures SurvivesNormalising(d) <==> ValidDate(d)
  {
    if ValidDate(d) {
      DayNumberRoundTrip(d);
    } else if 1 <= d.month <= 12 && 1 <= d.day <= 31 {
      hide Civil, DayNumber;
      var spill := NextMonth(d).(day := d.day - DaysInMonth(d.year, d.month));
      SpillsOver(d);
      DayNumberRoundTrip(spill);
    }
  }

  lemma SpillsOver(d: Date)
    requires 1 <= d.month <= 12 && DaysInMonth(d.year, d.month) < d.day <= 31
    ensures var spill := NextMonth(d).(day := d.day - DaysInMonth(d.year, d.month));
            ValidDate(spill) && DayNumber(spill) == DayNumber(d)
  {
    hide YearStart;
    YearStartStep(d.year);
  }

  lemma ParsedMonthDay(s: string)
    ensures ParseMonthDay(s).Success? ==>
              var md := ParseMonthDay(s).value; ValidDate(Date(2000, md.month, md.day))
  {
    hide TrimSpace, SplitFirst, Atoi, SurvivesNormalising;
    if ParseMonthDay(s).Success? {
      var md := ParseMonthDay(s).value;
      SurvivesIff(Date(2000, md.month, md.day));
    }
  }

  /** Every accepted month-day, printed, parses back to itself. */
  lemma MonthDayRoundTrip(s: string)
    ensures ParseMonthDay(s).Success? ==> ParseMonthDay(FormatMonthDay(ParseMonthDay(s).value)) == ParseMonthDay(s)
  {
    hide TrimSpace, ParseMonthDay;
    if ParseMonthDay(s).Success? {
      ParsedMonthDay(s);
      PrintedMonthDay(ParseMonthDay(s).value);
    }
  }

  lemma PrintedMonthDay(md: MonthDay)
    requires ValidDate(Date(2000, md.month, md.day))
    ensures ParseMonthDay(FormatMonthDay(md)) == Success(md)
  {
    SurvivesIff(Date(2000, md.month, md.day));
    hide Atoi, Padded, TrimSpace, SurvivesNormalising, SplitFirst, Plain;
    PaddedAtoi(md.month);
    PaddedAtoi(md.day);
    PlainHasNo(Padded(md.month), '-');
    TrimNothing(Padded(md.month), '-', Padded(md.day));
    SplitAtSeparator(Padded(md.month), '-', Padded(md.day));
  }

  /** The duration rounded to whole seconds; the other units divide it exactly. */
  function PrintedValue(d: int): int {
    if d % NS_PER_MINUTE != 0 then RoundedSeconds(d) * NS_PER_SECOND else d
  }

  /** A printed duration says exactly the duration, provided it is a whole number of seconds. */
  lemma DurationRoundTripIff(d: int)
    requires 0 < d < TWO_63
    ensures ReadDuration(FormatDuration(d)) == Some(d) <==> d % NS_PER_SECOND == 0
  {
    RoundedExactlyIff(d);
    hide FormatDuration, ReadDuration;
    PrintedReads(d);
  }

  /** No printed number of seconds stands for a broken duration, however it was rounded. */
  lemma NoSecondsReadBack(d: int, n: nat)
    requires d % NS_PER_SECOND != 0 && n < TWO_63
    ensures ReadDuration(Labelled(n, "seconds")).Some? && ReadDuration(Labelled(n, "seconds")) != Some(d)
  {
    hide ReadDuration, Labelled;
    ReadBack(n);
    assert n * NS_PER_SECOND % NS_PER_SECOND == 0;
  }

  lemma PrintedReads(d: int)
    requires 0 < d < TWO_63
    ensures ReadDuration(FormatDuration(d)) == Some(PrintedValue(d))
  {
    RoundedBounds(d);
    Quotients(d);
    hide ReadDuration, Labelled, RoundedSeconds;
    if d % NS_PER_MINUTE != 0 {
      ReadBack(RoundedSeconds(d));
    } else if d % NS_PER_DAY == 0 {
      ReadBack(d / NS_PER_DAY);
    } else if d % NS_PER_HOUR == 0 {
      ReadBack(d / NS_PER_HOUR);
    } else {
      ReadBack(d / NS_PER_MINUTE);
    }
  }

  lemma Quotients(d: int)
    requires 0 < d
    ensures 0 <= d / NS_PER_DAY <= d && (d % NS_PER_DAY == 0 ==> d / NS_PER_DAY * NS_PER_DAY == d)
    ensures 0 <= d / NS_PER_HOUR <= d && (d % NS_PER_HOUR == 0 ==> d / NS_PER_HOUR * NS_PER_HOUR == d)
    ensures 0 <= d / NS_PER_MINUTE <= d && (d % NS_PER_MINUTE == 0 ==> d / NS_PER_MINUTE * NS_PER_MINUTE == d)
  {
  }

  lemma RoundedBounds(d: int)
    requires 0 < d < TWO_63
    ensures 0 <= RoundedSeconds(d) < TWO_63
  {
  }

  lemma RoundedExactlyIff(d: int)
    ensures PrintedValue(d) == d <==> d % NS_PER_SECOND == 0
  {
    if d % NS_PER_MINUTE == 0 {
      assert d == 60 * (d / NS_PER_MINUTE) * NS_PER_SECOND;
    }
  }

  lemma ReadBack(n: nat)
    requires n < TWO_63
    ensures ReadDuration(Labelled(n, "seconds")) == Some(n * NS_PER_SECOND)
    ensures ReadDuration(Labelled(n, "minutes")) == Some(n * NS_PER_MINUTE)
    ensures ReadDuration(Labelled(n, "hours")) == Some(n * NS_PER_HOUR)
    ensures ReadDuration(Labelled(n, "days")) == Some(n * NS_PER_DAY)
  {
    hide SplitFirst, Atoi, Labelled;
    PrintedDuration(n, "seconds");
    PrintedDuration(n, "minutes");
    PrintedDuration(n, "hours");
    PrintedDuration(n, "days");
  }

  lemma PrintedDuration(n: nat, unit: string)
    requires n < TWO_63
    ensures SplitFirst(Labelled(n, unit), ' ') == Some((Decimal(n), unit)) && Atoi(Decimal(n)) == Some(n)
  {
    DecimalAtoi(n);
    hide Decimal, Atoi;
    SplitAtSeparator(Decimal(n), ' ', unit);
  }

  // ------------------------------------------------- what the builders accept always fires

  lemma DailyAlwaysFires(t: string, now: Instant)
    requires NewDaily(t).Success?
    ensures Good(NewDaily(t).value) && NextOf(NewDaily(t).value, now).Some?
  {
    hide ParseTime, NextOf;
    ParseTimeRange(t);
    DailySucceeds(NewDaily(t).value, now);
  }

  lemma WeeklyAlwaysFires(weekday: string, t: string, now: Instant)
    requires NewWeekly(weekday, t).Success?
    ensures Good(NewWeekly(weekday, t).value) && NextOf(NewWeekly(weekday, t).value, now).Some?
  {
    hide ParseTime, NextOf, Lower, TrimSpace;
    ParseTimeRange(t);
    WeeklySucceeds(NewWeekly(weekday, t).value, now, ParseWeekday(weekday).value);
  }

  lemma MonthlyAlwaysFires(day: int, t: string, now: Instant)
    requires NewMonthly(day, t).Success?
    ensures Good(NewMonthly(day, t).value) && NextOf(NewMonthly(day, t).value, now).Some?
  {
    hide ParseTime, NextOf;
    ParseTimeRange(t);
    MonthlySucceeds(NewMonthly(day, t).value, now, day);
  }

  /** A yearly rule fires again from every instant, except in the gap before a delayed February 29. */
  lemma YearlyFiresIff(date: string, t: string, now: Instant)
    ensures NewYearly(date, t).Success? ==>
              var s := NewYearly(date, t).value;
              Good(s) && (NextOf(s, now).Some? <==> !(LeapDayRule(s) && LeapGap(s, now)))
  {
    hide ParseTime, ParseMonthDay, NextOf, LeapGap;
    if NewYearly(date, t).Failure? {
      return;
    }
    ParseTimeRange(t);
    ParsedMonthDay(date);
    var s := NewYearly(date, t).value;
    var md := ParseMonthDay(date).value;
    if md == MonthDay(2, 29) {
      LeapSearchFailsIff(s, now);
    } else {
      assert ValidDate(Date(2001, md.month, md.day));
      YearlySucceeds(s, now, md);
    }
  }

  // ------------------------------------------------- what accepted rules mean

  lemma OneTimeOccurs(s: Schedule, m: int, u: Instant)
    requires s.times == [m] && 0 <= m < MINUTES_PER_DAY
    ensures Occurs(s, u) <==> DayMatches(s, LocalDay(u)) && u == InstantAt(LocalDay(u), m)
  {
    hide DayMatches, LocalDay, InstantAt, MinuteOfDay;
    OccursAt(s, LocalDay(u), m);
  }

  /** A daily rule is accepted with its time, and occurs every day at that minute and never else. */
  lemma DailyMeans(t: string, u: Instant)
    ensures NewDaily(t).Success? <==> ParseTime(t).Success?
    ensures NewDaily(t).Success? ==>
              (Occurs(NewDaily(t).value, u) <==> u == InstantAt(LocalDay(u), ParseTime(t).value))
  {
    hide ParseTime, Occurs, LocalDay, InstantAt;
    if NewDaily(t).Success? {
      ParseTimeRange(t);
      OneTimeOccurs(NewDaily(t).value, ParseTime(t).value, u);
    }
  }

  /** The date in the week of Monday, January 1, 2024 that an English name of a weekday stands for. */
  function NamedDay(name: string): Option<Date> {
    if name in ["mon", "monday"] then Some(Date(2024, 1, 1))
    else if name in ["tue", "tues", "tuesday"] then Some(Date(2024, 1, 2))
    else if name in ["wed", "wednesday"] then Some(Date(2024, 1, 3))
    else if name in ["thu", "thur", "thurs", "thursday"] then Some(Date(2024, 1, 4))
    else if name in ["fri", "friday"] then Some(Date(2024, 1, 5))
    else if name in ["sat", "saturday"] then Some(Date(2024, 1, 6))
    else if name in ["sun", "sunday"] then Some(Date(2024, 1, 7))
    else None
  }

  /**
   A weekly rule is accepted with its time and a name of a weekday, in any case and with
   blanks around it, and occurs exactly at that minute of the days that lie whole weeks
   from the day so named.
   */
  lemma WeeklyMeans(weekday: string, t: string, u: Instant)
    ensures var named := NamedDay(Lower(TrimSpace(weekday)));
            && (NewWeekly(weekday, t).Success? <==> named.Some? && ParseTime(t).Success?)
            && (NewWeekly(weekday, t).Success? ==>
                  (Occurs(NewWeekly(weekday, t).value, u) <==>
                   (LocalDay(u) - DayNumber(named.value)) % 7 == 0
                   && u == InstantAt(LocalDay(u), ParseTime(t).value)))
  {
    hide ParseTime, Occurs, LocalDay, InstantAt, Lower, TrimSpace, NamedDay, ParseWeekday;
    ParseWeekdayNamed(weekday);
    if NewWeekly(weekday, t).Success? {
      ParseTimeRange(t);
      OneTimeOccurs(NewWeekly(weekday, t).value, ParseTime(t).value, u);
      WholeWeeks(LocalDay(u), DayNumber(NamedDay(Lower(TrimSpace(weekday))).value));
    }
  }

  lemma ParseWeekdayNamed(weekday: string)
    ensures var r, named := ParseWeekday(weekday), NamedDay(Lower(TrimSpace(weekday)));
            (r.Success? <==> named.Some?) && (r.Success? ==> r.value == Weekday(DayNumber(named.value)))
  {
    hide Lower, TrimSpace;
  }

  lemma WholeWeeks(a: int, b: int)
    ensures Weekday(a) == Weekday(b) <==> (a - b) % 7 == 0
  {
  }

  /** A monthly rule is accepted with its time and a day from 1 to 31, and occurs on that day of the month. */
  lemma MonthlyMeans(day: int, t: string, u: Instant)
    ensures NewMonthly(day, t).Success? <==> 1 <= day <= 31 && ParseTime(t).Success?
    ensures NewMonthly(day, t).Success? ==>
              (Occurs(NewMonthly(day, t).value, u) <==>
               Civil(LocalDay(u)).day == day && u == InstantAt(LocalDay(u), ParseTime(t).value))
  {
    hide ParseTime, Occurs, LocalDay, InstantAt, Civil;
    if NewMonthly(day, t).Success? {
      ParseTimeRange(t);
      OneTimeOccurs(NewMonthly(day, t).value, ParseTime(t).value, u);
    }
  }

  /** A yearly rule is accepted with its date and its time, and occurs on that date. */
  lemma YearlyMeans(date: string, t: string, u: Instant)
    ensures NewYearly(date, t).Success? <==> ParseMonthDay(date).Success? && ParseTime(t).Success?
    ensures NewYearly(date, t).Success? ==>
              (Occurs(NewYearly(date, t).value, u) <==>
               Civil(LocalDay(u)).month == ParseMonthDay(date).value.month
               && Civil(LocalDay(u)).day == ParseMonthDay(date).value.day
               && u == InstantAt(LocalDay(u), ParseTime(t).value))
  {
    hide ParseTime, ParseMonthDay, Occurs, LocalDay, InstantAt, Civil;
    if NewYearly(date, t).Success? {
      ParseTimeRange(t);
      OneTimeOccurs(NewYearly(date, t).value, ParseTime(t).value, u);
    }
  }

  /** The rules that the builders make, other than a yearly February 29. */
  ghost predicate Accepted(s: Schedule) {
    || (exists t :: NewDaily(t) == Success(s))
    || (exists weekday, t :: NewWeekly(weekday, t) == Success(s))
    || (exists day, t :: NewMonthly(day, t) == Success(s))
    || (!LeapDayRule(s) && exists date, t :: NewYearly(date, t) == Success(s))
  }

  lemma AcceptedAlwaysFires(s: Schedule, now: Instant)
    requires Accepted(s)
    ensures Good(s) && NextOf(s, now).Some?
  {
    hide NewDaily, NewWeekly, NewMonthly, NewYearly, NextOf, Good, LeapDayRule, LeapGap;
    if t :| NewDaily(t) == Success(s) {
      DailyAlwaysFires(t, now);
    } else if weekday, t :| NewWeekly(weekday, t) == Success(s) {
      WeeklyAlwaysFires(weekday, t, now);
    } else if day, t :| NewMonthly(day, t) == Success(s) {
      MonthlyAlwaysFires(day, t, now);
    } else {
      var date, t :| NewYearly(date, t) == Success(s);
      YearlyFiresIff(date, t, now);
    }
  }

  // ------------------------------------------------- relative delays

  /** 64-bit two's complement. */
  function Wrap64(x: int): int {
    (x + TWO_63) % TWO_64 - TWO_63
  }

  function RelativeTotal(minutes: int, hours: int, days: int): int {
    minutes * NS_PER_MINUTE + hours * NS_PER_HOUR + days * NS_PER_DAY
  }

  /** The sum as the code computes it, every product and sum wrapping. */
  function RelativeDelay(minutes: int, hours: int, days: int): int {
    Wrap64(Wrap64(Wrap64(minutes * NS_PER_MINUTE) + Wrap64(hours * NS_PER_HOUR))
           + Wrap64(Wrap64(days * 24) * NS_PER_HOUR))
  }

  function BuildRelative(minutes: int, hours: int, days: int): Result<Schedule> {
    if minutes == 0 && hours == 0 && days == 0 then Failure
    else if minutes < 0 || hours < 0 || days < 0 then Failure
    else NewRelative(RelativeDelay(minutes, hours, days))
  }

  lemma WrapShift(x: int) returns (k: int)
    ensures Wrap64(x) == x + k * TWO_64 && -TWO_63 <= Wrap64(x) < TWO_63
  {
    k := -((x + TWO_63) / TWO_64);
  }

  lemma WrapUnique(x: int, y: int, k: int)
    requires y == x + k * TWO_64 && -TWO_63 <= y < TWO_63
    ensures Wrap64(x) == y
  {
    var j := WrapShift(x);
    assert (j - k) * TWO_64 == Wrap64(x) - y;
  }

  /** The wrapping arithmetic differs from the true sum by whole multiples of 2^64. */
  lemma RelativeDelayWraps(minutes: int, hours: int, days: int)
    ensures RelativeDelay(minutes, hours, days) == Wrap64(RelativeTotal(minutes, hours, days))
  {
    var a := WrapShift(minutes * NS_PER_MINUTE);
    var b := WrapShift(hours * NS_PER_HOUR);
    var c := WrapShift(days * 24);
    var d := WrapShift(Wrap64(days * 24) * NS_PER_HOUR);
    var e := WrapShift(Wrap64(minutes * NS_PER_MINUTE) + Wrap64(hours * NS_PER_HOUR));
    var f := WrapShift(Wrap64(Wrap64(minutes * NS_PER_MINUTE) + Wrap64(hours * NS_PER_HOUR))
                       + Wrap64(Wrap64(days * 24) * NS_PER_HOUR));
    hide Wrap64;
    WrapUnique(RelativeTotal(minutes, hours, days), RelativeDelay(minutes, hours, days),
               a + b + NS_PER_HOUR * c + d + e + f);
  }

  /**
   A relative task gets exactly the delay that was asked for if and only if the delay
   fits in 63 bits of nanoseconds.
   */
  lemma RelativeExactIff(minutes: int, hours: int, days: int)
    requires 0 <= minutes && 0 <= hours && 0 <= days && (0 < minutes || 0 < hours || 0 < days)
    ensures var r := BuildRelative(minutes, hours, days);
            var total := RelativeTotal(minutes, hours, days);
            r.Success? && r.value.dur == total <==> total < TWO_63
  {
    var total := RelativeTotal(minutes, hours, days);
    RelativeDelayWraps(minutes, hours, days);
    var k := WrapShift(total);
    if total < TWO_63 {
      WrapUnique(total, total, 0);
    }
  }

  /** A relative task is accepted exactly when no part is negative and the wrapped delay is positive. */
  lemma RelativeAcceptedIff(minutes: int, hours: int, days: int)
    ensures var r, wrapped := BuildRelative(minutes, hours, days), Wrap64(RelativeTotal(minutes, hours, days));
            && (r.Success? <==> 0 <= minutes && 0 <= hours && 0 <= days && 0 < wrapped)
            && (r.Success? ==> r.value.kind.Relative? && r.value.dur == wrapped)
  {
    RelativeDelayWraps(minutes, hours, days);
  }

  /** 213504 days wrap round to some 25 minutes, and the task is accepted. */
  lemma OverlongDelayAccepted()
    ensures BuildRelative(0, 0, 213504) == NewRelative(1_526_290_448_384)
    ensures BuildRelative(0, 0, 213504).Success?
  {
    RelativeDelayWraps(0, 0, 213504);
  }
}
