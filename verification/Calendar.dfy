/** Julian day numbers and UTC times: closed forms over integers, and the calendar they stand for. */
module Calendar {

  /** Division and remainder as C computes them, towards zero. */
  function CDiv(a: int, b: int): int
    requires b > 0
  {
    if a >= 0 then a / b else -(-a / b)
  }

  function CMod(a: int, b: int): int
    requires b > 0
  {
    a - CDiv(a, b) * b
  }

  datatype Date = Date(year: int, month: int, day: int)

  // ---- the calendar ----

  predicate IsLeap(year: int) {
    year % 4 == 0 && (year % 100 != 0 || year % 400 == 0)
  }

  function DaysIn(year: int, month: int): int
    requires 1 <= month <= 12
  {
    if month == 2 then (if IsLeap(year) then 29 else 28)
    else if month == 4 || month == 6 || month == 9 || month == 11 then 30
    else 31
  }

  /** The first day for which the closed forms divide no negative number: 1 March of the year -4800. */
  predicate InRange(d: Date) {
    d.year > -4800 || (d.year == -4800 && d.month >= 3)
  }

  predicate Valid(d: Date) {
    InRange(d) && 1 <= d.month <= 12 && 1 <= d.day <= DaysIn(d.year, d.month)
  }

  function NextDay(d: Date): Date
    requires Valid(d)
  {
    if d.day < DaysIn(d.year, d.month) then d.(day := d.day + 1)
    else if d.month < 12 then Date(d.year, d.month + 1, 1)
    else Date(d.year + 1, 1, 1)
  }

  // ---- the closed forms ----

  function JulianDay(d: Date): int {
    var a := CDiv(14 - d.month, 12);
    var y := d.year + 4800 - a;
    var m := d.month + 12 * a - 3;
    d.day + CDiv(153 * m + 2, 5) + y * 365 + CDiv(y, 4) - CDiv(y, 100) + CDiv(y, 400) - 32045
  }

  function FromJulianDay(jdn: int): Date {
    var a := jdn + 32044;
    var b := CDiv(4 * a + 3, 146097);
    var c := a - CDiv(b * 146097, 4);
    var d := CDiv(4 * c + 3, 1461);
    var e := c - CDiv(1461 * d, 4);
    var m := CDiv(5 * e + 2, 153);
    Date(b * 100 + d - 4800 + CDiv(m, 10), m + 3 - 12 * CDiv(m, 10), e - CDiv(153 * m + 2, 5) + 1)
  }

  // ---- years that begin in March ----

  /** A date by the number of its March year, its month from March on and its day; y is 0 for the first year in range. */
  datatype March = March(y: int, m: int, day: int)

  function ToMarch(d: Date): March
    requires 1 <= d.month <= 12
  {
    if d.month >= 3 then March(d.year + 4800, d.month - 3, d.day) else March(d.year + 4799, d.month + 9, d.day)
  }

  function FromMarch(d: March): Date {
    if d.m < 10 then Date(d.y - 4800, d.m + 3, d.day) else Date(d.y - 4799, d.m - 9, d.day)
  }

  /** The days of a March year before its month m. */
  function Before(m: int): int { (153 * m + 2) / 5 }

  predicate LongYear(y: int) { IsLeap(y + 1) }

  predicate ValidMarch(d: March) {
    && d.y >= 0 && 0 <= d.m <= 11 && 1 <= d.day
    && d.day <= if d.m < 11 then Before(d.m + 1) - Before(d.m) else if LongYear(d.y) then 29 else 28
  }

  lemma MarchIsValid(d: Date)
    requires Valid(d)
    ensures ValidMarch(ToMarch(d)) && FromMarch(ToMarch(d)) == d
  {
    var t := ToMarch(d);
    if d.month == 2 {
      LeapShift(d.year);
    } else {
      match t.m
      case 0 => case 1 => case 2 => case 3 => case 4 => case 5 => case 6 => case 7 => case 8 => case 9 => case 10 =>
      case _ =>
    }
  }

  /** 4800 years are a whole number of leap-year cycles. */
  lemma LeapShift(year: int)
    ensures IsLeap(year) == IsLeap(year + 4800)
  {
    Shift4(year);
    Shift100(year);
    Shift400(year);
  }

  lemma Shift4(year: int)
    ensures (year + 4800) % 4 == year % 4
  {
  }

  lemma Shift100(year: int)
    ensures (year + 4800) % 100 == year % 100
  {
  }

  lemma Shift400(year: int)
    ensures (year + 4800) % 400 == year % 400
  {
  }

  /** Days since the first day in range: whole centuries, years of the century, days of the year. */
  function Count(b: int, r: int, e: int): int {
    36524 * b + b / 4 + 365 * r + r / 4 + e
  }

  function DayOfYear(t: March): int { Before(t.m) + t.day - 1 }

  lemma CDivIsDiv(a: int, b: int)
    requires a >= 0 && b > 0
    ensures CDiv(a, b) == a / b
  {
  }

  lemma Leaps(b: int, r: int)
    requires b >= 0 && 0 <= r < 100
    ensures (100 * b + r) / 4 == 25 * b + r / 4
    ensures (100 * b + r) / 100 == b
    ensures (100 * b + r) / 400 == b / 4
  {
    assert b == b / 4 * 4 + b % 4;
  }

  lemma JulianDayCounts(d: Date)
    requires Valid(d)
    ensures var t := ToMarch(d);
            JulianDay(d) + 32044 == Count(t.y / 100, t.y % 100, DayOfYear(t))
  {
    hide IsLeap;
    var t := ToMarch(d);
    MarchIsValid(d);
    var a := CDiv(14 - d.month, 12);
    CDivIsDiv(14 - d.month, 12);
    assert a == if d.month <= 2 then 1 else 0;
    CDivIsDiv(153 * t.m + 2, 5);
    CDivIsDiv(t.y, 4);
    CDivIsDiv(t.y, 100);
    CDivIsDiv(t.y, 400);
    Leaps(t.y / 100, t.y % 100);
  }

  /** The last day of a long year ends a leap cycle of the century, and at the end of a century a cycle of 400 years. */
  lemma LongYears(y: int)
    requires y >= 0 && LongYear(y)
    ensures y % 100 % 4 == 3 && (y % 100 == 99 ==> y / 100 % 4 == 3)
  {
    hide IsLeap;
    var b, r := y / 100, y % 100;
    assert y == 100 * b + r;
    if r == 99 {
      CenturyLeap(b);
      assert y + 1 == 100 * (b + 1);
    } else {
      InnerLeap(b, r);
    }
  }

  predicate InCentury(b: int, r: int, e: int) {
    && b >= 0 && 0 <= r < 100 && 0 <= e <= 365
    && (e == 365 ==> r % 4 == 3 && (r == 99 ==> b % 4 == 3))
  }

  /** The divisions of the inverse find the century, the year and the day again. */
  lemma CountInverse(b: int, r: int, e: int)
    requires InCentury(b, r, e)
    ensures var a := Count(b, r, e);
            && (4 * a + 3) / 146097 == b
            && b * 146097 / 4 == 36524 * b + b / 4
            && (4 * (365 * r + r / 4 + e) + 3) / 1461 == r
            && 1461 * r / 4 == 365 * r + r / 4
  {
    var c := 365 * r + r / 4 + e;
    var a := Count(b, r, e);
    CenturyDays(r, e);
    assert 4 * a + 3 == 146097 * b - b % 4 + 4 * c + 3;
    assert 0 <= 4 * c + 3 - b % 4 < 146097;
    Quotients(4 * a + 3, b, 4 * c + 3 - b % 4);
    assert 4 * c + 3 == 1461 * r - r % 4 + 4 * e + 3;
    assert 0 <= 4 * e + 3 - r % 4 < 1461;
    Quotients(4 * c + 3, r, 4 * e + 3 - r % 4);
  }

  lemma CenturyDays(r: int, e: int)
    requires 0 <= r < 100 && 0 <= e <= 365 && (e == 365 ==> r % 4 == 3)
    ensures 365 * r + r / 4 + e <= 36524 && (365 * r + r / 4 + e == 36524 ==> r == 99 && e == 365)
  {
  }

  lemma Quotients(n: int, q: int, rest: int)
    ensures n == 146097 * q + rest && 0 <= rest < 146097 ==> n / 146097 == q
    ensures n == 1461 * q + rest && 0 <= rest < 1461 ==> n / 1461 == q
  {
  }

  /** The month of a day of the year. */
  lemma MonthInverse(m: int, day: int)
    requires 0 <= m <= 11 && 1 <= day && (m < 11 ==> day <= Before(m + 1) - Before(m)) && (m == 11 ==> day <= 29)
    ensures 0 <= Before(m) + day - 1 <= 365
    ensures (5 * (Before(m) + day - 1) + 2) / 153 == m
  {
    match m
    case 0 => case 1 => case 2 => case 3 => case 4 => case 5 => case 6 => case 7 => case 8 => case 9 => case 10 => case 11 =>
  }

  lemma DayIsInCentury(t: March)
    requires ValidMarch(t)
    ensures InCentury(t.y / 100, t.y % 100, DayOfYear(t))
  {
    hide IsLeap;
    MonthInverse(t.m, t.day);
    if DayOfYear(t) == 365 {
      LastDay(t);
      LongYears(t.y);
    }
  }

  lemma LastDay(t: March)
    requires ValidMarch(t) && DayOfYear(t) == 365
    ensures LongYear(t.y)
  {
    match t.m
    case 0 => case 1 => case 2 => case 3 => case 4 => case 5 => case 6 => case 7 => case 8 => case 9 => case 10 => case 11 =>
  }

  /** The date of a day's number is the day itself. */
  lemma DateOfJulianDay(d: Date)
    requires Valid(d)
    ensures FromJulianDay(JulianDay(d)) == d
  {
    hide IsLeap, JulianDay, FromJulianDay, InCentury, Count, DayOfYear, ValidMarch, Valid;
    MonthOf(d);
    var t := ToMarch(d);
    MarchIsValid(d);
    JulianDayCounts(d);
    DayIsInCentury(t);
    Unpack(t);
  }

  lemma MonthOf(d: Date)
    requires Valid(d)
    ensures 1 <= d.month <= 12
  {
  }

  /** The closed form, run on the count of a day, gives its March date. */
  lemma Unpack(t: March)
    requires ValidMarch(t) && InCentury(t.y / 100, t.y % 100, DayOfYear(t))
    ensures FromJulianDay(Count(t.y / 100, t.y % 100, DayOfYear(t)) - 32044) == FromMarch(t)
  {
    hide LongYear, CDiv, InCentury, Before;
    var b, r, e := t.y / 100, t.y % 100, DayOfYear(t);
    var a := Count(b, r, e);
    CenturyOf(b, r, e);
    YearOf(b, r, e);
    MonthOfDay(t);
    assert t.y == b * 100 + r;
  }

  lemma CenturyOf(b: int, r: int, e: int)
    requires InCentury(b, r, e)
    ensures var a := Count(b, r, e);
            CDiv(4 * a + 3, 146097) == b && a - CDiv(b * 146097, 4) == 365 * r + r / 4 + e
  {
    CountInverse(b, r, e);
    CDivIsDiv(b * 146097, 4);
  }

  lemma YearOf(b: int, r: int, e: int)
    requires InCentury(b, r, e)
    ensures var c := 365 * r + r / 4 + e;
            CDiv(4 * c + 3, 1461) == r && c - CDiv(1461 * r, 4) == e
  {
    CountInverse(b, r, e);
    CDivIsDiv(1461 * r, 4);
  }

  lemma MonthOfDay(t: March)
    requires ValidMarch(t)
    ensures var e := DayOfYear(t);
            && CDiv(5 * e + 2, 153) == t.m
            && e - CDiv(153 * t.m + 2, 5) + 1 == t.day
            && CDiv(t.m, 10) == if t.m < 10 then 0 else 1
  {
    hide LongYear;
    MonthInverse(t.m, t.day);
  }

  // ---- consecutive days, and every day ----

  function NextMarch(t: March): March
    requires ValidMarch(t)
  {
    var last := if t.m < 11 then Before(t.m + 1) - Before(t.m) else if LongYear(t.y) then 29 else 28;
    if t.day < last then t.(day := t.day + 1)
    else if t.m < 11 then March(t.y, t.m + 1, 1)
    else March(t.y + 1, 0, 1)
  }

  lemma NextDayIsNextMarch(d: Date)
    requires Valid(d)
    ensures Valid(NextDay(d)) && ToMarch(NextDay(d)) == NextMarch(ToMarch(d))
  {
    MarchIsValid(d);
    LeapShift(d.year);
    var t := ToMarch(d);
    match t.m
    case 0 => case 1 => case 2 => case 3 => case 4 => case 5 => case 6 => case 7 => case 8 => case 9 => case 10 =>
    case _ =>
  }

  /** A year ends after 365 days, or after 366 if it is long; the next one may begin a century. */
  lemma YearsAreWhole(y: int)
    requires y >= 0
    ensures Count((y + 1) / 100, (y + 1) % 100, 0) == Count(y / 100, y % 100, if LongYear(y) then 366 else 365)
  {
    hide IsLeap;
    var b, r := y / 100, y % 100;
    assert y == 100 * b + r;
    if r < 99 {
      assert (y + 1) / 100 == b && (y + 1) % 100 == r + 1;
      InnerLeap(b, r);
    } else {
      assert (y + 1) / 100 == b + 1 && (y + 1) % 100 == 0;
      CenturyLeap(b);
      assert y + 1 == 100 * (b + 1);
    }
  }

  /** Inside a century every fourth year is a leap year. */
  lemma InnerLeap(b: int, r: int)
    requires 0 <= r < 99
    ensures IsLeap(100 * b + r + 1) <==> (r + 1) % 4 == 0
    ensures (r + 1) / 4 == r / 4 + if (r + 1) % 4 == 0 then 1 else 0
  {
    Remainder4(25 * b, r + 1);
    Remainder100(b, r + 1);
  }

  lemma Remainder4(k: int, x: int)
    ensures (4 * k + x) % 4 == x % 4
  {
  }

  lemma Remainder100(k: int, x: int)
    requires 0 <= x < 100
    ensures (100 * k + x) % 100 == x
  {
  }

  lemma CenturyLeap(b: int)
    requires b >= 0
    ensures IsLeap(100 * (b + 1)) <==> (b + 1) % 4 == 0
    ensures (b + 1) / 4 == b / 4 + if (b + 1) % 4 == 0 then 1 else 0
  {
    var q, x := (b + 1) / 4, (b + 1) % 4;
    assert b + 1 == 4 * q + x;
    Remainder4(25 * (b + 1), 0);
    Remainder100(b + 1, 0);
    Remainder400(q, 100 * x);
  }

  lemma Remainder400(k: int, x: int)
    requires 0 <= x < 400
    ensures (400 * k + x) % 400 == x
  {
  }

  lemma CountStep(b: int, r: int, e: int)
    ensures Count(b, r, e + 1) == Count(b, r, e) + 1
  {
  }

  lemma NextMarchCounts(t: March)
    requires ValidMarch(t)
    ensures var n := NextMarch(t);
            Count(n.y / 100, n.y % 100, DayOfYear(n)) == Count(t.y / 100, t.y % 100, DayOfYear(t)) + 1
  {
    hide LongYear, Count;
    CountStep(t.y / 100, t.y % 100, DayOfYear(t));
    if t.m == 11 {
      YearsAreWhole(t.y);
    }
  }

  /** Consecutive dates have consecutive numbers. */
  lemma NextDayCounts(d: Date)
    requires Valid(d)
    ensures Valid(NextDay(d)) && JulianDay(NextDay(d)) == JulianDay(d) + 1
  {
    hide IsLeap, JulianDay, Count, DayOfYear, ValidMarch, Valid, NextMarch, NextDay;
    MonthOf(d);
    MarchIsValid(d);
    NextDayIsNextMarch(d);
    MonthOf(NextDay(d));
    JulianDayCounts(d);
    JulianDayCounts(NextDay(d));
    NextMarchCounts(ToMarch(d));
  }

  const FIRST: Date := Date(-4800, 3, 1)

  /** Every number from the first day on is the number of a valid date, and the closed form finds it. */
  lemma {:induction false} EveryDayHasADate(jdn: int)
    requires jdn >= -32044
    ensures Valid(FromJulianDay(jdn)) && JulianDay(FromJulianDay(jdn)) == jdn
    decreases jdn + 32044
  {
    if jdn == -32044 {
      assert Valid(FIRST) && JulianDay(FIRST) == -32044;
      DateOfJulianDay(FIRST);
    } else {
      hide Valid, JulianDay, FromJulianDay, NextDay;
      EveryDayHasADate(jdn - 1);
      var d := FromJulianDay(jdn - 1);
      NextDayCounts(d);
      DateOfJulianDay(NextDay(d));
    }
  }

  // ---- UTC times ----

  const SECONDS_PER_DAY: int := 86400

  /** The fields of a broken-down time that fromUtcTime reads. */
  datatype Time = Time(year: int, month: int, day: int, hour: int, minute: int, second: int)

  function EpochDay(): int { JulianDay(Date(1970, 1, 1)) }

  lemma EpochDayIs()
    ensures EpochDay() == 2440588
  {
  }

  function ToUtc(t: int): Time {
    var seconds, days := CMod(t, SECONDS_PER_DAY), CDiv(t, SECONDS_PER_DAY);
    var s, n := if seconds < 0 then seconds + SECONDS_PER_DAY else seconds, if seconds < 0 then days - 1 else days;
    var d := FromJulianDay(n + EpochDay());
    Time(d.year, d.month, d.day, s / 60 / 60, s / 60 % 60, s % 60)
  }

  function FromUtc(u: Time): int {
    var secondsInDay := u.hour * 3600 + u.minute * 60 + u.second;
    (JulianDay(Date(u.year, u.month, u.day)) - EpochDay()) * SECONDS_PER_DAY + secondsInDay
  }

  /** The first second of the first day in range. */
  function FirstSecond(): int { (-32044 - EpochDay()) * SECONDS_PER_DAY }

  /** The adjustment turns division towards zero into division towards minus infinity. */
  lemma FloorDay(t: int)
    ensures var seconds, days := CMod(t, SECONDS_PER_DAY), CDiv(t, SECONDS_PER_DAY);
            && (if seconds < 0 then seconds + SECONDS_PER_DAY else seconds) == t % SECONDS_PER_DAY
            && (if seconds < 0 then days - 1 else days) == t / SECONDS_PER_DAY
  {
  }

  lemma SplitSecond(s: int)
    requires 0 <= s < SECONDS_PER_DAY
    ensures s / 60 / 60 * 3600 + s / 60 % 60 * 60 + s % 60 == s
    ensures 0 <= s / 60 / 60 < 24
  {
  }

  predicate ValidTime(u: Time) {
    Valid(Date(u.year, u.month, u.day)) && 0 <= u.hour < 24 && 0 <= u.minute < 60 && 0 <= u.second < 60
  }

  /** Back and forth, for every second from the first day on, also before 1970; the time in between is a valid one. */
  lemma UtcRoundTrip(t: int)
    requires t >= FirstSecond()
    ensures FromUtc(ToUtc(t)) == t && ValidTime(ToUtc(t))
  {
    hide JulianDay, FromJulianDay, CDiv, CMod;
    FloorDay(t);
    EpochDayIs();
    var n, s := t / SECONDS_PER_DAY, t % SECONDS_PER_DAY;
    assert n + EpochDay() >= -32044;
    EveryDayHasADate(n + EpochDay());
    SplitSecond(s);
  }

  lemma JoinSecond(hour: int, minute: int, second: int)
    requires 0 <= hour < 24 && 0 <= minute < 60 && 0 <= second < 60
    ensures var s := hour * 3600 + minute * 60 + second;
            0 <= s < SECONDS_PER_DAY && s / 60 / 60 == hour && s / 60 % 60 == minute && s % 60 == second
  {
    var s := hour * 3600 + minute * 60 + second;
    assert s / 60 == hour * 60 + minute;
  }

  /** Forth and back: every valid broken-down time is found again. */
  lemma TimeRoundTrip(u: Time)
    requires ValidTime(u)
    ensures ToUtc(FromUtc(u)) == u
  {
    hide JulianDay, FromJulianDay, CDiv, CMod, Valid;
    var d := Date(u.year, u.month, u.day);
    var s := u.hour * 3600 + u.minute * 60 + u.second;
    var n := JulianDay(d) - EpochDay();
    JoinSecond(u.hour, u.minute, u.second);
    var t := FromUtc(u);
    assert t / SECONDS_PER_DAY == n && t % SECONDS_PER_DAY == s by { DayAndSecond(n, s); }
    FloorDay(t);
    DateOfJulianDay(d);
  }

  lemma DayAndSecond(n: int, s: int)
    requires 0 <= s < SECONDS_PER_DAY
    ensures (n * SECONDS_PER_DAY + s) / SECONDS_PER_DAY == n && (n * SECONDS_PER_DAY + s) % SECONDS_PER_DAY == s
  {
  }

  /** The conversion with its local adjustments. */
  method ToUtcTime(secondsSinceEpoch: int) returns (utc: Time)
    ensures utc == ToUtc(secondsSinceEpoch)
    ensures secondsSinceEpoch >= FirstSecond() ==> FromUtc(utc) == secondsSinceEpoch
  {
    hide CMod, CDiv, FromJulianDay, JulianDay, EpochDay, FirstSecond;
    var seconds := CMod(secondsSinceEpoch, SECONDS_PER_DAY);
    var days := CDiv(secondsSinceEpoch, SECONDS_PER_DAY);
    FloorDay(secondsSinceEpoch);
    if seconds < 0 {
      seconds := seconds + SECONDS_PER_DAY;
      days := days - 1;
    }
    var hour, minute, second := FillHMS(seconds);
    JoinSecond(hour, minute, second);
    var d := FromJulianDay(days + EpochDay());
    utc := Time(d.year, d.month, d.day, hour, minute, second);
    if secondsSinceEpoch >= FirstSecond() {
      UtcRoundTrip(secondsSinceEpoch);
    }
  }

  /** The one way to write a number of seconds as minutes and seconds below 60 and hours; a day has 24 of them. */
  method FillHMS(seconds: nat) returns (hour: int, minute: int, second: int)
    ensures hour * 3600 + minute * 60 + second == seconds
    ensures 0 <= second < 60 && 0 <= minute < 60 && 0 <= hour
    ensures seconds < SECONDS_PER_DAY ==> hour < 24
  {
    second := seconds % 60;
    var minutes := seconds / 60;
    minute := minutes % 60;
    hour := minutes / 60;
  }
}
