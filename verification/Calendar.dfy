/** The proleptic Gregorian calendar that wall-clock fields are read in, and instants counted in nanoseconds. */
module Calendar {

  predicate Leap(y: int) {
    y % 4 == 0 && (y % 100 != 0 || y % 400 == 0)
  }

  /** Days from 0001-01-01 to the first of January of year y. */
  function DaysBeforeYear(y: int): int {
    365 * (y - 1) + (y - 1) / 4 - (y - 1) / 100 + (y - 1) / 400
  }

  /** Days from the first of January to the first of month m. */
  function DaysBeforeMonth(y: int, m: int): int
    requires 1 <= m <= 12
  {
    [0, 31, 59, 90, 120, 151, 181, 212, 243, 273, 304, 334][m - 1] + if m > 2 && Leap(y) then 1 else 0
  }

  /** The day number of the first of a month; month 13 is the next January, as in date normalisation. */
  function FirstOf(y: int, m: int): int
    requires 1 <= m <= 13
  {
    if m == 13 then DaysBeforeYear(y + 1) else DaysBeforeYear(y) + DaysBeforeMonth(y, m)
  }

  /** The day of the month before the first of the next one: day 0 of the next month. */
  function DaysInMonth(y: int, m: int): int
    requires 1 <= m <= 12
  {
    FirstOf(y, m + 1) - FirstOf(y, m)
  }

  lemma {:induction false} YearLength(y: int)
    ensures DaysBeforeYear(y + 1) - DaysBeforeYear(y) == if Leap(y) then 366 else 365
  {
    Fours(y);
    Centuries(y);
    FourCenturies(y);
    assert DaysBeforeYear(y + 1) == 365 * y + y / 4 - y / 100 + y / 400;
  }

  lemma {:induction false} Fours(y: int)
    ensures y / 4 - (y - 1) / 4 == if y % 4 == 0 then 1 else 0
  {
  }

  lemma {:induction false} Centuries(y: int)
    ensures y / 100 - (y - 1) / 100 == if y % 100 == 0 then 1 else 0
    ensures y % 100 == 0 ==> y % 4 == 0
  {
    assert y == 4 * (25 * (y / 100)) + y % 100;
  }

  lemma {:induction false} FourCenturies(y: int)
    ensures y / 400 - (y - 1) / 400 == if y % 400 == 0 then 1 else 0
    ensures y % 400 == 0 ==> y % 100 == 0
  {
    assert y == 100 * (4 * (y / 400)) + y % 400;
  }

  /** The lengths of the months are the usual ones. */
  lemma {:induction false} MonthLengths(y: int, m: int)
    requires 1 <= m <= 12
    ensures DaysInMonth(y, m) == if m == 2 then (if Leap(y) then 29 else 28)
                                 else if m == 4 || m == 6 || m == 9 || m == 11 then 30
                                 else 31
  {
    YearLength(y);
  }

  /** A wall-clock reading. */
  datatype Civil = Civil(year: int, month: int, day: int, hour: int, minute: int, second: int, nanosecond: int)

  /** A reading that some clock shows, in any year. */
  predicate ValidCivil(c: Civil) {
    && 1 <= c.month <= 12 && 1 <= c.day <= DaysInMonth(c.year, c.month)
    && 0 <= c.hour <= 23 && 0 <= c.minute <= 59 && 0 <= c.second <= 59 && 0 <= c.nanosecond < 1_000_000_000
  }

  function DayOf(c: Civil): int
    requires ValidCivil(c)
  {
    FirstOf(c.year, c.month) + c.day - 1
  }

  function ClockOf(c: Civil): int {
    ((c.hour * 60 + c.minute) * 60 + c.second) * 1_000_000_000 + c.nanosecond
  }

  const DayNanos: int := 86_400_000_000_000

  /** The reading as nanoseconds since 0001-01-01 00:00: the instant it names at offset zero. */
  function Nanos(c: Civil): int
    requires ValidCivil(c)
  {
    DayOf(c) * DayNanos + ClockOf(c)
  }

  /** Earlier on the wall clock: smaller in the first field that differs. */
  predicate Before(a: Civil, b: Civil) {
    || a.year < b.year
    || (a.year == b.year &&
        (|| a.month < b.month
         || (a.month == b.month && (a.day < b.day || (a.day == b.day && EarlierClock(a, b))))))
  }

  predicate EarlierClock(a: Civil, b: Civil) {
    || a.hour < b.hour
    || (a.hour == b.hour &&
        (|| a.minute < b.minute
         || (a.minute == b.minute &&
             (a.second < b.second || (a.second == b.second && a.nanosecond < b.nanosecond)))))
  }

  lemma {:induction false} YearsGrow(a: int, b: int)
    requires a <= b
    ensures DaysBeforeYear(a) <= DaysBeforeYear(b)
    decreases b - a
  {
    if a < b {
      YearsGrow(a + 1, b);
      YearLength(a);
    }
  }

  lemma {:induction false} MonthsGrow(y: int, a: int, b: int)
    requires 1 <= a < b <= 13
    ensures FirstOf(y, a) + DaysInMonth(y, a) <= FirstOf(y, b)
    decreases b - a
  {
    hide DaysBeforeYear, DaysBeforeMonth, FirstOf;
    if a + 1 < b {
      MonthsGrow(y, a + 1, b);
      PositiveMonth(y, a + 1);
    }
  }

  lemma {:induction false} PositiveMonth(y: int, m: int)
    requires 1 <= m <= 12
    ensures DaysInMonth(y, m) > 0
  {
    hide DaysInMonth;
    MonthLengths(y, m);
  }

  lemma {:induction false} DaysGrow(a: Civil, b: Civil)
    requires ValidCivil(a) && ValidCivil(b)
    requires (a.year, a.month, a.day) != (b.year, b.month, b.day) && Before(a, b)
    ensures DayOf(a) < DayOf(b)
  {
    hide DaysInMonth, DaysBeforeMonth;
    if a.year < b.year {
      MonthsGrow(a.year, a.month, 13);
      YearsGrow(a.year + 1, b.year);
      JanuaryFirst(b.year, b.month);
    } else if a.month < b.month {
      MonthsGrow(a.year, a.month, b.month);
    }
  }

  lemma {:induction false} JanuaryFirst(y: int, m: int)
    requires 1 <= m <= 12
    ensures FirstOf(y, m) >= DaysBeforeYear(y)
  {
  }

  lemma {:induction false} ClockBounds(c: Civil)
    requires ValidCivil(c)
    ensures 0 <= ClockOf(c) < DayNanos
  {
    hide DaysInMonth;
  }

  lemma {:induction false} ClockGrows(a: Civil, b: Civil)
    requires ValidCivil(a) && ValidCivil(b) && EarlierClock(a, b)
    ensures ClockOf(a) < ClockOf(b)
  {
    hide DaysInMonth;
  }

  /** Nanos is strictly increasing in the wall clock. */
  lemma {:induction false} NanosIncrease(a: Civil, b: Civil)
    requires ValidCivil(a) && ValidCivil(b) && Before(a, b)
    ensures Nanos(a) < Nanos(b)
  {
    hide ValidCivil, DayOf, ClockOf, EarlierClock;
    if (a.year, a.month, a.day) == (b.year, b.month, b.day) {
      ClockGrows(a, b);
      SameDay(a, b);
    } else {
      DaysGrow(a, b);
      ClockBounds(a);
      ClockBounds(b);
    }
  }

  lemma {:induction false} SameDay(a: Civil, b: Civil)
    requires ValidCivil(a) && ValidCivil(b) && (a.year, a.month, a.day) == (b.year, b.month, b.day)
    ensures DayOf(a) == DayOf(b)
  {
  }

  /** Two readings agree in every field exactly when they are the same number of nanoseconds. */
  lemma {:induction false} NanosInjective(a: Civil, b: Civil)
    requires ValidCivil(a) && ValidCivil(b) && Nanos(a) == Nanos(b)
    ensures a == b
  {
    hide ValidCivil, Nanos;
    if Before(a, b) {
      NanosIncrease(a, b);
    } else if Before(b, a) {
      NanosIncrease(b, a);
    }
  }

  // ---- what the count counts ----

  /** The usual last day of a month. */
  function LastDay(y: int, m: int): int {
    if m == 4 || m == 6 || m == 9 || m == 11 then 30
    else if m != 2 then 31
    else if y % 4 == 0 && (y % 100 != 0 || y % 400 == 0) then 29
    else 28
  }

  /** Midnight of the next day, over the ends of months and years. */
  function NextMidnight(c: Civil): Civil {
    if c.day < LastDay(c.year, c.month) then Civil(c.year, c.month, c.day + 1, 0, 0, 0, 0)
    else if c.month < 12 then Civil(c.year, c.month + 1, 1, 0, 0, 0, 0)
    else Civil(c.year + 1, 1, 1, 0, 0, 0, 0)
  }

  /** The reading a minute later, as a clock goes on. */
  function NextMinute(c: Civil): Civil {
    if c.minute < 59 then c.(minute := c.minute + 1)
    else if c.hour < 23 then c.(hour := c.hour + 1, minute := 0)
    else NextMidnight(c).(second := c.second, nanosecond := c.nanosecond)
  }

  /** The reading a nanosecond later. */
  function NextNano(c: Civil): Civil {
    if c.nanosecond < 999_999_999 then c.(nanosecond := c.nanosecond + 1)
    else if c.second < 59 then c.(second := c.second + 1, nanosecond := 0)
    else NextMinute(c.(second := 0, nanosecond := 0))
  }

  lemma {:induction false} LastDayIs(y: int, m: int)
    requires 1 <= m <= 12
    ensures DaysInMonth(y, m) == LastDay(y, m)
  {
    hide DaysInMonth;
    MonthLengths(y, m);
  }

  lemma {:induction false} NextDayFollows(c: Civil)
    requires ValidCivil(c)
    ensures ValidCivil(NextMidnight(c)) && DayOf(NextMidnight(c)) == DayOf(c) + 1
  {
    hide DaysBeforeMonth, DaysBeforeYear;
    LastDayIs(c.year, c.month);
    if c.month < 12 {
      LastDayIs(c.year, c.month + 1);
      PositiveMonth(c.year, c.month + 1);
    }
    LastDayIs(c.year + 1, 1);
    PositiveMonth(c.year + 1, 1);
    NewYear(c.year);
  }

  lemma {:induction false} NewYear(y: int)
    ensures FirstOf(y + 1, 1) == FirstOf(y, 13)
  {
  }

  /** On one day, readings are as far apart as their hours, minutes, seconds and nanoseconds. */
  lemma {:induction false} SameDayDistance(a: Civil, b: Civil)
    requires ValidCivil(a) && ValidCivil(b) && (a.year, a.month, a.day) == (b.year, b.month, b.day)
    ensures Nanos(b) - Nanos(a) ==
            3_600_000_000_000 * (b.hour - a.hour) + 60_000_000_000 * (b.minute - a.minute)
            + 1_000_000_000 * (b.second - a.second) + (b.nanosecond - a.nanosecond)
  {
    hide ValidCivil, DayOf;
    SameDay(a, b);
  }

  /** A day is 24 hours: the reading goes on at midnight, over the ends of months and years. */
  lemma {:induction false} MidnightFollows(c: Civil)
    requires ValidCivil(c)
    ensures ValidCivil(NextMidnight(c))
    ensures Nanos(NextMidnight(c)) - Nanos(c) ==
            3_600_000_000_000 * (23 - c.hour) + 60_000_000_000 * (59 - c.minute)
            + 1_000_000_000 * (59 - c.second) + (999_999_999 - c.nanosecond) + 1
  {
    NextDayFollows(c);
    hide ValidCivil, DayOf;
  }

  /** A minute later is 60 seconds more. */
  lemma {:induction false} MinuteFollows(c: Civil)
    requires ValidCivil(c)
    ensures ValidCivil(NextMinute(c)) && Nanos(NextMinute(c)) == Nanos(c) + 60_000_000_000
  {
    hide DaysInMonth, Nanos;
    var n := NextMinute(c);
    if c.minute < 59 || c.hour < 23 {
      SameDayDistance(c, n);
    } else {
      MidnightFollows(c);
      SameDayDistance(NextMidnight(c), n);
    }
  }

  /** A nanosecond later is one more. */
  lemma {:induction false} NanoFollows(c: Civil)
    requires ValidCivil(c)
    ensures ValidCivil(NextNano(c)) && Nanos(NextNano(c)) == Nanos(c) + 1
  {
    hide DaysInMonth, Nanos;
    if c.nanosecond < 999_999_999 || c.second < 59 {
      SameDayDistance(c, NextNano(c));
    } else {
      var start := c.(second := 0, nanosecond := 0);
      SameDayDistance(start, c);
      MinuteFollows(start);
    }
  }

  /** The count begins with year 1, and the Unix epoch is 719162 days later. */
  lemma {:induction false} CountBegins()
    ensures var first, epoch := Civil(1, 1, 1, 0, 0, 0, 0), Civil(1970, 1, 1, 0, 0, 0, 0);
            && ValidCivil(first) && Nanos(first) == 0
            && ValidCivil(epoch) && Nanos(epoch) == 719_162 * 24 * 3_600_000_000_000
  {
    hide DayOf, ClockOf, Nanos;
    FirstDays();
    Midnight(Civil(1, 1, 1, 0, 0, 0, 0), 0);
    Midnight(Civil(1970, 1, 1, 0, 0, 0, 0), 719_162);
  }

  lemma {:induction false} FirstDays()
    ensures ValidCivil(Civil(1, 1, 1, 0, 0, 0, 0)) && DayOf(Civil(1, 1, 1, 0, 0, 0, 0)) == 0
    ensures ValidCivil(Civil(1970, 1, 1, 0, 0, 0, 0)) && DayOf(Civil(1970, 1, 1, 0, 0, 0, 0)) == 719_162
  {
    hide FirstOf, DaysInMonth, DayOf, ValidCivil;
    FirstDayOf(1, 0);
    FirstDayOf(1970, 719_162);
  }

  lemma {:induction false} FirstDayOf(y: int, days: int)
    requires y >= 1 && DaysBeforeYear(y) == days
    ensures var c := Civil(y, 1, 1, 0, 0, 0, 0); ValidCivil(c) && DayOf(c) == days
  {
    hide FirstOf, DaysInMonth, DaysBeforeYear;
    YearBegins(y);
  }

  lemma {:induction false} YearBegins(y: int)
    ensures FirstOf(y, 1) == DaysBeforeYear(y) && DaysInMonth(y, 1) == 31
  {
    hide Leap, DaysBeforeYear;
  }

  lemma {:induction false} Midnight(c: Civil, day: int)
    requires ValidCivil(c) && c.hour == 0 && c.minute == 0 && c.second == 0 && c.nanosecond == 0
    requires DayOf(c) == day
    ensures Nanos(c) == day * (24 * 3_600_000_000_000)
  {
    hide DayOf, ValidCivil;
  }

  /** The reading so many minutes later. */
  function LaterBy(c: Civil, minutes: nat): Civil {
    if minutes == 0 then c else NextMinute(LaterBy(c, minutes - 1))
  }

  lemma {:induction false} LaterCounts(c: Civil, minutes: nat)
    requires ValidCivil(c)
    ensures ValidCivil(LaterBy(c, minutes)) && Nanos(LaterBy(c, minutes)) == Nanos(c) + 60_000_000_000 * minutes
  {
    hide ValidCivil, Nanos, NextMinute;
    if minutes > 0 {
      LaterCounts(c, minutes - 1);
      MinuteFollows(LaterBy(c, minutes - 1));
    }
  }
}
