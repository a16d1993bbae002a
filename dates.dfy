/**
 * Calendar dates as the month view reads them from JavaScript's `Date`:
 * the proleptic Gregorian calendar, months numbered 0..11 as `getMonth`
 * returns them, days 1..31 as `getDate` does, weekdays 0 (Sunday) ..
 * 6 (Saturday) as `getDay` does, and the "YYYY-MM-DD" key that
 * `toISOString().split('T')[0]` produces.
 */
module Dates {

  import opened Text

  datatype Date = Date(year: int, month: int, day: int)

  predicate IsLeapYear(y: int)
  {
    y % 4 == 0 && (y % 100 != 0 || y % 400 == 0)
  }

  function DaysInMonth(y: int, m: int): (n: int)
    requires 0 <= m < 12
    ensures 28 <= n <= 31
  {
    if m == 1 then (if IsLeapYear(y) then 29 else 28)
    else if m == 3 || m == 5 || m == 8 || m == 10 then 30
    else 31
  }

  /** A date that exists in the calendar. */
  predicate Valid(d: Date)
  {
    0 <= d.month < 12 && 1 <= d.day <= DaysInMonth(d.year, d.month)
  }

  /** The day after `d`, rolling over the month and the year. */
  function NextDay(d: Date): (r: Date)
    requires Valid(d)
    ensures Valid(r)
  {
    if d.day < DaysInMonth(d.year, d.month) then d.(day := d.day + 1)
    else if d.month < 11 then Date(d.year, d.month + 1, 1)
    else Date(d.year + 1, 0, 1)
  }

  /** The day before `d`, rolling back over the month and the year. */
  function PrevDay(d: Date): (r: Date)
    requires Valid(d)
    ensures Valid(r)
  {
    if d.day > 1 then d.(day := d.day - 1)
    else if d.month > 0 then Date(d.year, d.month - 1, DaysInMonth(d.year, d.month - 1))
    else Date(d.year - 1, 11, 31)
  }

  lemma NextDayUndoesPrevDay(d: Date)
    requires Valid(d)
    ensures NextDay(PrevDay(d)) == d
  {
  }

  /** `d` moved `n` days forward, as `setDate(getDate() + n)` does. */
  function AddDays(d: Date, n: nat): (r: Date)
    requires Valid(d)
    ensures Valid(r)
  {
    if n == 0 then d else NextDay(AddDays(d, n - 1))
  }

  /** `d` moved `n` days back. */
  function SubDays(d: Date, n: nat): (r: Date)
    requires Valid(d)
    ensures Valid(r)
  {
    if n == 0 then d else PrevDay(SubDays(d, n - 1))
  }

  /** Days from 0000-03-01 to the first of March of year `y`: years are
      counted from March so that the leap day closes the year. */
  function MarchYearStart(y: int): (days: int)
  {
    (y / 400) * 146097 + (y % 400) * 365 + (y % 400) / 4 - (y % 400) / 100
  }

  /** Days from the first of March to the first of the month `mp` months later. */
  function MonthOffset(mp: int): (days: int)
  {
    (153 * mp + 2) / 5
  }

  /** The number of days from 1970-01-01 to `d` (negative before it). */
  function DayNumber(d: Date): (n: int)
    requires 0 <= d.month < 12
  {
    var y := if d.month < 2 then d.year - 1 else d.year;
    var mp := if d.month < 2 then d.month + 10 else d.month - 2;
    MarchYearStart(y) + MonthOffset(mp) + d.day - 1 - 719468
  }

  /** `getDay()`: 1970-01-01 was a Thursday. */
  function Weekday(d: Date): (w: int)
    requires 0 <= d.month < 12
    ensures 0 <= w < 7
  {
    (DayNumber(d) + 4) % 7
  }

  /** The anchor of `Weekday`: 1970-01-01 was a Thursday. */
  lemma EpochThursday()
    ensures DayNumber(Date(1970, 0, 1)) == 0
    ensures Weekday(Date(1970, 0, 1)) == 4
  {
  }

  /** A check of the day count far from the anchor: 2025-08-01 was a Friday. */
  lemma AugustFirst2025Friday()
    ensures Weekday(Date(2025, 7, 1)) == 5
  {
  }

  lemma ModSevenShift(a: int, n: int)
    ensures (a + n) % 7 == (a % 7 + n) % 7
  {
    var q := a / 7;
    assert a == 7 * q + a % 7;
    assert a + n == 7 * q + (a % 7 + n);
  }

  lemma BackToSunday(a: int, b: int)
    requires a == b - (b + 4) % 7
    ensures (a + 4) % 7 == 0
  {
    var x := b + 4;
    assert a + 4 == 7 * (x / 7);
  }

  /** Dates `n` days apart are `n` places apart round the week. */
  lemma WeekdayShift(d: Date, e: Date, n: int)
    requires 0 <= d.month < 12 && 0 <= e.month < 12
    requires DayNumber(e) == DayNumber(d) + n
    ensures Weekday(e) == (Weekday(d) + n) % 7
  {
    ModSevenShift(DayNumber(d) + 4, n);
  }

  /** A date as many days before `d` as `d`'s weekday is a Sunday. */
  lemma SundayBefore(d: Date, e: Date)
    requires 0 <= d.month < 12 && 0 <= e.month < 12
    requires DayNumber(e) == DayNumber(d) - Weekday(d)
    ensures Weekday(e) == 0
  {
    BackToSunday(DayNumber(e), DayNumber(d));
  }

  /** Moving `n` days forward moves the weekday `n` places round the week. */
  lemma WeekdayAddDays(d: Date, n: nat)
    requires Valid(d)
    ensures Weekday(AddDays(d, n)) == (Weekday(d) + n) % 7
  {
    DayNumberAddDays(d, n);
    WeekdayShift(d, AddDays(d, n), n);
  }

  /** Moving back by its own weekday lands on a Sunday. */
  lemma SubDaysWeekday(d: Date)
    requires Valid(d)
    ensures Weekday(SubDays(d, Weekday(d))) == 0
  {
    DayNumberSubDays(d, Weekday(d));
    SundayBefore(d, SubDays(d, Weekday(d)));
  }

  /** A March-based year is 366 days long exactly when the February that
      closes it has a leap day. */
  lemma MarchYearLength(y: int)
    ensures MarchYearStart(y + 1) == MarchYearStart(y) + 365 + (if IsLeapYear(y + 1) then 1 else 0)
  {
    if y % 400 == 399 {
      CycleEnd(y);
    } else {
      CycleStep(y);
    }
  }

  /** The last March-based year of a 400-year cycle ends in a leap day. */
  lemma CycleEnd(y: int)
    requires y % 400 == 399
    ensures MarchYearStart(y + 1) == MarchYearStart(y) + 366 && IsLeapYear(y + 1)
  {
    var e := y / 400;
    CycleParts(y, e, 399);
    CycleParts(y + 1, e + 1, 0);
    assert MarchYearStart(y) == e * 146097 + 399 * 365 + 99 - 3;
    assert MarchYearStart(y + 1) == (e + 1) * 146097;
  }

  /** Any other year stays within its cycle. */
  lemma CycleStep(y: int)
    requires y % 400 != 399
    ensures MarchYearStart(y + 1) == MarchYearStart(y) + 365 + (if IsLeapYear(y + 1) then 1 else 0)
  {
    var e, q := y / 400, y % 400;
    CycleParts(y, e, q);
    CycleParts(y + 1, e, q + 1);
    assert MarchYearStart(y + 1) - MarchYearStart(y) == 365 + ((q + 1) / 4 - q / 4) - ((q + 1) / 100 - q / 100);
    assert IsLeapYear(y + 1) <==> (q + 1) % 4 == 0 && (q + 1) % 100 != 0;
    CenturyStep(q);
  }

  /** A year `y` at position `r` of cycle `e`: its quotient and remainders. */
  lemma CycleParts(y: int, e: int, r: int)
    requires 0 <= r < 400 && y == 400 * e + r
    ensures y / 400 == e && y % 400 == r && y % 4 == r % 4 && y % 100 == r % 100
  {
    Div400(y, e, r);
    Mod4(y, 100 * e, r);
    Mod100(y, 4 * e, r);
  }

  lemma Div400(y: int, e: int, r: int)
    requires 0 <= r < 400 && y == 400 * e + r
    ensures y / 400 == e && y % 400 == r
  {
  }

  lemma Mod4(y: int, t: int, r: int)
    requires y == 4 * t + r
    ensures y % 4 == r % 4
  {
  }

  lemma Mod100(y: int, t: int, r: int)
    requires y == 100 * t + r
    ensures y % 100 == r % 100
  {
  }

  /** Within a 400-year cycle, one more year adds its leap day, if any, to
      the count of leap days. */
  lemma CenturyStep(q: int)
    requires 0 <= q < 399
    ensures (q + 1) / 4 - (q + 1) / 100 == q / 4 - q / 100 + (if (q + 1) % 4 == 0 && (q + 1) % 100 != 0 then 1 else 0)
  {
  }

  /** The next day is the next day number: the calendar has no gaps and
      no repeats. */
  lemma DayNumberNextDay(d: Date)
    requires Valid(d)
    ensures DayNumber(NextDay(d)) == DayNumber(d) + 1
  {
    if d.day == DaysInMonth(d.year, d.month) {
      if d.month == 1 {
        FebruaryEnd(d);
      } else if d.month < 11 {
        MonthOffsetStep(d.month, d.year);
      }
    }
  }

  /** The last of February is followed by the first of March, which opens
      the next March-based year. */
  lemma FebruaryEnd(d: Date)
    requires Valid(d) && d.month == 1 && d.day == DaysInMonth(d.year, 1)
    ensures DayNumber(NextDay(d)) == DayNumber(d) + 1
  {
    MarchYearLength(d.year - 1);
  }

  /** From January to November, the next month starts as many days after
      the month's own start as the month is long. */
  lemma MonthOffsetStep(m: int, y: int)
    requires 0 <= m < 11 && m != 1
    ensures MonthOffset(if m + 1 < 2 then m + 11 else m - 1)
         == MonthOffset(if m < 2 then m + 10 else m - 2) + DaysInMonth(y, m)
  {
    if m == 0 {} else if m == 2 {} else if m == 3 {} else if m == 4 {}
    else if m == 5 {} else if m == 6 {} else if m == 7 {} else if m == 8 {}
    else if m == 9 {} else {}
  }

  lemma {:induction false} DayNumberAddDays(d: Date, n: nat)
    requires Valid(d)
    ensures DayNumber(AddDays(d, n)) == DayNumber(d) + n
  {
    if n > 0 {
      DayNumberAddDays(d, n - 1);
      DayNumberNextDay(AddDays(d, n - 1));
    }
  }

  lemma {:induction false} DayNumberSubDays(d: Date, n: nat)
    requires Valid(d)
    ensures DayNumber(SubDays(d, n)) == DayNumber(d) - n
  {
    if n > 0 {
      DayNumberSubDays(d, n - 1);
      var p := SubDays(d, n - 1);
      NextDayUndoesPrevDay(p);
      DayNumberNextDay(PrevDay(p));
    }
  }

  /** Moving forward `k` of the `n` days moved back leaves `n - k` days back. */
  lemma {:induction false} AddDaysAfterSubDays(d: Date, n: nat, k: nat)
    requires Valid(d) && k <= n
    ensures AddDays(SubDays(d, n), k) == SubDays(d, n - k)
  {
    if k > 0 {
      AddDaysAfterSubDays(d, n, k - 1);
      NextDayUndoesPrevDay(SubDays(d, n - k));
    }
  }

  lemma {:induction false} AddDaysCompose(d: Date, a: nat, b: nat)
    requires Valid(d)
    ensures AddDays(AddDays(d, a), b) == AddDays(d, a + b)
  {
    if b > 0 {
      AddDaysCompose(d, a, b - 1);
    }
  }

  lemma {:induction false} SubDaysCompose(d: Date, a: nat, b: nat)
    requires Valid(d)
    ensures SubDays(SubDays(d, a), b) == SubDays(d, a + b)
  {
    if b > 0 {
      SubDaysCompose(d, a, b - 1);
    }
  }

  /** Moving forward inside a month only advances the day of the month. */
  lemma {:induction false} AddDaysInMonth(d: Date, k: nat)
    requires Valid(d) && d.day + k <= DaysInMonth(d.year, d.month)
    ensures AddDays(d, k) == d.(day := d.day + k)
  {
    if k > 0 {
      AddDaysInMonth(d, k - 1);
    }
  }

  /** Moving back inside a month only decreases the day of the month. */
  lemma {:induction false} SubDaysInMonth(d: Date, k: nat)
    requires Valid(d) && k < d.day
    ensures SubDays(d, k) == d.(day := d.day - k)
  {
    if k > 0 {
      SubDaysInMonth(d, k - 1);
    }
  }

  /** The first day of the month after (`year`, `month`). */
  function NextMonthStart(year: int, month: int): (r: Date)
    requires 0 <= month < 12
    ensures Valid(r) && r.day == 1 && r.month != month
  {
    if month < 11 then Date(year, month + 1, 1) else Date(year + 1, 0, 1)
  }

  /** The last day of the month before (`year`, `month`). */
  function PrevMonthEnd(year: int, month: int): (r: Date)
    requires 0 <= month < 12
    ensures Valid(r) && r.day >= 28 && r.month != month
  {
    if month > 0 then Date(year, month - 1, DaysInMonth(year, month - 1)) else Date(year - 1, 11, 31)
  }

  /** Up to 28 days after the end of a month fall in the next month. */
  lemma AddDaysIntoNextMonth(year: int, month: int, k: nat)
    requires 0 <= month < 12
    requires DaysInMonth(year, month) <= k < DaysInMonth(year, month) + 28
    ensures AddDays(Date(year, month, 1), k) == NextMonthStart(year, month).(day := k - DaysInMonth(year, month) + 1)
  {
    var first := Date(year, month, 1);
    var n := DaysInMonth(year, month);
    AddDaysInMonth(first, n - 1);
    AddDaysCompose(first, n - 1, 1);
    AddDaysCompose(first, n, k - n);
    AddDaysInMonth(NextMonthStart(year, month), k - n);
  }

  /** Up to 28 days before the first of a month fall in the previous month. */
  lemma SubDaysIntoPrevMonth(year: int, month: int, k: nat)
    requires 0 <= month < 12 && 1 <= k <= 28
    ensures SubDays(Date(year, month, 1), k) == PrevMonthEnd(year, month).(day := PrevMonthEnd(year, month).day + 1 - k)
  {
    var first := Date(year, month, 1);
    SubDaysCompose(first, 1, k - 1);
    SubDaysInMonth(PrevMonthEnd(year, month), k - 1);
  }

  /** The year JavaScript's `new Date(year, month, 1)` uses: years 0..99
      stand for 1900..1999. */
  function FullYear(year: int): (y: int)
    ensures 0 <= year <= 99 ==> y == 1900 + year
    ensures !(0 <= year <= 99) ==> y == year
  {
    if 0 <= year <= 99 then 1900 + year else year
  }

  /** The date part of `toISOString()`: a four-digit year for years
      0..9999 and a signed six-digit one otherwise, then the month and the
      day on two digits each. */
  function IsoDate(d: Date): (s: string)
    requires Valid(d)
  {
    var year :=
      if 0 <= d.year <= 9999 then PadDigits(d.year, 4)
      else (if d.year < 0 then "-" else "+") + PadDigits(if d.year < 0 then -d.year else d.year, 6);
    year + "-" + PadDigits(d.month + 1, 2) + "-" + PadDigits(d.day, 2)
  }

  /** A number below 10^width, padded to `width` digits, reads back as
      itself. */
  lemma PaddedField(n: nat, width: nat)
    requires 1 <= width && n < Pow10(width)
    ensures |PadDigits(n, width)| == width && DecimalValue(PadDigits(n, width)) == n
  {
    PadDigitsLength(n, width);
    PadDigitsValue(n, width);
  }

  /** Where the three fields of a "YYYY-MM-DD" string sit; digits stay
      digits. */
  lemma DashedFields(y: string, m: string, d: string)
    requires |y| == 4 && |m| == 2 && |d| == 2
    requires forall i :: 0 <= i < 4 ==> IsDigit(y[i])
    requires forall i :: 0 <= i < 2 ==> IsDigit(m[i]) && IsDigit(d[i])
    ensures var s := y + "-" + m + "-" + d;
      && |s| == 10 && s[..4] == y && s[4] == '-' && s[5..7] == m && s[7] == '-' && s[8..] == d
      && forall i :: 0 <= i < 10 && i != 4 && i != 7 ==> IsDigit(s[i])
  {
    var s := y + "-" + m + "-" + d;
    forall i | 0 <= i < 10 && i != 4 && i != 7 ensures IsDigit(s[i]) {
      if i < 4 { assert s[i] == y[i]; }
      else if i < 7 { assert s[i] == m[i - 5]; }
      else { assert s[i] == d[i - 8]; }
    }
  }

  /** For years 0..9999 the key is "YYYY-MM-DD" and reading its three
      fields back gives the date again, so distinct dates have distinct
      keys. */
  lemma IsoDateFields(d: Date)
    requires Valid(d) && 0 <= d.year <= 9999
    ensures var s := IsoDate(d);
      && |s| == 10 && s[4] == '-' && s[7] == '-'
      && (forall i :: 0 <= i < 10 && i != 4 && i != 7 ==> IsDigit(s[i]))
      && DecimalValue(s[..4]) == d.year
      && DecimalValue(s[5..7]) == d.month + 1
      && DecimalValue(s[8..]) == d.day
  {
    var y, m, n := PadDigits(d.year, 4), PadDigits(d.month + 1, 2), PadDigits(d.day, 2);
    PaddedField(d.year, 4);
    PaddedField(d.month + 1, 2);
    PaddedField(d.day, 2);
    assert IsoDate(d) == y + "-" + m + "-" + n;
    DashedFields(y, m, n);
  }

  lemma IsoDateInjective(a: Date, b: Date)
    requires Valid(a) && 0 <= a.year <= 9999
    requires Valid(b) && 0 <= b.year <= 9999
    requires IsoDate(a) == IsoDate(b)
    ensures a == b
  {
    IsoDateFields(a);
    IsoDateFields(b);
  }
}
