/** Local calendar dates as JavaScript's `Date` presents them (`getFullYear`, `getMonth`,
    `getDate`), under the proleptic Gregorian calendar of ISO 8601:2004, section 3.2.1.
    Months are 0-based as in JavaScript. */
module Dates {

  datatype Date = Date(year: int, month: int, day: int)

  predicate IsLeapYear(y: int)
  {
    y % 4 == 0 && (y % 100 != 0 || y % 400 == 0)
  }

  function YearLength(y: int): int
  {
    if IsLeapYear(y) then 366 else 365
  }

  /** Length of month `m` (0 = January) of year `y`. */
  function DaysInMonth(y: int, m: int): (n: int)
    requires 0 <= m < 12
    ensures 28 <= n <= 31
    ensures m == 1 ==> (n == 29 <==> IsLeapYear(y))
  {
    if m == 1 then (if IsLeapYear(y) then 29 else 28)
    else if m == 3 || m == 5 || m == 8 || m == 10 then 30
    else 31
  }

  /** Days of year `y` before the first of month `m`. */
  function DaysBeforeMonth(y: int, m: int): int
    requires 0 <= m <= 12
  {
    (if m == 0 then 0 else if m == 1 then 31 else if m == 2 then 59 else if m == 3 then 90
     else if m == 4 then 120 else if m == 5 then 151 else if m == 6 then 181
     else if m == 7 then 212 else if m == 8 then 243 else if m == 9 then 273
     else if m == 10 then 304 else if m == 11 then 334 else 365)
    + (if m >= 2 && IsLeapYear(y) then 1 else 0)
  }

  /** Days from 1 January of year 0 to 1 January of year `y` (negative before year 0). */
  function DaysBeforeYear(y: int): int
  {
    365 * y + (y + 3) / 4 - (y + 99) / 100 + (y + 399) / 400
  }

  predicate Valid(d: Date)
  {
    0 <= d.month < 12 && 1 <= d.day <= DaysInMonth(d.year, d.month)
  }

  /** Day number: consecutive days get consecutive numbers. */
  function Ord(d: Date): int
    requires Valid(d)
  {
    DaysBeforeYear(d.year) + DaysBeforeMonth(d.year, d.month) + d.day - 1
  }

  lemma MonthStep(y: int, m: int)
    requires 0 <= m < 12
    ensures DaysBeforeMonth(y, m + 1) == DaysBeforeMonth(y, m) + DaysInMonth(y, m)
    ensures DaysBeforeMonth(y, 12) == YearLength(y)
  {
  }

  lemma MonthsOrdered(y: int, m1: int, m2: int)
    requires 0 <= m1 < m2 <= 12
    ensures DaysBeforeMonth(y, m1) + DaysInMonth(y, m1) <= DaysBeforeMonth(y, m2)
  {
  }

  /** A year contributes 365 days, 366 when it is a leap year. */
  lemma YearStep(y: int)
    ensures DaysBeforeYear(y + 1) == DaysBeforeYear(y) + YearLength(y)
  {
    DivStep4(y);
    DivStep100(y);
    DivStep400(y);
    LeapDivisibility(y);
    var leap := (if y % 4 == 0 then 1 else 0) - (if y % 100 == 0 then 1 else 0) + (if y % 400 == 0 then 1 else 0);
    assert DaysBeforeYear(y + 1) == DaysBeforeYear(y) + 365 + leap;
  }

  lemma LeapDivisibility(y: int)
    ensures y % 100 == 0 ==> y % 4 == 0
    ensures y % 400 == 0 ==> y % 100 == 0
  {
    if y % 100 == 0 {
      assert y == 4 * (25 * (y / 100));
    }
    if y % 400 == 0 {
      assert y == 100 * (4 * (y / 400));
    }
  }

  lemma DivStep4(y: int)
    ensures (y + 4) / 4 == (y + 3) / 4 + (if y % 4 == 0 then 1 else 0)
  {
  }

  lemma DivStep100(y: int)
    ensures (y + 100) / 100 == (y + 99) / 100 + (if y % 100 == 0 then 1 else 0)
  {
  }

  lemma DivStep400(y: int)
    ensures (y + 400) / 400 == (y + 399) / 400 + (if y % 400 == 0 then 1 else 0)
  {
  }

  lemma {:induction false} YearsOrdered(a: int, b: int)
    requires a <= b
    ensures DaysBeforeYear(a) <= DaysBeforeYear(b)
    decreases b - a
  {
    if a < b {
      YearStep(a);
      YearsOrdered(a + 1, b);
    }
  }

  /** A valid date's day number lies inside its own year. */
  lemma OrdInYear(d: Date)
    requires Valid(d)
    ensures DaysBeforeYear(d.year) <= Ord(d) < DaysBeforeYear(d.year + 1)
  {
    YearStep(d.year);
    MonthsOrdered(d.year, d.month, 12);
  }

  /** Day numbers order valid dates as (year, month, day) does. */
  lemma OrdMonotone(a: Date, b: Date)
    requires Valid(a) && Valid(b)
    ensures Before(a, b) ==> Ord(a) < Ord(b)
  {
    if a.year < b.year {
      OrdInYear(a);
      OrdInYear(b);
      YearsOrdered(a.year + 1, b.year);
    } else if a.year == b.year && a.month < b.month {
      MonthsOrdered(a.year, a.month, b.month);
    }
  }

  /** Strictly earlier, comparing year, then month, then day. */
  predicate Before(a: Date, b: Date)
  {
    a.year < b.year || (a.year == b.year && (a.month < b.month || (a.month == b.month && a.day < b.day)))
  }

  /** Two valid dates with the same day number are the same date. */
  lemma OrdInjective(a: Date, b: Date)
    requires Valid(a) && Valid(b) && Ord(a) == Ord(b)
    ensures a == b
  {
    OrdMonotone(a, b);
    OrdMonotone(b, a);
  }

  /** The valid dates are totally ordered by their day numbers, in both directions. */
  lemma OrdOrder(a: Date, b: Date)
    requires Valid(a) && Valid(b)
    ensures Ord(a) < Ord(b) <==> Before(a, b)
    ensures Ord(a) == Ord(b) <==> a == b
  {
    OrdMonotone(a, b);
    OrdMonotone(b, a);
    if Ord(a) == Ord(b) {
      OrdInjective(a, b);
    }
  }

  function NextDay(d: Date): (r: Date)
    requires Valid(d)
    ensures Valid(r) && Ord(r) == Ord(d) + 1
  {
    if d.day < DaysInMonth(d.year, d.month) then Date(d.year, d.month, d.day + 1)
    else if d.month < 11 then
      MonthStep(d.year, d.month);
      Date(d.year, d.month + 1, 1)
    else
      MonthStep(d.year, d.month);
      YearStep(d.year);
      Date(d.year + 1, 0, 1)
  }

  function PrevDay(d: Date): (r: Date)
    requires Valid(d)
    ensures Valid(r) && Ord(r) == Ord(d) - 1
  {
    if d.day > 1 then Date(d.year, d.month, d.day - 1)
    else if d.month > 0 then
      MonthStep(d.year, d.month - 1);
      Date(d.year, d.month - 1, DaysInMonth(d.year, d.month - 1))
    else
      MonthStep(d.year - 1, 11);
      YearStep(d.year - 1);
      Date(d.year - 1, 11, 31)
  }

  /** The date `k` days after `d` (before it when `k` is negative). */
  function AddDays(d: Date, k: int): (r: Date)
    requires Valid(d)
    ensures Valid(r) && Ord(r) == Ord(d) + k
    decreases if k < 0 then -k else k
  {
    if k == 0 then d
    else if k > 0 then AddDays(NextDay(d), k - 1)
    else AddDays(PrevDay(d), k + 1)
  }

  /** The 1st of month `m` (any integer) of year `y`, with the month carried into the year. */
  function StartOfMonth(y: int, m: int): (r: Date)
    ensures Valid(r) && r.day == 1 && (r.year, r.month) == NormalizeMonth(y, m)
  {
    Date(y + m / 12, m % 12, 1)
  }

  /** JavaScript's `new Date(y, m, d)`, and what `setMonth` and `setDate` store: the month
      is carried into the year first, then the day offset from the 1st is added, so out of
      range months and days roll over into neighbouring months and years. */
  function MakeDate(y: int, m: int, d: int): (r: Date)
    ensures Valid(r)
    ensures Ord(r) == Ord(StartOfMonth(y, m)) + d - 1
  {
    AddDays(StartOfMonth(y, m), d - 1)
  }

  /** Weekday as `getDay` gives it: 0 = Sunday .. 6 = Saturday (1 January of year 0 was a Saturday). */
  function Weekday(d: Date): (w: int)
    requires Valid(d)
    ensures 0 <= w < 7
  {
    (Ord(d) + 6) % 7
  }

  lemma WeekdayNext(d: Date)
    requires Valid(d)
    ensures Weekday(NextDay(d)) == (Weekday(d) + 1) % 7
  {
    Mod7Step(Ord(d) + 6);
  }

  lemma Mod7Step(x: int)
    ensures (x + 1) % 7 == (x % 7 + 1) % 7
  {
    Mod7Unique(x + 1, x / 7 + (if x % 7 == 6 then 1 else 0), (x % 7 + 1) % 7);
  }

  lemma Mod7Unique(x: int, q: int, s: int)
    requires x == 7 * q + s && 0 <= s < 7
    ensures x % 7 == s
  {
  }

  /** `new Date(y, m, d)` is the valid date whose day number is `d - 1` after that of the 1st
      of month `m` carried into the year. */
  lemma MakeDateIs(y: int, m: int, d: int, x: Date)
    requires Valid(x) && Ord(x) == Ord(StartOfMonth(y, m)) + d - 1
    ensures MakeDate(y, m, d) == x
  {
    OrdInjective(MakeDate(y, m, d), x);
  }

  /** `new Date(y, m, d)` of an existing date is that date. */
  lemma MakeDateOfValid(d: Date)
    requires Valid(d)
    ensures MakeDate(d.year, d.month, d.day) == d
  {
    NormalizeUnique(d.year, d.month, d.year, d.month);
    MakeDateIs(d.year, d.month, d.day, d);
  }

  /** Shifting the day-of-month of a valid date by `k` (as `setDate(getDate() + k)` does)
      moves it exactly `k` days, across month and year ends. */
  lemma MakeDateShift(d: Date, k: int)
    requires Valid(d)
    ensures MakeDate(d.year, d.month, d.day + k) == AddDays(d, k)
  {
    MakeDateMoves(d, k, AddDays(d, k));
  }

  lemma MakeDateMoves(d: Date, k: int, x: Date)
    requires Valid(d) && Valid(x) && Ord(x) == Ord(d) + k
    ensures MakeDate(d.year, d.month, d.day + k) == x
  {
    NormalizeUnique(d.year, d.month, d.year, d.month);
    var first := StartOfMonth(d.year, d.month);
    assert first == Date(d.year, d.month, 1);
    assert Ord(d) == Ord(first) + d.day - 1;
    MakeDateIs(d.year, d.month, d.day + k, x);
  }

  /** `new Date(y, m, day)` within a valid date's month lies `day - d.day` days from `d`. */
  lemma MakeDateOrd(d: Date, day: int)
    requires Valid(d)
    ensures Ord(MakeDate(d.year, d.month, day)) == Ord(d) + day - d.day
  {
    NormalizeUnique(d.year, d.month, d.year, d.month);
    var first := StartOfMonth(d.year, d.month);
    assert first == Date(d.year, d.month, 1);
    assert Ord(d) == Ord(first) + d.day - 1;
  }

  lemma AddDaysCompose(d: Date, a: int, b: int)
    requires Valid(d)
    ensures AddDays(AddDays(d, a), b) == AddDays(d, a + b)
  {
    OrdInjective(AddDays(AddDays(d, a), b), AddDays(d, a + b));
  }

  /** The month `m` (any integer, as JavaScript accepts) carried into the year. */
  function NormalizeMonth(y: int, m: int): (ym: (int, int))
    ensures 0 <= ym.1 < 12 && ym.0 * 12 + ym.1 == y * 12 + m
  {
    (y + m / 12, m % 12)
  }

  /** The calendar month after month `m` of year `y`. */
  function MonthAfter(y: int, m: int): (ym: (int, int))
    requires 0 <= m < 12
    ensures 0 <= ym.1 < 12 && ym.0 * 12 + ym.1 == y * 12 + m + 1
  {
    if m == 11 then (y + 1, 0) else (y, m + 1)
  }

  lemma NormalizeUnique(y: int, m: int, y2: int, m2: int)
    requires 0 <= m2 < 12 && y2 * 12 + m2 == y * 12 + m
    ensures NormalizeMonth(y, m) == (y2, m2)
  {
    var n := NormalizeMonth(y, m);
    assert (n.0 - y2) * 12 == m2 - n.1;
  }

  /** The day after the last of a month is the 1st of the month after it. */
  lemma EndOfMonthNext(y: int, m: int)
    requires 0 <= m < 12
    ensures var n := MonthAfter(y, m);
            Ord(Date(n.0, n.1, 1)) == Ord(Date(y, m, DaysInMonth(y, m))) + 1
  {
    var n := MonthAfter(y, m);
    assert NextDay(Date(y, m, DaysInMonth(y, m))) == Date(n.0, n.1, 1);
  }

  /** `new Date(y, m + 1, 0)`: day 0 of the following month is the last day of month `m`. */
  lemma LastDayOfMonth(y: int, m: int)
    ensures var ym := NormalizeMonth(y, m);
            MakeDate(y, m + 1, 0) == Date(ym.0, ym.1, DaysInMonth(ym.0, ym.1))
  {
    var ym := NormalizeMonth(y, m);
    var n := MonthAfter(ym.0, ym.1);
    NormalizeUnique(y, m + 1, n.0, n.1);
    EndOfMonthNext(ym.0, ym.1);
    MakeDateIs(y, m + 1, 0, Date(ym.0, ym.1, DaysInMonth(ym.0, ym.1)));
  }

  /** For a month `m` in 0..11, `new Date(y, m + 1, 0)` is the last day of that same month. */
  lemma LastDayOfValidMonth(y: int, m: int)
    requires 0 <= m < 12
    ensures MakeDate(y, m + 1, 0) == Date(y, m, DaysInMonth(y, m))
  {
    var n := MonthAfter(y, m);
    NormalizeUnique(y, m + 1, n.0, n.1);
    EndOfMonthNext(y, m);
    MakeDateIs(y, m + 1, 0, Date(y, m, DaysInMonth(y, m)));
  }

  /** For a month `m` in 0..11, `new Date(y, m, 1)` is the 1st of that month. */
  lemma FirstOfValidMonth(y: int, m: int)
    requires 0 <= m < 12
    ensures MakeDate(y, m, 1) == Date(y, m, 1)
  {
    NormalizeUnique(y, m, y, m);
    MakeDateIs(y, m, 1, Date(y, m, 1));
  }

  /** `new Date(y, m, 1)` is the 1st of month `m` carried into the year. */
  lemma FirstOfMonth(y: int, m: int)
    ensures var ym := NormalizeMonth(y, m);
            MakeDate(y, m, 1) == Date(ym.0, ym.1, 1)
  {
    MakeDateIs(y, m, 1, StartOfMonth(y, m));
  }

  /** `new Date(y, m, day)` when month `m` carried into the year is month `m2` of year `y2` and
      that month has day `day`. */
  lemma MakeDateNormal(y: int, m: int, day: int, y2: int, m2: int)
    requires 0 <= m2 < 12 && y2 * 12 + m2 == y * 12 + m && 1 <= day <= DaysInMonth(y2, m2)
    ensures MakeDate(y, m, day) == Date(y2, m2, day)
  {
    NormalizeUnique(y, m, y2, m2);
    MakeDateIs(y, m, day, Date(y2, m2, day));
  }

  /** The same when `day` runs past the end of month `m2` by at most 28 days: the excess
      carries into the month after it. */
  lemma MakeDateNormalOverflow(y: int, m: int, day: int, y2: int, m2: int)
    requires 0 <= m2 < 12 && y2 * 12 + m2 == y * 12 + m
    requires DaysInMonth(y2, m2) < day <= DaysInMonth(y2, m2) + 28
    ensures var n := MonthAfter(y2, m2); MakeDate(y, m, day) == Date(n.0, n.1, day - DaysInMonth(y2, m2))
  {
    var n := MonthAfter(y2, m2);
    NormalizeUnique(y, m, y2, m2);
    EndOfMonthNext(y2, m2);
    MakeDateIs(y, m, day, Date(n.0, n.1, day - DaysInMonth(y2, m2)));
  }

  /** `setMonth(getMonth() + k)` keeps the day of month when the target month has it; otherwise
      the days past the target month's end carry into the month after it. */
  lemma SetMonthShift(d: Date, k: int)
    requires Valid(d)
    ensures var t := NormalizeMonth(d.year, d.month + k);
            var r := MakeDate(d.year, d.month + k, d.day);
            if d.day <= DaysInMonth(t.0, t.1) then r == Date(t.0, t.1, d.day)
            else var n := MonthAfter(t.0, t.1);
                 r == Date(n.0, n.1, d.day - DaysInMonth(t.0, t.1))
  {
    var t := NormalizeMonth(d.year, d.month + k);
    if d.day <= DaysInMonth(t.0, t.1) {
      MakeDateNormal(d.year, d.month + k, d.day, t.0, t.1);
    } else {
      MakeDateNormalOverflow(d.year, d.month + k, d.day, t.0, t.1);
    }
  }
}
