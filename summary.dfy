/** The revenue summary panel (summary.js): totals over the orders of a period, the
    Sunday-to-Saturday week and the calendar month around an anchor date, the ISO 8601 week
    number, and navigation of the anchor by week or by month. */
module Summary {
  import opened Types
  import opened Dates
  import opened DateKeys
  import Strings

  // ---------------------------------------------------------------- statistics

  datatype Bucket = Bucket(count: int, revenue: int)

  datatype Stats = Stats(
    totalOrders: int,
    totalRevenue: int,
    totalShipping: int,
    netRevenue: int,
    deposit: Bucket,
    readyToShip: Bucket,
    shipped: Bucket)

  /** Shipping cost is an expense only once the order has shipped. */
  function CountedShipping(o: Order): int
  {
    if o.status == Shipped then o.shippingCost else 0
  }

  /** What one order adds to the net revenue and to its status bucket. */
  function NetFor(o: Order): int
  {
    o.price - CountedShipping(o)
  }

  function SumPrices(os: seq<Order>): int
  {
    if os == [] then 0 else SumPrices(os[..|os| - 1]) + os[|os| - 1].price
  }

  function SumShipping(os: seq<Order>): int
  {
    if os == [] then 0 else SumShipping(os[..|os| - 1]) + CountedShipping(os[|os| - 1])
  }

  function CountStatus(os: seq<Order>, st: Status): int
  {
    if os == [] then 0 else CountStatus(os[..|os| - 1], st) + (if os[|os| - 1].status == st then 1 else 0)
  }

  function RevenueStatus(os: seq<Order>, st: Status): int
  {
    if os == [] then 0 else RevenueStatus(os[..|os| - 1], st) + (if os[|os| - 1].status == st then NetFor(os[|os| - 1]) else 0)
  }

  /** The statuses that have a bucket in the breakdown. */
  predicate HasBucket(st: Status)
  {
    st == Deposit || st == ReadyToShip || st == Shipped
  }

  /** Net revenue of the orders whose status has no bucket. */
  function UnbucketedRevenue(os: seq<Order>): int
  {
    if os == [] then 0 else UnbucketedRevenue(os[..|os| - 1]) + (if HasBucket(os[|os| - 1].status) then 0 else NetFor(os[|os| - 1]))
  }

  function AddTo(b: Bucket, o: Order): Bucket
  {
    Bucket(b.count + 1, b.revenue + NetFor(o))
  }

  /** `calculateStats`: one pass over the orders, accumulating into the totals and into the
      bucket of the order's status when it has one. */
  method CalculateStats(orders: seq<Order>) returns (stats: Stats)
    ensures stats.totalOrders == |orders|
    ensures stats.totalRevenue == SumPrices(orders)
    ensures stats.totalShipping == SumShipping(orders)
    ensures stats.netRevenue == stats.totalRevenue - stats.totalShipping
    ensures stats.deposit == Bucket(CountStatus(orders, Deposit), RevenueStatus(orders, Deposit))
    ensures stats.readyToShip == Bucket(CountStatus(orders, ReadyToShip), RevenueStatus(orders, ReadyToShip))
    ensures stats.shipped == Bucket(CountStatus(orders, Shipped), RevenueStatus(orders, Shipped))
  {
    stats := Stats(|orders|, 0, 0, 0, Bucket(0, 0), Bucket(0, 0), Bucket(0, 0));
    var i := 0;
    while i < |orders|
      invariant 0 <= i <= |orders|
      invariant stats.totalOrders == |orders|
      invariant stats.totalRevenue == SumPrices(orders[..i])
      invariant stats.totalShipping == SumShipping(orders[..i])
      invariant stats.netRevenue == stats.totalRevenue - stats.totalShipping
      invariant stats.deposit == Bucket(CountStatus(orders[..i], Deposit), RevenueStatus(orders[..i], Deposit))
      invariant stats.readyToShip == Bucket(CountStatus(orders[..i], ReadyToShip), RevenueStatus(orders[..i], ReadyToShip))
      invariant stats.shipped == Bucket(CountStatus(orders[..i], Shipped), RevenueStatus(orders[..i], Shipped))
    {
      var order := orders[i];
      assert orders[..i + 1][..i] == orders[..i];
      var shippingCost := if order.status == Shipped then order.shippingCost else 0;
      var netForOrder := order.price - shippingCost;
      stats := stats.(totalRevenue := stats.totalRevenue + order.price,
                      totalShipping := stats.totalShipping + shippingCost,
                      netRevenue := stats.netRevenue + netForOrder);
      match order.status {
        case Deposit => stats := stats.(deposit := AddTo(stats.deposit, order));
        case ReadyToShip => stats := stats.(readyToShip := AddTo(stats.readyToShip, order));
        case Shipped => stats := stats.(shipped := AddTo(stats.shipped, order));
        case OtherStatus(_) =>
      }
      i := i + 1;
    }
    assert orders[..i] == orders;
  }

  /** Every order falls in at most one bucket, so the bucket counts add up to at most the
      number of orders, and exactly to it when every status has a bucket. */
  lemma {:induction false} BucketCountsBounded(os: seq<Order>)
    ensures CountStatus(os, Deposit) + CountStatus(os, ReadyToShip) + CountStatus(os, Shipped) <= |os|
    ensures (forall k :: 0 <= k < |os| ==> HasBucket(os[k].status)) ==>
              CountStatus(os, Deposit) + CountStatus(os, ReadyToShip) + CountStatus(os, Shipped) == |os|
  {
    if os != [] {
      BucketCountsBounded(os[..|os| - 1]);
    }
  }

  /** The net revenue splits into the three buckets' revenue and that of unbucketed orders. */
  lemma {:induction false} NetRevenueSplits(os: seq<Order>)
    ensures SumPrices(os) - SumShipping(os)
            == RevenueStatus(os, Deposit) + RevenueStatus(os, ReadyToShip) + RevenueStatus(os, Shipped) + UnbucketedRevenue(os)
  {
    if os != [] {
      NetRevenueSplits(os[..|os| - 1]);
    }
  }

  /** The stored shipping cost of an order that has not shipped never reaches the totals. */
  lemma {:induction false} UnshippedCostIgnored(os: seq<Order>, i: int, cost: int)
    requires 0 <= i < |os| && os[i].status != Shipped
    ensures SumShipping(os[i := os[i].(shippingCost := cost)]) == SumShipping(os)
    ensures RevenueStatus(os[i := os[i].(shippingCost := cost)], os[i].status) == RevenueStatus(os, os[i].status)
  {
    var os' := os[i := os[i].(shippingCost := cost)];
    if i < |os| - 1 {
      assert os'[..|os'| - 1] == os[..|os| - 1][i := os[i].(shippingCost := cost)];
      UnshippedCostIgnored(os[..|os| - 1], i, cost);
    } else {
      assert os'[..|os'| - 1] == os[..|os| - 1];
    }
  }

  // ---------------------------------------------------------------- periods

  /** `getWeekRange`'s start: `setDate(getDate() - getDay())`, the Sunday on or before `d`. */
  function WeekStart(d: Date): (s: Date)
    requires Valid(d)
    ensures Valid(s) && Weekday(s) == 0
    ensures Ord(s) == Ord(d) - Weekday(d)
  {
    var w := Weekday(d);
    MakeDateOrd(d, d.day - w);
    SundayBefore(d, MakeDate(d.year, d.month, d.day - w));
    MakeDate(d.year, d.month, d.day - w)
  }

  lemma SundayBefore(d: Date, s: Date)
    requires Valid(d) && Valid(s) && Ord(s) == Ord(d) - Weekday(d)
    ensures Weekday(s) == 0
  {
    var o := Ord(d);
    Mod7Unique(Ord(s) + 6, (o + 6) / 7, 0);
  }

  /** `getWeekRange`'s end: `setDate(getDate() + 6)` on the start, six days after it. */
  function WeekEnd(d: Date): (e: Date)
    requires Valid(d)
    ensures Valid(e) && Ord(e) == Ord(WeekStart(d)) + 6
  {
    var s := WeekStart(d);
    MakeDateOrd(s, s.day + 6);
    MakeDate(s.year, s.month, s.day + 6)
  }

  /** The week runs Sunday to Saturday and contains `d`. */
  lemma WeekRangeBounds(d: Date)
    requires Valid(d)
    ensures Weekday(WeekStart(d)) == 0 && Weekday(WeekEnd(d)) == 6
    ensures Ord(WeekStart(d)) <= Ord(d) <= Ord(WeekEnd(d))
  {
    SaturdayAfter(WeekStart(d), WeekEnd(d));
  }

  lemma SaturdayAfter(s: Date, e: Date)
    requires Valid(s) && Valid(e) && Weekday(s) == 0 && Ord(e) == Ord(s) + 6
    ensures Weekday(e) == 6
  {
    var o := Ord(s);
    Mod7Unique(o + 12, (o + 6) / 7, 6);
  }

  /** The start of the week of a week's start is that same start. */
  lemma WeekStartIdempotent(d: Date)
    requires Valid(d)
    ensures WeekStart(WeekStart(d)) == WeekStart(d)
  {
    var s := WeekStart(d);
    OrdInjective(WeekStart(s), s);
  }

  /** `getWeekRange`: the keys of the week's first and last day. */
  function GetWeekRange(d: Date): (r: (string, string))
    requires Valid(d)
    ensures var s, e := WeekStart(d), WeekEnd(d);
            r == (DateKey(s), DateKey(e)) && Weekday(s) == 0 && Ord(d) - 6 <= Ord(s) <= Ord(d) && Ord(e) == Ord(s) + 6
  {
    WeekRangeBounds(d);
    (DateKey(WeekStart(d)), DateKey(WeekEnd(d)))
  }

  /** `getMonthRange`'s start: `new Date(y, m, 1)`, the 1st of the anchor's month. */
  function MonthStart(d: Date): (s: Date)
    requires Valid(d)
    ensures s == Date(d.year, d.month, 1)
  {
    FirstOfValidMonth(d.year, d.month);
    MakeDate(d.year, d.month, 1)
  }

  /** `getMonthRange`'s end: `new Date(y, m + 1, 0)`, the last day of the anchor's month. */
  function MonthEnd(d: Date): (e: Date)
    requires Valid(d)
    ensures e == Date(d.year, d.month, DaysInMonth(d.year, d.month))
  {
    LastDayOfValidMonth(d.year, d.month);
    MakeDate(d.year, d.month + 1, 0)
  }

  /** `getMonthRange`: the keys of the month's first and last day. */
  function GetMonthRange(d: Date): (r: (string, string))
    requires Valid(d)
    ensures r == (DateKey(Date(d.year, d.month, 1)), DateKey(Date(d.year, d.month, DaysInMonth(d.year, d.month))))
  {
    (DateKey(MonthStart(d)), DateKey(MonthEnd(d)))
  }

  /** The month range holds exactly the dates of the anchor's month. */
  lemma MonthRangeBounds(d: Date, x: Date)
    requires Valid(d) && Valid(x)
    ensures Ord(MonthStart(d)) <= Ord(x) <= Ord(MonthEnd(d)) <==> x.year == d.year && x.month == d.month
  {
    OrdOrder(x, MonthStart(d));
    OrdOrder(MonthEnd(d), x);
  }

  /** For four-digit years the range keys satisfy start <= end as strings, and a date's key lies
      between them exactly when the date lies in that week or month. */
  lemma RangesOrdered(d: Date, x: Date)
    requires Valid(d) && Valid(x) && FourDigitYear(WeekStart(d)) && FourDigitYear(WeekEnd(d)) && FourDigitYear(x)
    ensures Strings.LexLe(GetWeekRange(d).0, GetWeekRange(d).1)
    ensures Strings.LexLe(GetWeekRange(d).0, DateKey(x)) && Strings.LexLe(DateKey(x), GetWeekRange(d).1)
            <==> Ord(WeekStart(d)) <= Ord(x) <= Ord(WeekEnd(d))
    ensures FourDigitYear(d) ==> Strings.LexLe(GetMonthRange(d).0, GetMonthRange(d).1)
    ensures FourDigitYear(d) ==>
              (Strings.LexLe(GetMonthRange(d).0, DateKey(x)) && Strings.LexLe(DateKey(x), GetMonthRange(d).1)
               <==> x.year == d.year && x.month == d.month)
  {
    DateKeyOrder(WeekStart(d), WeekEnd(d));
    DateKeyOrder(WeekStart(d), x);
    DateKeyOrder(x, WeekEnd(d));
    if FourDigitYear(d) {
      DateKeyOrder(MonthStart(d), MonthEnd(d));
      DateKeyOrder(MonthStart(d), x);
      DateKeyOrder(x, MonthEnd(d));
      MonthRangeBounds(d, x);
    }
  }

  /** ISO weekday: 1 = Monday .. 7 = Sunday (`getUTCDay() || 7`). */
  function IsoWeekday(d: Date): (n: int)
    requires Valid(d)
    ensures 1 <= n <= 7 && n % 7 == Weekday(d)
  {
    IsoOf(Weekday(d))
  }

  function IsoOf(w: int): (n: int)
    requires 0 <= w < 7
    ensures 1 <= n <= 7 && n % 7 == w
  {
    if w == 0 then 7 else w
  }

  /** The Thursday of `d`'s Monday-to-Sunday week: `setUTCDate(getUTCDate() + 4 - dayNum)`. */
  function IsoThursday(d: Date): (t: Date)
    requires Valid(d)
    ensures Valid(t) && Ord(t) == Ord(d) + 4 - IsoWeekday(d)
  {
    MakeDateOrd(d, d.day + 4 - IsoWeekday(d));
    MakeDate(d.year, d.month, d.day + 4 - IsoWeekday(d))
  }

  /** `new Date(Date.UTC(y, 0, 1))`: 1 January of year `y`. */
  function YearStart(y: int): (s: Date)
    ensures s == Date(y, 0, 1) && Ord(s) == DaysBeforeYear(y)
  {
    FirstOfValidMonth(y, 0);
    MakeDate(y, 0, 1)
  }

  /** `getWeekNumber`: the ISO 8601 week number (ISO 8601:2004, section 4.1.4): weeks run
      Monday to Sunday and a day belongs to the week of that week's Thursday, numbered
      within the Thursday's year. */
  function GetWeekNumber(d: Date): (n: int)
    requires Valid(d)
    ensures 1 <= n <= 53
    ensures var t := IsoThursday(d); n == (Ord(t) - Ord(YearStart(t.year))) / 7 + 1
  {
    var thursday := IsoThursday(d);
    var yearStart := YearStart(thursday.year);
    OrdInYear(thursday);
    YearStep(thursday.year);
    var elapsed := Ord(thursday) - Ord(yearStart);
    (elapsed + 1 + 6) / 7
  }

  /** Monday to Sunday share one week number: stepping from any day but Sunday to the next
      day keeps the Thursday, hence the number. */
  lemma WeekNumberMondayFirst(d: Date)
    requires Valid(d) && Weekday(d) != 0
    ensures IsoThursday(NextDay(d)) == IsoThursday(d)
    ensures GetWeekNumber(NextDay(d)) == GetWeekNumber(d)
  {
    SameThursday(d, NextDay(d));
  }

  lemma SameThursday(d: Date, n: Date)
    requires Valid(d) && Valid(n) && Ord(n) == Ord(d) + 1 && Weekday(d) != 0
    ensures IsoThursday(n) == IsoThursday(d)
  {
    NextIsoWeekday(d, n);
    OrdInjective(IsoThursday(n), IsoThursday(d));
  }

  lemma NextIsoWeekday(d: Date, n: Date)
    requires Valid(d) && Valid(n) && Ord(n) == Ord(d) + 1 && Weekday(d) != 0
    ensures IsoWeekday(n) == IsoWeekday(d) + 1
  {
    NextIso(Ord(d) + 6);
  }

  lemma NextIso(x: int)
    requires x % 7 != 0
    ensures IsoOf((x + 1) % 7) == IsoOf(x % 7) + 1
  {
    Mod7Step(x);
  }

  /** 4 January is always in week 1. */
  lemma FourthOfJanuaryInWeekOne(y: int)
    ensures Valid(Date(y, 0, 4)) && GetWeekNumber(Date(y, 0, 4)) == 1
  {
    var t := IsoThursday(Date(y, 0, 4));
    assert DaysBeforeYear(y) <= Ord(t) <= DaysBeforeYear(y) + 6;
    ThursdayInYear(t, y);
  }

  lemma ThursdayInYear(t: Date, y: int)
    requires Valid(t) && DaysBeforeYear(y) <= Ord(t) <= DaysBeforeYear(y) + 6
    ensures t.year == y
  {
    OrdInYear(t);
    YearStep(y);
    if t.year < y {
      YearsOrdered(t.year + 1, y);
    } else if t.year > y {
      YearsOrdered(y + 1, t.year);
    }
  }

  // ---------------------------------------------------------------- navigation state

  datatype ViewMode = Week | Month

  /** The panel's period state: the view mode and the anchor date. */
  class SummaryComponent {
    var currentView: ViewMode
    var currentDate: Date

    predicate Valid()
      reads this
    {
      Dates.Valid(currentDate)
    }

    /** A new panel shows the month of `today`. */
    constructor (today: Date)
      requires Dates.Valid(today)
      ensures Valid() && currentView == Month && currentDate == today
    {
      currentView := Month;
      currentDate := today;
    }

    /** `toggleView`: changes the view mode and nothing else. */
    method ToggleView(view: ViewMode)
      requires Valid()
      modifies this
      ensures Valid() && currentView == view && currentDate == old(currentDate)
    {
      currentView := view;
    }

    /** `setDate`: moves the anchor. */
    method SetDate(date: Date)
      requires Dates.Valid(date)
      modifies this
      ensures Valid() && currentDate == date && currentView == old(currentView)
    {
      currentDate := date;
    }

    /** `previousPeriod`: seven days back in week view; `setMonth(getMonth() - 1)` otherwise. */
    method PreviousPeriod()
      requires Valid()
      modifies this
      ensures Valid() && currentView == old(currentView)
      ensures old(currentView) == Week ==>
                currentDate == MakeDate(old(currentDate).year, old(currentDate).month, old(currentDate).day - 7)
      ensures old(currentView) == Month ==> currentDate == MakeDate(old(currentDate).year, old(currentDate).month - 1, old(currentDate).day)
    {
      if currentView == Week {
        currentDate := MakeDate(currentDate.year, currentDate.month, currentDate.day - 7);
      } else {
        currentDate := MakeDate(currentDate.year, currentDate.month - 1, currentDate.day);
      }
    }

    /** `nextPeriod`: seven days on in week view; `setMonth(getMonth() + 1)` otherwise. */
    method NextPeriod()
      requires Valid()
      modifies this
      ensures Valid() && currentView == old(currentView)
      ensures old(currentView) == Week ==>
                currentDate == MakeDate(old(currentDate).year, old(currentDate).month, old(currentDate).day + 7)
      ensures old(currentView) == Month ==> currentDate == MakeDate(old(currentDate).year, old(currentDate).month + 1, old(currentDate).day)
    {
      if currentView == Week {
        currentDate := MakeDate(currentDate.year, currentDate.month, currentDate.day + 7);
      } else {
        currentDate := MakeDate(currentDate.year, currentDate.month + 1, currentDate.day);
      }
    }
  }

  /** A week step moves the anchor exactly seven days, keeps its weekday, and moves the
      displayed week by seven days. */
  lemma WeekStepMovesWeek(d: Date, n: Date, k: int)
    requires Valid(d) && (k == 7 || k == -7) && n == MakeDate(d.year, d.month, d.day + k)
    ensures Ord(n) == Ord(d) + k && Weekday(n) == Weekday(d)
    ensures Ord(WeekStart(n)) == Ord(WeekStart(d)) + k
  {
    MakeDateOrd(d, d.day + k);
    ShiftedWeek(d, n, k);
  }

  lemma ShiftedWeek(d: Date, n: Date, k: int)
    requires Valid(d) && Valid(n) && (k == 7 || k == -7) && Ord(n) == Ord(d) + k
    ensures Weekday(n) == Weekday(d)
    ensures Ord(WeekStart(n)) == Ord(WeekStart(d)) + k
  {
    SevenApart(Ord(d) + 6, k);
    assert Weekday(n) == Weekday(d);
  }

  lemma SevenApart(x: int, k: int)
    requires k == 7 || k == -7
    ensures (x + k) % 7 == x % 7
  {
    Mod7Unique(x + k, x / 7 + k / 7, x % 7);
  }

  /** In week view, next then previous returns to the same anchor. */
  lemma WeekNextThenPrevious(d: Date, next: Date)
    requires Valid(d) && next == MakeDate(d.year, d.month, d.day + 7)
    ensures MakeDate(next.year, next.month, next.day - 7) == d
  {
    MakeDateOrd(d, d.day + 7);
    StepBack(d, next, 7);
  }

  /** In week view, previous then next returns to the same anchor. */
  lemma WeekPreviousThenNext(d: Date, prev: Date)
    requires Valid(d) && prev == MakeDate(d.year, d.month, d.day - 7)
    ensures MakeDate(prev.year, prev.month, prev.day + 7) == d
  {
    MakeDateOrd(d, d.day - 7);
    StepBack(d, prev, -7);
  }

  lemma StepBack(d: Date, n: Date, k: int)
    requires Valid(d) && Valid(n) && Ord(n) == Ord(d) + k
    ensures MakeDate(n.year, n.month, n.day - k) == d
  {
    MakeDateOrd(n, n.day - k);
    OrdInjective(MakeDate(n.year, n.month, n.day - k), d);
  }

  /** In month view, an anchor on day 28 or earlier moves exactly one month either way and
      next then previous returns to it. */
  lemma MonthNavigationEarlyDay(d: Date)
    requires Valid(d) && d.day <= 28
    ensures var n := MonthAfter(d.year, d.month);
            MakeDate(d.year, d.month + 1, d.day) == Date(n.0, n.1, d.day)
    ensures var n := MakeDate(d.year, d.month + 1, d.day);
            MakeDate(n.year, n.month - 1, n.day) == d
  {
    var n := MonthAfter(d.year, d.month);
    MakeDateNormal(d.year, d.month + 1, d.day, n.0, n.1);
    MakeDateNormal(n.0, n.1 - 1, d.day, d.year, d.month);
  }

  /** With a late anchor the month step overflows: from 31 January, "next" lands on 2 or 3
      March, so February is never shown, and "previous" from there gives 2 or 3 February. */
  lemma MonthNavigationOverflow(y: int)
    ensures MakeDate(y, 1, 31) == Date(y, 2, if IsLeapYear(y) then 2 else 3)
    ensures var n := MakeDate(y, 1, 31); MakeDate(n.year, n.month - 1, n.day) == Date(y, 1, n.day)
  {
    MakeDateNormalOverflow(y, 1, 31, y, 1);
    var n := MakeDate(y, 1, 31);
    MakeDateNormal(y, 1, n.day, y, 1);
  }
}
