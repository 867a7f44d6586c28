/** The month calendar (calendar.js): the displayed year and month, the orders loaded for
    them, and the grid of day cells with their order badges. */
module Calendar {
  import opened Types
  import opened Dates
  import opened DateKeys

  // ---------------------------------------------------------------- navigation

  /** The calendar month before month `m` of year `y`. */
  function MonthBefore(y: int, m: int): (ym: (int, int))
    requires 0 <= m < 12
    ensures 0 <= ym.1 < 12 && ym.0 * 12 + ym.1 == y * 12 + m - 1
  {
    if m - 1 < 0 then (y - 1, 11) else (y, m - 1)
  }

  /** Stepping a month forward and back (or back and forward) returns to the same month. */
  lemma MonthRoundTrip(y: int, m: int)
    requires 0 <= m < 12
    ensures var n := MonthAfter(y, m); MonthBefore(n.0, n.1) == (y, m)
    ensures var p := MonthBefore(y, m); MonthAfter(p.0, p.1) == (y, m)
  {
    var n := MonthAfter(y, m);
    var p := MonthBefore(n.0, n.1);
    assert (p.0 - y) * 12 == m - p.1;
    var q := MonthBefore(y, m);
    var r := MonthAfter(q.0, q.1);
    assert (r.0 - y) * 12 == m - r.1;
  }

  /** `getMonthName`: the English month name, undefined outside 0..11. */
  function GetMonthName(month: int): (name: Option<string>)
    ensures name.Some? <==> 0 <= month < 12
  {
    var months := ["January", "February", "March", "April", "May", "June",
                   "July", "August", "September", "October", "November", "December"];
    if 0 <= month < |months| then Some(months[month]) else None
  }

  /** Different months have different names. */
  lemma MonthNamesDistinct(a: int, b: int)
    requires 0 <= a < 12 && 0 <= b < 12 && a != b
    ensures GetMonthName(a) != GetMonthName(b)
  {
  }

  /** `getDaysInMonth`: the date of `new Date(year, month + 1, 0)`, the length of month
      `month` once carried into the year. */
  function GetDaysInMonth(year: int, month: int): (n: int)
    ensures var ym := NormalizeMonth(year, month); n == DaysInMonth(ym.0, ym.1)
    ensures 28 <= n <= 31
  {
    LastDayOfMonth(year, month);
    MakeDate(year, month + 1, 0).day
  }

  /** For a month in 0..11 the count is the Gregorian length: February has 29 days exactly in
      leap years, and every other month 30 or 31. */
  lemma DaysInMonthGregorian(year: int, month: int)
    requires 0 <= month < 12
    ensures month == 1 ==> (GetDaysInMonth(year, month) == 29 <==> IsLeapYear(year))
    ensures month == 1 ==> 28 <= GetDaysInMonth(year, month) <= 29
    ensures month != 1 ==> 30 <= GetDaysInMonth(year, month) <= 31
  {
    NormalizeUnique(year, month, year, month);
  }

  /** `getFirstDayOfMonth`: the weekday (0 = Sunday) of `new Date(year, month, 1)`. */
  function GetFirstDayOfMonth(year: int, month: int): (w: int)
    ensures 0 <= w < 7
    ensures var ym := NormalizeMonth(year, month); w == Weekday(Date(ym.0, ym.1, 1))
  {
    FirstOfMonth(year, month);
    Weekday(MakeDate(year, month, 1))
  }

  // ---------------------------------------------------------------- day lists and badges

  /** `getOrdersForDate`: the orders shipping on exactly `dateStr`, in list order. */
  function GetOrdersForDate(orders: seq<Order>, dateStr: string): (r: seq<Order>)
    ensures |r| <= |orders|
    ensures forall o :: o in r <==> o in orders && o.shippingDate == dateStr
    ensures forall k :: 0 <= k < |r| ==> r[k].shippingDate == dateStr
  {
    if orders == [] then []
    else
      var rest := GetOrdersForDate(orders[1..], dateStr);
      if orders[0].shippingDate == dateStr then [orders[0]] + rest else rest
  }

  /** The filter keeps list order: filtering a concatenation concatenates the filtered parts. */
  lemma {:induction false} OrdersForDateKeepsOrder(a: seq<Order>, b: seq<Order>, dateStr: string)
    ensures GetOrdersForDate(a + b, dateStr) == GetOrdersForDate(a, dateStr) + GetOrdersForDate(b, dateStr)
  {
    if a == [] {
      assert a + b == b;
    } else {
      assert (a + b)[1..] == a[1..] + b;
      OrdersForDateKeepsOrder(a[1..], b, dateStr);
    }
  }

  /** Within one month of a four-digit year, an order lands in at most one day's list. */
  lemma DayListsDisjoint(orders: seq<Order>, year: int, month: int, d1: int, d2: int)
    requires Valid(Date(year, month, d1)) && Valid(Date(year, month, d2)) && 1000 <= year <= 9999
    requires d1 != d2
    ensures forall o :: o in GetOrdersForDate(orders, DateKey(Date(year, month, d1)))
                        ==> o !in GetOrdersForDate(orders, DateKey(Date(year, month, d2)))
  {
    DateKeyOrder(Date(year, month, d1), Date(year, month, d2));
  }

  /** `getStatusClass`: the badge class of a status; unknown statuses get none. */
  function GetStatusClass(status: Status): (c: string)
    ensures c == "" <==> status.OtherStatus?
  {
    match status
    case Deposit => "status-deposit"
    case ReadyToShip => "status-ready"
    case Shipped => "status-shipped"
    case OtherStatus(_) => ""
  }

  /** The three known statuses get three different classes. */
  lemma StatusClassesDistinct(a: Status, b: Status)
    requires !a.OtherStatus? && !b.OtherStatus? && a != b
    ensures GetStatusClass(a) != GetStatusClass(b)
  {
  }

  /** The suffix `truncate` appends. The source file holds the UTF-8 bytes of an ellipsis read
      once more as UTF-8 text: three characters, U+00E2 U+20AC U+00A6. */
  const Ellipsis: string := "\U{E2}\U{20AC}\U{A6}"

  /** `truncate`: the text when it fits, else its first `maxLength - 1` characters (none when
      that is negative, as `substr` does) followed by the ellipsis. */
  function Truncate(text: string, maxLength: int): (r: string)
    ensures |text| <= maxLength ==> r == text
    ensures |text| > maxLength ==> |r| >= |Ellipsis| && r[|r| - |Ellipsis|..] == Ellipsis
    ensures |text| > maxLength ==> var kept := r[..|r| - |Ellipsis|];
                                   |kept| == (if maxLength < 1 then 0 else maxLength - 1) && kept == text[..|kept|]
  {
    if |text| <= maxLength then text
    else
      var keep := if maxLength - 1 < 0 then 0 else maxLength - 1;
      text[..keep] + Ellipsis
  }

  /** With room for at least one character, a shortened text keeps `maxLength - 1` characters and
      gains the three-character suffix, so it is two characters longer than `maxLength` (a customer
      name cut at 12 shows as 14 characters). Truncating again changes nothing. */
  lemma TruncateLength(text: string, maxLength: int)
    ensures maxLength >= 1 && |text| > maxLength ==> |Truncate(text, maxLength)| == maxLength + 2
    ensures maxLength >= 1 ==> |Truncate(text, maxLength)| <= maxLength + 2
    ensures Truncate(Truncate(text, maxLength), maxLength) == Truncate(text, maxLength)
  {
    var r := Truncate(text, maxLength);
    if |text| > maxLength {
      var keep := if maxLength - 1 < 0 then 0 else maxLength - 1;
      assert r == text[..keep] + Ellipsis;
      assert r[..keep] == text[..keep];
    }
  }

  /** One order badge: status class, order id and truncated customer name. */
  datatype Badge = Badge(statusClass: string, orderId: string, customer: string)

  /** A grid cell: a leading blank, or a day with its badges and the "+N more" count. */
  datatype Cell = Blank | DayCell(day: int, date: string, isToday: bool, badges: seq<Badge>, more: Option<int>)

  function BadgeOf(order: Order): Badge
  {
    Badge(GetStatusClass(order.status), order.id, Truncate(order.customerName, 12))
  }

  /** `map` of `BadgeOf` over a list of orders. */
  function BadgesOf(os: seq<Order>): (r: seq<Badge>)
    ensures |r| == |os| && forall k :: 0 <= k < |os| ==> r[k] == BadgeOf(os[k])
  {
    if os == [] then [] else [BadgeOf(os[0])] + BadgesOf(os[1..])
  }

  /** The badges of a day: the first three orders, and the number left over when there are
      more than three. */
  function DayBadges(dayOrders: seq<Order>): (r: (seq<Badge>, Option<int>))
    ensures |r.0| == if |dayOrders| < 3 then |dayOrders| else 3
    ensures forall k :: 0 <= k < |r.0| ==> r.0[k].orderId == dayOrders[k].id
    ensures r.1.Some? <==> |dayOrders| > 3
    ensures r.1.Some? ==> r.1.value >= 1 && |r.0| + r.1.value == |dayOrders|
  {
    var shown := if |dayOrders| < 3 then dayOrders else dayOrders[..3];
    (BadgesOf(shown),
     if |dayOrders| > 3 then Some(|dayOrders| - 3) else None)
  }

  /** What one pass of `renderDays`'s day loop draws: the date string, the day's orders, the
      today flag and the badges of day `day` of month `month` of `year`. */
  function DayCellFor(orders: seq<Order>, year: int, month: int, day: int, today: Date): (c: Cell)
    ensures c.DayCell? && c.day == day && c.date == DateKey(Date(year, month, day))
    ensures c.isToday <==> today == Date(year, month, day)
    ensures (c.badges, c.more) == DayBadges(GetOrdersForDate(orders, c.date))
  {
    var dateStr := DateKey(Date(year, month, day));
    var shown := DayBadges(GetOrdersForDate(orders, dateStr));
    var isCurrentMonth := today.year == year && today.month == month;
    DayCell(day, dateStr, isCurrentMonth && today.day == day, shown.0, shown.1)
  }

  /** `DayCellFor` as a function of the day alone. */
  function DayCellsOf(orders: seq<Order>, year: int, month: int, today: Date): (cellOf: int -> Cell)
    ensures forall day :: cellOf(day) == DayCellFor(orders, year, month, day, today)
  {
    day => DayCellFor(orders, year, month, day, today)
  }

  /** The cell of day `day` sits in the column of its weekday: index modulo 7 is the weekday. */
  lemma DayColumn(year: int, month: int, day: int)
    requires Valid(Date(year, month, day))
    ensures (GetFirstDayOfMonth(year, month) + day - 1) % 7 == Weekday(Date(year, month, day))
  {
    FirstDayOfValidMonth(year, month);
    WeekdayAfter(Date(year, month, 1), Date(year, month, day), day - 1);
  }

  /** For a month in 0..11 the first day's column is the weekday of its 1st. */
  lemma FirstDayOfValidMonth(year: int, month: int)
    requires 0 <= month < 12
    ensures GetFirstDayOfMonth(year, month) == Weekday(Date(year, month, 1))
  {
    NormalizeUnique(year, month, year, month);
  }

  /** `k` days after a date the weekday has moved on by `k`, modulo 7. */
  lemma WeekdayAfter(a: Date, b: Date, k: int)
    requires Valid(a) && Valid(b) && Ord(b) == Ord(a) + k
    ensures (Weekday(a) + k) % 7 == Weekday(b)
  {
    ColumnShift(Ord(a) + 6, k, Weekday(a), Weekday(b));
  }

  lemma ColumnShift(x: int, k: int, w: int, v: int)
    requires w == x % 7 && v == (x + k) % 7
    ensures (w + k) % 7 == v
  {
    Mod7Unique(x + k, x / 7 + (w + k) / 7, (w + k) % 7);
  }

  // ---------------------------------------------------------------- the component

  class CalendarComponent {
    var currentYear: int
    var currentMonth: int
    var orders: seq<Order>

    predicate Valid()
      reads this
    {
      0 <= currentMonth < 12
    }

    /** A new calendar shows the month of `today` with no orders loaded. */
    constructor (today: Date)
      requires Dates.Valid(today)
      ensures Valid() && currentYear == today.year && currentMonth == today.month && orders == []
    {
      currentYear := today.year;
      currentMonth := today.month;
      orders := [];
    }

    /** `loadOrders`: the displayed month's orders (`fetched`, from the order store) replace
        the loaded ones; the month does not change. */
    method LoadOrders(fetched: seq<Order>)
      modifies this
      ensures orders == fetched && currentYear == old(currentYear) && currentMonth == old(currentMonth)
    {
      orders := fetched;
    }

    /** `previousMonth`: one month back, December of the year before after January; then the
        month's orders (`fetched`, from the order store) are loaded. */
    method PreviousMonth(fetched: seq<Order>)
      requires Valid()
      modifies this
      ensures Valid()
      ensures (currentYear, currentMonth) == MonthBefore(old(currentYear), old(currentMonth))
      ensures orders == fetched
    {
      currentMonth := currentMonth - 1;
      if currentMonth < 0 {
        currentMonth := 11;
        currentYear := currentYear - 1;
      }
      orders := fetched;
    }

    /** `nextMonth`: one month on, January of the next year after December; then the month's
        orders are loaded. */
    method NextMonth(fetched: seq<Order>)
      requires Valid()
      modifies this
      ensures Valid()
      ensures (currentYear, currentMonth) == MonthAfter(old(currentYear), old(currentMonth))
      ensures orders == fetched
    {
      currentMonth := currentMonth + 1;
      if currentMonth > 11 {
        currentMonth := 0;
        currentYear := currentYear + 1;
      }
      orders := fetched;
    }

    /** The cell layout of `renderDays`: `firstDay` blanks, then one cell per day of the month
        in order, each as `DayCellFor` describes. */
    method RenderDays(today: Date) returns (cells: seq<Cell>)
      requires Valid()
      ensures Grid(cells, GetFirstDayOfMonth(currentYear, currentMonth), GetDaysInMonth(currentYear, currentMonth),
                   DayCellsOf(orders, currentYear, currentMonth, today))
    {
      var daysInMonth := GetDaysInMonth(currentYear, currentMonth);
      var firstDay := GetFirstDayOfMonth(currentYear, currentMonth);
      cells := LayOut(firstDay, daysInMonth, DayCellsOf(orders, currentYear, currentMonth, today));
    }
  }

  /** `firstDay` blanks followed by the cells of days 1 to `daysInMonth`. */
  predicate Grid(cells: seq<Cell>, firstDay: int, daysInMonth: int, cellOf: int -> Cell)
  {
    0 <= firstDay && 0 <= daysInMonth && |cells| == firstDay + daysInMonth
    && (forall i :: 0 <= i < firstDay ==> cells[i] == Blank)
    && (forall d :: 1 <= d <= daysInMonth ==> cells[firstDay + d - 1] == cellOf(d))
  }

  /** The two loops of `renderDays`, with the day cell drawn by `cellOf`. */
  method LayOut(firstDay: int, daysInMonth: int, cellOf: int -> Cell) returns (cells: seq<Cell>)
    requires 0 <= firstDay && 0 <= daysInMonth
    ensures Grid(cells, firstDay, daysInMonth, cellOf)
  {
    cells := [];
    for i := 0 to firstDay
      invariant |cells| == i && forall k :: 0 <= k < i ==> cells[k] == Blank
    {
      cells := cells + [Blank];
    }
    for day := 1 to daysInMonth + 1
      invariant |cells| == firstDay + day - 1
      invariant forall k :: 0 <= k < firstDay ==> cells[k] == Blank
      invariant forall d :: 1 <= d < day ==> cells[firstDay + d - 1] == cellOf(d)
    {
      cells := cells + [cellOf(day)];
    }
  }

  /** The grid never needs more than six rows: at most 6 blanks and 31 days. */
  lemma GridFitsSixRows(year: int, month: int)
    ensures GetFirstDayOfMonth(year, month) + GetDaysInMonth(year, month) <= 37
  {
  }
}
