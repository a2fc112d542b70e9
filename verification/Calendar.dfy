/**
 Calendar windows of lib/ai-quota.js over the UTC date algorithms of ECMA-262 (section 21.4.1).
 Instants are milliseconds since 1970-01-01T00:00Z and, as `Date.now()` gives them, not negative.
 */
module Calendar {
  import opened Arith

  const MS_SECOND := 1000
  const MS_MINUTE := 60000
  const MS_HOUR := 3600000
  const MS_DAY := 86400000
  const MS_WEEK := 604800000

  // ---------------------------------------------------------------- dates

  predicate LeapYear(y: int) {
    y % 4 == 0 && (y % 100 != 0 || y % 400 == 0)
  }

  /** Number of the first day of year y. */
  function DayFromYear(y: int): int {
    365 * (y - 1970) + (y - 1969) / 4 - (y - 1901) / 100 + (y - 1601) / 400
  }

  /** Days before month m (0..12) in a year. */
  function MonthStart(m: int, leap: bool): int
    requires 0 <= m <= 12
  {
    var l := if leap then 1 else 0;
    [0, 31, 59 + l, 90 + l, 120 + l, 151 + l, 181 + l, 212 + l, 243 + l, 273 + l, 304 + l, 334 + l, 365 + l][m]
  }

  lemma YearLength(y: int)
    ensures DayFromYear(y + 1) == DayFromYear(y) + MonthStart(12, LeapYear(y))
  {
    LeapDay(y, 4, 1968);
    LeapDay(y, 100, 1900);
    LeapDay(y, 400, 1600);
  }

  /** Counting the multiples of k before a year, from a base that is one. */
  lemma LeapDay(y: int, k: int, base: int)
    requires k > 0 && base % k == 0
    ensures (y + 1 - (base + 1)) / k == (y - (base + 1)) / k + (if y % k == 0 then 1 else 0)
  {
    var q, r := y / k, y % k;
    var b := base / k;
    MulDistrib(q, -b, k);
    MulDistrib(q - b, -1, k);
    DivModUnique(y - base, k, q - b, r);
    if r == 0 {
      DivModUnique(y - base - 1, k, q - b - 1, k - 1);
    } else {
      DivModUnique(y - base - 1, k, q - b, r - 1);
    }
  }

  /** The year, from y on, that day d lies in (YearFromTime). */
  function YearFrom(d: int, y: int): (r: int)
    requires DayFromYear(y) <= d
    ensures y <= r && DayFromYear(r) <= d < DayFromYear(r + 1)
    decreases d - DayFromYear(y)
  {
    YearLength(y);
    if DayFromYear(y + 1) <= d then YearFrom(d, y + 1) else y
  }

  function Day(t: int): int {
    t / MS_DAY
  }

  /** getUTCFullYear */
  function YearOf(t: nat): int {
    YearFrom(Day(t), 1970)
  }

  /** The month a day of the year lies in, from month m on (MonthFromTime). */
  function MonthFrom(diy: int, leap: bool, m: int): (r: int)
    requires 0 <= m <= 11 && MonthStart(m, leap) <= diy < MonthStart(12, leap)
    ensures m <= r <= 11 && MonthStart(r, leap) <= diy < MonthStart(r + 1, leap)
    decreases 12 - m
  {
    if m < 11 && MonthStart(m + 1, leap) <= diy then MonthFrom(diy, leap, m + 1) else m
  }

  /** getUTCMonth, 0..11 */
  function MonthOf(t: nat): int {
    var y := YearOf(t);
    YearLength(y);
    MonthFrom(Day(t) - DayFromYear(y), LeapYear(y), 0)
  }

  /** getUTCDate, 1..31 */
  function DateOf(t: nat): int {
    Day(t) - DayFromYear(YearOf(t)) - MonthStart(MonthOf(t), LeapYear(YearOf(t))) + 1
  }

  /** getUTCHours */
  function HoursOf(t: nat): int {
    (t / MS_HOUR) % 24
  }

  /** getUTCDay, 0 = Sunday */
  function WeekDay(t: int): int {
    (Day(t) + 4) % 7
  }

  /** Day number of the first of a month; the month may be out of 0..11 (MakeDay). */
  function MonthDay(year: int, month: int): int {
    var y := year + month / 12;
    DayFromYear(y) + MonthStart(month % 12, LeapYear(y))
  }

  /** Date.UTC for years from 100 on. */
  function DateUTC(year: int, month: int, date: int, hours: int): int {
    (MonthDay(year, month) + date - 1) * MS_DAY + hours * MS_HOUR
  }

  // ---------------------------------------------------------------- windows

  datatype Period = Second | Minute | Hour | OneDay | Week | Month

  /** The language's `%`: the remainder has the sign of the dividend. */
  function Rem(a: int, b: int): int
    requires b > 0
  {
    if a >= 0 then a % b else -((-a) % b)
  }

  /** `_windowStartFor` */
  function WindowStart(p: Period, now: nat): int {
    match p
    case Second => now - Rem(now, MS_SECOND)
    case Minute => now - Rem(now, MS_MINUTE)
    case Hour => DateUTC(YearOf(now), MonthOf(now), DateOf(now), HoursOf(now))
    case OneDay => DateUTC(YearOf(now), MonthOf(now), DateOf(now), 0)
    case Week =>
      var dayMid := DateUTC(YearOf(now), MonthOf(now), DateOf(now), 0);
      dayMid - (WeekDay(dayMid) + 6) % 7 * MS_DAY
    case Month => DateUTC(YearOf(now), MonthOf(now), 1, 0)
  }

  /** `_resetsAtFor`; for months the window start is never negative. */
  function ResetsAt(p: Period, windowStart: int): int
    requires p == Month ==> windowStart >= 0
  {
    match p
    case Second => windowStart + MS_SECOND
    case Minute => windowStart + MS_MINUTE
    case Hour => windowStart + MS_HOUR
    case OneDay => windowStart + MS_DAY
    case Week => windowStart + MS_WEEK
    case Month => DateUTC(YearOf(windowStart), MonthOf(windowStart) + 1, 1, 0)
  }

  /** Reading a date and building it again gives the start of its day. */
  lemma DateRoundTrip(t: nat)
    ensures DateUTC(YearOf(t), MonthOf(t), DateOf(t), 0) == Day(t) * MS_DAY
    ensures 0 <= Day(t) * MS_DAY <= t < Day(t) * MS_DAY + MS_DAY
    ensures 1 <= DateOf(t) <= 31
  {
    hide YearFrom, MonthFrom, DayFromYear;
    MonthLength(MonthOf(t), LeapYear(YearOf(t)));
  }

  lemma MonthLength(m: int, leap: bool)
    requires 0 <= m <= 11
    ensures 28 <= MonthStart(m + 1, leap) - MonthStart(m, leap) <= 31
  {
  }

  /** The year and month of a day are determined by the interval they name. */
  lemma {:induction false} YearUnique(d: int, from: int, y: int)
    requires DayFromYear(from) <= d && from <= y && DayFromYear(y) <= d < DayFromYear(y + 1)
    ensures YearFrom(d, from) == y
    decreases y - from
  {
    hide DayFromYear;
    if from < y {
      YearsGrow(from + 1, y);
      YearUnique(d, from + 1, y);
    }
  }

  lemma {:induction false} YearsGrow(a: int, b: int)
    requires a <= b
    ensures DayFromYear(a) <= DayFromYear(b)
    decreases b - a
  {
    if a < b {
      YearLength(a);
      YearsGrow(a + 1, b);
    }
  }

  lemma {:induction false} MonthUnique(diy: int, leap: bool, from: int, m: int)
    requires 0 <= from <= m <= 11
    requires MonthStart(from, leap) <= diy && MonthStart(m, leap) <= diy < MonthStart(m + 1, leap)
    ensures diy < MonthStart(12, leap) && MonthFrom(diy, leap, from) == m
    decreases m - from
  {
    MonthsGrow(m + 1, 12, leap);
    if from < m {
      MonthsGrow(from + 1, m, leap);
      MonthUnique(diy, leap, from + 1, m);
    }
  }

  lemma MonthsGrow(a: int, b: int, leap: bool)
    requires 0 <= a <= b <= 12
    ensures MonthStart(a, leap) <= MonthStart(b, leap)
  {
  }

  /** The month after (y, m) begins where (y, m) ends, also across the year's end. */
  lemma NextMonth(y: int, m: int)
    requires 0 <= m <= 11
    ensures MonthDay(y, m) == DayFromYear(y) + MonthStart(m, LeapYear(y))
    ensures MonthDay(y, m + 1) == DayFromYear(y) + MonthStart(m + 1, LeapYear(y))
    ensures MonthDay(y, m) < MonthDay(y, m + 1)
  {
    hide DayFromYear, LeapYear, MonthStart, MonthDay;
    InYear(y, m);
    MonthLength(m, LeapYear(y));
    if m < 11 {
      InYear(y, m + 1);
    } else {
      TurnOfYear(y);
      InYear(y + 1, 0);
      YearLength(y);
      assert MonthStart(0, LeapYear(y + 1)) == 0 by { JanuaryFirst(LeapYear(y + 1)); }
    }
  }

  lemma InYear(y: int, m: int)
    requires 0 <= m <= 11
    ensures MonthDay(y, m) == DayFromYear(y) + MonthStart(m, LeapYear(y))
  {
    hide DayFromYear, LeapYear, MonthStart;
    assert m / 12 == 0 && m % 12 == m;
  }

  lemma JanuaryFirst(leap: bool)
    ensures MonthStart(0, leap) == 0
  {
  }

  lemma TurnOfYear(y: int)
    ensures MonthDay(y, 12) == MonthDay(y + 1, 0)
  {
    hide DayFromYear, LeapYear, MonthStart;
  }

  /** An instant lies in month (y, m) exactly when its day is in the month's interval. */
  lemma MonthIsInterval(t: nat, y: int, m: int)
    requires y >= 1970 && 0 <= m <= 11
    ensures YearOf(t) == y && MonthOf(t) == m <==> MonthDay(y, m) <= Day(t) < MonthDay(y, m + 1)
    ensures YearOf(t) >= 1970 && 0 <= MonthOf(t) <= 11
  {
    hide YearFrom, MonthFrom;
    NextMonth(y, m);
    var d := Day(t);
    YearLength(y);
    MonthsGrow(0, m, LeapYear(y));
    MonthsGrow(m + 1, 12, LeapYear(y));
    if MonthDay(y, m) <= d < MonthDay(y, m + 1) {
      YearsGrow(1970, y);
      YearUnique(d, 1970, y);
      MonthUnique(d - DayFromYear(y), LeapYear(y), 0, m);
    }
  }

  lemma DayIsInterval(t: int, d: int)
    ensures Day(t) == d <==> d * MS_DAY <= t < (d + 1) * MS_DAY
  {
  }

  // ---------------------------------------------------------------- the windows tile time

  lemma MonthWindow(now: nat)
    ensures var y, m := YearOf(now), MonthOf(now);
            var ws := WindowStart(Month, now);
            && ws == MonthDay(y, m) * MS_DAY && ws >= 0
            && ResetsAt(Month, ws) == MonthDay(y, m + 1) * MS_DAY
            && ws <= now < ResetsAt(Month, ws)
  {
    hide YearOf, MonthOf, MonthDay;
    var y, m := YearOf(now), MonthOf(now);
    MonthIsInterval(now, 1970, 0);
    MonthIsInterval(now, y, m);
    DayBetween(now, MonthDay(y, m), MonthDay(y, m + 1));
    FirstMonth(y, m);
    FirstOfMonth(y, m);
  }

  /** Reading the date of a month's first instant names that month. */
  lemma FirstOfMonth(y: int, m: int)
    requires y >= 1970 && 0 <= m <= 11
    ensures var t := MonthDay(y, m) * MS_DAY; t >= 0 && YearOf(t) == y && MonthOf(t) == m
  {
    hide YearOf, MonthOf, MonthDay;
    FirstMonth(y, m);
    NextMonth(y, m);
    var t := MonthDay(y, m) * MS_DAY;
    DayIsInterval(t, MonthDay(y, m));
    MonthIsInterval(t, y, m);
  }

  lemma FirstMonth(y: int, m: int)
    requires y >= 1970 && 0 <= m <= 11
    ensures MonthDay(y, m) >= 0
  {
    NextMonth(y, m);
    YearsGrow(1970, y);
    MonthsGrow(0, m, LeapYear(y));
  }

  lemma HourWindow(now: nat)
    ensures WindowStart(Hour, now) == now / MS_HOUR * MS_HOUR
  {
    hide YearOf, MonthOf, DateOf, MonthDay;
    DateRoundTrip(now);
    assert now / MS_HOUR == Day(now) * 24 + (now / MS_HOUR) % 24;
  }

  lemma WeekWindow(now: nat)
    ensures var ws := WindowStart(Week, now);
            && ws == (Day(now) - (Day(now) + 3) % 7) * MS_DAY
            && WeekDay(ws) == 1
  {
    hide YearOf, MonthOf, DateOf, MonthDay;
    DateRoundTrip(now);
    var d := Day(now);
    var dayMid := d * MS_DAY;
    DayIsInterval(dayMid, d);
    Monday(d);
    var ws := WindowStart(Week, now);
    DayIsInterval(ws, d - (d + 3) % 7);
  }

  /** Days since Monday, counted from the day of the week. */
  lemma Monday(d: int)
    ensures ((d + 4) % 7 + 6) % 7 == (d + 3) % 7
    ensures (d - (d + 3) % 7 + 4) % 7 == 1
  {
  }

  /** Start of the window of a non-month period, as arithmetic on now. */
  lemma WindowArithmetic(p: Period, now: nat)
    requires p != Month
    ensures var ws := WindowStart(p, now);
            match p
            case Second => ws == now / MS_SECOND * MS_SECOND
            case Minute => ws == now / MS_MINUTE * MS_MINUTE
            case Hour => ws == now / MS_HOUR * MS_HOUR
            case OneDay => ws == Day(now) * MS_DAY
            case Week => ws == (Day(now) - (Day(now) + 3) % 7) * MS_DAY
            case Month => true
  {
    hide YearOf, MonthOf, DateOf, MonthDay;
    match p
    case Second =>
    case Minute =>
    case Hour => HourWindow(now);
    case OneDay => DateRoundTrip(now);
    case Week => WeekWindow(now);
    case Month =>
  }

  /** Every instant lies in its window; month windows need no precondition of their own. */
  lemma WindowContains(p: Period, now: nat)
    ensures p == Month ==> WindowStart(p, now) >= 0
    ensures WindowStart(p, now) <= now < ResetsAt(p, WindowStart(p, now))
  {
    hide WindowStart;
    if p == Month {
      MonthWindow(now);
    } else {
      WindowArithmetic(p, now);
    }
  }

  /** When the window of `now` ends. */
  function WindowEnd(p: Period, now: nat): int {
    WindowContains(p, now);
    ResetsAt(p, WindowStart(p, now))
  }

  /** Windows do not overlap: every instant between a window's start and its reset has that window. */
  lemma WindowUnique(p: Period, now: nat, later: nat)
    requires WindowStart(p, now) <= later < WindowEnd(p, now)
    ensures WindowStart(p, later) == WindowStart(p, now)
  {
    hide WindowStart, YearOf, MonthOf, MonthDay;
    WindowContains(p, now);
    if p == Month {
      MonthUniqueWindow(now, later);
    } else if p == Week {
      WeekUniqueWindow(now, later);
    } else {
      PlainWindow(p, now);
      PlainWindow(p, later);
      SameMultiple(now, later, Width(p));
    }
  }

  /** The length of every window but the month's. */
  function Width(p: Period): nat
    requires p != Month
  {
    match p
    case Second => MS_SECOND
    case Minute => MS_MINUTE
    case Hour => MS_HOUR
    case OneDay => MS_DAY
    case Week => MS_WEEK
  }

  lemma PlainWindow(p: Period, now: nat)
    requires p != Month && p != Week
    ensures WindowStart(p, now) == now / Width(p) * Width(p)
    ensures WindowEnd(p, now) == WindowStart(p, now) + Width(p)
  {
    hide WindowStart;
    WindowArithmetic(p, now);
  }

  lemma SameMultiple(a: int, b: int, k: nat)
    requires k > 0 && a / k * k <= b < a / k * k + k
    ensures b / k * k == a / k * k
  {
    DivModUnique(b, k, a / k, b - a / k * k);
  }

  lemma WeekUniqueWindow(now: nat, later: nat)
    requires WindowStart(Week, now) <= later < WindowStart(Week, now) + MS_WEEK
    ensures WindowStart(Week, later) == WindowStart(Week, now)
  {
    hide WindowStart;
    WeekWindow(now);
    WeekWindow(later);
    hide Day;
    var d := Day(now);
    var monday := d - (d + 3) % 7;
    DayBetween(later, monday, monday + 7);
    SameMonday(d, Day(later));
  }

  lemma SameMonday(d: int, e: int)
    requires var monday := d - (d + 3) % 7; monday <= e < monday + 7
    ensures e - (e + 3) % 7 == d - (d + 3) % 7
  {
    DivModUnique(e + 3, 7, (d + 3) / 7, e - (d - (d + 3) % 7));
  }

  lemma MonthUniqueWindow(now: nat, later: nat)
    requires WindowStart(Month, now) >= 0
    requires WindowStart(Month, now) <= later < ResetsAt(Month, WindowStart(Month, now))
    ensures WindowStart(Month, later) == WindowStart(Month, now)
  {
    hide WindowStart, ResetsAt, YearOf, MonthOf, MonthDay;
    MonthIsInterval(now, 1970, 0);
    MonthWindow(now);
    MonthWindow(later);
    var y, m := YearOf(now), MonthOf(now);
    DayBetween(later, MonthDay(y, m), MonthDay(y, m + 1));
    MonthIsInterval(later, y, m);
  }

  lemma DayBetween(t: int, a: int, b: int)
    ensures a * MS_DAY <= t < b * MS_DAY <==> a <= Day(t) < b
  {
  }

  /** Windows leave no gap: the reset of one window is the start of the next. */
  lemma WindowsAbut(p: Period, now: nat)
    ensures WindowEnd(p, now) > now
    ensures WindowStart(p, WindowEnd(p, now)) == WindowEnd(p, now)
  {
    hide WindowStart, YearOf, MonthOf, MonthDay;
    WindowContains(p, now);
    var r := ResetsAt(p, WindowStart(p, now));
    if p == Month {
      MonthsAbut(now);
    } else if p == Week {
      WeeksAbut(now);
    } else {
      PlainWindow(p, now);
      PlainWindow(p, r);
      NextMultiple(now, Width(p));
    }
  }

  lemma NextMultiple(n: int, k: nat)
    requires k > 0
    ensures (n / k * k + k) / k * k == n / k * k + k
  {
    MulDistrib(n / k, 1, k);
    DivOfMultiple(k, n / k + 1);
  }

  lemma WeeksAbut(now: nat)
    ensures var r := WindowStart(Week, now) + MS_WEEK;
            r > now && WindowStart(Week, r) == r
  {
    hide WindowStart;
    WeekWindow(now);
    var d := Day(now);
    var monday := d - (d + 3) % 7;
    var r := (monday + 7) * MS_DAY;
    DayIsInterval(now, d);
    DayIsInterval(r, monday + 7);
    WeekWindow(r);
    NextMonday(d);
  }

  lemma NextMonday(d: int)
    ensures d - (d + 3) % 7 + 7 > d && (d - (d + 3) % 7 + 7 + 3) % 7 == 0
  {
  }

  lemma MonthsAbut(now: nat)
    requires WindowStart(Month, now) >= 0
    ensures var r := ResetsAt(Month, WindowStart(Month, now));
            r > now && WindowStart(Month, r) == r
  {
    hide WindowStart, ResetsAt, YearOf, MonthOf, MonthDay;
    MonthIsInterval(now, 1970, 0);
    MonthWindow(now);
    var r := ResetsAt(Month, WindowStart(Month, now));
    MonthWindow(r);
    MonthBoundary(r, YearOf(now), MonthOf(now));
  }

  lemma MonthBoundary(r: nat, y: int, m: int)
    requires y >= 1970 && 0 <= m <= 11 && r == MonthDay(y, m + 1) * MS_DAY
    ensures MonthDay(YearOf(r), MonthOf(r)) == MonthDay(y, m + 1)
  {
    hide YearOf, MonthOf, MonthDay;
    if m < 11 {
      FirstOfMonth(y, m + 1);
    } else {
      TurnOfYear(y);
      FirstOfMonth(y + 1, 0);
    }
  }

  /** Weeks begin on Mondays. */
  lemma WeeksBeginOnMonday(now: nat)
    ensures WeekDay(WindowStart(Week, now)) == 1
  {
    WeekWindow(now);
  }

  /** The second and minute windows use the language's remainder: for an instant before 1970 they
      contain it only when it is a whole second or minute. */
  lemma RemainderWindowExactly(now: int, width: int)
    requires width > 0
    ensures var start := now - Rem(now, width);
            start <= now < start + width <==> now >= 0 || (-now) % width == 0
  {
  }
}
