/**
 The month and week windows of lib/ai-quota.js against a calendar written out on its own: month lengths
 one by one from January 1970 on, and Mondays from 5 January 1970 on.
 */
module CalendarDates {
  import opened Arith
  import opened Calendar

  /** Days of month n, counted from January 1970 as month 0. */
  function DaysIn(n: nat): nat {
    var y, m := 1970 + n / 12, n % 12;
    if m == 1 then if (y % 4 == 0 && y % 100 != 0) || y % 400 == 0 then 29 else 28
    else if m == 3 || m == 5 || m == 8 || m == 10 then 30
    else 31
  }

  /** Days from 1970-01-01 to the first of month n. */
  function FirstDay(n: nat): nat {
    if n == 0 then 0 else FirstDay(n - 1) + DaysIn(n - 1)
  }

  lemma LengthsAgree(n: nat)
    ensures var y, m := 1970 + n / 12, n % 12;
            MonthStart(m + 1, LeapYear(y)) - MonthStart(m, LeapYear(y)) == DaysIn(n)
  {
  }

  lemma {:induction false} FirstDayIs(n: nat)
    ensures FirstDay(n) == MonthDay(1970 + n / 12, n % 12)
  {
    hide MonthDay;
    if n == 0 {
      Epoch();
    } else {
      var k := n - 1;
      var y, m := 1970 + k / 12, k % 12;
      FirstDayIs(k);
      LengthsAgree(k);
      NextMonth(y, m);
      if m == 11 {
        TurnOfYear(y);
        assert n / 12 == k / 12 + 1 && n % 12 == 0;
      } else {
        assert n / 12 == k / 12 && n % 12 == m + 1;
      }
    }
  }

  lemma Epoch()
    ensures MonthDay(1970, 0) == 0
  {
  }

  /** Number of the month an instant lies in. */
  function MonthNumber(now: nat): int {
    (YearOf(now) - 1970) * 12 + MonthOf(now)
  }

  /** The month windows are the months of the calendar: start, end, year and month of every instant. */
  lemma MonthWindowsExactly(now: nat, n: nat)
    ensures FirstDay(n) * 86400000 <= now < FirstDay(n + 1) * 86400000
            <==> YearOf(now) == 1970 + n / 12 && MonthOf(now) == n % 12
    ensures FirstDay(n) * 86400000 <= now < FirstDay(n + 1) * 86400000
            ==> WindowStart(Month, now) == FirstDay(n) * 86400000 && WindowEnd(Month, now) == FirstDay(n + 1) * 86400000
  {
    hide YearOf, MonthOf, MonthDay, WindowStart;
    var y, m := 1970 + n / 12, n % 12;
    FirstDayIs(n);
    FirstDayIs(n + 1);
    FollowingMonth(n);
    DayBetween(now, FirstDay(n), FirstDay(n + 1));
    MonthIsInterval(now, y, m);
    MonthWindow(now);
  }

  lemma FollowingMonth(n: nat)
    ensures MonthDay(1970 + n / 12, n % 12 + 1) == MonthDay(1970 + (n + 1) / 12, (n + 1) % 12)
  {
    hide MonthDay;
    if n % 12 == 11 {
      TurnOfYear(1970 + n / 12);
      assert (n + 1) / 12 == n / 12 + 1 && (n + 1) % 12 == 0;
    } else {
      assert (n + 1) / 12 == n / 12 && (n + 1) % 12 == n % 12 + 1;
    }
  }

  /** Every instant lies in some month. */
  lemma SomeMonth(now: nat) returns (n: nat)
    ensures FirstDay(n) * 86400000 <= now < FirstDay(n + 1) * 86400000
    ensures YearOf(now) == 1970 + n / 12 && MonthOf(now) == n % 12
  {
    hide YearOf, MonthOf;
    MonthIsInterval(now, 1970, 0);
    n := MonthNumber(now);
    assert n / 12 == YearOf(now) - 1970 && n % 12 == MonthOf(now);
    MonthWindowsExactly(now, n);
  }

  /** Every window of every period, in milliseconds: its length, and where its starts lie. Weeks start a
      whole number of weeks from 1970-01-05, a Monday. */
  lemma WindowsExactly(p: Period, now: nat)
    ensures WindowStart(p, now) <= now < WindowEnd(p, now)
    ensures match p
            case Second => WindowStart(p, now) % 1000 == 0 && WindowEnd(p, now) == WindowStart(p, now) + 1000
            case Minute => WindowStart(p, now) % 60000 == 0 && WindowEnd(p, now) == WindowStart(p, now) + 60000
            case Hour => WindowStart(p, now) % 3600000 == 0 && WindowEnd(p, now) == WindowStart(p, now) + 3600000
            case OneDay => WindowStart(p, now) % 86400000 == 0 && WindowEnd(p, now) == WindowStart(p, now) + 86400000
            case Week => (WindowStart(p, now) - 345600000) % 604800000 == 0 && WindowEnd(p, now) == WindowStart(p, now) + 604800000
            case Month => exists n: nat ::
              WindowStart(p, now) == FirstDay(n) * 86400000 && WindowEnd(p, now) == FirstDay(n + 1) * 86400000
  {
    hide WindowStart, YearOf, MonthOf;
    WindowContains(p, now);
    if p == Month {
      var n := SomeMonth(now);
      MonthWindowsExactly(now, n);
    } else if p == Week {
      WeekWindow(now);
      WeekLattice(Day(now));
    } else {
      PlainWindow(p, now);
      DivOfMultiple(Width(p), now / Width(p));
    }
  }

  lemma WeekLattice(d: int)
    ensures ((d - (d + 3) % 7) * 86400000 - 345600000) % 604800000 == 0
  {
    var k := (d - (d + 3) % 7 - 4) / 7;
    assert (d - (d + 3) % 7 - 4) % 7 == 0;
    assert (d - (d + 3) % 7) * 86400000 - 345600000 == k * 604800000;
    DivOfMultiple(604800000, k);
  }
}
