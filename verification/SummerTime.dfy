/** The sketch's summer-time formula, and the rule it stands for: Articles 2 and 3 of Directive 2000/84/EC. */
module SummerTime {
  import opened Words

  import opened Calendar

  /** `summertime_EU`; the year has four digits, all fields are normal time. */
  predicate SummertimeEU(year: nat, month: nat, day: nat, hour: nat, tzHours: nat) {
    if month < 3 || month > 10 then false
    else if month > 3 && month < 10 then true
    else
      || (month == 3 && hour + 24 * day >= 1 + tzHours + 24 * (31 - (5 * year / 4 + 4) % 7))
      || (month == 10 && hour + 24 * day < 1 + tzHours + 24 * (31 - (5 * year / 4 + 1) % 7))
  }

  /** `day` is the last Sunday of a month of 31 days, by the weekday rule of the calendar. */
  predicate LastSunday(year: nat, month: nat, day: nat) {
    month < 12 && 25 <= day <= 31 && (DayNumber(year, month, day) + 4) % 7 == 0
  }

  /** Every such month has exactly one. */
  lemma LastSundayUnique(year: nat, month: nat, day: nat)
    requires month < 12
    ensures LastSunday(year, month, day) <==> day == 31 - (DayNumber(year, month, 31) + 4) % 7
  {
    var n := DayNumber(year, month, 31);
    assert DayNumber(year, month, day) == n - (31 - day);
    var w := (n + 4) % 7;
    WeekShift(n + 4, 31 - day);
  }

  lemma WeekShift(n: int, k: int)
    ensures 0 <= k < 7 ==> ((n - k) % 7 == 0 <==> k == n % 7)
  {
    var q, w := n / 7, n % 7;
    assert n - k == 7 * q + (w - k);
    if 0 <= k < 7 && k != w {
      if k < w {
        assert (n - k) % 7 == w - k;
      } else {
        assert n - k == 7 * (q - 1) + (7 + w - k);
        assert (n - k) % 7 == 7 + w - k;
      }
    }
  }

  /** Leap days that the centuries 2100 and 2200 lack, up to the given year; the formula does not know them. */
  function Skipped(year: nat): nat {
    if year < 130 then 0 else if year < 230 then 1 else 2
  }

  /** Day numbers of 31 March and 31 October. */
  lemma EndOfMonths(year: nat)
    requires year < 256
    ensures DayNumber(year, 2, 31) == 365 * year + (year + 2) / 4 + 89 - Skipped(year)
    ensures DayNumber(year, 9, 31) == 365 * year + (year + 2) / 4 + 303 - Skipped(year)
  {
    YearStartClosed(year);
    MonthStarts(Leap(year));
    Centuries(year);
    Step4(year);
  }

  lemma Centuries(year: nat)
    requires year < 256
    ensures (year + 369) / 400 - (year + 69) / 100 == (if year <= 130 then 0 else if year <= 230 then -1 else -2)
    ensures (1970 + year) % 100 == 0 <==> year == 30 || year == 130 || year == 230
    ensures (1970 + year) % 400 == 0 <==> year == 30
  {
  }

  /** The two remainders of the formula are the weekdays of 31 March and 31 October, up to the year 2099. */
  lemma FormulaWeekdays(year: nat)
    requires year < 256
    ensures (5 * (1970 + year) / 4 + 4) % 7 == (DayNumber(year, 2, 31) + 4 + Skipped(year)) % 7
    ensures (5 * (1970 + year) / 4 + 1) % 7 == (DayNumber(year, 9, 31) + 4 + Skipped(year)) % 7
  {
    EndOfMonths(year);
    var q, r := year / 4, year % 4;
    QuarterCycle(year, q, r);
    SameWeekday(365 * year + (year + 2) / 4 + 93, 5 * (1970 + year) / 4 + 4, 208 * q + 52 * r - 339);
    SameWeekday(365 * year + (year + 2) / 4 + 307, 5 * (1970 + year) / 4 + 1, 208 * q + 52 * r - 308);
  }

  lemma QuarterCycle(year: nat, q: nat, r: nat)
    requires q == year / 4 && r == year % 4
    ensures 365 * year + (year + 2) / 4 + 93 == 5 * (1970 + year) / 4 + 4 + 7 * (208 * q + 52 * r - 339)
  {
    assert year == 4 * q + r;
    assert (year + 2) / 4 == q + (r + 2) / 4;
    assert 5 * (1970 + year) / 4 == 5 * q + (9850 + 5 * r) / 4;
  }

  lemma SameWeekday(a: int, b: int, k: int)
    requires a == b + 7 * k
    ensures a % 7 == b % 7
  {
  }

  /** Seconds at 02:00 on a day of a month counted from 0. */
  function TwoOClock(year: nat, month: nat, day: nat): int
    requires month < 12
  {
    SecondsOf(DayNumber(year, month, day), 2, 0, 0)
  }

  /** Up to 2099 the formula is true exactly from 02:00 standard time on the last Sunday of March
      up to 02:00 standard time on the last Sunday of October. */
  lemma AgreesWithCalendar(e: Elements, marchSunday: nat, octoberSunday: nat)
    requires ValidDate(e) && e.year < 130
    requires LastSunday(e.year, 2, marchSunday) && LastSunday(e.year, 9, octoberSunday)
    ensures SummertimeEU(1970 + e.year, e.month, e.day, e.hour, 1)
      <==> TwoOClock(e.year, 2, marchSunday) <= Seconds(e) < TwoOClock(e.year, 9, octoberSunday)
  {
    hide Leap, YearStart, MonthStart, MonthLength, SummertimeEU, SecondsOf, LastSunday;
    FormulaDays(e, marchSunday, octoberSunday);
    MonthBounds(e);
    var n := YearStart(e.year) + DayOfYear(e);
    NotBefore(n, e.hour, e.minute, e.second, DayNumber(e.year, 2, marchSunday));
    NotBefore(n, e.hour, e.minute, e.second, DayNumber(e.year, 9, octoberSunday));
  }

  /** The formula in terms of the last Sundays. */
  lemma FormulaDays(e: Elements, marchSunday: nat, octoberSunday: nat)
    requires e.year < 130
    requires LastSunday(e.year, 2, marchSunday) && LastSunday(e.year, 9, octoberSunday)
    ensures 25 <= marchSunday <= 31 && 25 <= octoberSunday <= 31
    ensures SummertimeEU(1970 + e.year, e.month, e.day, e.hour, 1) <==>
      || 3 < e.month < 10
      || (e.month == 3 && e.hour + 24 * e.day >= 2 + 24 * marchSunday)
      || (e.month == 10 && e.hour + 24 * e.day < 2 + 24 * octoberSunday)
  {
    FormulaSundays(e.year, marchSunday, octoberSunday);
    var march, october := 31 - (5 * (1970 + e.year) / 4 + 4) % 7, 31 - (5 * (1970 + e.year) / 4 + 1) % 7;
    assert march == marchSunday && october == octoberSunday;
  }

  lemma FormulaSundays(year: nat, marchSunday: nat, octoberSunday: nat)
    requires year < 130 && LastSunday(year, 2, marchSunday) && LastSunday(year, 9, octoberSunday)
    ensures 31 - (5 * (1970 + year) / 4 + 4) % 7 == marchSunday
    ensures 31 - (5 * (1970 + year) / 4 + 1) % 7 == octoberSunday
  {
    hide DayNumber, LastSunday;
    FormulaWeekdays(year);
    LastSundayUnique(year, 2, marchSunday);
    LastSundayUnique(year, 9, octoberSunday);
  }

  /** Against 02:00:00 only day and hour count. */
  lemma NotBefore(n: int, hour: nat, minute: nat, second: nat, day: int)
    requires hour < 24 && minute < 60 && second < 60
    ensures SecondsOf(n, hour, minute, second) >= SecondsOf(day, 2, 0, 0) <==> 24 * n + hour >= 24 * day + 2
  {
  }

  /** Days of the year on either side of March and October. */
  lemma MonthBounds(e: Elements)
    requires ValidDate(e)
    ensures var d, leap := DayOfYear(e), Leap(e.year);
      && (e.month < 3 ==> d < MonthStart(2, leap))
      && (e.month == 3 ==> d == MonthStart(2, leap) + e.day - 1)
      && (3 < e.month < 10 ==> MonthStart(2, leap) + 31 <= d < MonthStart(9, leap))
      && (e.month == 10 ==> d == MonthStart(9, leap) + e.day - 1)
      && (e.month > 10 ==> MonthStart(9, leap) + 31 <= d)
    ensures MonthStart(2, Leap(e.year)) + 31 <= MonthStart(9, Leap(e.year))
  {
    var m, leap := e.month - 1, Leap(e.year);
    MonthStarts(leap);
    if m < 2 {
      MonthsAscend(m, 2, leap);
    } else if 2 < m {
      MonthsAscend(2, m, leap);
      if m < 9 {
        MonthsAscend(m, 9, leap);
      } else if 9 < m {
        MonthsAscend(9, m, leap);
      }
    }
  }

  /** For a 32-bit time, with the fields and the weekday that breakTime gives. */
  lemma AgreesForTimestamps(t: uint32, marchSunday: Elements, octoberSunday: Elements)
    requires Break(t).year < 130
    requires IsSwitch(marchSunday, Break(t).year, 3) && IsSwitch(octoberSunday, Break(t).year, 10)
    ensures var e := Break(t);
      SummertimeEU(1970 + e.year, e.month, e.day, e.hour, 1) <==> Seconds(marchSunday) <= t < Seconds(octoberSunday)
  {
    hide Break;
    SwitchIsLastSunday(marchSunday, Break(t).year, 3);
    SwitchIsLastSunday(octoberSunday, Break(t).year, 10);
    AgreesWithCalendar(Break(t), marchSunday.day, octoberSunday.day);
  }

  /** 02:00:00 on a day after the 24th of the month on which breakTime's weekday is 1, Sunday. */
  predicate IsSwitch(e: Elements, year: nat, month: nat) {
    && e.year == year && e.month == month && (month == 3 || month == 10) && 25 <= e.day <= 31
    && e.hour == 2 && e.minute == 0 && e.second == 0
    && 0 <= Seconds(e) < WORD && Break(Seconds(e)).wday == 1
  }

  lemma SwitchIsLastSunday(e: Elements, year: nat, month: nat)
    requires IsSwitch(e, year, month)
    ensures LastSunday(year, month - 1, e.day) && Seconds(e) == TwoOClock(year, month - 1, e.day)
  {
    hide Break;
    var n := DayNumber(year, month - 1, e.day);
    assert Seconds(e) == n * DAY + 7200;
    assert Seconds(e) / DAY == n;
  }

  /** Every March and October that 32-bit times hold has such a moment, and just one. */
  lemma SwitchExists(year: nat, month: nat) returns (e: Elements)
    requires year < 136 && (month == 3 || month == 10)
    ensures IsSwitch(e, year, month)
    ensures forall other :: IsSwitch(other, year, month) ==> Seconds(other) == Seconds(e)
  {
    hide Break, LastSunday, DayNumber, Seconds, SecondsOf;
    var day := 31 - (DayNumber(year, month - 1, 31) + 4) % 7;
    LastSundayUnique(year, month - 1, day);
    e := Elements(0, 0, 2, 0, day, month, year);
    LastSundayIsSwitch(e);
    forall other | IsSwitch(other, year, month) ensures Seconds(other) == Seconds(e) {
      SwitchIsLastSunday(other, year, month);
      SwitchIsLastSunday(e, year, month);
      LastSundayUnique(year, month - 1, other.day);
    }
  }

  lemma LastSundayIsSwitch(e: Elements)
    requires e.year < 136 && (e.month == 3 || e.month == 10) && e.hour == 2 && e.minute == 0 && e.second == 0
    requires LastSunday(e.year, e.month - 1, e.day)
    ensures IsSwitch(e, e.year, e.month)
  {
    hide Break, MonthStart;
    EndOfMonths(e.year);
    var n := DayNumber(e.year, e.month - 1, e.day);
    assert DayNumber(e.year, e.month - 1, 31) == n + 31 - e.day;
    assert Seconds(e) == n * 86400 + 7200;
    assert 0 <= n < 49710;
    assert Seconds(e) / 86400 == n;
  }

  /** The agreement ends with 2099: in every later year that the fields can hold the formula starts on a wrong day. */
  lemma DisagreesFrom2100(year: nat, marchSunday: nat) returns (e: Elements)
    requires 130 <= year < 256 && LastSunday(year, 2, marchSunday)
    ensures ValidDate(e) && e.year == year
    ensures SummertimeEU(1970 + year, e.month, e.day, e.hour, 1) != (TwoOClock(year, 2, marchSunday) <= Seconds(e))
    ensures DayOfYear(e) < MonthStart(9, Leap(year))
  {
    FormulaWeekdays(year);
    LastSundayUnique(year, 2, marchSunday);
    var formulaDay := 31 - (5 * (1970 + year) / 4 + 4) % 7;
    FewDaysOff(DayNumber(year, 2, 31) + 4, Skipped(year));
    assert formulaDay != marchSunday;
    e := Elements(0, 0, 12, 0, if formulaDay < marchSunday then formulaDay else marchSunday, 3, year);
    MonthBounds(e);
  }

  lemma FewDaysOff(n: int, k: int)
    requires 0 < k < 7
    ensures (n + k) % 7 != n % 7
  {
  }

  /** The formula and the directive agree on every moment of the year. */
  ghost predicate AgreesIn(year: nat, marchSunday: nat, octoberSunday: nat) {
    forall e: Elements {:trigger Seconds(e)} :: ValidDate(e) && e.year == year ==>
      (SummertimeEU(1970 + year, e.month, e.day, e.hour, 1)
       <==> TwoOClock(year, 2, marchSunday) <= Seconds(e) < TwoOClock(year, 9, octoberSunday))
  }

  /** Of all years the fields can hold, they agree exactly in those up to 2099. */
  lemma AgreesExactlyUntil2099(year: nat, marchSunday: nat, octoberSunday: nat)
    requires year < 256 && LastSunday(year, 2, marchSunday) && LastSunday(year, 9, octoberSunday)
    ensures AgreesIn(year, marchSunday, octoberSunday) <==> year < 130
  {
    if year < 130 {
      forall e: Elements | ValidDate(e) && e.year == year
        ensures SummertimeEU(1970 + year, e.month, e.day, e.hour, 1)
          <==> TwoOClock(year, 2, marchSunday) <= Seconds(e) < TwoOClock(year, 9, octoberSunday)
      {
        AgreesWithCalendar(e, marchSunday, octoberSunday);
      }
    } else {
      var e := DisagreesFrom2100(year, marchSunday);
      assert Seconds(e) < TwoOClock(year, 9, octoberSunday);
    }
  }
}
