/** Calendar arithmetic between seconds since 1 January 1970 and date fields. */
module Calendar {
  import opened Words

  const DAY := 86400

  /** `tmElements_t`; year counts from 1970, month and day from 1, and Sunday is 1. */
  datatype Elements = Elements(second: uint8, minute: uint8, hour: uint8, wday: uint8, day: uint8, month: uint8,
                               year: uint8)

  // ---------------------------------------------------------------- years and months

  predicate Leap(year: nat) {
    (1970 + year) % 4 == 0 && ((1970 + year) % 100 != 0 || (1970 + year) % 400 == 0)
  }

  function YearLength(year: nat): nat {
    if Leap(year) then 366 else 365
  }

  /** Days before 1 January of `year`. */
  function YearStart(year: nat): nat {
    if year == 0 then 0 else YearStart(year - 1) + YearLength(year - 1)
  }

  const MONTH_DAYS: seq<nat> := [31, 28, 31, 30, 31, 30, 31, 31, 30, 31, 30, 31]

  function MonthLength(month: nat, leap: bool): (n: nat)
    requires month < 12
    ensures 28 <= n <= 31
    ensures month != 1 ==> n == if month in {3, 5, 8, 10} then 30 else 31
    ensures month == 1 ==> n == if leap then 29 else 28
  {
    if month == 1 && leap then 29 else MONTH_DAYS[month]
  }

  /** Days of the year before its month number `month`, counted from 0. */
  function MonthStart(month: nat, leap: bool): nat
    requires month <= 12
  {
    if month == 0 then 0 else MonthStart(month - 1, leap) + MonthLength(month - 1, leap)
  }

  lemma MonthStarts(leap: bool)
    ensures MonthStart(2, leap) == 59 + (if leap then 1 else 0)
    ensures MonthStart(9, leap) == 273 + (if leap then 1 else 0)
    ensures MonthStart(12, leap) == if leap then 366 else 365
  {
    var extra := if leap then 1 else 0;
    assert MonthStart(1, leap) == 31;
    assert MonthStart(3, leap) == 90 + extra;
    assert MonthStart(5, leap) == 151 + extra;
    assert MonthStart(7, leap) == 212 + extra;
    assert MonthStart(9, leap) == 273 + extra;
    assert MonthStart(11, leap) == 334 + extra;
  }

  lemma {:induction false} MonthsAscend(a: nat, b: nat, leap: bool)
    requires a < b <= 12
    ensures MonthStart(a, leap) + MonthLength(a, leap) <= MonthStart(b, leap)
  {
    if a + 1 < b {
      MonthsAscend(a, b - 1, leap);
    }
  }

  lemma {:induction false} YearsAscend(a: nat, b: nat)
    requires a < b
    ensures YearStart(a) + YearLength(a) <= YearStart(b)
  {
    if a + 1 < b {
      YearsAscend(a, b - 1);
    }
  }

  /** The sum over the years in closed form. */
  lemma {:induction false} YearStartClosed(year: nat)
    ensures YearStart(year) == 365 * year + (year + 1) / 4 - (year + 69) / 100 + (year + 369) / 400
  {
    if year > 0 {
      YearStartClosed(year - 1);
      ClosedStep(year - 1);
    }
  }

  /** One more year moves the three quotients exactly as the leap rule says. */
  lemma ClosedStep(y: nat)
    ensures (y + 2) / 4 - (y + 1) / 4 + (y + 370) / 400 - (y + 369) / 400 - (y + 70) / 100 + (y + 69) / 100
      == if Leap(y) then 1 else 0
  {
    Step4(y);
    Step100(y);
    Step400(y);
    LeapRules(1970 + y);
  }

  lemma Step4(y: nat)
    ensures (y + 2) / 4 - (y + 1) / 4 == if (1970 + y) % 4 == 0 then 1 else 0
  {
  }

  lemma Step100(y: nat)
    ensures (y + 70) / 100 - (y + 69) / 100 == if (1970 + y) % 100 == 0 then 1 else 0
  {
  }

  lemma Step400(y: nat)
    ensures (y + 370) / 400 - (y + 369) / 400 == if (1970 + y) % 400 == 0 then 1 else 0
  {
  }

  lemma LeapRules(n: nat)
    ensures n % 400 == 0 ==> n % 100 == 0
    ensures n % 100 == 0 ==> n % 4 == 0
  {
    if n % 400 == 0 {
      assert n == 100 * (n / 400 * 4);
    }
    if n % 100 == 0 {
      assert n == 4 * (n / 100 * 25);
    }
  }

  // ---------------------------------------------------------------- seconds

  /** Day number of a date, the month counted from 0. */
  function DayNumber(year: nat, month: nat, day: int): int
    requires month <= 12
  {
    YearStart(year) + MonthStart(month, Leap(year)) + day - 1
  }

  function SecondsOf(dayNumber: int, hour: int, minute: int, second: int): int {
    dayNumber * DAY + hour * 3600 + minute * 60 + second
  }

  /** The seconds `makeTime` adds up, before they are cut to 32 bits. */
  function Seconds(e: Elements): int
    requires e.month <= 13
  {
    SecondsOf(DayNumber(e.year, if e.month == 0 then 0 else e.month - 1, e.day), e.hour, e.minute, e.second)
  }

  /** Month 0 counts as January, and month 13 as January of the next year. */
  lemma MonthsOutside(e: Elements)
    ensures Seconds(e.(month := 0)) == Seconds(e.(month := 1))
    ensures e.year < 255 ==> Seconds(e.(month := 13)) == Seconds(e.(month := 1, year := e.year + 1))
  {
    hide Leap;
    MonthStarts(Leap(e.year));
    assert YearStart(e.year + 1) == YearStart(e.year) + YearLength(e.year);
    assert forall leap :: MonthStart(0, leap) == 0;
  }

  predicate ValidDate(e: Elements) {
    && 1 <= e.month <= 12 && 1 <= e.day <= MonthLength(e.month - 1, Leap(e.year))
    && e.hour < 24 && e.minute < 60 && e.second < 60
  }

  function DayOfYear(e: Elements): int
    requires ValidDate(e)
  {
    MonthStart(e.month - 1, Leap(e.year)) + e.day - 1
  }

  /** Section 4.16 (Seconds Since the Epoch) of the Base Definitions of IEEE Std 1003.1-2017. */
  function PosixSeconds(sec: int, min: int, hour: int, yday: int, year: int): int {
    sec + min * 60 + hour * 3600 + yday * 86400 + (year - 70) * 31536000
    + (year - 69) / 4 * 86400 - (year - 1) / 100 * 86400 + (year + 299) / 400 * 86400
  }

  /** The accumulated seconds are the standard's closed formula. */
  lemma SecondsArePosix(e: Elements)
    requires ValidDate(e)
    ensures Seconds(e) == PosixSeconds(e.second, e.minute, e.hour, DayOfYear(e), e.year + 70)
    ensures var tm_year := e.year + 70;
      Seconds(e) == e.second + e.minute * 60 + e.hour * 3600 + DayOfYear(e) * 86400 + (tm_year - 70) * 31536000
        + (tm_year - 69) / 4 * 86400 - (tm_year - 1) / 100 * 86400 + (tm_year + 299) / 400 * 86400
  {
    YearStartClosed(e.year);
  }

  /** Year, month, day, hour, minute and second in lexicographic order. */
  predicate Before(a: Elements, b: Elements) {
    a.year < b.year || (a.year == b.year && (
    a.month < b.month || (a.month == b.month && (
    a.day < b.day || (a.day == b.day && (
    a.hour < b.hour || (a.hour == b.hour && (
    a.minute < b.minute || (a.minute == b.minute && a.second < b.second)))))))))
  }

  lemma DayNumbersAscend(a: Elements, b: Elements)
    requires ValidDate(a) && ValidDate(b)
    requires a.year < b.year || (a.year == b.year && a.month < b.month)
    ensures DayNumber(a.year, a.month - 1, a.day) < DayNumber(b.year, b.month - 1, b.day)
  {
    if a.year < b.year {
      YearsAscend(a.year, b.year);
      MonthStarts(Leap(a.year));
      if a.month < 12 {
        MonthsAscend(a.month - 1, 12, Leap(a.year));
      }
    } else {
      MonthsAscend(a.month - 1, b.month - 1, Leap(a.year));
    }
  }

  /** Later dates have more seconds. */
  lemma SecondsMonotone(a: Elements, b: Elements)
    requires ValidDate(a) && ValidDate(b) && Before(a, b)
    ensures Seconds(a) < Seconds(b)
  {
    if a.year < b.year || (a.year == b.year && a.month < b.month) {
      DayNumbersAscend(a, b);
    }
  }

  /** So equal seconds mean equal dates. */
  lemma SecondsInjective(a: Elements, b: Elements)
    requires ValidDate(a) && ValidDate(b) && Seconds(a) == Seconds(b)
    ensures a.(wday := 0) == b.(wday := 0)
  {
    if Before(a, b) {
      SecondsMonotone(a, b);
    } else if Before(b, a) {
      SecondsMonotone(b, a);
    }
  }

  // ---------------------------------------------------------------- breaking a time

  /** The first year at or after `year` that ends behind day `day`. */
  function YearOf(day: nat, year: nat): (y: nat)
    requires YearStart(year) <= day
    ensures YearStart(y) <= day < YearStart(y) + YearLength(y)
    decreases day - YearStart(year)
  {
    if YearStart(year) + YearLength(year) <= day then YearOf(day, year + 1) else year
  }

  function MonthOf(day: nat, leap: bool, month: nat): (m: nat)
    requires month < 12 && MonthStart(month, leap) <= day < MonthStart(12, leap)
    ensures m < 12 && MonthStart(m, leap) <= day < MonthStart(m, leap) + MonthLength(m, leap)
    decreases 12 - month
  {
    if MonthStart(month, leap) + MonthLength(month, leap) <= day then MonthOf(day, leap, month + 1) else month
  }

  lemma YearFits(day: nat, year: nat)
    requires day <= 49710 && YearStart(year) <= day
    ensures year <= 136
  {
    YearAtLeast(year);
  }

  lemma {:induction false} YearAtLeast(year: nat)
    ensures YearStart(year) >= 365 * year
  {
    if year > 0 {
      YearAtLeast(year - 1);
    }
  }

  /** A day's seconds from its clock reading. */
  lemma ClockReading(t: nat)
    ensures t == t / DAY * DAY + t / 3600 % 24 * 3600 + t / 60 % 60 * 60 + t % 60
    ensures t / 60 / 60 == t / 3600 && t / 60 / 60 / 24 == t / DAY
  {
    var minutes := t / 60;
    var hours := minutes / 60;
    assert t == minutes * 60 + t % 60;
    assert minutes == hours * 60 + minutes % 60;
    assert hours == hours / 24 * 24 + hours % 24;
    assert t / 3600 == hours;
    assert t / DAY == hours / 24;
  }

  datatype Date = Date(year: nat, month: nat, day: nat)

  /** Year, month from 0, and day from 1 of a day number. */
  function DateOf(dayNumber: nat): (d: Date)
    ensures d.month < 12 && 1 <= d.day <= MonthLength(d.month, Leap(d.year)) && YearStart(d.year) <= dayNumber
    ensures DayNumber(d.year, d.month, d.day) == dayNumber
  {
    var year := YearOf(dayNumber, 0);
    MonthStarts(Leap(year));
    var inYear := dayNumber - YearStart(year);
    var month := MonthOf(inYear, Leap(year), 0);
    Date(year, month, inYear - MonthStart(month, Leap(year)) + 1)
  }

  lemma DateFits(t: uint32)
    ensures DateOf(t / DAY).year <= 136
  {
    YearFits(t / DAY, DateOf(t / DAY).year);
  }

  /** The fields of a 32-bit time. */
  function Break(t: uint32): (e: Elements)
    ensures ValidDate(e) && Seconds(e) == t && e.wday == (t / 86400 + 4) % 7 + 1
  {
    var date := DateOf(t / DAY);
    DateFits(t);
    ClockReading(t);
    Elements(t % 60, t / 60 % 60, t / 3600 % 24, (t / DAY + 4) % 7 + 1, date.day, date.month + 1, date.year)
  }

  /** The value of `makeTime`: the seconds, cut to 32 bits. */
  function Make(e: Elements): uint32
    requires e.month <= 13
  {
    Seconds(e) % WORD
  }

  /** `makeTime(breakTime(t)) = t`, and `breakTime(makeTime(e))` has the fields of every valid date in range;
      the weekday is computed from the day. */
  lemma RoundTrips(t: uint32, e: Elements)
    ensures Make(Break(t)) == t
    ensures ValidDate(e) && Seconds(e) < WORD ==> Break(Make(e)) == e.(wday := (Make(e) / DAY + 4) % 7 + 1)
  {
    hide Break, Make, Seconds, Leap;
    MakeIs(Break(t), t);
    if ValidDate(e) && Seconds(e) < WORD {
      SecondsNotNegative(e);
      MakeIs(e, Seconds(e));
      SecondsInjective(Break(Make(e)), e);
    }
  }

  lemma MakeIs(e: Elements, seconds: uint32)
    requires e.month <= 13 && Seconds(e) == seconds
    ensures Make(e) == seconds
  {
  }

  lemma SecondsNotNegative(e: Elements)
    requires ValidDate(e)
    ensures Seconds(e) >= 0
  {
  }

  // ---------------------------------------------------------------- the two loops

  method BreakTime(timeInput: uint32) returns (e: Elements)
    ensures e == Break(timeInput)
  {
    hide YearOf, MonthOf, DateOf;
    var time := timeInput;
    var second := time % 60;
    time := time / 60;
    var minute := time % 60;
    time := time / 60;
    var hour := time % 24;
    time := time / 24;
    ClockReading(timeInput);
    DateFits(timeInput);
    var wday := (time + 4) % 7 + 1;
    var date := FindDate(time);
    e := Elements(second, minute, hour, wday, date.day, date.month + 1, date.year);
  }

  /** The year loop and the month loop; the year never leaves its 8 bits. */
  method FindDate(day: nat) returns (d: Date)
    requires day <= 49710
    ensures d == DateOf(day)
  {
    var year := FindYear(day);
    MonthStarts(Leap(year));
    var month, inMonth := FindMonth(day - YearStart(year), Leap(year));
    d := Date(year, month, inMonth + 1);
  }

  method FindYear(time: nat) returns (year: uint8)
    requires time <= 49710
    ensures year == YearOf(time, 0)
  {
    year := 0;
    var days := YearLength(0);
    assert YearStart(0) == 0;
    while days <= time
      invariant year <= 136 && days == YearStart(year) + YearLength(year)
      invariant YearStart(year) <= time && YearOf(time, 0) == YearOf(time, year)
      decreases time - YearStart(year)
    {
      YearFits(time, year + 1);
      year := year + 1;
      days := days + YearLength(year);
    }
  }

  lemma MonthStep(month: nat, leap: bool, length: nat)
    requires month < 12 && length == if month == 1 then (if leap then 29 else 28) else MONTH_DAYS[month]
    ensures MonthLength(month, leap) == length && MonthStart(month + 1, leap) == MonthStart(month, leap) + length
    ensures forall day: nat :: MonthStart(month, leap) <= day < MonthStart(12, leap) ==>
      MonthOf(day, leap, month) == if MonthStart(month, leap) + length <= day
                                   then (if month == 11 then 11 else MonthOf(day, leap, month + 1)) else month
  {
  }

  method FindMonth(inYear: nat, leap: bool) returns (month: nat, time: nat)
    requires inYear < MonthStart(12, leap)
    ensures month == MonthOf(inYear, leap, 0) && time == inYear - MonthStart(month, leap)
  {
    time := inYear;
    month := 0;
    while month < 12
      invariant month < 12 && MonthStart(month, leap) + time == inYear
      invariant MonthOf(inYear, leap, 0) == MonthOf(inYear, leap, month)
    {
      var monthLength := if month == 1 then (if leap then 29 else 28) else MONTH_DAYS[month];
      MonthStep(month, leap, monthLength);
      if time >= monthLength {
        time := time - monthLength;
      } else {
        break;
      }
      month := month + 1;
    }
  }

  function Add(seconds: uint32, x: int): uint32 {
    (seconds + x) % WORD
  }

  lemma AddsUp(total: int, x: int)
    ensures Add(total % WORD, x) == (total + x) % WORD
  {
  }

  /** Every addition wraps at 32 bits; the result is the sum, wrapped once. */
  method MakeTime(e: Elements) returns (t: uint32)
    requires e.month <= 13
    ensures t == Make(e)
  {
    hide Add;
    ghost var total := e.year * 365 * DAY;
    var seconds := e.year * (DAY * 365) % WORD;
    var i := 0;
    while i < e.year
      invariant 0 <= i <= e.year
      invariant total == (e.year * 365 + YearStart(i) - i * 365) * DAY && seconds == total % WORD
    {
      if Leap(i) {
        AddsUp(total, DAY);
        seconds, total := Add(seconds, DAY), total + DAY;
      }
      i := i + 1;
    }
    seconds, total := AddMonths(e, seconds, total);
    AddsUp(total, (e.day - 1) * DAY);
    AddsUp(total + (e.day - 1) * DAY, e.hour * 3600);
    AddsUp(total + (e.day - 1) * DAY + e.hour * 3600, e.minute * 60);
    AddsUp(total + (e.day - 1) * DAY + e.hour * 3600 + e.minute * 60, e.second);
    seconds := Add(seconds, (e.day - 1) * DAY);
    seconds := Add(seconds, e.hour * 3600);
    seconds := Add(seconds, e.minute * 60);
    seconds := Add(seconds, e.second);
    t := seconds;
  }

  /** The days of the months before the given one. */
  method AddMonths(e: Elements, start: uint32, ghost sum: int) returns (seconds: uint32, ghost total: int)
    requires e.month <= 13 && start == sum % WORD
    ensures seconds == total % WORD
    ensures total == sum + MonthStart(if e.month == 0 then 0 else e.month - 1, Leap(e.year)) * DAY
  {
    hide Add;
    seconds, total := start, sum;
    var i := 1;
    while i < e.month
      invariant 1 <= i && (i <= e.month || i == 1)
      invariant total == sum + MonthStart(i - 1, Leap(e.year)) * DAY && seconds == total % WORD
    {
      if i == 2 && Leap(e.year) {
        AddsUp(total, DAY * 29);
        seconds, total := Add(seconds, DAY * 29), total + DAY * 29;
      } else {
        AddsUp(total, DAY * MONTH_DAYS[i - 1]);
        seconds, total := Add(seconds, DAY * MONTH_DAYS[i - 1]), total + DAY * MONTH_DAYS[i - 1];
      }
      i := i + 1;
    }
  }
}
