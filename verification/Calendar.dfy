/** Seconds since 1970-01-01 and Gregorian dates: the loops of both directions and how they invert each other. */
module Calendar {
  const DAY: int := 86400

  const MONTH_DAYS: seq<int> := [31, 28, 31, 30, 31, 30, 31, 31, 30, 31, 30, 31]

  datatype Date = Date(year: int, month: int, day: int, hour: int, minute: int, second: int)

  predicate Leap(y: int) { y % 4 == 0 && (y % 100 != 0 || y % 400 == 0) }

  function YearDays(y: int): (r: int) { if Leap(y) then 366 else 365 }

  function MonthDays(y: int, m: int): (r: int)
    requires 1 <= m <= 12
  {
    if m == 2 && Leap(y) then 29 else MONTH_DAYS[m - 1]
  }

  /** Days from the first of January 1970 to that of year `y`. */
  function BeforeYear(y: int): (r: int)
    ensures r >= 0
    decreases y - 1970
  {
    if y <= 1970 then 0 else BeforeYear(y - 1) + YearDays(y - 1)
  }

  /** Days of year `y` before month `m`. */
  function BeforeMonth(y: int, m: int): (r: int)
    requires m <= 13
    ensures r >= 0
    decreases m
  {
    if m <= 1 then 0 else BeforeMonth(y, m - 1) + MonthDays(y, m - 1)
  }

  function DaysTo(y: int, m: int, d: int): (r: int)
    requires m <= 13
  {
    BeforeYear(y) + BeforeMonth(y, m) + d - 1
  }

  /** What the parser checks: any month may have 31 days. */
  predicate Accepted(t: Date) {
    && t.year >= 1970 && 1 <= t.month <= 12 && 1 <= t.day <= 31
    && 0 <= t.hour <= 23 && 0 <= t.minute <= 59 && 0 <= t.second <= 59
  }

  predicate Valid(t: Date) { Accepted(t) && t.day <= MonthDays(t.year, t.month) }

  function EpochOf(t: Date): (r: int)
    requires t.month <= 13
  {
    DaysTo(t.year, t.month, t.day) * DAY + t.hour * 3600 + t.minute * 60 + t.second
  }

  /** The year reached from `y` by taking off whole years, and the days left. */
  function YearFrom(y: int, days: int): (r: (int, int))
    decreases days
  {
    if days < YearDays(y) then (y, days) else YearFrom(y + 1, days - YearDays(y))
  }

  function MonthFrom(y: int, m: int, days: int): (r: (int, int))
    requires 1 <= m <= 12
    decreases 12 - m
  {
    if m == 12 || days < MonthDays(y, m) then (m, days) else MonthFrom(y, m + 1, days - MonthDays(y, m))
  }

  function DateOf(epoch: int): (r: Date) {
    var days, rem := epoch / DAY, epoch % DAY;
    var (y, inYear) := YearFrom(1970, days);
    var (m, inMonth) := MonthFrom(y, 1, inYear);
    Date(y, m, inMonth + 1, rem / 3600, rem % 3600 / 60, rem % 60)
  }

  // ----- closed form -----

  /** Leap years from year 1 to year `y`. */
  function Leaps(y: int): (r: int) { y / 4 - y / 100 + y / 400 }

  lemma LeapsNext(y: int)
    ensures Leaps(y) == Leaps(y - 1) + if Leap(y) then 1 else 0
  {
    QuotientNext(y, 4);
    QuotientNext(y, 100);
    QuotientNext(y, 400);
    Multiples(y);
  }

  lemma Hundreds(q: int)
    ensures 400 * q % 100 == 0
  {
  }

  lemma Fours(q: int)
    ensures 100 * q % 4 == 0
  {
  }

  lemma Multiples(y: int)
    ensures y % 400 == 0 ==> y % 100 == 0
    ensures y % 100 == 0 ==> y % 4 == 0
  {
    if y % 400 == 0 {
      Hundreds(y / 400);
    }
    if y % 100 == 0 {
      Fours(y / 100);
    }
  }

  lemma QuotientNext(y: int, k: int)
    requires k == 4 || k == 100 || k == 400
    ensures y / k == (y - 1) / k + if y % k == 0 then 1 else 0
  {
  }

  /** The month loop: alternating long and short months, with what February lacks taken off from March on. */
  lemma BeforeMonthClosed(y: int, m: int)
    requires 1 <= m <= 12
    ensures BeforeMonth(y, m) == (367 * m - 362) / 12 - (if m <= 2 then 0 else if Leap(y) then 1 else 2)
  {
    hide Leap;
    assert BeforeMonth(y, 1) == 0 && BeforeMonth(y, 2) == 31;
    assert BeforeMonth(y, 3) == 31 + MonthDays(y, 2);
    assert BeforeMonth(y, 4) == BeforeMonth(y, 3) + 31 && BeforeMonth(y, 5) == BeforeMonth(y, 4) + 30;
    assert BeforeMonth(y, 6) == BeforeMonth(y, 5) + 31 && BeforeMonth(y, 7) == BeforeMonth(y, 6) + 30;
    assert BeforeMonth(y, 8) == BeforeMonth(y, 7) + 31 && BeforeMonth(y, 9) == BeforeMonth(y, 8) + 31;
    assert BeforeMonth(y, 10) == BeforeMonth(y, 9) + 30 && BeforeMonth(y, 11) == BeforeMonth(y, 10) + 31;
    assert BeforeMonth(y, 12) == BeforeMonth(y, 11) + 30;
  }

  /** The year loop counts the leap days. */
  lemma {:induction false} BeforeYearClosed(y: int)
    requires y >= 1970
    ensures BeforeYear(y) == 365 * (y - 1970) + Leaps(y - 1) - Leaps(1969)
    decreases y
  {
    if y > 1970 {
      BeforeYearClosed(y - 1);
      LeapsNext(y - 1);
    }
  }

  /** Main result: the epoch of an accepted date in closed form, by the Gregorian rules alone. */
  lemma EpochClosed(t: Date)
    requires Accepted(t)
    ensures var y, m := t.year, t.month;
            var leap := y % 4 == 0 && (y % 100 != 0 || y % 400 == 0);
            EpochOf(t) ==
            (365 * (y - 1970) + (y - 1) / 4 - (y - 1) / 100 + (y - 1) / 400 - 477
             + (367 * m - 362) / 12 - (if m <= 2 then 0 else if leap then 1 else 2) + t.day - 1) * 86400
            + t.hour * 3600 + t.minute * 60 + t.second
  {
    BeforeYearClosed(t.year);
    BeforeMonthClosed(t.year, t.month);
    hide BeforeYear, BeforeMonth;
  }

  // ----- the two directions invert each other -----

  lemma {:induction false} YearFromIs(y: int, days: int)
    requires y >= 1970 && days >= 0
    ensures var (y', left) := YearFrom(y, days);
            y' >= y && 0 <= left < YearDays(y') && BeforeYear(y') + left == BeforeYear(y) + days
    decreases days
  {
    if days >= YearDays(y) {
      YearFromIs(y + 1, days - YearDays(y));
    }
  }

  lemma {:induction false} BeforeYearGrows(y: int, y': int)
    requires 1970 <= y < y'
    ensures BeforeYear(y) + YearDays(y) <= BeforeYear(y')
    decreases y'
  {
    if y < y' - 1 {
      BeforeYearGrows(y, y' - 1);
    }
  }

  /** A day number lies in one year only. */
  lemma YearUnique(y: int, left: int, y': int, left': int)
    requires y >= 1970 && y' >= 1970 && 0 <= left < YearDays(y) && 0 <= left' < YearDays(y')
    requires BeforeYear(y) + left == BeforeYear(y') + left'
    ensures y == y' && left == left'
  {
    if y < y' {
      BeforeYearGrows(y, y');
    } else if y' < y {
      BeforeYearGrows(y', y);
    }
  }

  lemma BeforeMonthNext(y: int, m: int)
    requires 1 <= m <= 12
    ensures BeforeMonth(y, m + 1) == BeforeMonth(y, m) + MonthDays(y, m) && MonthDays(y, m) > 0
  {
    hide Leap;
  }

  lemma {:induction false} MonthFromIs(y: int, m: int, days: int, end: int)
    requires 1 <= m <= 12 && end == 13 && 0 <= days < BeforeMonth(y, end) - BeforeMonth(y, m)
    ensures var (m', left) := MonthFrom(y, m, days);
            m <= m' <= 12 && 0 <= left < MonthDays(y, m') && BeforeMonth(y, m') + left == BeforeMonth(y, m) + days
    decreases 12 - m
  {
    hide MonthDays, BeforeMonth, Leap;
    BeforeMonthNext(y, m);
    if m < 12 && days >= MonthDays(y, m) {
      MonthFromIs(y, m + 1, days - MonthDays(y, m), end);
    }
  }

  lemma {:induction false} BeforeMonthGrows(y: int, m: int, m': int)
    requires 1 <= m < m' <= 13
    ensures BeforeMonth(y, m) + MonthDays(y, m) <= BeforeMonth(y, m')
    decreases m'
  {
    if m < m' - 1 {
      BeforeMonthGrows(y, m, m' - 1);
    }
  }

  lemma MonthUnique(y: int, m: int, left: int, m': int, left': int)
    requires 1 <= m <= 12 && 1 <= m' <= 12 && 0 <= left < MonthDays(y, m) && 0 <= left' < MonthDays(y, m')
    requires BeforeMonth(y, m) + left == BeforeMonth(y, m') + left'
    ensures m == m' && left == left'
  {
    if m < m' {
      BeforeMonthGrows(y, m, m');
    } else if m' < m {
      BeforeMonthGrows(y, m', m);
    }
  }

  lemma MonthsFillYear(y: int)
    ensures BeforeMonth(y, 13) == YearDays(y)
  {
    assert BeforeMonth(y, 4) == MonthDays(y, 1) + MonthDays(y, 2) + MonthDays(y, 3);
    assert BeforeMonth(y, 7) == BeforeMonth(y, 4) + MonthDays(y, 4) + MonthDays(y, 5) + MonthDays(y, 6);
    assert BeforeMonth(y, 10) == BeforeMonth(y, 7) + MonthDays(y, 7) + MonthDays(y, 8) + MonthDays(y, 9);
    assert BeforeMonth(y, 13) == BeforeMonth(y, 10) + MonthDays(y, 10) + MonthDays(y, 11) + MonthDays(y, 12);
  }

  lemma EpochFromStart(epoch: int)
    requires epoch >= 0
    ensures Valid(DateOf(epoch)) && EpochOf(DateOf(epoch)) == epoch
  {
    hide MonthDays, YearDays;
    var days := epoch / DAY;
    YearFromIs(1970, days);
    var (y, inYear) := YearFrom(1970, days);
    MonthsFillYear(y);
    assert BeforeMonth(y, 1) == 0 && BeforeYear(1970) == 0;
    MonthFromIs(y, 1, inYear, 13);
    MonthAtMost31(y, DateOf(epoch).month);
    hide YearFrom, MonthFrom, BeforeMonth, BeforeYear;
    Clock(epoch % DAY);
  }

  /** An epoch before 1970 is shown in January 1970, on a day before the first. */
  lemma BeforeStart(epoch: int)
    requires epoch < 0
    ensures var t := DateOf(epoch); t.year == 1970 && t.month == 1 && t.day <= 0 && EpochOf(t) == epoch
  {
    assert epoch / DAY < 0;
    assert BeforeMonth(1970, 1) == 0 && BeforeYear(1970) == 0;
    Clock(epoch % DAY);
  }

  /** Main result: an epoch formatted and read back is itself, and the date shown exists from 1970 on and never before. */
  lemma EpochRoundTrip(epoch: int)
    ensures DateOf(epoch).month <= 12 && EpochOf(DateOf(epoch)) == epoch
    ensures Valid(DateOf(epoch)) <==> epoch >= 0
  {
    hide DateOf, EpochOf;
    if epoch >= 0 {
      EpochFromStart(epoch);
    } else {
      BeforeStart(epoch);
    }
  }

  lemma MonthAtMost31(y: int, m: int)
    requires 1 <= m <= 12
    ensures 28 <= MonthDays(y, m) <= 31
  {
  }

  lemma Clock(rem: int)
    requires 0 <= rem < DAY
    ensures rem / 3600 * 3600 + rem % 3600 / 60 * 60 + rem % 60 == rem
    ensures 0 <= rem / 3600 <= 23 && 0 <= rem % 3600 / 60 <= 59
  {
    assert rem % 60 == rem % 3600 % 60;
  }

  lemma ClockUnique(h: int, mi: int, s: int)
    requires 0 <= h <= 23 && 0 <= mi <= 59 && 0 <= s <= 59
    ensures var rem := h * 3600 + mi * 60 + s;
            0 <= rem < DAY && rem / 3600 == h && rem % 3600 / 60 == mi && rem % 60 == s
  {
  }

  /** Main result: a date read and formatted is itself if and only if its month has that day. */
  lemma DateRoundTripIff(t: Date)
    requires Accepted(t)
    ensures DateOf(EpochOf(t)) == t <==> t.day <= MonthDays(t.year, t.month)
  {
    var e := EpochOf(t);
    var rem := t.hour * 3600 + t.minute * 60 + t.second;
    ClockUnique(t.hour, t.minute, t.second);
    assert e / DAY == DaysTo(t.year, t.month, t.day) && e % DAY == rem;
    EpochFromStart(e);
    if t.day <= MonthDays(t.year, t.month) {
      ValidRoundTrip(t);
    }
  }

  /** A day past the end of its month is shown as the day that many into the next one. */
  lemma LateDayShown(t: Date)
    requires Accepted(t) && t.day > MonthDays(t.year, t.month)
    ensures DateOf(EpochOf(t)) == t.(month := t.month + 1, day := t.day - MonthDays(t.year, t.month))
  {
    var shown := t.(month := t.month + 1, day := t.day - MonthDays(t.year, t.month));
    assert EpochOf(t) == EpochOf(shown);
    ValidRoundTrip(shown);
  }

  lemma ShownOnThirdOfMarch()
    ensures var t := Date(1970, 2, 31, 0, 0, 0);
            Accepted(t) && DateOf(EpochOf(t)) == Date(1970, 3, 3, 0, 0, 0)
  {
    LateDayShown(Date(1970, 2, 31, 0, 0, 0));
  }

  lemma ValidRoundTrip(t: Date)
    requires Valid(t)
    ensures DateOf(EpochOf(t)) == t
  {
    hide MonthDays, YearDays;
    ClockUnique(t.hour, t.minute, t.second);
    var days := DaysTo(t.year, t.month, t.day);
    assert EpochOf(t) / DAY == days;
    MonthsFillYear(t.year);
    var inYear := BeforeMonth(t.year, t.month) + t.day - 1;
    BeforeMonthBelow(t.year, t.month);
    YearFromIs(1970, days);
    var (y, left) := YearFrom(1970, days);
    assert BeforeYear(1970) == 0 && BeforeMonth(t.year, 1) == 0;
    YearUnique(t.year, inYear, y, left);
    MonthFromIs(t.year, 1, inYear, 13);
    var (m, inMonth) := MonthFrom(t.year, 1, inYear);
    MonthUnique(t.year, t.month, t.day - 1, m, inMonth);
  }

  lemma BeforeMonthBelow(y: int, m: int)
    requires 1 <= m <= 12
    ensures BeforeMonth(y, m) + MonthDays(y, m) <= BeforeMonth(y, 13)
  {
    BeforeMonthGrows(y, m, 13);
  }

  // ----- the loops -----

  method DaysSinceEpoch(y: int, m: int, d: int) returns (days: int)
    requires m <= 13
    ensures days == DaysTo(y, m, d)
  {
    days := 0;
    var yr := 1970;
    while yr < y
      invariant 1970 <= yr && (yr <= y || yr == 1970)
      invariant days == BeforeYear(yr)
    {
      days := days + if Leap(yr) then 366 else 365;
      yr := yr + 1;
    }
    var mo := 1;
    while mo < m
      invariant 1 <= mo && (mo <= m || mo == 1)
      invariant days == BeforeYear(y) + BeforeMonth(y, mo)
    {
      days := days + if mo == 2 && Leap(y) then 29 else MONTH_DAYS[mo - 1];
      mo := mo + 1;
    }
    days := days + (d - 1);
  }

  /** The scanned fields; -1 if one is out of range. */
  method ParseDatetime(t: Date) returns (epoch: int)
    ensures epoch == if Accepted(t) then EpochOf(t) else -1
  {
    if t.year < 1970 || t.month < 1 || t.month > 12 || t.day < 1 || t.day > 31 {
      return -1;
    }
    if t.hour < 0 || t.hour > 23 || t.minute < 0 || t.minute > 59 || t.second < 0 || t.second > 59 {
      return -1;
    }
    var days := DaysSinceEpoch(t.year, t.month, t.day);
    epoch := days * DAY + t.hour * 3600 + t.minute * 60 + t.second;
  }

  /** Division that rounds toward zero. */
  function Truncated(a: int, b: int): (r: int)
    requires b > 0
  {
    if a >= 0 then a / b else -(-a / b)
  }

  method FormatDatetime(epoch: int) returns (t: Date)
    ensures t == DateOf(epoch)
  {
    var days := Truncated(epoch, DAY);
    var rem := epoch - days * DAY;
    if rem < 0 {
      rem := rem + DAY;
      days := days - 1;
    }
    assert days == epoch / DAY && rem == epoch % DAY;
    var y := 1970;
    ghost var whole := days;
    while days >= YearDays(y)
      invariant YearFrom(y, days) == YearFrom(1970, whole)
      decreases days
    {
      days := days - YearDays(y);
      y := y + 1;
    }
    var mo := 1;
    ghost var inYear := days;
    while mo < 12 && days >= MonthDays(y, mo)
      invariant 1 <= mo <= 12
      invariant MonthFrom(y, mo, days) == MonthFrom(y, 1, inYear)
    {
      days := days - MonthDays(y, mo);
      mo := mo + 1;
    }
    t := Date(y, mo, days + 1, rem / 3600, rem % 3600 / 60, rem % 60);
  }
}
