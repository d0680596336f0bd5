/** The calendar the dates are counted in is the Gregorian one. */
module GregorianRules {
  import opened Civil

  /** Leap years from year zero up to a year, by the rule of centuries. */
  function LeapYearsBefore(year: int): int {
    (year + 3) / 4 - (year + 99) / 100 + (year + 399) / 400
  }

  lemma OneMoreYear(year: int)
    ensures LeapYearsBefore(year + 1) == LeapYearsBefore(year) + if IsLeap(year) then 1 else 0
  {
    NextQuotient(year, 4);
    NextQuotient(year, 100);
    NextQuotient(year, 400);
    assert year % 100 == 0 ==> year % 4 == 0;
    assert year % 400 == 0 ==> year % 100 == 0;
  }

  lemma NextQuotient(year: int, n: int)
    requires n >= 1
    ensures (year + n) / n == (year + n - 1) / n + if year % n == 0 then 1 else 0
  {
    var q, r := year / n, year % n;
    assert year == n * q + r;
    assert (year + n) == n * (q + 1) + r;
    QuotientIs(year + n, n, q + 1, r);
    if r == 0 {
      QuotientIs(year + n - 1, n, q, n - 1);
    } else {
      QuotientIs(year + n - 1, n, q + 1, r - 1);
    }
  }

  lemma QuotientIs(a: int, n: int, q: int, r: int)
    requires n >= 1 && a == n * q + r && 0 <= r < n
    ensures a / n == q
  {
    var d := a / n - q;
    assert n * (a / n) + a % n == n * q + r;
    assert n * d == r - a % n;
    assert (d >= 1 ==> n * d >= n) && (d <= -1 ==> n * d <= -n);
  }

  /** The days of a common year before each month. */
  const DAYS_BEFORE := [0, 31, 59, 90, 120, 151, 181, 212, 243, 273, 304, 334, 365]

  /** Every month of a year starts that many days after the year does, and a day more
      once February has had its 29th. */
  lemma {:induction false} MonthsStart(year: int, n: nat)
    requires n <= 12
    ensures FirstDay(12 * year + n) == FirstDay(12 * year) + DAYS_BEFORE[n] + if n >= 2 && IsLeap(year) then 1 else 0
    decreases n
  {
    if n > 0 {
      MonthsStart(year, n - 1);
      FirstDayStep(12 * year + n - 1);
      assert (12 * year + n - 1) / 12 == year && (12 * year + n - 1) % 12 == n - 1;
    }
  }

  /** The leap years from year zero up to a year, one by one, and less than none for
      a year before it. */
  function Leaps(year: int): int
    decreases if year < 0 then -year else year
  {
    if year == 0 then 0
    else if year > 0 then Leaps(year - 1) + if IsLeap(year - 1) then 1 else 0
    else Leaps(year + 1) - if IsLeap(year) then 1 else 0
  }

  lemma {:induction false} LeapsAreCounted(year: int)
    ensures Leaps(year) == LeapYearsBefore(year)
    decreases if year < 0 then -year else year
  {
    if year > 0 {
      LeapsAreCounted(year - 1);
      OneMoreYear(year - 1);
    } else if year < 0 {
      LeapsAreCounted(year + 1);
      OneMoreYear(year);
    }
  }

  lemma YearsFollow(year: int)
    ensures FirstDay(12 * (year + 1)) == FirstDay(12 * year) + 365 + if IsLeap(year) then 1 else 0
  {
    MonthsStart(year, 12);
  }

  lemma {:induction false} YearsStartAfterLeaps(year: int)
    ensures FirstDay(12 * year) == 365 * year + Leaps(year)
    decreases if year < 0 then -year else year
  {
    if year > 0 {
      YearsStartAfterLeaps(year - 1);
      YearsFollow(year - 1);
    } else if year < 0 {
      YearsStartAfterLeaps(year + 1);
      YearsFollow(year);
    }
  }

  /** The day number of 1 January of every year. */
  lemma YearsStart(year: int)
    ensures FirstDay(MonthIndex(year, 1)) == 365 * year + LeapYearsBefore(year)
  {
    YearsStartAfterLeaps(year);
    LeapsAreCounted(year);
  }

  /** Weekdays follow each other. */
  lemma WeekdaysFollow(day: int)
    ensures Weekday(day + 1) == if Weekday(day) == 6 then 0 else Weekday(day) + 1
  {
  }

  lemma CountedToMillennium(year: int)
    requires year == 2000
    ensures 365 * year + LeapYearsBefore(year) == 730485
  {
  }

  /** 1 January 2000 is a Saturday. */
  lemma MillenniumIsASaturday(year: int, day: int)
    requires year == 2000 && day == FirstDay(MonthIndex(year, 1))
    ensures Weekday(day) == 6
  {
    YearsStart(year);
    CountedToMillennium(year);
  }
}
