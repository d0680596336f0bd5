/** The proleptic Gregorian calendar. A month is an index, year * 12 plus the
    month counted from zero, and a day is a count of days from 1 January of year
    zero, so moving by months and by days is addition. */
module Civil {

  predicate IsLeap(year: int) {
    year % 4 == 0 && (year % 100 != 0 || year % 400 == 0)
  }

  function Year(month: int): int {
    month / 12
  }

  /** January is 1, as time.Month counts. */
  function MonthNumber(month: int): (m: int)
    ensures 1 <= m <= 12
  {
    month % 12 + 1
  }

  function MonthIndex(year: int, number: int): (month: int)
    ensures 1 <= number <= 12 ==> Year(month) == year && MonthNumber(month) == number
  {
    year * 12 + number - 1
  }

  function Length(month: int): (n: int)
    ensures 28 <= n <= 31
  {
    var m := MonthNumber(month);
    if m == 2 then (if IsLeap(Year(month)) then 29 else 28)
    else if m == 4 || m == 6 || m == 9 || m == 11 then 30
    else 31
  }

  /** The day number of the first of a month. */
  function FirstDay(month: int): int
    decreases if month < 0 then -month else month
  {
    if month == 0 then 0
    else if month > 0 then FirstDay(month - 1) + Length(month - 1)
    else FirstDay(month + 1) - Length(month)
  }

  lemma FirstDayStep(month: int)
    ensures FirstDay(month + 1) == FirstDay(month) + Length(month)
  {
  }

  lemma {:induction false} FirstDayGrows(a: int, b: int)
    requires a <= b
    ensures FirstDay(a) + 28 * (b - a) <= FirstDay(b)
    decreases b - a
  {
    if a < b {
      FirstDayStep(b - 1);
      FirstDayGrows(a, b - 1);
    }
  }

  /** The month a day falls in, searched for from `month` up or down. */
  function MonthFrom(month: int, day: int): (m: int)
    ensures FirstDay(m) <= day < FirstDay(m + 1)
    decreases if day < FirstDay(month) then FirstDay(month) - day else day - FirstDay(month)
  {
    FirstDayStep(month - 1);
    FirstDayStep(month);
    if day < FirstDay(month) then
      if FirstDay(month - 1) <= day then month - 1 else MonthFrom(month - 1, day)
    else if day < FirstDay(month + 1) then month
    else MonthFrom(month + 1, day)
  }

  function MonthOf(day: int): (m: int)
    ensures FirstDay(m) <= day < FirstDay(m + 1)
  {
    MonthFrom(0, day)
  }

  function DayOfMonth(day: int): (d: int)
    ensures 1 <= d <= Length(MonthOf(day))
  {
    FirstDayStep(MonthOf(day));
    day - FirstDay(MonthOf(day)) + 1
  }

  /** A day has one month: the month of a date that exists is the one it names. */
  lemma MonthIsUnique(month: int, day: int)
    requires FirstDay(month) <= day < FirstDay(month + 1)
    ensures MonthOf(day) == month && DayOfMonth(day) == day - FirstDay(month) + 1
  {
    if MonthOf(day) < month {
      FirstDayGrows(MonthOf(day) + 1, month);
    } else if month < MonthOf(day) {
      FirstDayGrows(month + 1, MonthOf(day));
    }
  }

  /** time.Date: a day past the end of its month rolls into the next. */
  function DateOf(month: int, d: int): int {
    FirstDay(month) + d - 1
  }

  /** A date rolls exactly when its day is not in its month. */
  lemma RollsWhenTooLong(month: int, d: int)
    requires 1 <= d <= 31
    ensures DayOfMonth(DateOf(month, d)) == d <==> d <= Length(month)
    ensures d <= Length(month) ==> MonthOf(DateOf(month, d)) == month
  {
    FirstDayStep(month);
    FirstDayStep(month + 1);
    if d <= Length(month) {
      MonthIsUnique(month, DateOf(month, d));
    } else {
      MonthIsUnique(month + 1, DateOf(month, d));
    }
  }

  /** The units an interval is counted in. */
  datatype Unit = Days | Weeks | Months | Years

  /** time.AddDate with months and days. */
  function AddDate(day: int, months: int, days: int): int {
    DateOf(MonthOf(day) + months, DayOfMonth(day)) + days
  }

  /** Sunday is 0, as time.Weekday counts. 1 January of year zero is a Saturday. */
  function Weekday(day: int): (w: int)
    ensures 0 <= w < 7
  {
    (day + 6) % 7
  }
}
