/** The seed's stepping against the due-date engine's, which its comment says it
    matches. */
module SeedSteps {
  import opened Civil
  import opened LocalTime
  import SeedHistory
  import DueDates

  /** The months n intervals move by. */
  function MonthsMoved(count: int, unit: Unit, n: int): int {
    match unit
    case Months => count * n
    case Years => 12 * (count * n)
    case _ => 0
  }

  predicate DayExists(day: int, months: int) {
    DayOfMonth(day) <= Length(MonthOf(day) + months)
  }

  /** The engine's date, at the seed's time of day. */
  function EngineAdvance(t: int, count: int, unit: Unit, n: int): int {
    DueDates.Advance(SeedHistory.DayOf(t), count, unit, n) * DAY + t % DAY
  }

  lemma MonthsMatchExactly(t: int, months: int)
    ensures SeedHistory.AddTo(t, months, 0) == DueDates.AddMonths(SeedHistory.DayOf(t), months) * DAY + t % DAY
            <==> DayExists(SeedHistory.DayOf(t), months)
  {
    DueDates.ClampsWhereAddDateRolls(SeedHistory.DayOf(t), months);
  }

  lemma DaysMatch(t: int, days: int)
    ensures SeedHistory.AddTo(t, 0, days) == (SeedHistory.DayOf(t) + days) * DAY + t % DAY
  {
    SeedHistory.AddDays(t, days);
  }

  lemma EngineSteps(day: int, count: int, unit: Unit, n: int)
    ensures DueDates.Advance(day, count, unit, n)
            == match unit
               case Days => day + count * n
               case Weeks => day + 7 * count * n
               case Months => DueDates.AddMonths(day, count * n)
               case Years => DueDates.AddMonths(day, 12 * (count * n))
  {
    assert 7 * (count * n) == 7 * count * n;
  }

  /** The seed and the engine step to the same date exactly when the unit is days or
      weeks, or the day exists in the month they step to. */
  lemma SeedMatchesEngineExactly(t: int, count: int, unit: Unit, n: int)
    ensures SeedHistory.Advance(t, count, unit, n) == EngineAdvance(t, count, unit, n)
            <==> unit.Days? || unit.Weeks? || DayExists(SeedHistory.DayOf(t), MonthsMoved(count, unit, n))
  {
    EngineSteps(SeedHistory.DayOf(t), count, unit, n);
    match unit
    case Days => DaysMatch(t, count * n);
    case Weeks => DaysMatch(t, 7 * count * n);
    case Months => MonthsMatchExactly(t, count * n);
    case Years => MonthsMatchExactly(t, 12 * (count * n));
  }

  // ----- A month from 31 January -----

  lemma JanuaryHas31(january: int)
    requires MonthNumber(january) == 1
    ensures Length(january) == 31 && Length(january + 1) <= 29 && Length(january + 2) == 31
  {
    assert MonthNumber(january + 1) == 2 && MonthNumber(january + 2) == 3;
  }

  lemma LastOfJanuary(january: int)
    requires MonthNumber(january) == 1
    ensures MonthOf(DateOf(january, 31)) == january && DayOfMonth(DateOf(january, 31)) == 31
  {
    JanuaryHas31(january);
    RollsWhenTooLong(january, 31);
  }

  lemma RollsIntoMarch(january: int)
    requires MonthNumber(january) == 1
    ensures MonthOf(DateOf(january + 1, 31)) == january + 2
  {
    JanuaryHas31(january);
    FirstDayStep(january + 1);
    FirstDayStep(january + 2);
    MonthIsUnique(january + 2, DateOf(january + 1, 31));
  }

  /** In any year the engine stays in February and the seed lands in March. */
  lemma JanuaryParts(january: int)
    requires MonthNumber(january) == 1
    ensures var t := DateOf(january, 31) * DAY;
            && MonthOf(DueDates.Advance(SeedHistory.DayOf(t), 1, Months, 1)) == january + 1
            && MonthOf(SeedHistory.DayOf(SeedHistory.Advance(t, 1, Months, 1))) == january + 2
  {
    var day := DateOf(january, 31);
    LastOfJanuary(january);
    RollsIntoMarch(january);
    DueDates.AddMonthsLands(day, 1);
    WholeDays(day);
    WholeDays(DateOf(january + 1, 31));
  }

  lemma WholeDays(day: int)
    ensures SeedHistory.DayOf(day * DAY) == day && day * DAY % DAY == 0
  {
  }
}
