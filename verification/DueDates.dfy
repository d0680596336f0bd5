/** The due-date engine: when a schedule next falls due, and the dates of a
    month it falls due on. Dates are day numbers in the reader's location. */
module DueDates {
  import opened Options
  import opened Civil

  /** First and last month of the season, January as 1, inclusive, and wrapping
      at the year's end when the last is before the first. */
  datatype Season = Season(start: int, end: int)

  /** The three shapes the schema allows. A month-precise date is the first of
      its month. */
  datatype Schedule =
    | Cadence(count: int, unit: Unit, season: Option<Season>)
    | Series(count: int, unit: Unit, anchor: int, monthly: bool)
    | Once(anchor: int, monthly: bool)

  /** The latest event of the care type: its day, the skip's own interval, and
      whether it is care given after the schedule was set. */
  datatype Event = Event(day: int, override: Option<int>, completes: bool)

  datatype Occurrence = Occurrence(at: int, monthly: bool)

  predicate Valid(s: Schedule) {
    && (!s.Once? ==> s.count >= 1)
    && (s.Cadence? && s.season.Some? ==> 1 <= s.season.value.start <= 12 && 1 <= s.season.value.end <= 12)
  }

  // ----- Intervals -----

  /** Add months, clamping the day to the target month's length. */
  function AddMonths(day: int, n: int): int {
    var month := MonthOf(day) + n;
    DateOf(month, if DayOfMonth(day) > Length(month) then Length(month) else DayOfMonth(day))
  }

  /** Add `steps` units. */
  function Move(day: int, unit: Unit, steps: int): int {
    match unit
    case Days => day + steps
    case Weeks => day + 7 * steps
    case Months => AddMonths(day, steps)
    case Years => AddMonths(day, 12 * steps)
  }

  /** Add n intervals of `count` units. */
  function Advance(day: int, count: int, unit: Unit, n: int): int {
    Move(day, unit, count * n)
  }

  lemma AddMonthsLands(day: int, n: int)
    ensures MonthOf(AddMonths(day, n)) == MonthOf(day) + n
    ensures FirstDay(MonthOf(day) + n) <= AddMonths(day, n) < FirstDay(MonthOf(day) + n + 1)
  {
    var month := MonthOf(day) + n;
    FirstDayStep(month);
    MonthIsUnique(month, AddMonths(day, n));
  }

  /** Clamping differs from time.AddDate exactly where the day does not exist in
      the target month, which is where time.AddDate rolls over. */
  lemma ClampsWhereAddDateRolls(day: int, n: int)
    ensures AddMonths(day, n) == AddDate(day, n, 0) <==> DayOfMonth(day) <= Length(MonthOf(day) + n)
    ensures AddMonths(day, n) <= AddDate(day, n, 0)
  {
  }

  /** A series anchored on the 31st goes back to the 31st after a short month,
      because each step counts from the anchor. */
  lemma StepsKeepTheDay(anchor: int, count: int, k: int)
    ensures var at := Advance(anchor, count, Months, k);
            DayOfMonth(at) == if DayOfMonth(anchor) > Length(MonthOf(at)) then Length(MonthOf(at))
                else DayOfMonth(anchor)
  {
    AddMonthsLands(anchor, count * k);
    MonthIsUnique(MonthOf(anchor) + count * k, AddMonths(anchor, count * k));
  }

  lemma AddMonthsGrows(day: int, a: int, b: int)
    requires a < b
    ensures AddMonths(day, a) + (b - a) <= AddMonths(day, b)
  {
    var m := MonthOf(day);
    FirstDayStep(m + a);
    FirstDayGrows(m + a + 1, m + b);
  }

  lemma Scaled(count: int, a: int, b: int)
    requires count >= 1 && a < b
    ensures count * a + (b - a) <= count * b
  {
    assert count * b - count * a == (b - a) + (count - 1) * (b - a);
  }

  lemma MoveGrows(day: int, unit: Unit, a: int, b: int)
    requires a < b
    ensures Move(day, unit, a) + (b - a) <= Move(day, unit, b)
  {
    match unit
    case Days =>
    case Weeks =>
    case Months => AddMonthsGrows(day, a, b);
    case Years => AddMonthsGrows(day, 12 * a, 12 * b);
  }

  lemma AdvanceGrows(day: int, count: int, unit: Unit, a: int, b: int)
    requires count >= 1 && a < b
    ensures Advance(day, count, unit, a) + (b - a) <= Advance(day, count, unit, b)
  {
    Scaled(count, a, b);
    MoveGrows(day, unit, count * a, count * b);
  }

  lemma AdvanceByNone(day: int, count: int, unit: Unit)
    ensures Advance(day, count, unit, 0) == day
  {
    AddMonthsLands(day, 0);
  }

  // ----- The anchored series -----

  /** Where the search for the first occurrence after `since` starts. */
  function FirstStep(anchor: int, since: int, count: int, unit: Unit): int
    requires count >= 1
  {
    var elapsed := Elapsed(anchor, since, unit);
    if elapsed <= 0 then 0 else elapsed / (Per(unit) * count)
  }

  function Elapsed(anchor: int, since: int, unit: Unit): int {
    if unit.Days? || unit.Weeks? then since - anchor else MonthOf(since) - MonthOf(anchor)
  }

  /** Days in a week and months in a year. */
  function Per(unit: Unit): int {
    match unit
    case Days => 1
    case Weeks => 7
    case Months => 1
    case Years => 12
  }

  /** Units that do not reach the months elapsed, or the days, fall short of `since`. */
  lemma MoveFallsShort(anchor: int, since: int, unit: Unit, steps: int)
    requires Per(unit) * steps < Elapsed(anchor, since, unit)
    ensures Move(anchor, unit, steps) < since
  {
    if unit.Months? || unit.Years? {
      var n := Per(unit) * steps;
      AddMonthsLands(anchor, n);
      FirstDayGrows(MonthOf(anchor) + n + 1, MonthOf(since));
    }
  }

  lemma QuotientBelow(elapsed: int, per: int, count: int, k: int)
    requires per >= 1 && count >= 1 && per * count >= 1 && 0 <= k < elapsed / (per * count)
    ensures per * (count * k) < elapsed
  {
    var whole := per * count;
    assert whole * (elapsed / whole) <= elapsed;
    assert whole * (elapsed / whole) - whole * k == whole * (elapsed / whole - k);
    assert whole * k == per * (count * k);
  }

  /** Every step the search skips falls before `since`. */
  lemma SkippedStepsAreBefore(anchor: int, since: int, count: int, unit: Unit, k: int)
    requires count >= 1 && 0 <= k < FirstStep(anchor, since, count, unit)
    ensures Advance(anchor, count, unit, k) < since
  {
    QuotientBelow(Elapsed(anchor, since, unit), Per(unit), count, k);
    MoveFallsShort(anchor, since, unit, count * k);
  }

  /** `at` is the earliest of step(0), step(1), ... after `since`. */
  ghost predicate IsFirst(step: int -> int, since: int, at: int) {
    at > since && exists k: nat :: at == step(k) && forall j: nat :: j < k ==> step(j) <= since
  }

  lemma FirstIsUnique(step: int -> int, since: int, a: int, b: int)
    requires IsFirst(step, since, a) && IsFirst(step, since, b)
    ensures a == b
  {
  }

  ghost function StepsOf(anchor: int, count: int, unit: Unit): int -> int {
    k => Advance(anchor, count, unit, k)
  }

  /** The earliest step of the series after `since`. */
  function FirstAfter(anchor: int, since: int, count: int, unit: Unit): int
    requires count >= 1
  {
    SearchFrom(anchor, since, count, unit, 0)
  }

  function SearchFrom(anchor: int, since: int, count: int, unit: Unit, k: nat): (at: int)
    requires count >= 1
    decreases since - Advance(anchor, count, unit, k)
  {
    AdvanceGrows(anchor, count, unit, k, k + 1);
    var at := Advance(anchor, count, unit, k);
    if at > since then at else SearchFrom(anchor, since, count, unit, k + 1)
  }

  lemma {:induction false} SearchFinds(anchor: int, since: int, count: int, unit: Unit, k: nat)
    requires count >= 1 && forall j: nat :: j < k ==> StepsOf(anchor, count, unit)(j) <= since
    ensures IsFirst(StepsOf(anchor, count, unit), since, SearchFrom(anchor, since, count, unit, k))
    decreases since - Advance(anchor, count, unit, k)
  {
    AdvanceGrows(anchor, count, unit, k, k + 1);
    if Advance(anchor, count, unit, k) <= since {
      SearchFinds(anchor, since, count, unit, k + 1);
    } else {
      assert StepsOf(anchor, count, unit)(k) > since;
    }
  }

  ghost predicate SkipsNothing(anchor: int, since: int, count: int, unit: Unit, k: int) {
    forall j: nat :: j < k ==> StepsOf(anchor, count, unit)(j) <= since
  }

  lemma StartSkipsNothing(anchor: int, since: int, count: int, unit: Unit)
    requires count >= 1
    ensures FirstStep(anchor, since, count, unit) >= 0
    ensures SkipsNothing(anchor, since, count, unit, FirstStep(anchor, since, count, unit))
  {
    forall j: nat | j < FirstStep(anchor, since, count, unit)
      ensures StepsOf(anchor, count, unit)(j) <= since
    {
      SkippedStepsAreBefore(anchor, since, count, unit, j);
    }
    NonNegativeQuotient(Elapsed(anchor, since, unit), Per(unit) * count);
  }

  lemma NonNegativeQuotient(a: int, b: int)
    requires b >= 1
    ensures a > 0 ==> a / b >= 0
  {
  }

  lemma SkipsOneMore(anchor: int, since: int, count: int, unit: Unit, k: int)
    requires SkipsNothing(anchor, since, count, unit, k) && Advance(anchor, count, unit, k) <= since
    ensures SkipsNothing(anchor, since, count, unit, k + 1)
  {
  }

  lemma FoundIsFirst(anchor: int, since: int, count: int, unit: Unit, k: int)
    requires count >= 1 && k >= 0 && SkipsNothing(anchor, since, count, unit, k)
             && Advance(anchor, count, unit, k) > since
    ensures Advance(anchor, count, unit, k) == FirstAfter(anchor, since, count, unit)
    ensures IsFirst(StepsOf(anchor, count, unit), since, FirstAfter(anchor, since, count, unit))
  {
    SearchFinds(anchor, since, count, unit, 0);
    assert Advance(anchor, count, unit, k) == StepsOf(anchor, count, unit)(k);
    FirstIsUnique(StepsOf(anchor, count, unit), since, Advance(anchor, count, unit, k),
        FirstAfter(anchor, since, count, unit));
  }

  /** The search that starts at FirstStep finds what a search from the anchor
      would: the earliest step of the series after `since`. */
  method SearchSeries(anchor: int, since: int, count: int, unit: Unit) returns (at: int)
    requires count >= 1
    ensures at == FirstAfter(anchor, since, count, unit)
    ensures IsFirst(StepsOf(anchor, count, unit), since, at)
  {
    var k := FirstStep(anchor, since, count, unit);
    StartSkipsNothing(anchor, since, count, unit);
    at := Advance(anchor, count, unit, k);
    while at <= since
      invariant k >= 0 && at == Advance(anchor, count, unit, k)
      invariant SkipsNothing(anchor, since, count, unit, k)
      decreases since - at
    {
      AdvanceGrows(anchor, count, unit, k, k + 1);
      SkipsOneMore(anchor, since, count, unit, k);
      k := k + 1;
      at := Advance(anchor, count, unit, k);
    }
    FoundIsFirst(anchor, since, count, unit, k);
  }

  // ----- Seasons -----

  predicate InSeason(number: int, season: Season) {
    if season.start <= season.end then season.start <= number <= season.end
    else season.start <= number || number <= season.end
  }

  predicate OpenOn(s: Schedule, day: int) {
    s.Cadence? && s.season.Some? ==> InSeason(MonthNumber(MonthOf(day)), s.season.value)
  }

  /** The first of the `start` month in the day's own year. */
  function OpeningInYear(day: int, start: int): int {
    MonthIndex(Year(MonthOf(day)), start)
  }

  /** The month of the most recent opening at or before the day. */
  function LastOpening(day: int, start: int): int {
    var o := OpeningInYear(day, start);
    if FirstDay(o) > day then o - 12 else o
  }

  /** The month of the first opening after the day. */
  function NextOpening(day: int, start: int): int {
    var o := OpeningInYear(day, start);
    if FirstDay(o) > day then o else o + 12
  }

  /** A month's first day is on or before a day exactly when the month is. */
  lemma FirstDayOrder(month: int, day: int)
    ensures FirstDay(month) <= day <==> month <= MonthOf(day)
  {
    if month <= MonthOf(day) {
      FirstDayGrows(month, MonthOf(day));
    } else {
      FirstDayGrows(MonthOf(day) + 1, month);
    }
  }

  lemma FirstDayIsInMonth(month: int)
    ensures MonthOf(FirstDay(month)) == month
  {
    FirstDayStep(month);
    MonthIsUnique(month, FirstDay(month));
  }

  /** The opening in the year of a month, and those a year either side. */
  lemma OpeningYear(month: int, start: int)
    requires 1 <= start <= 12
    ensures month - 12 < MonthIndex(Year(month), start) < month + 12
    ensures MonthNumber(MonthIndex(Year(month), start)) == start
    ensures MonthNumber(MonthIndex(Year(month), start) + 12) == start
            == MonthNumber(MonthIndex(Year(month), start) - 12)
  {
  }

  lemma OpeningsBracket(day: int, start: int)
    requires 1 <= start <= 12
    ensures MonthNumber(LastOpening(day, start)) == start == MonthNumber(NextOpening(day, start))
    ensures LastOpening(day, start) <= MonthOf(day) < NextOpening(day, start) == LastOpening(day, start) + 12
    ensures FirstDay(LastOpening(day, start)) <= day < FirstDay(NextOpening(day, start))
  {
    var month := MonthOf(day);
    OpeningYear(month, start);
    OpeningsByMonth(day, MonthIndex(Year(month), start), month);
  }

  /** Openings compared by month rather than by day. */
  lemma OpeningsByMonth(day: int, o: int, month: int)
    requires month == MonthOf(day) && month - 12 < o < month + 12
    ensures FirstDay(o) > day <==> o > month
    ensures var last := if FirstDay(o) > day then o - 12 else o;
            last <= month < last + 12 && FirstDay(last) <= day < FirstDay(last + 12)
  {
    FirstDayOrder(o, day);
    FirstDayOrder(o - 12, day);
    FirstDayOrder(o + 12, day);
  }

  /** The number of a month less than a year after another. */
  lemma NumberAfter(month: int, n: int)
    requires 0 <= n < 12
    ensures MonthNumber(month + n) == MonthNumber(month) + if MonthNumber(month) + n <= 12 then n else n - 12
  {
    var year, m := month / 12, month % 12;
    assert month + n == 12 * year + (m + n);
  }

  /** Every month from an opening to a month in the same season is in season. */
  lemma SeasonIsUnbroken(opening: int, month: int, last: int, season: Season)
    requires 1 <= season.start <= 12 && 1 <= season.end <= 12 && MonthNumber(opening) == season.start
    requires opening <= month <= last < opening + 12 && InSeason(MonthNumber(last), season)
    ensures InSeason(MonthNumber(month), season)
  {
    NumberAfter(opening, month - opening);
    NumberAfter(opening, last - opening);
  }

  // ----- Next -----

  /** The occurrence before the season is applied. `since` is the last event's
      day, or the day the schedule was set. */
  function Shape(s: Schedule, last: Option<Event>, setDay: int): Option<Occurrence>
    requires Valid(s)
  {
    if last.Some? && last.value.override.Some? then
      Some(Occurrence(last.value.day + last.value.override.value, false))
    else
      var since := if last.Some? then last.value.day else setDay;
      match s
      case Cadence(count, unit, _) => Some(Occurrence(Advance(since, count, unit, 1), false))
      case Once(anchor, monthly) => if last.Some? && last.value.completes then None
          else Some(Occurrence(anchor, monthly))
      case Series(count, unit, anchor, monthly) => Some(Occurrence(FirstAfter(anchor, since, count, unit), monthly))
  }

  function Next(s: Schedule, last: Option<Event>, setDay: int, today: int): Option<Occurrence>
    requires Valid(s)
  {
    var shape := Shape(s, last, setDay);
    if shape.None? then None else Seasoned(s, shape.value, today)
  }

  predicate HasSeason(s: Schedule) {
    s.Cadence? && s.season.Some?
  }

  function OpenDays(s: Schedule): int -> bool {
    day => OpenOn(s, day)
  }

  /** The day the season last opened, and the next day it opens after another. */
  function OpenedOn(s: Schedule, today: int): int
    requires HasSeason(s)
  {
    FirstDay(LastOpening(today, s.season.value.start))
  }

  function OpensAfter(s: Schedule): int -> int
    requires HasSeason(s)
  {
    day => FirstDay(NextOpening(day, s.season.value.start))
  }

  /** An occurrence once a season is applied that opened on the day `first`. */
  function SeasonedWith(
    o: Occurrence, today: int, first: int, open: int -> bool, next: int -> int): Option<Occurrence> {
    if !open(today) then None
    else if o.at < first then Some(o.(at := first))
    else if !open(o.at) then Some(o.(at := next(o.at)))
    else Some(o)
  }

  function Seasoned(s: Schedule, o: Occurrence, today: int): Option<Occurrence>
    requires Valid(s)
  {
    if !HasSeason(s) then Some(o) else SeasonedWith(o, today, OpenedOn(s, today), OpenDays(s), OpensAfter(s))
  }

  // ----- The dates of a month -----

  datatype Projected = Projected(at: int, monthly: bool, overdue: bool, estimated: bool)

  function InSeasonOrNextOpening(s: Schedule, at: int): int {
    if OpenOn(s, at) then at else FirstDay(NextOpening(at, s.season.value.start))
  }

  /** The day before which an occurrence is overdue. */
  function DueDay(monthly: bool, today: int): int {
    if monthly then FirstDay(MonthOf(today)) else today
  }

  /** The first date the projection starts from. */
  function Start(s: Schedule, last: Option<Event>, setDay: int, today: int): Option<Projected>
    requires Valid(s)
  {
    var shape := Shape(s, last, setDay);
    if shape.None? then None else Some(StartFrom(s, shape.value, today))
  }

  function StartWith(o: Occurrence, today: int, due: int, first: int, open: int -> bool, next: int -> int): Projected {
    var moved := if open(today) && o.at < first then first else o.at;
    var at := if moved < due then due else moved;
    if open(at) then Projected(at, o.monthly, moved < due, false) else Projected(next(at), o.monthly, false, false)
  }

  function StartFrom(s: Schedule, o: Occurrence, today: int): Projected
    requires Valid(s)
  {
    var due := DueDay(o.monthly, today);
    if HasSeason(s) then StartWith(o, today, due, OpenedOn(s, today), OpenDays(s), OpensAfter(s))
    else Projected(if o.at < due then due else o.at, o.monthly, o.at < due, false)
  }

  lemma OpensNoEarlier(s: Schedule, at: int)
    requires Valid(s)
    ensures at <= InSeasonOrNextOpening(s, at) && OpenOn(s, InSeasonOrNextOpening(s, at))
  {
    if !OpenOn(s, at) {
      OpeningsBracket(at, s.season.value.start);
      FirstDayIsInMonth(NextOpening(at, s.season.value.start));
    }
  }

  lemma AdvancesPast(s: Schedule, day: int)
    requires Valid(s) && !s.Once?
    ensures s.Cadence? ==> InSeasonOrNextOpening(s, Advance(day, s.count, s.unit, 1)) > day
    ensures s.Cadence? ==> OpenOn(s, InSeasonOrNextOpening(s, Advance(day, s.count, s.unit, 1)))
    ensures s.Series? ==> FirstAfter(s.anchor, day, s.count, s.unit) > day
  {
    if s.Cadence? {
      AdvanceGrows(day, s.count, s.unit, 0, 1);
      AdvanceByNone(day, s.count, s.unit);
      OpensNoEarlier(s, Advance(day, s.count, s.unit, 1));
    } else {
      SearchFinds(s.anchor, day, s.count, s.unit, 0);
    }
  }

  /** The date due after care done on `day`, always a later one. */
  function Following(s: Schedule, day: int): (p: Projected)
    requires Valid(s) && !s.Once?
    ensures p.at > day && OpenOn(s, p.at)
  {
    AdvancesPast(s, day);
    match s
    case Cadence(count, unit, _) =>
      Projected(InSeasonOrNextOpening(s, Advance(day, count, unit, 1)), false, false, true)
    case Series(count, unit, anchor, monthly) => Projected(FirstAfter(anchor, day, count, unit), monthly, false, false)
  }

  /** The dates from p on that fall in [from, until). */
  function DatesFrom(s: Schedule, p: Projected, from: int, until: int): seq<Projected>
    requires Valid(s)
    decreases until - p.at
  {
    var head := if p.at >= from then [p] else [];
    if p.at >= until then []
    else if s.Once? then head
    else head + DatesFrom(s, Following(s, p.at), from, until)
  }

  function Dates(s: Schedule, last: Option<Event>, setDay: int, today: int, from: int, until: int): seq<Projected>
    requires Valid(s)
  {
    var start := Start(s, last, setDay, today);
    if start.None? then [] else DatesFrom(s, start.value, from, until)
  }

  method InMonth(s: Schedule, last: Option<Event>, setDay: int, month: int, today: int) returns (dates: seq<Projected>)
    requires Valid(s)
    ensures dates == Dates(s, last, setDay, today, FirstDay(month), FirstDay(month + 1))
  {
    var first := Start(s, last, setDay, today);
    if first.None? {
      return [];
    }
    dates := Project(s, first.value, FirstDay(month), FirstDay(month + 1));
  }

  lemma DatesFromStep(s: Schedule, p: Projected, from: int, until: int)
    requires Valid(s) && p.at < until
    ensures DatesFrom(s, p, from, until)
            == (if p.at >= from then [p] else []) + if s.Once? then []
                else DatesFrom(s, Following(s, p.at), from, until)
  {
  }

  method Project(s: Schedule, first: Projected, start: int, end: int) returns (dates: seq<Projected>)
    requires Valid(s)
    ensures dates == DatesFrom(s, first, start, end)
  {
    var p := first;
    dates := [];
    while p.at < end
      invariant DatesFrom(s, first, start, end) == dates + DatesFrom(s, p, start, end)
      decreases end - p.at
    {
      DatesFromStep(s, p, start, end);
      if p.at >= start {
        dates := dates + [p];
      }
      if s.Once? {
        break;
      }
      p := Following(s, p.at);
    }
  }

  predicate Rise(dates: seq<Projected>) {
    forall i, j :: 0 <= i < j < |dates| ==> dates[i].at < dates[j].at
  }

  /** Every date listed is in the range and in season, and they strictly rise,
      so a care is listed at most once on a day. */
  lemma {:induction false} DatesRise(s: Schedule, p: Projected, from: int, until: int)
    requires Valid(s) && OpenOn(s, p.at)
    ensures forall d :: d in DatesFrom(s, p, from, until) ==> from <= d.at < until && p.at <= d.at && OpenOn(s, d.at)
    ensures Rise(DatesFrom(s, p, from, until))
    decreases until - p.at
  {
    if p.at < until && !s.Once? {
      DatesRise(s, Following(s, p.at), from, until);
    }
  }

  /** Walking the calendar month by month loses no date and repeats none: two
      adjoining ranges list together what the whole range lists. */
  lemma {:induction false} MonthsJoin(s: Schedule, p: Projected, from: int, mid: int, until: int)
    requires Valid(s) && from <= mid <= until
    ensures DatesFrom(s, p, from, mid) + DatesFrom(s, p, mid, until) == DatesFrom(s, p, from, until)
    decreases until - p.at
  {
    if p.at < until && !s.Once? {
      MonthsJoin(s, Following(s, p.at), from, mid, until);
      if mid <= p.at {
        EmptyBefore(s, Following(s, p.at), from, mid);
      }
    }
  }

  lemma EmptyBefore(s: Schedule, p: Projected, from: int, until: int)
    requires Valid(s) && until <= p.at
    ensures DatesFrom(s, p, from, until) == []
  {
  }

  ghost predicate Listed(dates: seq<Projected>, day: int) {
    exists i :: 0 <= i < |dates| && dates[i].at == day
  }

  ghost predicate IsStep(s: Schedule, day: int)
    requires s.Series?
  {
    exists k: nat :: StepsOf(s.anchor, s.count, s.unit)(k) == day
  }

  /** The search skips no step of the series. */
  lemma NoStepBetween(s: Schedule, since: int, day: int)
    requires Valid(s) && s.Series? && IsStep(s, day) && since < day
    ensures FirstAfter(s.anchor, since, s.count, s.unit) <= day
    ensures IsStep(s, FirstAfter(s.anchor, since, s.count, s.unit))
  {
    SearchFinds(s.anchor, since, s.count, s.unit, 0);
    var step := StepsOf(s.anchor, s.count, s.unit);
    var k: nat :| step(k) == day;
    var first := FirstAfter(s.anchor, since, s.count, s.unit);
    var n: nat :| first == step(n) && forall j: nat :: j < n ==> step(j) <= since;
    if n < k {
      AdvanceGrows(s.anchor, s.count, s.unit, n, k);
    }
  }

  /** An anchored series lists its first date and then every step of the series
      after it, and nothing else. */
  lemma {:induction false} SeriesIsComplete(s: Schedule, p: Projected, from: int, until: int, day: int)
    requires Valid(s) && s.Series? && from <= day < until
    ensures Listed(DatesFrom(s, p, from, until), day) <==> day == p.at || (p.at < day && IsStep(s, day))
    decreases until - p.at
  {
    if p.at < until {
      var q := Following(s, p.at);
      SeriesIsComplete(s, q, from, until, day);
      var rest := DatesFrom(s, q, from, until);
      var dates := DatesFrom(s, p, from, until);
      assert dates == (if p.at >= from then [p] else []) + rest;
      assert Listed(dates, day) <==> (from <= p.at && day == p.at) || Listed(rest, day) by {
        ListedConcat(if p.at >= from then [p] else [], rest, day);
        assert [p][0].at == p.at;
      }
      SearchFinds(s.anchor, p.at, s.count, s.unit, 0);
      if p.at < day && IsStep(s, day) {
        NoStepBetween(s, p.at, day);
      }
    }
  }

  lemma ListedConcat(a: seq<Projected>, b: seq<Projected>, day: int)
    ensures Listed(a + b, day) <==> Listed(a, day) || Listed(b, day)
  {
    if Listed(a, day) {
      var i :| 0 <= i < |a| && a[i].at == day;
      assert (a + b)[i].at == day;
    }
    if Listed(b, day) {
      var i :| 0 <= i < |b| && b[i].at == day;
      assert (a + b)[|a| + i].at == day;
    }
  }

  /** While the season is open the calendar starts where Today says the care is
      due next: on that date, or on today and overdue once it has passed. */
  lemma CalendarStartsAtNext(s: Schedule, last: Option<Event>, setDay: int, today: int)
    requires Valid(s) && OpenOn(s, today)
    ensures Next(s, last, setDay, today).Some? <==> Start(s, last, setDay, today).Some?
    ensures Next(s, last, setDay, today).Some? ==>
              var o := Next(s, last, setDay, today).value;
              var due := DueDay(o.monthly, today);
              Start(s, last, setDay, today).value
                  == Projected(if o.at < due then due else o.at, o.monthly, o.at < due, false)
  {
    var shape := Shape(s, last, setDay);
    if shape.Some? {
      if s.Cadence? && s.season.Some? {
        ShapeOfCadence(s, last, setDay);
        SeasonStartsAtNext(s, shape.value, today);
      } else {
        assert Seasoned(s, shape.value, today) == shape;
      }
    }
  }

  lemma ShapeOfCadence(s: Schedule, last: Option<Event>, setDay: int)
    requires Valid(s) && s.Cadence?
    ensures Shape(s, last, setDay).Some? && !Shape(s, last, setDay).value.monthly
  {
  }

  lemma SeasonStartsAtNext(s: Schedule, o: Occurrence, today: int)
    requires Valid(s) && HasSeason(s) && OpenOn(s, today) && !o.monthly
    ensures Seasoned(s, o, today).Some?
    ensures var next := Seasoned(s, o, today).value;
            && !next.monthly
            && StartFrom(s, o, today)
               == Projected(if next.at < today then today else next.at, false, next.at < today, false)
  {
    OpeningsBracket(today, s.season.value.start);
    OpenFromOpening(s, o.at, today);
    OpensNoEarlier(s, o.at);
    StartsAtSeasoned(o, today, OpenedOn(s, today), OpenDays(s), OpensAfter(s));
  }

  /** With a season open today since `first`, the projection starts where the
      occurrence is once seasoned, or on today and overdue. */
  lemma StartsAtSeasoned(o: Occurrence, today: int, first: int, open: int -> bool, next: int -> int)
    requires open(today) && first <= today && !o.monthly
    requires (first <= o.at <= today ==> open(o.at)) && (!open(o.at) ==> o.at <= next(o.at))
    ensures var seasoned := SeasonedWith(o, today, first, open, next);
            && seasoned.Some? && !seasoned.value.monthly
            && var at := seasoned.value.at;
               StartWith(o, today, today, first, open, next)
               == Projected(if at < today then today else at, false, at < today, false)
  {
  }

  /** Every day from the last opening to an open day is open. */
  lemma OpenFromOpening(s: Schedule, at: int, today: int)
    requires Valid(s) && s.Cadence? && s.season.Some? && OpenOn(s, today)
    ensures FirstDay(LastOpening(today, s.season.value.start)) <= at <= today ==> OpenOn(s, at)
  {
    var season := s.season.value;
    var opening := LastOpening(today, season.start);
    OpeningsBracket(today, season.start);
    if FirstDay(opening) <= at <= today {
      FirstDayOrder(opening, at);
      MonthOrder(at, today);
      SeasonIsUnbroken(opening, MonthOf(at), MonthOf(today), season);
    }
  }

  lemma MonthOrder(a: int, b: int)
    requires a <= b
    ensures MonthOf(a) <= MonthOf(b)
  {
    if MonthOf(b) < MonthOf(a) {
      FirstDayGrows(MonthOf(b) + 1, MonthOf(a));
    }
  }
}
