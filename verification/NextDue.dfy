/** When a care falls due, in the words of the calendar: what the last care, the
    day the schedule was set, the interval, the anchor and the season make of it. */
module NextDue {
  import opened Options
  import opened Civil
  import opened DueDates

  // ----- Intervals -----

  /** n months on, on the same day of the month or the last of a shorter one. */
  predicate IsMonthsAfter(day: int, n: int, at: int) {
    && MonthOf(at) == MonthOf(day) + n
    && DayOfMonth(at) == if DayOfMonth(day) > Length(MonthOf(at)) then Length(MonthOf(at)) else DayOfMonth(day)
  }

  /** One interval after a day. */
  predicate IsIntervalAfter(day: int, count: int, unit: Unit, at: int) {
    match unit
    case Days => at == day + count
    case Weeks => at == day + 7 * count
    case Months => IsMonthsAfter(day, count, at)
    case Years => IsMonthsAfter(day, 12 * count, at)
  }

  lemma AddMonthsIsMonthsAfter(day: int, n: int)
    ensures IsMonthsAfter(day, n, AddMonths(day, n))
  {
    AddMonthsLands(day, n);
    MonthIsUnique(MonthOf(day) + n, AddMonths(day, n));
  }

  /** Every step of a series is that many intervals after its anchor. */
  lemma StepIsIntervalsAfter(day: int, count: int, unit: Unit, n: int)
    ensures IsIntervalAfter(day, count * n, unit, Advance(day, count, unit, n))
  {
    match unit
    case Days =>
    case Weeks =>
    case Months => AddMonthsIsMonthsAfter(day, count * n);
    case Years => AddMonthsIsMonthsAfter(day, 12 * (count * n));
  }

  lemma IntervalIsUnique(day: int, count: int, unit: Unit, a: int, b: int)
    requires IsIntervalAfter(day, count, unit, a) && IsIntervalAfter(day, count, unit, b)
    ensures a == b
  {
  }

  // ----- Next, without a season -----

  /** A cadence counts from the last care, whenever it was set, and from the day it
      was set while there is none. */
  lemma CareMovesACadence(count: int, unit: Unit, last: Option<Event>, setDay: int, today: int)
    requires count >= 1 && (last.Some? ==> last.value.override.None?)
    ensures var next := Next(Cadence(count, unit, None), last, setDay, today);
            && next.Some? && !next.value.monthly
            && IsIntervalAfter(if last.Some? then last.value.day else setDay, count, unit, next.value.at)
  {
    StepIsIntervalsAfter(if last.Some? then last.value.day else setDay, count, unit, 1);
  }

  /** A skip with an interval of its own is due that many days after it, whatever the
      shape of the schedule. */
  lemma SkipIsDueAfterItsDays(s: Schedule, last: Event, setDay: int, today: int)
    requires Valid(s) && !HasSeason(s) && last.override.Some?
    ensures Next(s, Some(last), setDay, today) == Some(Occurrence(last.day + last.override.value, false))
  {
  }

  /** A series is due on its first step after the last care, or after the day it was
      set, and keeps its precision. */
  lemma SeriesIsDueOnAStep(s: Schedule, last: Option<Event>, setDay: int, today: int)
    requires Valid(s) && s.Series? && (last.Some? ==> last.value.override.None?)
    ensures var next := Next(s, last, setDay, today);
            && next.Some? && next.value.monthly == s.monthly
            && IsFirst(StepsOf(s.anchor, s.count, s.unit), if last.Some? then last.value.day else setDay, next.value.at)
  {
    SearchFinds(s.anchor, if last.Some? then last.value.day else setDay, s.count, s.unit, 0);
  }

  /** A one-off is due on its date until it has been done, and then never. */
  lemma OneOffIsDueOnce(s: Schedule, last: Option<Event>, setDay: int, today: int)
    requires Valid(s) && s.Once? && (last.Some? ==> last.value.override.None?)
    ensures Next(s, last, setDay, today)
            == if last.Some? && last.value.completes then None else Some(Occurrence(s.anchor, s.monthly))
  {
  }

  // ----- Seasons -----

  /** The months of a season are those met going around the year from its first to
      its last. */
  lemma InSeasonExactly(number: int, season: Season)
    requires 1 <= number <= 12 && 1 <= season.start <= 12 && 1 <= season.end <= 12
    ensures InSeason(number, season) <==> (number - season.start) % 12 <= (season.end - season.start) % 12
  {
  }

  /** The first of the month a season opens in. */
  predicate IsOpening(season: Season, day: int) {
    DayOfMonth(day) == 1 && MonthNumber(MonthOf(day)) == season.start
  }

  ghost predicate IsLatestOpening(season: Season, today: int, day: int) {
    IsOpening(season, day) && day <= today && forall d :: day < d <= today ==> !IsOpening(season, d)
  }

  /** The first day in season from a day on. */
  ghost predicate IsFirstOpen(s: Schedule, from: int, at: int) {
    from <= at && OpenOn(s, at) && forall d :: from <= d < at ==> !OpenOn(s, d)
  }

  lemma FirstOpenIsUnique(s: Schedule, from: int, a: int, b: int)
    requires IsFirstOpen(s, from, a) && IsFirstOpen(s, from, b)
    ensures a == b
  {
  }

  /** No other month of the start's number lies between two openings. */
  lemma NoneBetween(opening: int, month: int)
    requires opening < month < opening + 12
    ensures MonthNumber(month) != MonthNumber(opening)
  {
    NumberAfter(opening, month - opening);
  }

  lemma OpenedOnIsLatest(s: Schedule, today: int)
    requires Valid(s) && HasSeason(s)
    ensures IsLatestOpening(s.season.value, today, OpenedOn(s, today)) && OpenOn(s, OpenedOn(s, today))
  {
    var season := s.season.value;
    var opening := LastOpening(today, season.start);
    OpeningsBracket(today, season.start);
    FirstDayIsInMonth(opening);
    forall d | FirstDay(opening) < d <= today
      ensures !IsOpening(season, d)
    {
      FirstDayOrder(opening, d);
      MonthOrder(d, today);
      if MonthOf(d) != opening {
        NoneBetween(opening, MonthOf(d));
      }
    }
  }

  lemma ClosedMonths(opening: int, a: int, b: int, season: Season)
    requires 1 <= season.start <= 12 && 1 <= season.end <= 12 && MonthNumber(opening) == season.start
    requires opening <= a <= b < opening + 12 && !InSeason(MonthNumber(a), season)
    ensures !InSeason(MonthNumber(b), season)
  {
    NumberAfter(opening, a - opening);
    NumberAfter(opening, b - opening);
  }

  /** Once closed, a season stays closed until its next opening. */
  lemma ClosedUntilOpening(s: Schedule, at: int, d: int)
    requires Valid(s) && HasSeason(s) && !OpenOn(s, at)
    requires at <= d < FirstDay(NextOpening(at, s.season.value.start))
    ensures !OpenOn(s, d)
  {
    var season := s.season.value;
    var opening := LastOpening(at, season.start);
    OpeningsBracket(at, season.start);
    MonthOrder(at, d);
    FirstDayOrder(opening + 12, d);
    ClosedMonths(opening, MonthOf(at), MonthOf(d), season);
  }

  lemma OpensFirst(s: Schedule, at: int)
    requires Valid(s)
    ensures IsFirstOpen(s, at, InSeasonOrNextOpening(s, at))
  {
    OpensNoEarlier(s, at);
    if !OpenOn(s, at) {
      forall d | at <= d < InSeasonOrNextOpening(s, at)
        ensures !OpenOn(s, d)
      {
        ClosedUntilOpening(s, at, d);
      }
    }
  }

  /** The schedule with its season left off. */
  function AllYear(s: Schedule): Schedule {
    if s.Cadence? then s.(season := None) else s
  }

  function Later(a: int, b: int): int {
    if a < b then b else a
  }

  /** Applying an open season moves a date to the first day in season from the later
      of it and the opening. */
  lemma SeasonedIsFirstOpen(s: Schedule, o: Occurrence, today: int)
    requires Valid(s) && HasSeason(s)
    ensures Seasoned(s, o, today)
            == if OpenOn(s, today) then Some(o.(at := InSeasonOrNextOpening(s, Later(o.at, OpenedOn(s, today)))))
                else None
  {
    OpenedOnIsLatest(s, today);
    assert OpenDays(s)(today) == OpenOn(s, today) && OpenDays(s)(o.at) == OpenOn(s, o.at);
    assert OpensAfter(s)(o.at) == FirstDay(NextOpening(o.at, s.season.value.start));
  }

  lemma NextAllYear(s: Schedule, last: Option<Event>, setDay: int, today: int)
    requires Valid(s) && HasSeason(s)
    ensures var raw := Next(AllYear(s), last, setDay, today);
            raw.Some? && Next(s, last, setDay, today) == Seasoned(s, raw.value, today)
  {
    ShapeAllYear(s, last, setDay);
    UnseasonedStays(AllYear(s), Shape(s, last, setDay).value, today);
  }

  lemma ShapeAllYear(s: Schedule, last: Option<Event>, setDay: int)
    requires Valid(s) && s.Cadence?
    ensures Shape(s, last, setDay).Some? && Shape(AllYear(s), last, setDay) == Shape(s, last, setDay)
  {
  }

  lemma UnseasonedStays(s: Schedule, o: Occurrence, today: int)
    requires Valid(s) && !HasSeason(s)
    ensures Seasoned(s, o, today) == Some(o)
  {
  }

  /** With a season nothing is due on a day it is closed. On a day it is open, the
      care is due on the first day in season that is not before the date it would be
      due all year round nor before the latest opening. */
  lemma SeasonMovesADate(s: Schedule, last: Option<Event>, setDay: int, today: int)
    requires Valid(s) && HasSeason(s)
    ensures Next(s, last, setDay, today).Some? <==> OpenOn(s, today)
    ensures Next(AllYear(s), last, setDay, today).Some?
    ensures OpenOn(s, today) ==>
              var raw, next := Next(AllYear(s), last, setDay, today).value, Next(s, last, setDay, today).value;
              next.monthly == raw.monthly
              && exists opening :: IsLatestOpening(s.season.value, today, opening)
                   && IsFirstOpen(s, Later(raw.at, opening), next.at)
  {
    var raw := Next(AllYear(s), last, setDay, today).value;
    NextAllYear(s, last, setDay, today);
    SeasonedIsFirstOpen(s, raw, today);
    OpenedOnIsLatest(s, today);
    OpensFirst(s, Later(raw.at, OpenedOn(s, today)));
  }

  // ----- The dates of the calendar -----

  /** The date the calendar starts from: the first day in season that is not before
      the date due all year round, nor before the latest opening while the season is
      open, nor past. It is overdue when the care was due in this season and is past. */
  ghost predicate StartsWith(s: Schedule, raw: Occurrence, today: int, opening: int, p: Projected) {
    var due := if raw.monthly then FirstDay(MonthOf(today)) else today;
    var from := if HasSeason(s) && OpenOn(s, today) then Later(raw.at, opening) else raw.at;
    && p.monthly == raw.monthly && !p.estimated
    && (p.overdue <==> OpenOn(s, today) && from < due)
    && IsFirstOpen(s, Later(from, due), p.at)
  }

  lemma StartWithinSeason(s: Schedule, o: Occurrence, today: int)
    requires Valid(s) && HasSeason(s) && !o.monthly
    ensures StartsWith(s, o, today, OpenedOn(s, today), StartFrom(s, o, today))
  {
    var from := if OpenOn(s, today) then Later(o.at, OpenedOn(s, today)) else o.at;
    var at := Later(from, today);
    OpensFirst(s, at);
    assert OpenDays(s)(today) == OpenOn(s, today) && OpenDays(s)(at) == OpenOn(s, at);
    assert OpensAfter(s)(at) == FirstDay(NextOpening(at, s.season.value.start));
    assert StartFrom(s, o, today).at == InSeasonOrNextOpening(s, at);
  }

  lemma StartOutsideSeasons(s: Schedule, o: Occurrence, today: int, opening: int)
    requires Valid(s) && !HasSeason(s)
    ensures StartsWith(s, o, today, opening, StartFrom(s, o, today))
  {
    assert forall d :: OpenOn(s, d);
  }

  /** The calendar starts nowhere exactly when nothing more is due all year round. */
  lemma CalendarStart(s: Schedule, last: Option<Event>, setDay: int, today: int, opening: int)
    requires Valid(s) && (HasSeason(s) ==> IsLatestOpening(s.season.value, today, opening))
    ensures Start(s, last, setDay, today).Some? <==> Next(AllYear(s), last, setDay, today).Some?
    ensures Start(s, last, setDay, today).Some? ==>
              StartsWith(s, Next(AllYear(s), last, setDay, today).value, today, opening,
                         Start(s, last, setDay, today).value)
  {
    var shape := Shape(s, last, setDay);
    if HasSeason(s) {
      ShapeAllYear(s, last, setDay);
      ShapeOfCadence(s, last, setDay);
      UnseasonedStays(AllYear(s), shape.value, today);
      OpenedOnIsLatest(s, today);
      assert opening == OpenedOn(s, today);
      StartWithinSeason(s, shape.value, today);
    } else if shape.Some? {
      UnseasonedStays(s, shape.value, today);
      assert AllYear(s) == s;
      StartOutsideSeasons(s, shape.value, today, opening);
    }
  }

  /** b is the date due after care done on the date a. A cadence is due on the first
      day in season from one interval on, as an estimate, and a series on its next step. */
  ghost predicate Follows(s: Schedule, a: Projected, b: Projected)
    requires !s.Once?
  {
    match s
    case Cadence(count, unit, _) =>
      && !b.monthly && !b.overdue && b.estimated
      && exists raw :: IsIntervalAfter(a.at, count, unit, raw) && IsFirstOpen(s, raw, b.at)
    case Series(count, unit, anchor, monthly) =>
      b.monthly == monthly && !b.overdue && !b.estimated && IsFirst(StepsOf(anchor, count, unit), a.at, b.at)
  }

  lemma FollowingFollows(s: Schedule, p: Projected)
    requires Valid(s) && !s.Once?
    ensures Follows(s, p, Following(s, p.at))
  {
    if s.Cadence? {
      var raw := Advance(p.at, s.count, s.unit, 1);
      StepIsIntervalsAfter(p.at, s.count, s.unit, 1);
      OpensFirst(s, raw);
      assert IsIntervalAfter(p.at, s.count, s.unit, raw);
    } else {
      SearchFinds(s.anchor, p.at, s.count, s.unit, 0);
    }
  }

  lemma FollowsIsUnique(s: Schedule, p: Projected, a: Projected, b: Projected)
    requires !s.Once? && Follows(s, p, a) && Follows(s, p, b)
    ensures a == b
  {
    match s
    case Cadence(count, unit, _) =>
      var x :| IsIntervalAfter(p.at, count, unit, x) && IsFirstOpen(s, x, a.at);
      var y :| IsIntervalAfter(p.at, count, unit, y) && IsFirstOpen(s, y, b.at);
      IntervalIsUnique(p.at, count, unit, x, y);
      FirstOpenIsUnique(s, x, a.at, b.at);
    case Series(count, unit, anchor, _) =>
      FirstIsUnique(StepsOf(anchor, count, unit), p.at, a.at, b.at);
  }

  /** The whole projection of p before `until`: p, then each date the one due after
      the date before it, with none left out at the end. A one-off is p alone. */
  ghost predicate IsProjection(s: Schedule, p: Projected, until: int, dates: seq<Projected>) {
    && (dates == [] <==> p.at >= until)
    && (dates != [] ==> dates[0] == p)
    && (forall i :: 0 <= i < |dates| ==> dates[i].at < until)
    && (s.Once? ==> |dates| <= 1)
    && (!s.Once? ==>
        && (forall i :: 0 < i < |dates| ==> Follows(s, dates[i - 1], dates[i]))
        && (dates != [] ==> forall q :: Follows(s, dates[|dates| - 1], q) ==> q.at >= until))
  }

  lemma {:induction false} ProjectionIs(s: Schedule, p: Projected, until: int)
    requires Valid(s)
    ensures IsProjection(s, p, until, DatesFrom(s, p, p.at, until))
    decreases until - p.at
  {
    var dates := DatesFrom(s, p, p.at, until);
    if p.at < until && !s.Once? {
      var next := Following(s, p.at);
      var rest := DatesFrom(s, next, next.at, until);
      ProjectionIs(s, next, until);
      FromEarlier(s, next, p.at, next.at, until);
      assert dates == [p] + rest;
      FollowingFollows(s, p);
      forall i | 0 < i < |dates|
        ensures Follows(s, dates[i - 1], dates[i])
      {
        if i > 1 {
          assert dates[i - 1] == rest[i - 2] && dates[i] == rest[i - 1];
        }
      }
      if rest == [] {
        forall q | Follows(s, p, q)
          ensures q.at >= until
        {
          FollowsIsUnique(s, p, q, next);
        }
      } else {
        assert dates[|dates| - 1] == rest[|rest| - 1];
      }
    }
  }

  /** A range that starts before the first date lists it all the same. */
  lemma FromEarlier(s: Schedule, p: Projected, from: int, mid: int, until: int)
    requires Valid(s) && from <= mid <= p.at
    ensures DatesFrom(s, p, from, until) == DatesFrom(s, p, mid, until)
  {
    if mid <= until {
      MonthsJoin(s, p, from, mid, until);
      EmptyBefore(s, p, from, mid);
    }
  }

  function FromOn(dates: seq<Projected>, from: int): seq<Projected> {
    if dates == [] then []
    else (if dates[0].at >= from then [dates[0]] else []) + FromOn(dates[1..], from)
  }

  lemma {:induction false} RangeIsFiltered(s: Schedule, p: Projected, from: int, until: int)
    requires Valid(s)
    ensures DatesFrom(s, p, from, until) == FromOn(DatesFrom(s, p, p.at, until), from)
    decreases until - p.at
  {
    if p.at < until && !s.Once? {
      var next := Following(s, p.at);
      RangeIsFiltered(s, next, from, until);
      FromEarlier(s, next, p.at, next.at, until);
    }
  }

  /** What the calendar lists for a range is its projection, from the start on, cut to
      the range: nothing when nothing more is due. */
  lemma CalendarLists(s: Schedule, last: Option<Event>, setDay: int, today: int, from: int, until: int)
    requires Valid(s)
    ensures var start := Start(s, last, setDay, today);
            var dates := Dates(s, last, setDay, today, from, until);
            if start.None? then dates == []
            else exists all :: IsProjection(s, start.value, until, all) && dates == FromOn(all, from)
  {
    var start := Start(s, last, setDay, today);
    if start.Some? {
      ProjectionIs(s, start.value, until);
      RangeIsFiltered(s, start.value, from, until);
    }
  }
}
