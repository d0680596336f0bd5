/** The seed's schedules: the next date one falls due, and its past. Times are
    counted in nanoseconds from midnight at the start of year zero, in the
    reference's own fixed offset. */
module SeedHistory {
  import opened Civil
  import opened LocalTime

  datatype Schedule = Schedule(
    count: int,
    unit: Unit,
    dueIn: int,
    anchorYear: int,
    anchorMonth: int,
    anchorDay: int,
    seasonStart: int,
    seasonEnd: int)

  function DayOf(t: int): int {
    t / DAY
  }

  /** time.AddDate keeps the time of day. */
  function AddTo(t: int, months: int, days: int): int {
    AddDate(DayOf(t), months, days) * DAY + t % DAY
  }

  function Advance(t: int, count: int, unit: Unit, n: int): int {
    match unit
    case Days => AddTo(t, 0, count * n)
    case Weeks => AddTo(t, 0, 7 * count * n)
    case Months => AddTo(t, count * n, 0)
    case Years => AddTo(t, 12 * (count * n), 0)
  }

  lemma AddDays(t: int, days: int)
    ensures AddTo(t, 0, days) == t + days * DAY
  {
  }

  lemma AddDaysGrows(t: int, a: int, b: int, gap: int)
    requires a + gap <= b
    ensures AddTo(t, 0, a) + gap * DAY <= AddTo(t, 0, b)
  {
    AddDays(t, a);
    AddDays(t, b);
  }

  lemma AddMonthsGrows(t: int, a: int, b: int, gap: nat)
    requires a + gap <= b
    ensures AddTo(t, a, 0) + gap * DAY <= AddTo(t, b, 0)
  {
    FirstDayGrows(MonthOf(DayOf(t)) + a, MonthOf(DayOf(t)) + b);
  }

  lemma ScaledGap(count: int, n: int, m: int)
    requires count >= 1 && n <= m
    ensures count * n + (m - n) <= count * m
  {
    assert count * m - count * n == (m - n) + (count - 1) * (m - n);
  }

  /** Moving by more intervals always lands later, by at least a day for each,
      even where a day past a month's end rolls into the month after. */
  lemma AdvanceGrows(t: int, count: int, unit: Unit, n: int, m: int)
    requires count >= 1 && n <= m
    ensures Advance(t, count, unit, n) + (m - n) * DAY <= Advance(t, count, unit, m)
  {
    match unit
    case Days =>
      ScaledGap(count, n, m);
      AddDaysGrows(t, count * n, count * m, m - n);
    case Weeks =>
      ScaledGap(7 * count, n, m);
      AddDaysGrows(t, 7 * count * n, 7 * count * m, m - n);
    case Months => AdvanceMonthsGrows(t, count, n, m);
    case Years => AdvanceYearsGrows(t, count, n, m);
  }

  lemma AdvanceMonthsGrows(t: int, count: int, n: int, m: int)
    requires count >= 1 && n <= m
    ensures Advance(t, count, Months, n) + (m - n) * DAY <= Advance(t, count, Months, m)
  {
    ScaledGap(count, n, m);
    AddMonthsGrows(t, count * n, count * m, m - n);
  }

  lemma AdvanceYearsGrows(t: int, count: int, n: int, m: int)
    requires count >= 1 && n <= m
    ensures Advance(t, count, Years, n) + (m - n) * DAY <= Advance(t, count, Years, m)
  {
    ScaledGap(count, n, m);
    AddMonthsGrows(t, 12 * (count * n), 12 * (count * m), m - n);
  }

  lemma AdvanceByNone(t: int, count: int, unit: Unit)
    ensures Advance(t, count, unit, 0) == t
  {
    AddDays(t, 0);
  }

  predicate Repeats(s: Schedule) {
    s.count > 0
  }

  predicate Anchored(s: Schedule) {
    s.anchorMonth != 0
  }

  /** The anchor's date in the reference's year, shifted, at midnight. */
  function Anchor(s: Schedule, ref: int): int {
    var year := Year(MonthOf(DayOf(ref))) + s.anchorYear;
    DateOf(MonthIndex(year, s.anchorMonth), if s.anchorDay == 0 then 1 else s.anchorDay) * DAY
  }

  /** The first of at, at plus one interval, and so on, after the reference. */
  function FirstAfter(s: Schedule, at: int, ref: int): (r: int)
    requires Repeats(s)
    ensures r > ref
    decreases ref - at
  {
    AdvanceGrows(at, s.count, s.unit, 0, 1);
    AdvanceByNone(at, s.count, s.unit);
    if at > ref then at else FirstAfter(s, Advance(at, s.count, s.unit, 1), ref)
  }

  /** When the schedule next falls due. */
  function NextDue(s: Schedule, ref: int): int {
    if !Anchored(s) then AddTo(ref, 0, s.dueIn)
    else if !Repeats(s) then Anchor(s, ref)
    else FirstAfter(s, Anchor(s, ref), ref)
  }

  method Next(s: Schedule, ref: int) returns (at: int)
    ensures at == NextDue(s, ref)
    ensures Anchored(s) && Repeats(s) ==> at > ref
  {
    if !Anchored(s) {
      return AddTo(ref, 0, s.dueIn);
    }
    at := Anchor(s, ref);
    while Repeats(s) && at <= ref
      invariant Repeats(s) ==> FirstAfter(s, at, ref) == FirstAfter(s, Anchor(s, ref), ref)
      invariant !Repeats(s) ==> at == Anchor(s, ref)
      decreases ref - at
    {
      AdvanceGrows(at, s.count, s.unit, 0, 1);
      AdvanceByNone(at, s.count, s.unit);
      at := Advance(at, s.count, s.unit, 1);
    }
  }

  /** The k-th of at, at plus one interval, and so on, each counted from the one
      before it. */
  function Repeated(s: Schedule, at: int, k: nat): int
    decreases k
  {
    if k == 0 then at else Repeated(s, Advance(at, s.count, s.unit, 1), k - 1)
  }

  /** A repeating schedule is next due on the first of them after the reference. */
  lemma {:induction false} FirstAfterIsFirst(s: Schedule, at: int, ref: int) returns (k: nat)
    requires Repeats(s)
    ensures FirstAfter(s, at, ref) == Repeated(s, at, k) > ref
    ensures forall j :: 0 <= j < k ==> Repeated(s, at, j) <= ref
    decreases ref - at
  {
    k := 0;
    if at <= ref {
      AdvanceGrows(at, s.count, s.unit, 0, 1);
      AdvanceByNone(at, s.count, s.unit);
      var rest := FirstAfterIsFirst(s, Advance(at, s.count, s.unit, 1), ref);
      k := rest + 1;
    }
  }

  lemma MidnightIsOfItsDay(date: int)
    ensures DayOf(date * DAY) == date && date * DAY % DAY == 0
  {
  }

  /** The date of an anchor, that many years on. */
  function AnchorDate(s: Schedule, ref: int): int {
    DateOf(MonthIndex(Year(MonthOf(DayOf(ref))) + s.anchorYear, s.anchorMonth),
           if s.anchorDay == 0 then 1 else s.anchorDay)
  }

  lemma DateIsItsDay(year: int, number: int, d: int)
    requires 1 <= number <= 12 && 1 <= d <= Length(MonthIndex(year, number))
    ensures var date := DateOf(MonthIndex(year, number), d);
            Year(MonthOf(date)) == year && MonthNumber(MonthOf(date)) == number && DayOfMonth(date) == d
  {
    RollsWhenTooLong(MonthIndex(year, number), d);
  }

  /** An anchor whose day exists is midnight of its day and month, that many years on. */
  lemma AnchorIsItsDate(s: Schedule, ref: int, year: int)
    requires year == Year(MonthOf(DayOf(ref))) + s.anchorYear && 1 <= s.anchorMonth <= 12
    requires 0 <= s.anchorDay <= Length(MonthIndex(year, s.anchorMonth))
    ensures var at := Anchor(s, ref);
            var month := MonthOf(DayOf(at));
            && at % DAY == 0 && Year(month) == year && MonthNumber(month) == s.anchorMonth
            && DayOfMonth(DayOf(at)) == if s.anchorDay == 0 then 1 else s.anchorDay
  {
    MidnightIsOfItsDay(AnchorDate(s, ref));
    DateIsItsDay(year, s.anchorMonth, if s.anchorDay == 0 then 1 else s.anchorDay);
  }

  /** Without an anchor a schedule is due that many days after the reference, with one
      and no interval on the anchor, and with both on the first repeat after it. */
  lemma NextDueIs(s: Schedule, ref: int)
    ensures s.anchorMonth == 0 ==> NextDue(s, ref) == ref + s.dueIn * DAY
    ensures s.anchorMonth != 0 && s.count <= 0 ==> NextDue(s, ref) == Anchor(s, ref)
    ensures s.anchorMonth != 0 && s.count > 0 ==>
              exists k: nat :: NextDue(s, ref) == Repeated(s, Anchor(s, ref), k) > ref
                && forall j :: 0 <= j < k ==> Repeated(s, Anchor(s, ref), j) <= ref
  {
    AddDays(ref, s.dueIn);
    if s.anchorMonth != 0 && s.count > 0 {
      var k := FirstAfterIsFirst(s, Anchor(s, ref), ref);
    }
  }

  /** Duration.Round to a whole day, halves away from zero. */
  function DaysBetween(earlier: int, later: int): int {
    var d := later - earlier;
    if d >= 0 then (d + DAY / 2) / DAY else -((-d + DAY / 2) / DAY)
  }

  predicate InSeason(s: Schedule, number: int) {
    s.seasonStart == 0
    || (if s.seasonStart <= s.seasonEnd then s.seasonStart <= number <= s.seasonEnd
        else s.seasonStart <= number || number <= s.seasonEnd)
  }

  const HISTORY_DAYS := 200

  predicate Counts(s: Schedule, at: int, ref: int) {
    0 < DaysBetween(at, ref) < HISTORY_DAYS && InSeason(s, MonthNumber(MonthOf(DayOf(at))))
  }

  /** The k-th occurrence before the next one. */
  function Past(s: Schedule, next: int, k: int): int {
    Advance(next, s.count, s.unit, -k)
  }

  ghost predicate IsPast(s: Schedule, next: int, at: int) {
    IsStep(k => Past(s, next, k), at)
  }

  /** `at` is one of the steps past(1), past(2), ... */
  ghost predicate IsStep(past: int -> int, at: int) {
    exists k :: k >= 1 && at == past(k)
  }

  lemma AgoGrows(s: Schedule, next: int, ref: int, j: int, k: int)
    requires Repeats(s) && j <= k
    ensures DaysBetween(Past(s, next, j), ref) + (k - j) <= DaysBetween(Past(s, next, k), ref)
    ensures j < k ==> Past(s, next, k) < Past(s, next, j)
  {
    AdvanceGrows(next, s.count, s.unit, -k, -j);
    RoundGrows(ref - Past(s, next, j), ref - Past(s, next, k), k - j);
  }

  lemma RoundGrows(a: int, b: int, n: nat)
    requires a + n * DAY <= b
    ensures DaysBetween(0, a) + n <= DaysBetween(0, b)
  {
  }

  /** What the loop has gathered before it looks at step k. */
  ghost predicate Gathered(past: int -> int, counts: int -> bool, k: int, out: seq<int>) {
    && (forall i, j :: 0 <= i < j < |out| ==> out[j] < out[i])
    && (forall at :: at in out ==> counts(at) && IsStep(past, at) && past(k) < at)
    && (forall j :: 1 <= j < k && counts(past(j)) ==> past(j) in out)
  }

  lemma GatherStep(past: int -> int, counts: int -> bool, k: int, out: seq<int>)
    requires k >= 1 && past(k + 1) < past(k) && Gathered(past, counts, k, out)
    ensures Gathered(past, counts, k + 1, if counts(past(k)) then out + [past(k)] else out)
  {
    assert IsStep(past, past(k));
    assert past(k) in out + [past(k)];
    assert forall at :: at in out ==> at in out + [past(k)];
    if counts(past(k)) {
      forall i, j | 0 <= i < j < |out| + 1
        ensures (out + [past(k)])[j] < (out + [past(k)])[i]
      {
        assert out + [past(k)] != [] && (j < |out| || out[i] in out);
      }
    }
  }

  /** Past the horizon, nothing further back counts. */
  lemma NoneFurther(past: int -> int, counts: int -> bool, k: int, out: seq<int>)
    requires Gathered(past, counts, k, out) && forall j :: j >= k ==> !counts(past(j))
    ensures forall at :: at in out <==> IsStep(past, at) && counts(at)
  {
  }

  /** The loop has no bound of its own, and ends because each step goes back at
      least a day. It returns exactly the steps from one to 199 days before the
      reference that are in season, strictly newest first. */
  method Occurrences(s: Schedule, ref: int) returns (out: seq<int>)
    ensures !Repeats(s) ==> out == []
    ensures forall i, j :: 0 <= i < j < |out| ==> out[j] < out[i]
    ensures Repeats(s) ==> forall at :: at in out <==> IsPast(s, NextDue(s, ref), at) && Counts(s, at, ref)
  {
    if !Repeats(s) {
      return [];
    }
    var next := Next(s, ref);
    ghost var past := k => Past(s, next, k);
    ghost var counts := at => Counts(s, at, ref);
    out := [];
    var k := 1;
    while true
      invariant k >= 1 && Gathered(past, counts, k, out)
      decreases HISTORY_DAYS - DaysBetween(Past(s, next, k), ref)
    {
      var at := Advance(next, s.count, s.unit, -k);
      var ago := DaysBetween(at, ref);
      if ago >= HISTORY_DAYS {
        forall j | j >= k ensures !counts(past(j)) {
          AgoGrows(s, next, ref, k, j);
        }
        NoneFurther(past, counts, k, out);
        return;
      }
      AgoGrows(s, next, ref, k, k + 1);
      GatherStep(past, counts, k, out);
      if ago > 0 && InSeason(s, MonthNumber(MonthOf(DayOf(at)))) {
        out := out + [at];
      }
      k := k + 1;
    }
  }
}
