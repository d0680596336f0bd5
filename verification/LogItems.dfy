/** The items of one page of the activity log: rows under day headings, with a
    label where days went by with nothing logged. */
module LogItems {
  import opened LocalTime

  /** at is the instant of the care, in nanoseconds. */
  datatype Event = Event(at: int, id: nat)

  const GARDEN_SILENCE: int := 3
  const SHORTEST_PLANT_SILENCE: int := 14

  /** A reader: now, and how far the reader's clock is ahead of UTC. */
  datatype Reader = Reader(now: int, offset: int)

  /** How many calendar days ago an event was, on the reader's calendar. */
  function DaysAgo(e: Event, r: Reader): int {
    DateAt(r.now, r.offset) - DateAt(e.at, r.offset)
  }

  ghost predicate NewestFirst(events: seq<Event>) {
    forall i, j :: 0 <= i < j < |events| ==> events[i].at >= events[j].at
  }

  datatype Item = Day(ago: int, count: nat) | Silence(days: int) | Row(event: Event)

  function Ago(r: Reader): Event -> int {
    e => DaysAgo(e, r)
  }

  // ----- What a page of items says -----

  /** The rows, without the markers. */
  function Erase(items: seq<Item>): seq<Event> {
    if items == [] then []
    else Erase(items[..|items| - 1]) + if items[|items| - 1].Row? then [items[|items| - 1].event] else []
  }

  function Counted(items: seq<Item>): int {
    if items == [] then 0
    else Counted(items[..|items| - 1]) + if items[|items| - 1].Day? then items[|items| - 1].count else 0
  }

  /** A marker at i stands over a run of exactly `count` rows, all of its day. */
  predicate HeadsItsRun(items: seq<Item>, i: int, ago: Event -> int) {
    0 <= i < |items| && items[i].Day? ==>
      var end := i + 1 + items[i].count;
      && items[i].count > 0 && end <= |items|
      && (forall k :: i < k < end ==> items[k].Row? && ago(items[k].event) == items[i].ago)
      && (end == |items| || !items[end].Row?)
  }

  /** Before a marker at i, unless it is the first item, there is the row of a
      later day, or a label and then that row: a label exactly when three or more
      days between were empty. A label at i is followed by a marker. */
  predicate LabelsSilence(items: seq<Item>, i: int, ago: Event -> int) {
    && (0 < i < |items| && items[i].Day? ==>
          var k := if items[i - 1].Silence? then i - 2 else i - 1;
          && 0 <= k && items[k].Row?
          && var empty := items[i].ago - ago(items[k].event) - 1;
             && empty >= 0
             && (items[i - 1].Silence? <==> empty >= GARDEN_SILENCE)
             && (items[i - 1].Silence? ==> items[i - 1].days == empty))
    && (0 <= i < |items| && items[i].Silence? ==> i < |items| - 1 && items[i + 1].Day?)
  }

  ghost predicate RunsAreHeaded(items: seq<Item>, ago: Event -> int) {
    forall i :: HeadsItsRun(items, i, ago)
  }

  ghost predicate SilencesAreLabelled(items: seq<Item>, ago: Event -> int) {
    forall i :: LabelsSilence(items, i, ago)
  }

  ghost predicate DaysFall(items: seq<Item>) {
    forall i, j :: 0 <= i < j < |items| && items[i].Day? && items[j].Day? ==> items[i].ago < items[j].ago
  }

  ghost predicate WellLaid(items: seq<Item>, ago: Event -> int) {
    && (items != [] ==> items[0].Day? && items[|items| - 1].Row?)
    && RunsAreHeaded(items, ago) && SilencesAreLabelled(items, ago) && DaysFall(items)
  }

  // ----- One more day -----

  function Rows(events: seq<Event>): (rows: seq<Item>)
    ensures |rows| == |events| && forall k :: 0 <= k < |events| ==> rows[k] == Row(events[k])
  {
    if events == [] then [] else Rows(events[..|events| - 1]) + [Row(events[|events| - 1])]
  }

  lemma {:induction false} RowsErase(items: seq<Item>, events: seq<Event>)
    ensures Erase(items + Rows(events)) == Erase(items) + events
    ensures Counted(items + Rows(events)) == Counted(items)
  {
    if events == [] {
      assert items + Rows(events) == items;
    } else {
      var n := |events| - 1;
      RowsErase(items, events[..n]);
      var all := items + Rows(events);
      assert all[..|all| - 1] == items + Rows(events[..n]);
      assert events == events[..n] + [events[n]];
    }
  }

  /** What the loop appends for one run of rows. */
  function Label(before: seq<Item>, empty: int): seq<Item> {
    if before != [] && empty >= GARDEN_SILENCE then [Silence(empty)] else []
  }

  function Extended(items: seq<Item>, run: seq<Event>, empty: int, day: int): seq<Item> {
    items + Label(items, empty) + [Day(day, |run|)] + Rows(run)
  }

  lemma ExtendedErases(items: seq<Item>, run: seq<Event>, empty: int, day: int)
    ensures Erase(Extended(items, run, empty, day)) == Erase(items) + run
    ensures Counted(Extended(items, run, empty, day)) == Counted(items) + |run|
  {
    var labelled := items + Label(items, empty);
    var headed := labelled + [Day(day, |run|)];
    assert headed[..|headed| - 1] == labelled;
    if labelled != items {
      assert labelled[..|labelled| - 1] == items;
    }
    RowsErase(headed, run);
  }

  predicate AllBefore(items: seq<Item>, day: int) {
    forall i :: 0 <= i < |items| && items[i].Day? ==> items[i].ago < day
  }

  /** The run comes after what is laid, on the day `day`. */
  predicate Follows(items: seq<Item>, run: seq<Event>, empty: int, day: int, ago: Event -> int) {
    && run != [] && (forall k :: 0 <= k < |run| ==> ago(run[k]) == day)
    && AllBefore(items, day)
    && (items != [] ==> items[|items| - 1].Row? && empty == day - ago(items[|items| - 1].event) - 1 >= 0)
  }

  /** Where everything in the extended list is. */
  predicate Places(items: seq<Item>, all: seq<Item>, run: seq<Event>, empty: int, day: int, m: int) {
    && m == |items| + |Label(items, empty)| && |all| == m + 1 + |run|
    && (forall k :: 0 <= k < |items| ==> all[k] == items[k])
    && (m > |items| ==> all[|items|] == Silence(empty))
    && all[m] == Day(day, |run|)
    && (forall k :: m < k < |all| ==> all[k] == Row(run[k - m - 1]))
  }

  lemma ExtendedPlaces(items: seq<Item>, run: seq<Event>, empty: int, day: int)
    ensures Places(items, Extended(items, run, empty, day), run, empty, day, |items| + |Label(items, empty)|)
  {
  }

  lemma ExtendedIsHeaded(
    items: seq<Item>, all: seq<Item>, run: seq<Event>, empty: int, day: int, m: int, ago: Event -> int)
    requires RunsAreHeaded(items, ago) && Follows(items, run, empty, day, ago) && Places(items, all, run, empty, day, m)
    ensures RunsAreHeaded(all, ago)
  {
    forall i ensures HeadsItsRun(all, i, ago) {
      assert HeadsItsRun(items, i, ago);
    }
  }

  lemma ExtendedIsLabelled(
    items: seq<Item>, all: seq<Item>, run: seq<Event>, empty: int, day: int, m: int, ago: Event -> int)
    requires SilencesAreLabelled(items, ago) && Follows(items, run, empty, day, ago)
             && Places(items, all, run, empty, day, m)
    ensures SilencesAreLabelled(all, ago)
  {
    forall i ensures LabelsSilence(all, i, ago) {
      assert LabelsSilence(items, i, ago);
    }
  }

  lemma ExtendedFalls(
    items: seq<Item>, all: seq<Item>, run: seq<Event>, empty: int, day: int, m: int, ago: Event -> int)
    requires DaysFall(items) && Follows(items, run, empty, day, ago) && Places(items, all, run, empty, day, m)
    ensures DaysFall(all) && forall later :: later > day ==> AllBefore(all, later)
  {
  }

  lemma ExtendedIsWellLaid(items: seq<Item>, run: seq<Event>, empty: int, day: int, ago: Event -> int)
    requires WellLaid(items, ago) && Follows(items, run, empty, day, ago)
    ensures WellLaid(Extended(items, run, empty, day), ago)
    ensures forall later :: later > day ==> AllBefore(Extended(items, run, empty, day), later)
  {
    var all, m := Extended(items, run, empty, day), |items| + |Label(items, empty)|;
    ExtendedPlaces(items, run, empty, day);
    ExtendedIsHeaded(items, all, run, empty, day, m, ago);
    ExtendedIsLabelled(items, all, run, empty, day, m, ago);
    ExtendedFalls(items, all, run, empty, day, m, ago);
  }

  /** The run of rows of one day that starts at i. */
  method RunFrom(events: seq<Event>, i: nat, ago: Event -> int) returns (run: nat)
    requires i < |events|
    ensures 1 <= run <= |events| - i
    ensures forall k :: i <= k < i + run ==> ago(events[k]) == ago(events[i])
    ensures i + run < |events| ==> ago(events[i + run]) != ago(events[i])
  {
    run := 1;
    while i + run < |events| && ago(events[i + run]) == ago(events[i])
      invariant 1 <= run <= |events| - i
      invariant forall k :: i <= k < i + run ==> ago(events[k]) == ago(events[i])
    {
      run := run + 1;
    }
  }

  /** The loop's state once the first i events are laid out. */
  ghost predicate Laid(items: seq<Item>, events: seq<Event>, i: nat, ago: Event -> int) {
    && i <= |events| && Erase(items) == events[..i] && Counted(items) == i && WellLaid(items, ago)
    && (i == 0 <==> items == [])
    && (i > 0 ==> items[|items| - 1] == Row(events[i - 1]))
    && (0 < i < |events| ==> ago(events[i - 1]) < ago(events[i]))
    && (i < |events| ==> AllBefore(items, ago(events[i])))
  }

  lemma NextRunFollows(items: seq<Item>, events: seq<Event>, i: nat, run: nat, empty: int, ago: Event -> int)
    requires Laid(items, events, i, ago) && 1 <= run <= |events| - i
    requires forall k :: i <= k < i + run ==> ago(events[k]) == ago(events[i])
    requires i > 0 ==> empty == ago(events[i]) - ago(events[i - 1]) - 1
    ensures Follows(items, events[i..i + run], empty, ago(events[i]), ago)
  {
    var rows := events[i..i + run];
    assert forall k :: 0 <= k < |rows| ==> rows[k] == events[i + k];
  }

  lemma LastRow(items: seq<Item>, run: seq<Event>, empty: int, day: int)
    requires run != []
    ensures var all := Extended(items, run, empty, day);
            all != [] && all[|all| - 1] == Row(run[|run| - 1])
  {
  }

  lemma LaidOneMore(items: seq<Item>, events: seq<Event>, i: nat, run: nat, empty: int, ago: Event -> int)
    requires Laid(items, events, i, ago) && 1 <= run <= |events| - i
    requires forall k :: i <= k < i + run ==> ago(events[k]) == ago(events[i])
    requires i + run < |events| ==> ago(events[i]) < ago(events[i + run])
    requires i > 0 ==> empty == ago(events[i]) - ago(events[i - 1]) - 1
    ensures Laid(Extended(items, events[i..i + run], empty, ago(events[i])), events, i + run, ago)
  {
    var rows, day := events[i..i + run], ago(events[i]);
    NextRunFollows(items, events, i, run, empty, ago);
    ExtendedErases(items, rows, empty, day);
    ExtendedIsWellLaid(items, rows, empty, day, ago);
    LastRow(items, rows, empty, day);
    assert events[..i] + rows == events[..i + run];
    assert ago(events[i + run - 1]) == day;
  }

  ghost predicate AgoGrows(events: seq<Event>, ago: Event -> int) {
    forall i, j :: 0 <= i < j < |events| ==> ago(events[i]) <= ago(events[j])
  }

  lemma NewestFirstGrows(events: seq<Event>, r: Reader)
    requires NewestFirst(events)
    ensures AgoGrows(events, Ago(r))
  {
  }

  /** The empty days before event i. */
  function Quiet(events: seq<Event>, i: nat, ago: Event -> int): int
    requires i < |events|
  {
    if i > 0 then ago(events[i]) - ago(events[i - 1]) - 1 else 0
  }

  method AppendDay(
    before: seq<Item>, events: seq<Event>, i: nat, run: nat, ago: Event -> int) returns (items: seq<Item>)
    requires 1 <= run <= |events| - i && (i == 0 <==> before == [])
    ensures items == Extended(before, events[i..i + run], Quiet(events, i, ago), ago(events[i]))
  {
    items := before;
    if i > 0 {
      var quiet := ago(events[i]) - ago(events[i - 1]) - 1;
      if quiet >= GARDEN_SILENCE {
        items := items + [Silence(quiet)];
      }
    }
    assert items == before + Label(before, Quiet(events, i, ago));
    items := items + [Day(ago(events[i]), run)];
    items := items + Rows(events[i..i + run]);
  }

  method LayOut(events: seq<Event>, ago: Event -> int) returns (items: seq<Item>)
    requires AgoGrows(events, ago)
    ensures Laid(items, events, |events|, ago)
  {
    items := [];
    var i := 0;
    while i < |events|
      invariant Laid(items, events, i, ago)
    {
      var run := RunFrom(events, i, ago);
      LaidOneMore(items, events, i, run, Quiet(events, i, ago), ago);
      items := AppendDay(items, events, i, run, ago);
      i := i + run;
    }
  }

  /** Erasing the markers gives back the events in order, the counts sum to their
      number, each day has one marker over exactly its rows, and a label stands
      between two days exactly when three or more days between were empty. */
  method Items(events: seq<Event>, r: Reader) returns (items: seq<Item>)
    requires NewestFirst(events)
    ensures Erase(items) == events && Counted(items) == |events|
    ensures WellLaid(items, Ago(r))
  {
    NewestFirstGrows(events, r);
    items := LayOut(events, Ago(r));
    assert events[..|events|] == events;
  }

  /** The row at k is one of those the marker of its day at i stands over. */
  predicate IsUnder(items: seq<Item>, k: int, i: int, ago: Event -> int) {
    && 0 <= i < k < |items| && items[i].Day? && items[k].Row?
    && items[i].ago == ago(items[k].event) && k <= i + items[i].count
  }

  /** Every row stands under the marker of its own day. */
  lemma {:induction false} EveryRowIsUnderItsDay(items: seq<Item>, ago: Event -> int, k: nat, top: nat)
    requires WellLaid(items, ago) && k <= top < |items| && forall j :: k <= j <= top ==> items[j].Row?
    ensures exists i :: 0 <= i < k && IsUnder(items, top, i, ago)
  {
    assert HeadsItsRun(items, k - 1, ago) && LabelsSilence(items, k - 1, ago);
    if items[k - 1].Day? {
      assert IsUnder(items, top, k - 1, ago);
    } else {
      EveryRowIsUnderItsDay(items, ago, k - 1, top);
    }
  }

  // ----- One plant's log -----

  function Gap(newer: Event, older: Event, r: Reader): int {
    DaysAgo(older, r) - DaysAgo(newer, r)
  }

  function Gaps(events: seq<Event>, r: Reader): (gaps: seq<int>)
    ensures |gaps| == if events == [] then 0 else |events| - 1
    ensures forall i :: 0 <= i < |gaps| ==> gaps[i] == Gap(events[i], events[i + 1], r)
  {
    if |events| < 2 then []
    else Gaps(events[..|events| - 1], r) + [Gap(events[|events| - 2], events[|events| - 1], r)]
  }

  function Insert(x: int, s: seq<int>): seq<int> {
    if s == [] || x <= s[0] then [x] + s else [s[0]] + Insert(x, s[1..])
  }

  /** slices.Sort. */
  function Sort(s: seq<int>): seq<int> {
    if s == [] then [] else Insert(s[0], Sort(s[1..]))
  }

  predicate Ascending(s: seq<int>) {
    forall i, j :: 0 <= i < j < |s| ==> s[i] <= s[j]
  }

  /** How many are at least `floor`. */
  function AtLeast(s: seq<int>, floor: int): nat {
    if s == [] then 0 else (if s[0] >= floor then 1 else 0) + AtLeast(s[1..], floor)
  }

  lemma {:induction false} InsertKeepsOrder(x: int, s: seq<int>, floor: int)
    requires Ascending(s)
    ensures Ascending(Insert(x, s)) && |Insert(x, s)| == |s| + 1
    ensures Insert(x, s)[0] == x || (s != [] && Insert(x, s)[0] == s[0] <= x)
    ensures AtLeast(Insert(x, s), floor) == AtLeast([x] + s, floor)
  {
    if s == [] || x <= s[0] {
    } else {
      InsertKeepsOrder(x, s[1..], floor);
      var rest := Insert(x, s[1..]);
      assert rest[0] >= s[0];
      assert ([x] + s)[1..] == s && ([x] + s[1..])[1..] == s[1..];
      assert Insert(x, s)[1..] == rest;
    }
  }

  lemma {:induction false} SortKeeps(s: seq<int>, floor: int)
    ensures Ascending(Sort(s)) && |Sort(s)| == |s| && AtLeast(Sort(s), floor) == AtLeast(s, floor)
  {
    if s != [] {
      SortKeeps(s[1..], floor);
      InsertKeepsOrder(s[0], Sort(s[1..]), floor);
      assert ([s[0]] + Sort(s[1..]))[1..] == Sort(s[1..]);
    }
  }

  lemma {:induction false} FewAboveTheMiddle(s: seq<int>, k: nat, floor: int)
    requires Ascending(s) && k < |s| && s[k] < floor
    ensures AtLeast(s, floor) <= |s| - k - 1
    decreases |s|
  {
    if k == 0 {
      AtLeastFits(s[1..], floor);
    } else {
      FewAboveTheMiddle(s[1..], k - 1, floor);
    }
  }

  lemma {:induction false} AtLeastFits(s: seq<int>, floor: int)
    ensures AtLeast(s, floor) <= |s|
  {
    if s != [] {
      AtLeastFits(s[1..], floor);
    }
  }

  /** Twice the median gap on the page, and never less than a fortnight. */
  method PlantSilenceFloor(events: seq<Event>, r: Reader) returns (floor: int)
    ensures floor == FloorOf(Gaps(events, r))
  {
    var gaps := [];
    var i := 1;
    while i < |events|
      invariant 1 <= i && (i <= |events| || events == [])
      invariant gaps == if events == [] then [] else Gaps(events[..i], r)
    {
      gaps := gaps + [Gap(events[i - 1], events[i], r)];
      assert events[..i + 1][..i] == events[..i];
      i := i + 1;
    }
    assert events != [] ==> events[..i] == events;
    if |gaps| == 0 {
      return SHORTEST_PLANT_SILENCE;
    }
    gaps := Sort(gaps);
    SortKeeps(Gaps(events, r), 0);
    var median := gaps[|gaps| / 2];
    return if SHORTEST_PLANT_SILENCE > median * 2 then SHORTEST_PLANT_SILENCE else median * 2;
  }

  function FloorOf(gaps: seq<int>): int {
    var sorted := Sort(gaps);
    if |sorted| / 2 < |sorted| && 2 * sorted[|sorted| / 2] > SHORTEST_PLANT_SILENCE then 2 * sorted[|sorted| / 2]
    else SHORTEST_PLANT_SILENCE
  }

  /** However unevenly a plant is cared for, fewer than half of the gaps on a page
      are labelled, and none under a fortnight is. */
  lemma FewGapsAreLabelled(gaps: seq<int>)
    ensures FloorOf(gaps) >= SHORTEST_PLANT_SILENCE
    ensures gaps != [] ==> 2 * AtLeast(gaps, FloorOf(gaps)) < |gaps|
  {
    var floor := FloorOf(gaps);
    SortKeeps(gaps, floor);
    if gaps != [] {
      FewAboveTheMiddle(Sort(gaps), |gaps| / 2, floor);
    }
  }

  lemma {:induction false} ManyFromTheMiddle(s: seq<int>, k: nat, floor: int)
    requires k <= |s| && forall i :: k <= i < |s| ==> s[i] >= floor
    ensures AtLeast(s, floor) >= |s| - k
    decreases |s|
  {
    if s != [] {
      ManyFromTheMiddle(s[1..], if k == 0 then 0 else k - 1, floor);
    }
  }

  /** At most half of the gaps are less than m, and fewer than the rest are more. */
  predicate IsMedian(gaps: seq<int>, m: int) {
    |gaps| - AtLeast(gaps, m) <= |gaps| / 2 && AtLeast(gaps, m + 1) < |gaps| - |gaps| / 2
  }

  /** The floor is twice the median gap, or a fortnight where that is more or there is
      no gap. */
  lemma FloorIsTwiceTheMedian(gaps: seq<int>)
    ensures gaps == [] ==> FloorOf(gaps) == 14
    ensures gaps != [] ==> exists m :: IsMedian(gaps, m) && FloorOf(gaps) == if 2 * m > 14 then 2 * m else 14
  {
    var sorted, k := Sort(gaps), |gaps| / 2;
    SortKeeps(gaps, 0);
    if gaps != [] {
      var m := sorted[k];
      SortKeeps(gaps, m);
      SortKeeps(gaps, m + 1);
      ManyFromTheMiddle(sorted, k, m);
      FewAboveTheMiddle(sorted, k, m + 1);
      assert IsMedian(gaps, m);
    }
  }

  lemma MedianIsUnique(gaps: seq<int>, m: int, n: int)
    requires IsMedian(gaps, m) && IsMedian(gaps, n)
    ensures m == n
  {
    if m < n {
      AtLeastFalls(gaps, m + 1, n);
    } else if n < m {
      AtLeastFalls(gaps, n + 1, m);
    }
  }

  lemma {:induction false} AtLeastFalls(s: seq<int>, low: int, high: int)
    requires low <= high
    ensures AtLeast(s, high) <= AtLeast(s, low)
  {
    if s != [] {
      AtLeastFalls(s[1..], low, high);
    }
  }

  /** A label stands before a row exactly when its gap reaches the floor. */
  predicate LabelsGap(items: seq<Item>, i: int, floor: int, ago: Event -> int) {
    && (0 <= i < |items| ==> !items[i].Day?)
    && (0 < i < |items| && items[i].Row? ==>
          var k := if items[i - 1].Silence? then i - 2 else i - 1;
          && 0 <= k && items[k].Row?
          && var gap := ago(items[i].event) - ago(items[k].event);
             && (items[i - 1].Silence? <==> gap >= floor)
             && (items[i - 1].Silence? ==> items[i - 1].days == gap))
  }

  ghost predicate PlantLaid(items: seq<Item>, floor: int, ago: Event -> int) {
    && (items != [] ==> items[0].Row? && items[|items| - 1].Row?)
    && forall i :: LabelsGap(items, i, floor, ago)
  }

  method PlantItems(events: seq<Event>, r: Reader) returns (items: seq<Item>)
    ensures Erase(items) == events
    ensures PlantLaid(items, FloorOf(Gaps(events, r)), Ago(r))
  {
    var floor := PlantSilenceFloor(events, r);
    items := [];
    var i := 0;
    while i < |events|
      invariant PlantLaidTo(items, events, i, floor, Ago(r))
    {
      ghost var before := items;
      if i > 0 {
        var gap := Gap(events[i - 1], events[i], r);
        if gap >= floor {
          items := items + [Silence(gap)];
        }
      }
      items := items + [Row(events[i])];
      PlantLaidOneMore(before, events, i, floor, Ago(r));
      assert items == before + PlantLabel(events, i, floor, Ago(r)) + [Row(events[i])];
      i := i + 1;
    }
    assert events[..|events|] == events;
  }

  ghost predicate PlantLaidTo(items: seq<Item>, events: seq<Event>, i: nat, floor: int, ago: Event -> int) {
    && i <= |events| && Erase(items) == events[..i] && PlantLaid(items, floor, ago)
    && (i == 0 <==> items == [])
    && (i > 0 ==> items[|items| - 1] == Row(events[i - 1]))
  }

  function PlantLabel(events: seq<Event>, i: nat, floor: int, ago: Event -> int): seq<Item>
    requires i < |events|
  {
    if i > 0 && ago(events[i]) - ago(events[i - 1]) >= floor then [Silence(ago(events[i]) - ago(events[i - 1]))] else []
  }

  lemma PlantLaidOneMore(items: seq<Item>, events: seq<Event>, i: nat, floor: int, ago: Event -> int)
    requires i < |events| && PlantLaidTo(items, events, i, floor, ago)
    ensures PlantLaidTo(items + PlantLabel(events, i, floor, ago) + [Row(events[i])], events, i + 1, floor, ago)
  {
    var silence := PlantLabel(events, i, floor, ago);
    var labelled := items + silence;
    var all := labelled + [Row(events[i])];
    assert all[..|all| - 1] == labelled;
    assert Erase(labelled) == Erase(items) by {
      if silence == [] {
        assert labelled == items;
      } else {
        assert labelled[..|labelled| - 1] == items;
      }
    }
    assert events[..i + 1] == events[..i] + [events[i]];
    forall k ensures LabelsGap(all, k, floor, ago) {
      assert LabelsGap(items, k, floor, ago);
    }
  }
}
