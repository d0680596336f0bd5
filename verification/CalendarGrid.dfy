/** A month of the calendar: each care on its day, weeks of seven cells with
    Monday first, and the days each temporary member covers. Dates are day
    numbers, and a timezone is a fixed offset. */
module CalendarGrid {
  import opened Options
  import opened Civil
  import opened LocalTime

  const SHOWN_CARES: nat := 3

  datatype Event = Event(at: int, id: nat)

  /** One date a schedule falls due on. wholeMonth is month precision. Names and
      plant ids are numbered in the order their strings compare. */
  datatype Due = Due(line: nat, date: int, wholeMonth: bool, overdue: bool, name: nat, plant: nat)

  datatype Care = Logged(event: Event) | Falls(due: Due)

  /** covering holds the sittings of the day. */
  datatype Cell = Blank | Cell(number: int, today: bool, shown: seq<Care>, more: nat, covering: seq<Sitting>)

  /** The column of a day, counting Monday as 0. */
  function MondayIndex(date: int): (c: int)
    ensures 0 <= c < 7
  {
    (Weekday(date) + 6) % 7
  }

  // ----- Filing by day -----

  /** Those of the items whose day is d, in order. */
  function On<T>(items: seq<T>, dayOf: T -> int, d: int): seq<T> {
    if items == [] then []
    else
      var n := |items| - 1;
      On(items[..n], dayOf, d) + if dayOf(items[n]) == d then [items[n]] else []
  }

  function DayOfEvent(offset: int): Event -> int {
    (e: Event) => DayOfMonth(DateAt(e.at, offset))
  }

  /** Zero for a care due some time in the month. */
  function DayOfDue(): Due -> int {
    (u: Due) => if u.wholeMonth then 0 else DayOfMonth(u.date)
  }

  method FileEvents(events: seq<Event>, dayOf: Event -> int, days: nat) returns (logged: seq<seq<Event>>)
    requires forall e :: e in events ==> 1 <= dayOf(e) <= days
    ensures |logged| == days + 1
    ensures forall d :: 0 <= d <= days ==> logged[d] == On(events, dayOf, d)
  {
    logged := seq(days + 1, _ => []);
    for i := 0 to |events|
      invariant |logged| == days + 1
      invariant forall d :: 0 <= d <= days ==> logged[d] == On(events[..i], dayOf, d)
    {
      var d := dayOf(events[i]);
      assert events[..i + 1][..i] == events[..i];
      logged := logged[d := logged[d] + [events[i]]];
    }
    assert events[..|events|] == events;
  }

  method FileDues(dues: seq<Due>, dayOf: Due -> int, days: nat) returns (monthDue: seq<Due>, due: seq<seq<Due>>)
    requires forall u :: u in dues ==> 0 <= dayOf(u) <= days && (u.wholeMonth <==> dayOf(u) == 0)
    ensures monthDue == On(dues, dayOf, 0) && |due| == days + 1
    ensures forall d :: 1 <= d <= days ==> due[d] == On(dues, dayOf, d)
  {
    monthDue := [];
    due := seq(days + 1, _ => []);
    for i := 0 to |dues|
      invariant monthDue == On(dues[..i], dayOf, 0) && |due| == days + 1
      invariant forall d :: 1 <= d <= days ==> due[d] == On(dues[..i], dayOf, d)
    {
      assert dues[..i + 1][..i] == dues[..i];
      if dues[i].wholeMonth {
        monthDue := monthDue + [dues[i]];
      } else {
        var d := dayOf(dues[i]);
        due := due[d := due[d] + [dues[i]]];
      }
    }
    assert dues[..|dues|] == dues;
  }

  function Sum(f: int -> int, from: int, til: int): int
    decreases til - from
  {
    if til <= from then 0 else Sum(f, from, til - 1) + f(til - 1)
  }

  lemma {:induction false} SumAdds(f: int -> int, g: int -> int, h: int -> int, from: int, til: int)
    requires forall d :: from <= d < til ==> f(d) == g(d) + h(d)
    ensures Sum(f, from, til) == Sum(g, from, til) + Sum(h, from, til)
    decreases til - from
  {
    if from < til {
      SumAdds(f, g, h, from, til - 1);
    }
  }

  lemma {:induction false} SumOfOne(f: int -> int, d: int, from: int, til: int)
    requires forall k :: f(k) == if k == d then 1 else 0
    ensures Sum(f, from, til) == if from <= d < til then 1 else 0
    decreases til - from
  {
    if from < til {
      SumOfOne(f, d, from, til - 1);
    }
  }

  function SizeOn<T>(items: seq<T>, dayOf: T -> int): int -> int {
    d => |On(items, dayOf, d)|
  }

  /** Every item is on exactly one day. */
  lemma {:induction false} DaysPartition<T>(items: seq<T>, dayOf: T -> int, from: int, til: int)
    requires forall x :: x in items ==> from <= dayOf(x) < til
    ensures Sum(SizeOn(items, dayOf), from, til) == |items|
    decreases |items|
  {
    if items == [] {
      SumAdds(SizeOn(items, dayOf), SizeOn(items, dayOf), SizeOn(items, dayOf), from, til);
    } else {
      var n := |items| - 1;
      DaysPartition(items[..n], dayOf, from, til);
      var one := (k: int) => if k == dayOf(items[n]) then 1 else 0;
      assert items[n] in items;
      SumOfOne(one, dayOf(items[n]), from, til);
      SumAdds(SizeOn(items, dayOf), SizeOn(items[..n], dayOf), one, from, til);
    }
  }

  // ----- The order of due cares -----

  /** Overdue first, then by plant name, then by plant. */
  predicate Precedes(a: Due, b: Due) {
    if a.overdue != b.overdue then a.overdue
    else if a.name != b.name then a.name < b.name
    else a.plant < b.plant
  }

  /** After every one it does not precede, so equals keep their order. */
  function Insert(u: Due, sorted: seq<Due>): (r: seq<Due>)
    ensures |r| == |sorted| + 1
  {
    if sorted == [] then [u]
    else
      var n := |sorted| - 1;
      if Precedes(u, sorted[n]) then Insert(u, sorted[..n]) + [sorted[n]] else sorted + [u]
  }

  /** slices.SortStableFunc. */
  function StableSort(dues: seq<Due>): (r: seq<Due>)
    ensures |r| == |dues|
  {
    if dues == [] then [] else Insert(dues[|dues| - 1], StableSort(dues[..|dues| - 1]))
  }

  ghost predicate InOrder(dues: seq<Due>) {
    forall i, j :: 0 <= i < j < |dues| ==> !Precedes(dues[j], dues[i])
  }

  predicate Ties(a: Due, b: Due) {
    !Precedes(a, b) && !Precedes(b, a)
  }

  /** Those that tie with u, in order. */
  function TiedWith(dues: seq<Due>, u: Due): seq<Due> {
    if dues == [] then []
    else
      var n := |dues| - 1;
      TiedWith(dues[..n], u) + if Ties(u, dues[n]) then [dues[n]] else []
  }

  lemma {:induction false} InsertKeepsAll(x: Due, sorted: seq<Due>)
    ensures multiset(Insert(x, sorted)) == multiset(sorted) + multiset{x}
    decreases |sorted|
  {
    if sorted != [] {
      var n := |sorted| - 1;
      assert sorted == sorted[..n] + [sorted[n]];
      InsertKeepsAll(x, sorted[..n]);
    }
  }

  lemma LastInOrder(sorted: seq<Due>, last: Due)
    requires InOrder(sorted) && forall u :: u in sorted ==> !Precedes(last, u)
    ensures InOrder(sorted + [last])
  {
    var all := sorted + [last];
    forall i, j | 0 <= i < j < |all| ensures !Precedes(all[j], all[i]) {
      assert all[i] == sorted[i];
      assert j < |sorted| ==> all[j] == sorted[j];
      assert sorted[i] in sorted;
    }
  }

  lemma PrecedesIsTransitive(a: Due, b: Due, c: Due)
    requires !Precedes(b, a) && !Precedes(c, b)
    ensures !Precedes(c, a)
  {
  }

  lemma {:induction false} InsertSorts(x: Due, sorted: seq<Due>)
    requires InOrder(sorted)
    ensures InOrder(Insert(x, sorted))
    decreases |sorted|
  {
    if sorted != [] {
      var n := |sorted| - 1;
      if Precedes(x, sorted[n]) {
        InsertSorts(x, sorted[..n]);
        InsertKeepsAll(x, sorted[..n]);
        var rest := Insert(x, sorted[..n]);
        forall u | u in rest ensures !Precedes(sorted[n], u) {
          assert u in multiset(rest);
        }
        LastInOrder(rest, sorted[n]);
      } else {
        forall i | 0 <= i < |sorted| ensures !Precedes(x, sorted[i]) {
          if i < n {
            PrecedesIsTransitive(sorted[i], sorted[n], x);
          }
        }
        LastInOrder(sorted, x);
      }
    }
  }

  lemma {:induction false} InsertKeepsTies(x: Due, sorted: seq<Due>, u: Due)
    requires InOrder(sorted)
    ensures TiedWith(Insert(x, sorted), u) == TiedWith(sorted, u) + if Ties(u, x) then [x] else []
    decreases |sorted|
  {
    if sorted == [] {
      assert [x][..0] == [];
    } else {
      var n := |sorted| - 1;
      if Precedes(x, sorted[n]) {
        InsertKeepsTies(x, sorted[..n], u);
        var all := Insert(x, sorted);
        assert all[..|all| - 1] == Insert(x, sorted[..n]);
      } else {
        assert (sorted + [x])[..|sorted|] == sorted;
      }
    }
  }

  /** The sort keeps every care, orders them, and leaves those that tie in the
      order of their schedules. */
  lemma {:induction false} StableSortSorts(dues: seq<Due>)
    ensures multiset(StableSort(dues)) == multiset(dues)
    ensures InOrder(StableSort(dues))
    ensures forall u :: TiedWith(StableSort(dues), u) == TiedWith(dues, u)
  {
    if dues != [] {
      var n := |dues| - 1;
      StableSortSorts(dues[..n]);
      InsertSorts(dues[n], StableSort(dues[..n]));
      InsertKeepsAll(dues[n], StableSort(dues[..n]));
      assert dues == dues[..n] + [dues[n]];
      forall u ensures TiedWith(StableSort(dues), u) == TiedWith(dues, u) {
        InsertKeepsTies(dues[n], StableSort(dues[..n]), u);
      }
    }
  }

  // ----- The grid -----

  /** What belongs at flat index k of a grid whose first day is in column mi. */
  function At(k: int, mi: int, days: int, cellOf: int -> Cell): Cell {
    if mi <= k < mi + days then cellOf(k - mi + 1) else Blank
  }

  /** Weeks of seven: day d is at flat index mi + d - 1 and the rest is blank, with
      no week more than the month needs. */
  ghost predicate IsGrid(weeks: seq<seq<Cell>>, mi: int, days: int, cellOf: int -> Cell) {
    && (forall w :: 0 <= w < |weeks| ==> |weeks[w]| == 7)
    && (forall w, c :: 0 <= w < |weeks| && 0 <= c < 7 ==> weeks[w][c] == At(7 * w + c, mi, days, cellOf))
    && mi + days <= 7 * |weeks| < mi + days + 7
  }

  /** The grid once days before d are in it, with the last week still open. */
  ghost predicate IsOpenGrid(weeks: seq<seq<Cell>>, week: seq<Cell>, d: int, mi: int, days: int, cellOf: int -> Cell) {
    && |week| < 7 && 7 * |weeks| + |week| == mi + d - 1
    && (forall w :: 0 <= w < |weeks| ==> |weeks[w]| == 7)
    && (forall w, c :: 0 <= w < |weeks| && 0 <= c < 7 ==> weeks[w][c] == At(7 * w + c, mi, days, cellOf))
    && (forall c :: 0 <= c < |week| ==> week[c] == At(7 * |weeks| + c, mi, days, cellOf))
  }

  /** A day stands in the column of its weekday. */
  lemma DaysStandUnderTheirWeekday(month: int, d: int)
    requires 1 <= d <= Length(month)
    ensures (MondayIndex(FirstDay(month)) + d - 1) % 7 == MondayIndex(DateOf(month, d))
  {
    ColumnsAdvance(FirstDay(month), d - 1, DateOf(month, d));
  }

  lemma ColumnsAdvance(date: int, n: int, later: int)
    requires later == date + n
    ensures (MondayIndex(date) + n) % 7 == MondayIndex(later)
  {
    RemainderOfSum(date + 6, 6);
    RemainderOfSum(later + 6, 6);
    RemainderOfSum(date + 12, n);
  }

  lemma RemainderOfSum(x: int, y: int)
    ensures (x % 7 + y) % 7 == (x + y) % 7
  {
    assert x + y == 7 * (x / 7) + (x % 7 + y);
  }

  lemma OneMoreDay(weeks: seq<seq<Cell>>, week: seq<Cell>, d: int, mi: int, days: int, cellOf: int -> Cell)
    requires 1 <= d <= days && IsOpenGrid(weeks, week, d, mi, days, cellOf)
    ensures var more := week + [cellOf(d)];
            if |more| == 7 then IsOpenGrid(weeks + [more], [], d + 1, mi, days, cellOf)
            else IsOpenGrid(weeks, more, d + 1, mi, days, cellOf)
  {
  }

  lemma LastWeek(weeks: seq<seq<Cell>>, week: seq<Cell>, mi: int, days: int, cellOf: int -> Cell)
    requires days >= 0 && IsOpenGrid(weeks, week, days + 1, mi, days, cellOf)
    ensures IsGrid(if week == [] then weeks else weeks + [week + seq(7 - |week|, _ => Blank)], mi, days, cellOf)
  {
  }

  // ----- Sittings -----

  /** A membership with its holder's timezone. */
  datatype Member = Member(id: nat, created: int, ends: Option<int>, offset: int)

  /** first and last are dates. */
  datatype Sitting = Sitting(id: nat, first: int, last: int)

  predicate Covers(s: Sitting, date: int) {
    s.first <= date <= s.last
  }

  function SittingOf(m: Member): Sitting
    requires m.ends.Some?
  {
    var last := DateAt(m.ends.value, m.offset);
    var until := if Midnight(last, m.offset) == m.ends.value then last - 1 else last;
    Sitting(m.id, DateAt(m.created, m.offset), until)
  }

  /** The membership is one the reader sees on the calendar on that date: it is
      temporary, the reader's own or visible, made by the end of the date, and
      not ended by its first instant, all in the member's timezone. */
  predicate Sits(m: Member, you: nat, seesAll: bool, date: int) {
    && m.ends.Some? && (m.id == you || seesAll)
    && DateAt(m.created, m.offset) <= date
    && Midnight(date, m.offset) < m.ends.value
  }

  /** A sitting covers a date exactly when the membership was made on or before
      it and the date's midnight comes before the end. */
  lemma SittingCoversExactly(m: Member, date: int)
    requires m.ends.Some?
    ensures Covers(SittingOf(m), date)
            <==> DateAt(m.created, m.offset) <= date && Midnight(date, m.offset) < m.ends.value
  {
  }

  /** Those covering a date, in order. */
  function Covering(sittings: seq<Sitting>, date: int): seq<Sitting> {
    if sittings == [] then []
    else
      var n := |sittings| - 1;
      Covering(sittings[..n], date) + if Covers(sittings[n], date) then [sittings[n]] else []
  }

  function SittersOn(members: seq<Member>, you: nat, seesAll: bool, date: int): seq<Sitting> {
    if members == [] then []
    else
      var n := |members| - 1;
      SittersOn(members[..n], you, seesAll, date) + if Sits(members[n], you, seesAll, date)
          then [SittingOf(members[n])] else []
  }

  /** On every date, the sittings that cover it are those of the members who sit
      that day, in the order their memberships were made. */
  method Sittings(members: seq<Member>, you: nat, seesAll: bool) returns (sittings: seq<Sitting>)
    ensures forall date :: Covering(sittings, date) == SittersOn(members, you, seesAll, date)
  {
    sittings := [];
    for i := 0 to |members|
      invariant forall date :: Covering(sittings, date) == SittersOn(members[..i], you, seesAll, date)
    {
      var m := members[i];
      assert members[..i + 1][..i] == members[..i];
      if m.ends.None? || (m.id != you && !seesAll) {
        continue;
      }
      var s := SittingOf(m);
      forall date {
        SittingCoversExactly(m, date);
      }
      assert forall date :: Covers(s, date) <==> Sits(m, you, seesAll, date);
      if s.last < s.first {
        continue;
      }
      assert (sittings + [s])[..|sittings|] == sittings;
      sittings := sittings + [s];
    }
    assert members[..|members|] == members;
  }

  /** Leaving out the sittings with no day in the month leaves out none on any of
      its days. */
  method InMonth(sittings: seq<Sitting>, first: int, last: int) returns (kept: seq<Sitting>)
    ensures forall date :: first <= date <= last ==> Covering(kept, date) == Covering(sittings, date)
  {
    kept := [];
    for i := 0 to |sittings|
      invariant forall date :: first <= date <= last ==> Covering(kept, date) == Covering(sittings[..i], date)
    {
      var s := sittings[i];
      assert sittings[..i + 1][..i] == sittings[..i];
      if !(s.last < first) && !(s.first > last) {
        assert (kept + [s])[..|kept|] == kept;
        kept := kept + [s];
      }
    }
    assert sittings[..|sittings|] == sittings;
  }

  // ----- The page -----

  function LoggedRows(events: seq<Event>): (rows: seq<Care>)
    ensures |rows| == |events| && forall i :: 0 <= i < |rows| ==> rows[i] == Logged(events[i])
  {
    seq(|events|, i requires 0 <= i < |events| => Logged(events[i]))
  }

  function DueRows(dues: seq<Due>): (rows: seq<Care>)
    ensures |rows| == |dues| && forall i :: 0 <= i < |rows| ==> rows[i] == Falls(StableSort(dues)[i])
  {
    var sorted := StableSort(dues);
    seq(|sorted|, i requires 0 <= i < |sorted| => Falls(sorted[i]))
  }

  function Min(a: nat, b: nat): nat {
    if a < b then a else b
  }

  function DayCell(number: int, today: bool, cares: seq<Care>, covering: seq<Sitting>): Cell {
    var shown := cares[..Min(|cares|, SHOWN_CARES)];
    Cell(number, today, shown, |cares| - |shown|, covering)
  }

  datatype Page = Page(weeks: seq<seq<Cell>>, monthDue: seq<Care>)

  /** The cell of day d of a month that starts on the day `first`, with the
      logged cares first. */
  function CellFrom(
    first: int, events: seq<Event>, dues: seq<Due>, sittings: seq<Sitting>, today: int, eventDay: Event -> int,
    dueDay: Due -> int): int -> Cell {
    d => DayCell(d, first + d - 1 == today, LoggedRows(On(events, eventDay, d)) + DueRows(On(dues, dueDay, d)),
        Covering(sittings, first + d - 1))
  }

  /** The cell of day d of the month, from the inputs alone. */
  function CellOf(
    month: int, events: seq<Event>, dues: seq<Due>, sittings: seq<Sitting>, now: int, offset: int): int -> Cell {
    CellFrom(FirstDay(month), events, dues, sittings, DateAt(now, offset), DayOfEvent(offset), DayOfDue())
  }

  /** What the queries read: the care performed in the month and the dates the
      schedules fall due in it. */
  ghost predicate InTheMonth(month: int, events: seq<Event>, dues: seq<Due>, offset: int) {
    && (forall e :: e in events ==> FirstDay(month) <= DateAt(e.at, offset) < FirstDay(month + 1))
    && (forall u :: u in dues ==> FirstDay(month) <= u.date < FirstDay(month + 1))
  }

  lemma DaysAreInRange(month: int, events: seq<Event>, dues: seq<Due>, offset: int)
    requires InTheMonth(month, events, dues, offset)
    ensures forall e :: e in events ==> 1 <= DayOfEvent(offset)(e) <= Length(month)
    ensures forall u :: u in dues ==> 0 <= DayOfDue()(u) <= Length(month) && (u.wholeMonth <==> DayOfDue()(u) == 0)
  {
    FirstDayStep(month);
    forall e | e in events ensures 1 <= DayOfEvent(offset)(e) <= Length(month) {
      MonthIsUnique(month, DateAt(e.at, offset));
    }
    forall u | u in dues ensures 0 <= DayOfDue()(u) <= Length(month) && (u.wholeMonth <==> DayOfDue()(u) == 0) {
      MonthIsUnique(month, u.date);
    }
  }

  method CoveringOn(sittings: seq<Sitting>, date: int) returns (covering: seq<Sitting>)
    ensures covering == Covering(sittings, date)
  {
    covering := [];
    for i := 0 to |sittings|
      invariant covering == Covering(sittings[..i], date)
    {
      assert sittings[..i + 1][..i] == sittings[..i];
      if Covers(sittings[i], date) {
        covering := covering + [sittings[i]];
      }
    }
    assert sittings[..|sittings|] == sittings;
  }

  /** cellOf gives day d the cell the filed cares and the sittings make. */
  predicate IsCell(
    d: int, first: int, logged: seq<seq<Event>>, due: seq<seq<Due>>, sittings: seq<Sitting>, today: int,
    cellOf: int -> Cell) {
    1 <= d < |logged| && d < |due| ==>
      cellOf(d) == DayCell(d, first + d - 1 == today, LoggedRows(logged[d]) + DueRows(due[d]),
          Covering(sittings, first + d - 1))
  }

  /** A day more in the open week, which closes when it has seven. */
  method AddDay(weeks: seq<seq<Cell>>, week: seq<Cell>, day: Cell) returns (weeks': seq<seq<Cell>>, week': seq<Cell>)
    ensures |week| + 1 == 7 ==> weeks' == weeks + [week + [day]] && week' == []
    ensures |week| + 1 != 7 ==> weeks' == weeks && week' == week + [day]
  {
    weeks', week' := weeks, week + [day];
    if |week'| == 7 {
      weeks' := weeks' + [week'];
      week' := [];
    }
  }

  /** The weeks of a month that starts on the day `first`, filled a day at a
      time. */
  method Weeks(
    first: int, days: nat, logged: seq<seq<Event>>, due: seq<seq<Due>>, inMonth: seq<Sitting>, today: int,
    ghost cellOf: int -> Cell)
      returns (weeks: seq<seq<Cell>>)
    requires |logged| == days + 1 && |due| == days + 1
    requires forall d :: IsCell(d, first, logged, due, inMonth, today, cellOf)
    ensures IsGrid(weeks, MondayIndex(first), days, cellOf)
  {
    weeks := [];
    var mi := MondayIndex(first);
    var week := seq(mi, _ => Blank);
    var d := 1;
    while d <= days
      invariant 1 <= d <= days + 1 && IsOpenGrid(weeks, week, d, mi, days, cellOf)
    {
      var date := first + d - 1;
      var covering := CoveringOn(inMonth, date);
      var cares := LoggedRows(logged[d]) + DueRows(due[d]);
      assert IsCell(d, first, logged, due, inMonth, today, cellOf);
      OneMoreDay(weeks, week, d, mi, days, cellOf);
      weeks, week := AddDay(weeks, week, DayCell(d, date == today, cares, covering));
      d := d + 1;
    }
    LastWeek(weeks, week, mi, days, cellOf);
    if |week| > 0 {
      weeks := weeks + [week + seq(7 - |week|, _ => Blank)];
    }
  }

  lemma FiledCell(
    first: int, events: seq<Event>, dues: seq<Due>, sittings: seq<Sitting>, today: int, eventDay: Event -> int,
    dueDay: Due -> int, logged: seq<seq<Event>>, due: seq<seq<Due>>, inMonth: seq<Sitting>, d: int)
    requires 1 <= d < |logged| && d < |due| ==>
               && logged[d] == On(events, eventDay, d) && due[d] == On(dues, dueDay, d)
               && Covering(inMonth, first + d - 1) == Covering(sittings, first + d - 1)
    ensures IsCell(d, first, logged, due, inMonth, today,
            CellFrom(first, events, dues, sittings, today, eventDay, dueDay))
  {
  }

  /** The page of a month of `days` days from the day `first`. */
  method PageFrom(
    first: int, days: nat, events: seq<Event>, dues: seq<Due>, sittings: seq<Sitting>, today: int,
    eventDay: Event -> int, dueDay: Due -> int)
      returns (page: Page)
    requires forall e :: e in events ==> 1 <= eventDay(e) <= days
    requires forall u :: u in dues ==> 0 <= dueDay(u) <= days && (u.wholeMonth <==> dueDay(u) == 0)
    ensures IsGrid(page.weeks, MondayIndex(first), days,
            CellFrom(first, events, dues, sittings, today, eventDay, dueDay))
    ensures page.monthDue == DueRows(On(dues, dueDay, 0))
  {
    var logged := FileEvents(events, eventDay, days);
    var monthDue, due := FileDues(dues, dueDay, days);
    var inMonth := InMonth(sittings, first, first + days - 1);
    forall d {
      FiledCell(first, events, dues, sittings, today, eventDay, dueDay, logged, due, inMonth, d);
    }
    var weeks := Weeks(first, days, logged, due, inMonth, today,
        CellFrom(first, events, dues, sittings, today, eventDay, dueDay));
    page := Page(weeks, DueRows(monthDue));
  }

  /** The grid of the month, and the cares due some time in it. */
  method NewCalendarPage(
    month: int, events: seq<Event>, dues: seq<Due>, sittings: seq<Sitting>, now: int, offset: int)
    returns (page: Page)
    requires InTheMonth(month, events, dues, offset)
    ensures IsGrid(page.weeks, MondayIndex(FirstDay(month)), Length(month),
            CellOf(month, events, dues, sittings, now, offset))
    ensures page.monthDue == DueRows(On(dues, DayOfDue(), 0))
    ensures GridTally(page.weeks) + |page.monthDue| == |events| + |dues|
  {
    DaysAreInRange(month, events, dues, offset);
    page := PageFrom(FirstDay(month), Length(month), events, dues, sittings, DateAt(now, offset), DayOfEvent(offset),
        DayOfDue());
    EveryCareIsCountedOnce(month, events, dues, sittings, now, offset, page);
  }

  // ----- Every care on the page -----

  /** What a cell counts: the cares it shows and the rest. */
  function CellTally(cell: Cell): nat {
    if cell.Blank? then 0 else |cell.shown| + cell.more
  }

  function WeekTally(week: seq<Cell>): nat {
    if week == [] then 0 else WeekTally(week[..|week| - 1]) + CellTally(week[|week| - 1])
  }

  function GridTally(weeks: seq<seq<Cell>>): nat {
    if weeks == [] then 0 else GridTally(weeks[..|weeks| - 1]) + WeekTally(weeks[|weeks| - 1])
  }

  function Tally(cellOf: int -> Cell): int -> int {
    d => CellTally(cellOf(d))
  }

  function FlatTally(mi: int, days: int, cellOf: int -> Cell): int -> int {
    k => CellTally(At(k, mi, days, cellOf))
  }

  lemma {:induction false} WeekSums(week: seq<Cell>, base: int, f: int -> int)
    requires forall c :: 0 <= c < |week| ==> CellTally(week[c]) == f(base + c)
    ensures WeekTally(week) == Sum(f, base, base + |week|)
    decreases |week|
  {
    if week != [] {
      WeekSums(week[..|week| - 1], base, f);
    }
  }

  lemma {:induction false} SumJoins(f: int -> int, a: int, b: int, c: int)
    requires a <= b <= c
    ensures Sum(f, a, b) + Sum(f, b, c) == Sum(f, a, c)
    decreases c - b
  {
    if b < c {
      SumJoins(f, a, b, c - 1);
    }
  }

  lemma {:induction false} GridSums(weeks: seq<seq<Cell>>, f: int -> int)
    requires forall w :: 0 <= w < |weeks| ==> |weeks[w]| == 7
    requires forall w, c :: 0 <= w < |weeks| && 0 <= c < 7 ==> CellTally(weeks[w][c]) == f(7 * w + c)
    ensures GridTally(weeks) == Sum(f, 0, 7 * |weeks|)
    decreases |weeks|
  {
    if weeks != [] {
      var n := |weeks| - 1;
      GridSums(weeks[..n], f);
      WeekSums(weeks[n], 7 * n, f);
      SumJoins(f, 0, 7 * n, 7 * n + 7);
    }
  }

  lemma {:induction false} SumOfZeros(f: int -> int, a: int, b: int)
    requires forall k :: a <= k < b ==> f(k) == 0
    ensures Sum(f, a, b) == 0
    decreases b - a
  {
    if a < b {
      SumOfZeros(f, a, b - 1);
    }
  }

  lemma {:induction false} SumShifts(f: int -> int, g: int -> int, a: int, b: int, shift: int)
    requires forall k :: a <= k < b ==> f(k + shift) == g(k)
    ensures Sum(f, a + shift, b + shift) == Sum(g, a, b)
    decreases b - a
  {
    if a < b {
      SumShifts(f, g, a, b - 1, shift);
    }
  }

  /** A sum of what is zero but on [a, b) is that of what is on it, shifted. */
  lemma SumOfMiddle(f: int -> int, g: int -> int, a: nat, days: nat, end: int)
    requires a + days <= end && (forall k :: 0 <= k < a || a + days <= k < end ==> f(k) == 0)
    requires forall d :: 1 <= d < days + 1 ==> f(d + (a - 1)) == g(d)
    ensures Sum(f, 0, end) == Sum(g, 1, days + 1)
  {
    SumJoins(f, 0, a, a + days);
    SumJoins(f, 0, a + days, end);
    SumOfZeros(f, 0, a);
    SumOfZeros(f, a + days, end);
    SumShifts(f, g, 1, days + 1, a - 1);
  }

  lemma CellIsFlat(weeks: seq<seq<Cell>>, mi: int, days: nat, cellOf: int -> Cell, w: int, c: int)
    requires IsGrid(weeks, mi, days, cellOf) && 0 <= w < |weeks| && 0 <= c < 7
    ensures CellTally(weeks[w][c]) == FlatTally(mi, days, cellOf)(7 * w + c)
  {
  }

  lemma GridIsFlat(weeks: seq<seq<Cell>>, mi: int, days: nat, cellOf: int -> Cell)
    requires IsGrid(weeks, mi, days, cellOf)
    ensures GridTally(weeks) == Sum(FlatTally(mi, days, cellOf), 0, 7 * |weeks|)
  {
    var f := FlatTally(mi, days, cellOf);
    forall w, c | 0 <= w < |weeks| && 0 <= c < 7 ensures CellTally(weeks[w][c]) == f(7 * w + c) {
      CellIsFlat(weeks, mi, days, cellOf, w, c);
    }
    GridSums(weeks, f);
  }

  /** The cells of a grid count what its days do. */
  lemma GridCountsDays(weeks: seq<seq<Cell>>, mi: int, days: nat, cellOf: int -> Cell)
    requires 0 <= mi && IsGrid(weeks, mi, days, cellOf)
    ensures GridTally(weeks) == Sum(Tally(cellOf), 1, days + 1)
  {
    GridIsFlat(weeks, mi, days, cellOf);
    SumOfMiddle(FlatTally(mi, days, cellOf), Tally(cellOf), mi, days, 7 * |weeks|);
  }

  lemma DayTally(
    first: int, events: seq<Event>, dues: seq<Due>, sittings: seq<Sitting>, today: int, eventDay: Event -> int,
    dueDay: Due -> int, d: int)
    ensures CellTally(CellFrom(first, events, dues, sittings, today, eventDay, dueDay)(d))
            == |On(events, eventDay, d)| + |On(dues, dueDay, d)|
  {
    CellCounts(d, first + d - 1 == today, LoggedRows(On(events, eventDay, d)) + DueRows(On(dues, dueDay, d)),
               Covering(sittings, first + d - 1));
  }

  lemma CellCounts(number: int, today: bool, cares: seq<Care>, covering: seq<Sitting>)
    ensures CellTally(DayCell(number, today, cares, covering)) == |cares|
  {
  }

  lemma CountedOnce(
    first: int, days: nat, events: seq<Event>, dues: seq<Due>, sittings: seq<Sitting>, today: int,
    eventDay: Event -> int, dueDay: Due -> int)
    requires forall e :: e in events ==> 1 <= eventDay(e) <= days
    requires forall u :: u in dues ==> 0 <= dueDay(u) <= days
    ensures var cellOf := CellFrom(first, events, dues, sittings, today, eventDay, dueDay);
            Sum(Tally(cellOf), 1, days + 1) + |DueRows(On(dues, dueDay, 0))| == |events| + |dues|
  {
    var cellOf := CellFrom(first, events, dues, sittings, today, eventDay, dueDay);
    DaysPartition(events, eventDay, 1, days + 1);
    DaysPartition(dues, dueDay, 0, days + 1);
    SumFromZero(SizeOn(dues, dueDay), days + 1);
    forall d ensures Tally(cellOf)(d) == SizeOn(events, eventDay)(d) + SizeOn(dues, dueDay)(d) {
      DayTally(first, events, dues, sittings, today, eventDay, dueDay, d);
    }
    SumAdds(Tally(cellOf), SizeOn(events, eventDay), SizeOn(dues, dueDay), 1, days + 1);
  }

  /** Every logged care and every care due is counted once on the page: on its one
      day, shown or among the rest, or in the list of the month. */
  lemma EveryCareIsCountedOnce(
    month: int, events: seq<Event>, dues: seq<Due>, sittings: seq<Sitting>, now: int, offset: int, page: Page)
    requires InTheMonth(month, events, dues, offset)
    requires IsGrid(page.weeks, MondayIndex(FirstDay(month)), Length(month),
                    CellOf(month, events, dues, sittings, now, offset))
    requires page.monthDue == DueRows(On(dues, DayOfDue(), 0))
    ensures GridTally(page.weeks) + |page.monthDue| == |events| + |dues|
  {
    DaysAreInRange(month, events, dues, offset);
    CountedOnce(FirstDay(month), Length(month), events, dues, sittings, DateAt(now, offset), DayOfEvent(offset),
                DayOfDue());
    GridCountsDays(page.weeks, MondayIndex(FirstDay(month)), Length(month),
                   CellOf(month, events, dues, sittings, now, offset));
  }

  lemma {:induction false} SumFromZero(f: int -> int, til: int)
    requires til >= 1
    ensures Sum(f, 0, til) == f(0) + Sum(f, 1, til)
    decreases til
  {
    if til > 1 {
      SumFromZero(f, til - 1);
    }
  }
}
