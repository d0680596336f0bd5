/** What a reader finds on a day of the calendar page: the column the day stands in,
    and what its cell shows. */
module CalendarDays {
  import opened Civil
  import opened LocalTime
  import opened CalendarGrid

  /** The day of the week a column is headed with, Monday first, as time.Weekday
      counts with Sunday as 0. */
  const HEADINGS: seq<int> := [1, 2, 3, 4, 5, 6, 0]

  lemma ColumnIsWeekday(date: int)
    ensures HEADINGS[MondayIndex(date)] == Weekday(date)
  {
  }

  // ----- Filing is filtering -----

  lemma {:induction false} OnJoins<T>(a: seq<T>, b: seq<T>, dayOf: T -> int, d: int)
    ensures On(a + b, dayOf, d) == On(a, dayOf, d) + On(b, dayOf, d)
    decreases |b|
  {
    if b == [] {
      assert a + b == a;
    } else {
      var n := |b| - 1;
      assert (a + b)[..|a + b| - 1] == a + b[..n];
      OnJoins(a, b[..n], dayOf, d);
    }
  }

  /** What is filed on a day is what falls on it, each in its turn: nothing of a day is
      left out, and an item before another stays before it. */
  lemma OnIsInTurn<T>(before: seq<T>, x: T, after: seq<T>, dayOf: T -> int, d: int)
    ensures On(before + [x] + after, dayOf, d)
            == On(before, dayOf, d) + (if dayOf(x) == d then [x] else []) + On(after, dayOf, d)
  {
    OnJoins(before + [x], after, dayOf, d);
    OnJoins(before, [x], dayOf, d);
    assert [x][..0] == [];
  }

  lemma {:induction false} CoveringJoins(a: seq<Sitting>, b: seq<Sitting>, date: int)
    ensures Covering(a + b, date) == Covering(a, date) + Covering(b, date)
    decreases |b|
  {
    if b == [] {
      assert a + b == a;
    } else {
      var n := |b| - 1;
      assert (a + b)[..|a + b| - 1] == a + b[..n];
      CoveringJoins(a, b[..n], date);
    }
  }

  /** Those who cover a date are each in their turn. */
  lemma CoveringIsInTurn(before: seq<Sitting>, x: Sitting, after: seq<Sitting>, date: int)
    ensures Covering(before + [x] + after, date)
            == Covering(before, date) + (if x.first <= date <= x.last then [x] else []) + Covering(after, date)
  {
    CoveringJoins(before + [x], after, date);
    CoveringJoins(before, [x], date);
    assert [x][..0] == [];
  }

  /** A logged care is filed on its date in the reader's timezone, and a due one on
      its date unless it is due some time in the month. */
  lemma FiledOnItsDate(month: int, events: seq<Event>, dues: seq<Due>, offset: int, d: int)
    requires InTheMonth(month, events, dues, offset) && 1 <= d <= Length(month)
    ensures forall e :: e in events ==> (DayOfEvent(offset)(e) == d <==> DateAt(e.at, offset) == DateOf(month, d))
    ensures forall u :: u in dues ==> (DayOfDue()(u) == d <==> !u.wholeMonth && u.date == DateOf(month, d))
  {
    FirstDayStep(month);
    forall e | e in events ensures DayOfEvent(offset)(e) == d <==> DateAt(e.at, offset) == DateOf(month, d) {
      MonthIsUnique(month, DateAt(e.at, offset));
    }
    forall u | u in dues ensures DayOfDue()(u) == d <==> !u.wholeMonth && u.date == DateOf(month, d) {
      MonthIsUnique(month, u.date);
    }
  }

  // ----- The cell of a day -----

  /** The due cares of a day in the order of the page: overdue first, then by plant. */
  ghost predicate IsSorting(sorted: seq<Due>, due: seq<Due>) {
    && multiset(sorted) == multiset(due)
    && (forall i, j :: 0 <= i < j < |sorted| ==>
          && (sorted[j].overdue ==> sorted[i].overdue)
          && (sorted[i].overdue == sorted[j].overdue ==> sorted[i].name <= sorted[j].name)
          && (sorted[i].overdue == sorted[j].overdue && sorted[i].name == sorted[j].name ==>
                sorted[i].plant <= sorted[j].plant))
  }

  /** All the cares of a day: those logged, and then those due. */
  ghost predicate AreCares(all: seq<Care>, logged: seq<Event>, sorted: seq<Due>) {
    && |all| == |logged| + |sorted|
    && (forall i :: 0 <= i < |logged| ==> all[i] == Logged(logged[i]))
    && (forall i :: 0 <= i < |sorted| ==> all[|logged| + i] == Falls(sorted[i]))
  }

  /** A cell shows the first three and counts the rest. */
  ghost predicate FirstThree(shown: seq<Care>, more: nat, all: seq<Care>) {
    shown <= all && |shown| == (if |all| < 3 then |all| else 3) && more == |all| - |shown|
  }

  ghost predicate ShowsTheFirst(shown: seq<Care>, more: nat, logged: seq<Event>, due: seq<Due>) {
    exists sorted, all :: IsSorting(sorted, due) && AreCares(all, logged, sorted) && FirstThree(shown, more, all)
  }

  lemma CellShowsThree(number: int, today: bool, all: seq<Care>, covering: seq<Sitting>)
    ensures var cell := DayCell(number, today, all, covering);
            && cell.Cell? && cell.number == number && cell.today == today && cell.covering == covering
            && FirstThree(cell.shown, cell.more, all)
  {
  }

  lemma RowsAreCares(logged: seq<Event>, due: seq<Due>)
    ensures AreCares(LoggedRows(logged) + DueRows(due), logged, StableSort(due)) && IsSorting(StableSort(due), due)
  {
    StableSortSorts(due);
    var sorted := StableSort(due);
    assert forall i, j :: 0 <= i < j < |sorted| ==> !Precedes(sorted[j], sorted[i]);
  }

  lemma CellShowsTheFirst(number: int, today: bool, logged: seq<Event>, due: seq<Due>, covering: seq<Sitting>)
    ensures var cell := DayCell(number, today, LoggedRows(logged) + DueRows(due), covering);
            && cell.Cell? && cell.number == number && cell.today == today && cell.covering == covering
            && ShowsTheFirst(cell.shown, cell.more, logged, due)
  {
    CellShowsThree(number, today, LoggedRows(logged) + DueRows(due), covering);
    RowsAreCares(logged, due);
  }

  /** The cell is that of day d, a date: marked when it is today, with the first of the
      cares filed on it and with who covers it. */
  ghost predicate IsDay(
    cell: Cell, d: int, date: int, events: seq<Event>, dues: seq<Due>, sittings: seq<Sitting>, today: int,
    eventDay: Event -> int, dueDay: Due -> int)
  {
    && cell.Cell? && cell.number == d && (cell.today <==> date == today)
    && ShowsTheFirst(cell.shown, cell.more, On(events, eventDay, d), On(dues, dueDay, d))
    && cell.covering == Covering(sittings, date)
  }

  lemma CellIsDay(
    first: int, events: seq<Event>, dues: seq<Due>, sittings: seq<Sitting>, today: int, eventDay: Event -> int,
    dueDay: Due -> int, d: int)
    ensures IsDay(CellFrom(first, events, dues, sittings, today, eventDay, dueDay)(d), d, first + d - 1, events, dues,
                  sittings, today, eventDay, dueDay)
  {
    CellShowsTheFirst(d, first + d - 1 == today, On(events, eventDay, d), On(dues, dueDay, d),
                      Covering(sittings, first + d - 1));
  }

  lemma DayIsAt(weeks: seq<seq<Cell>>, mi: int, days: int, cellOf: int -> Cell, d: int)
    requires IsGrid(weeks, mi, days, cellOf) && 0 <= mi && 1 <= d <= days
    ensures var k := mi + d - 1;
            0 <= k / 7 < |weeks| && |weeks[k / 7]| == 7 && weeks[k / 7][k % 7] == cellOf(d)
  {
    var k := mi + d - 1;
    assert k == 7 * (k / 7) + k % 7;
    assert weeks[k / 7][k % 7] == At(7 * (k / 7) + k % 7, mi, days, cellOf);
  }

  /** Day d of a month that starts on the day `first` is on the page, under the heading
      of its weekday. */
  ghost predicate StandsAt(
    weeks: seq<seq<Cell>>, w: int, c: int, d: int, first: int, events: seq<Event>, dues: seq<Due>,
    sittings: seq<Sitting>, today: int, eventDay: Event -> int, dueDay: Due -> int)
  {
    && 0 <= w < |weeks| && 0 <= c < |weeks[w]| && c < 7 && HEADINGS[c] == Weekday(first + d - 1)
    && IsDay(weeks[w][c], d, first + d - 1, events, dues, sittings, today, eventDay, dueDay)
  }

  lemma DayStands(
    weeks: seq<seq<Cell>>, days: int, d: int, first: int, events: seq<Event>, dues: seq<Due>, sittings: seq<Sitting>,
    today: int, eventDay: Event -> int, dueDay: Due -> int)
    requires IsGrid(weeks, MondayIndex(first), days,
                    CellFrom(first, events, dues, sittings, today, eventDay, dueDay))
    requires 1 <= d <= days
    ensures exists w, c :: StandsAt(weeks, w, c, d, first, events, dues, sittings, today, eventDay, dueDay)
  {
    var mi := MondayIndex(first);
    ColumnsAdvance(first, d - 1, first + d - 1);
    ColumnIsWeekday(first + d - 1);
    CellIsDay(first, events, dues, sittings, today, eventDay, dueDay, d);
    DayIsAt(weeks, mi, days, CellFrom(first, events, dues, sittings, today, eventDay, dueDay), d);
    assert StandsAt(weeks, (mi + d - 1) / 7, (mi + d - 1) % 7, d, first, events, dues, sittings, today, eventDay,
                    dueDay);
  }

  /** Every day of the month stands on the page, under its weekday and with its own
      cares and sittings. */
  lemma EveryDayStands(
    weeks: seq<seq<Cell>>, month: int, events: seq<Event>, dues: seq<Due>, sittings: seq<Sitting>, now: int,
    offset: int, d: int)
    requires IsGrid(weeks, MondayIndex(FirstDay(month)), Length(month),
                    CellOf(month, events, dues, sittings, now, offset))
    requires 1 <= d <= Length(month)
    ensures exists w, c :: StandsAt(weeks, w, c, d, FirstDay(month), events, dues, sittings, DateAt(now, offset),
                                    DayOfEvent(offset), DayOfDue())
  {
    DayStands(weeks, Length(month), d, FirstDay(month), events, dues, sittings, DateAt(now, offset),
              DayOfEvent(offset), DayOfDue());
  }
}
