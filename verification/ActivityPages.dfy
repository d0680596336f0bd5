/** The activity log read a page at a time, newest first, while care is logged,
    corrected and deleted between page loads. */
module ActivityPages {
  import opened Options

  type Id = nat

  /** at is performed_at and id breaks ties. Both columns have a least value. */
  datatype Event = Event(at: nat, id: nat, plant: Id, care: Id)

  datatype Filter = Filter(plant: Option<Id>, care: Option<Id>, since: Option<nat>, until: Option<nat>)

  /** The last event on a page. */
  datatype Cursor = Cursor(at: nat, id: nat)

  const PAGE_SIZE: nat := 20

  predicate Newer(a: Event, b: Event) {
    a.at > b.at || (a.at == b.at && a.id > b.id)
  }

  predicate Matches(f: Filter, e: Event) {
    && (f.plant.Some? ==> e.plant == f.plant.value)
    && (f.care.Some? ==> e.care == f.care.value)
    && (f.since.Some? ==> e.at >= f.since.value)
    && (f.until.Some? ==> e.at < f.until.value)
  }

  predicate Below(before: Option<Cursor>, e: Event) {
    before.Some? ==> e.at < before.value.at || (e.at == before.value.at && e.id < before.value.id)
  }

  /** The table at one moment: ids are its primary key. */
  ghost predicate Keyed(table: set<Event>) {
    forall a, b :: a in table && b in table && a.id == b.id ==> a == b
  }

  type Table = t: set<Event> | Keyed(t) witness {}

  ghost function Left(table: Table, f: Filter, before: Option<Cursor>): Table {
    set e | e in table && Matches(f, e) && Below(before, e)
  }

  ghost predicate IsNewest(table: set<Event>, e: Event) {
    e in table && forall other :: other in table && other != e ==> Newer(e, other)
  }

  lemma {:induction false} HasNewest(table: Table)
    requires table != {}
    ensures exists e :: IsNewest(table, e)
    decreases |table|
  {
    var x :| x in table;
    var rest := table - {x};
    if rest == {} {
      assert table == {x};
      assert IsNewest(table, x);
    } else {
      HasNewest(rest);
      var m :| IsNewest(rest, m);
      assert m in table && m.id != x.id;
      var e := if Newer(x, m) then x else m;
      forall other | other in table && other != e ensures Newer(e, other) {
        assert other == x || other in rest;
      }
      assert IsNewest(table, e);
    }
  }

  ghost function Newest(table: Table): (e: Event)
    requires table != {}
    ensures IsNewest(table, e)
  {
    HasNewest(table);
    var e :| IsNewest(table, e);
    e
  }

  /** ORDER BY performed_at DESC, id DESC LIMIT count. */
  ghost function Listing(table: Table, count: nat): (rows: seq<Event>)
    ensures |rows| == if |table| < count then |table| else count
    ensures forall e :: e in rows ==> e in table
    ensures Descending(rows)
    ensures forall e, other :: e in rows && other in table && other !in rows ==> Newer(e, other)
    decreases |table|
  {
    if table == {} || count == 0 then []
    else
      var first := Newest(table);
      [first] + Listing(table - {first}, count - 1)
  }

  ghost predicate Descending(rows: seq<Event>) {
    forall i, j :: 0 <= i < j < |rows| ==> Newer(rows[i], rows[j])
  }

  datatype Page = Page(rows: seq<Event>, older: Option<Cursor>)

  /** One row more than a page holds is read, to learn whether there is another
      page. */
  ghost function Load(table: Table, f: Filter, before: Option<Cursor>): (p: Page)
    ensures p.older.Some? ==> Later(before, p.older.value)
  {
    var listed := Listing(Left(table, f, before), PAGE_SIZE + 1);
    if |listed| > PAGE_SIZE then
      assert listed[PAGE_SIZE - 1] in listed;
      Page(listed[..PAGE_SIZE], Some(CursorAt(listed[PAGE_SIZE - 1])))
    else Page(listed, None)
  }

  /** Whether a cursor is further down the log. */
  predicate Later(before: Option<Cursor>, c: Cursor) {
    before.Some? ==> c.at < before.value.at || (c.at == before.value.at && c.id < before.value.id)
  }

  function CursorAt(e: Event): Cursor {
    Cursor(e.at, e.id)
  }

  lemma {:induction false} DistinctRowsFillTheTable(rows: seq<Event>, table: set<Event>)
    requires Descending(rows) && |rows| == |table| && forall e :: e in rows ==> e in table
    ensures forall e :: e in table ==> e in rows
    decreases |rows|
  {
    if rows != [] {
      var last := rows[|rows| - 1];
      assert last in rows;
      DistinctRowsFillTheTable(rows[..|rows| - 1], table - {last});
      forall e | e in table ensures e in rows {
        assert e == last || e in rows[..|rows| - 1];
      }
    }
  }

  /** The last row of a page divides what is left: the page, and what is older. */
  lemma PageDivides(listed: seq<Event>, left: Table, k: nat, e: Event)
    requires Descending(listed) && 0 < k <= |listed| && e in left
    requires forall x, other :: x in listed && other in left && other !in listed ==> Newer(x, other)
    ensures e in listed[..k] <==> !Newer(listed[k - 1], e)
  {
    if e in listed {
      var i :| 0 <= i < |listed| && listed[i] == e;
      if i < k {
        assert listed[..k][i] == e;
      }
    } else {
      assert listed[k - 1] in listed;
    }
  }

  /** A page is the newest of what is left, in order. What is left below its last
      row is what it leaves out, and there is an Older link exactly when that is
      something. */
  lemma OlderExactly(table: Table, f: Filter, before: Option<Cursor>)
    ensures var p := Load(table, f, before);
            && Descending(p.rows) && |p.rows| <= 20 && (p.older.Some? ==> |p.rows| == 20)
            && (forall e :: e in p.rows ==> e in Left(table, f, before))
            && (p.older.Some? ==> p.rows != [] && p.older.value == CursorAt(p.rows[|p.rows| - 1]))
            && (p.older.None? <==> forall e :: e in Left(table, f, before) ==> e in p.rows)
            && (p.older.Some? ==> forall e :: e in Left(table, f, before) ==>
               (e in p.rows <==> e !in Left(table, f, p.older)))
  {
    var left := Left(table, f, before);
    var listed := Listing(left, PAGE_SIZE + 1);
    var p := Load(table, f, before);
    if |listed| > PAGE_SIZE {
      var extra := listed[PAGE_SIZE];
      assert extra in left && extra !in p.rows;
      forall e | e in left ensures e in p.rows <==> e !in Left(table, f, p.older) {
        PageDivides(listed, left, PAGE_SIZE, e);
        assert Below(p.older, e) <==> Newer(listed[PAGE_SIZE - 1], e);
      }
    } else {
      DistinctRowsFillTheTable(listed, left);
    }
  }

  // ----- Following Older to the end -----

  /** Everything shown by loading a page and following Older for as long as there
      is one. tables(n) is the table when page n is loaded. */
  ghost function Walk(tables: nat -> Table, f: Filter, before: Option<Cursor>, n: nat): seq<Event>
    decreases if before.Some? then 0 else 1,
              if before.Some? then before.value.at else 0,
              if before.Some? then before.value.id else 0
  {
    var p := Load(tables(n), f, before);
    if p.older.None? then p.rows else p.rows + Walk(tables, f, p.older, n + 1)
  }

  /** The pages of the walk, one for each load. */
  ghost function Pages(tables: nat -> Table, f: Filter, before: Option<Cursor>, n: nat): seq<seq<Event>>
    decreases if before.Some? then 0 else 1,
              if before.Some? then before.value.at else 0,
              if before.Some? then before.value.id else 0
  {
    var p := Load(tables(n), f, before);
    if p.older.None? then [p.rows] else [p.rows] + Pages(tables, f, p.older, n + 1)
  }

  /** Every row shown is on a page. */
  lemma {:induction false} WalkIsOnPages(tables: nat -> Table, f: Filter, before: Option<Cursor>, n: nat, e: Event)
    requires e in Walk(tables, f, before, n)
    ensures exists k :: 0 <= k < |Pages(tables, f, before, n)| && e in Pages(tables, f, before, n)[k]
    decreases if before.Some? then 0 else 1,
              if before.Some? then before.value.at else 0,
              if before.Some? then before.value.id else 0
  {
    var p := Load(tables(n), f, before);
    var pages := Pages(tables, f, before, n);
    if e in p.rows {
      assert pages[0] == p.rows;
    } else {
      WalkIsOnPages(tables, f, p.older, n + 1, e);
      var rest := Pages(tables, f, p.older, n + 1);
      var k :| 0 <= k < |rest| && e in rest[k];
      assert pages[k + 1] == rest[k];
    }
  }

  /** The event is in the table, matches the filter and lies below the cursor. */
  ghost predicate InLog(table: Table, f: Filter, before: Option<Cursor>, e: Event) {
    e in table && Matches(f, e) && Below(before, e)
  }

  lemma RowsAreInLog(table: Table, f: Filter, before: Option<Cursor>, e: Event)
    requires e in Load(table, f, before).rows
    ensures InLog(table, f, before, e)
  {
    assert e in Listing(Left(table, f, before), PAGE_SIZE + 1);
  }

  /** How load n answers, for any cursor. */
  ghost function Loads(tables: nat -> Table, f: Filter): (nat, Option<Cursor>) -> Page {
    (n: nat, before: Option<Cursor>) => Load(tables(n), f, before)
  }

  /** The pages of the loads n, n + 1 and so on, each below the last row of the one
      before, until there is no Older link. */
  ghost predicate ArePages(
    pages: seq<seq<Event>>, load: (nat, Option<Cursor>) -> Page, before: Option<Cursor>, n: nat)
    decreases |pages|
  {
    && pages != [] && pages[0] == load(n, before).rows
    && if load(n, before).older.None? then |pages| == 1 else ArePages(pages[1..], load, load(n, before).older, n + 1)
  }

  lemma {:induction false} PagesArePages(tables: nat -> Table, f: Filter, before: Option<Cursor>, n: nat)
    ensures ArePages(Pages(tables, f, before, n), Loads(tables, f), before, n)
    decreases if before.Some? then 0 else 1,
              if before.Some? then before.value.at else 0,
              if before.Some? then before.value.id else 0
  {
    var p, pages := Load(tables(n), f, before), Pages(tables, f, before, n);
    if p.older.Some? {
      PagesArePages(tables, f, p.older, n + 1);
      assert pages[1..] == Pages(tables, f, p.older, n + 1);
    }
  }

  /** What is known of the loads: their rows are of their tables and below the
      cursor, and so is the Older link. */
  ghost predicate LoadsTables(load: (nat, Option<Cursor>) -> Page, tables: nat -> Table, f: Filter) {
    && (forall n: nat, before, e :: e in load(n, before).rows ==> InLog(tables(n), f, before, e))
    && (forall n: nat, before :: load(n, before).older.Some? ==> Later(before, load(n, before).older.value))
  }

  lemma LoadsAreOfTables(tables: nat -> Table, f: Filter)
    ensures LoadsTables(Loads(tables, f), tables, f)
  {
    forall n: nat, before, e | e in Loads(tables, f)(n, before).rows ensures InLog(tables(n), f, before, e) {
      RowsAreInLog(tables(n), f, before, e);
    }
    forall n: nat, before | Loads(tables, f)(n, before).older.Some?
      ensures Later(before, Loads(tables, f)(n, before).older.value)
    {
      assert Loads(tables, f)(n, before) == Load(tables(n), f, before);
    }
  }

  lemma InLogAbove(table: Table, f: Filter, before: Option<Cursor>, c: Cursor, e: Event)
    requires Later(before, c) && InLog(table, f, Some(c), e)
    ensures InLog(table, f, before, e)
  {
  }

  lemma {:induction false} PagesAreInLog(
    pages: seq<seq<Event>>, load: (nat, Option<Cursor>) -> Page, tables: nat -> Table, f: Filter,
    before: Option<Cursor>, n: nat, k: nat, e: Event)
    requires LoadsTables(load, tables, f) && ArePages(pages, load, before, n) && k < |pages| && e in pages[k]
    ensures InLog(tables(n + k), f, before, e)
    decreases k
  {
    if k > 0 {
      var older := load(n, before).older;
      assert pages[1..][k - 1] == pages[k];
      PagesAreInLog(pages[1..], load, tables, f, older, n + 1, k - 1, e);
      InLogAbove(tables(n + k), f, before, older.value, e);
    }
  }

  /** Everything on page k was in the log, matched the filter and lay below the
      cursor in the table that page was loaded from. */
  lemma WalkShowsOnlyTheLog(tables: nat -> Table, f: Filter, before: Option<Cursor>, n: nat, k: nat, e: Event)
    requires k < |Pages(tables, f, before, n)| && e in Pages(tables, f, before, n)[k]
    ensures InLog(tables(n + k), f, before, e)
  {
    LoadsAreOfTables(tables, f);
    PagesArePages(tables, f, before, n);
    PagesAreInLog(Pages(tables, f, before, n), Loads(tables, f), tables, f, before, n, k, e);
  }

  lemma WalkLiesBelow(tables: nat -> Table, f: Filter, before: Option<Cursor>, n: nat, e: Event)
    requires e in Walk(tables, f, before, n)
    ensures Below(before, e)
  {
    WalkIsOnPages(tables, f, before, n, e);
    var pages := Pages(tables, f, before, n);
    var k :| 0 <= k < |pages| && e in pages[k];
    WalkShowsOnlyTheLog(tables, f, before, n, k, e);
  }

  lemma DescendingJoins(a: seq<Event>, b: seq<Event>)
    requires Descending(a) && Descending(b) && (a == [] ==> b == [])
    requires a != [] ==> forall j :: 0 <= j < |b| ==> Newer(a[|a| - 1], b[j])
    ensures Descending(a + b)
  {
    forall i, j | 0 <= i < |a| && 0 <= j < |b| ensures Newer(a[i], b[j]) {
      assert i == |a| - 1 || Newer(a[i], a[|a| - 1]);
    }
  }

  /** The pages together are in strictly descending order of time and id, whatever
      happens between loads. */
  lemma {:induction false} WalkDescends(tables: nat -> Table, f: Filter, before: Option<Cursor>, n: nat)
    ensures Descending(Walk(tables, f, before, n))
    decreases if before.Some? then 0 else 1,
              if before.Some? then before.value.at else 0,
              if before.Some? then before.value.id else 0
  {
    var p := Load(tables(n), f, before);
    OlderExactly(tables(n), f, before);
    if p.older.Some? {
      WalkDescends(tables, f, p.older, n + 1);
      var rest := Walk(tables, f, p.older, n + 1);
      forall j | 0 <= j < |rest| ensures Newer(p.rows[|p.rows| - 1], rest[j]) {
        WalkLiesBelow(tables, f, p.older, n + 1, rest[j]);
      }
      DescendingJoins(p.rows, rest);
    }
  }

  /** So an event is shown twice only if it was corrected to an earlier time between
      the two loads. */
  lemma RepeatsOnlyWhenMovedBack(tables: nat -> Table, f: Filter, i: nat, j: nat)
    requires i < j < |Walk(tables, f, None, 0)|
    ensures var walk := Walk(tables, f, None, 0);
            walk[i].id == walk[j].id ==> walk[j].at < walk[i].at
  {
    WalkDescends(tables, f, None, 0);
  }

  lemma {:induction false} WalkMissesNothing(tables: nat -> Table, f: Filter, before: Option<Cursor>, n: nat, e: Event)
    requires Matches(f, e) && Below(before, e) && forall k: nat :: k >= n ==> e in tables(k)
    ensures e in Walk(tables, f, before, n)
    decreases if before.Some? then 0 else 1,
              if before.Some? then before.value.at else 0,
              if before.Some? then before.value.id else 0
  {
    var p := Load(tables(n), f, before);
    OlderExactly(tables(n), f, before);
    assert e in Left(tables(n), f, before);
    if e !in p.rows {
      WalkMissesNothing(tables, f, p.older, n + 1, e);
    }
  }

  ghost predicate ShownOnce(rows: seq<Event>, e: Event) {
    e in rows && forall i, j :: 0 <= i < j < |rows| ==> rows[i] != e || rows[j] != e
  }

  lemma DescendingShowsOnce(rows: seq<Event>, e: Event)
    requires Descending(rows) && e in rows
    ensures ShownOnce(rows, e)
  {
  }

  /** From the newest page, an event that stays in the log throughout the walk is
      shown exactly once. */
  lemma StayingEventsShowOnce(tables: nat -> Table, f: Filter, e: Event)
    requires Matches(f, e) && forall k: nat :: e in tables(k)
    ensures ShownOnce(Walk(tables, f, None, 0), e)
  {
    WalkMissesNothing(tables, f, None, 0, e);
    WalkDescends(tables, f, None, 0);
    DescendingShowsOnce(Walk(tables, f, None, 0), e);
  }

  lemma {:induction false} DescendingIsDetermined(a: seq<Event>, b: seq<Event>)
    requires Descending(a) && Descending(b) && forall e :: e in a <==> e in b
    ensures a == b
    decreases |a|
  {
    if b != [] {
      assert b[0] in a;
    }
    if a != [] {
      assert a[0] in b && b[0] in a;
      assert a[0] == b[0];
      forall e ensures e in a[1..] <==> e in b[1..] {
        assert e in a[1..] <==> e in a && e != a[0];
        assert e in b[1..] <==> e in b && e != b[0];
      }
      DescendingIsDetermined(a[1..], b[1..]);
    }
  }

  /** On a log nobody changes, the pages put together are the whole log. */
  lemma PagesJoin(table: Table, f: Filter)
    ensures var left := Left(table, f, None);
            Walk(k => table, f, None, 0) == Listing(left, |left|)
  {
    var tables: nat -> Table := k => table;
    var left := Left(table, f, None);
    var walk, whole := Walk(tables, f, None, 0), Listing(left, |left|);
    WalkDescends(tables, f, None, 0);
    DistinctRowsFillTheTable(whole, left);
    forall e ensures e in walk <==> e in whole {
      if e in walk {
        WalkIsOnPages(tables, f, None, 0, e);
        var pages := Pages(tables, f, None, 0);
        var k :| 0 <= k < |pages| && e in pages[k];
        WalkShowsOnlyTheLog(tables, f, None, 0, k, e);
      } else if e in whole {
        WalkMissesNothing(tables, f, None, 0, e);
      }
    }
    DescendingIsDetermined(walk, whole);
  }

  /** On a log nobody changes, the pages show exactly the events of the plant and the
      care asked for, from the first instant asked for to before the last. */
  lemma ShownExactly(table: Table, f: Filter, e: Event)
    ensures e in Walk(k => table, f, None, 0) <==>
            && e in table && f.plant in {None, Some(e.plant)} && f.care in {None, Some(e.care)}
            && (f.since.Some? ==> f.since.value <= e.at) && (f.until.Some? ==> e.at < f.until.value)
  {
    var tables: nat -> Table := k => table;
    if e in Walk(tables, f, None, 0) {
      WalkIsOnPages(tables, f, None, 0, e);
      var pages := Pages(tables, f, None, 0);
      var k :| 0 <= k < |pages| && e in pages[k];
      WalkShowsOnlyTheLog(tables, f, None, 0, k, e);
    } else if e in table && Matches(f, e) {
      WalkMissesNothing(tables, f, None, 0, e);
    }
  }
}
