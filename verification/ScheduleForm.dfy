/** The schedule editor: a stored schedule becomes a draft, the draft renders as
    controls, the controls post back, and the post becomes a row again. */
module ScheduleForm {
  import opened Options
  import opened Civil

  datatype Precision = ToDay | ToMonth

  /** The nullable columns of care_schedule. anchor is a day number. */
  datatype Row = Row(
    count: Option<int>, unit: Option<Unit>, anchor: Option<int>, precision: Option<Precision>,
    seasonStart: Option<int>, seasonEnd: Option<int>)

  /** The CHECK constraints of the table. */
  predicate Schema(r: Row) {
    && (r.count.None? <==> r.unit.None?)
    && (r.anchor.None? <==> r.precision.None?)
    && (r.seasonStart.None? <==> r.seasonEnd.None?)
    && (r.count.Some? || r.anchor.Some?)
    && (r.seasonStart.None? || r.anchor.None?)
    && (r.count.Some? ==> r.count.value > 0)
  }

  const ANY_DAY: int := 0
  const MAX_INTERVAL: int := 999
  const ANCHOR_SPAN: int := 7

  datatype Shape = Cadence | OnDate | Once

  /** A number as typed into a text field. */
  datatype Typed = Number(n: int) | Text

  /** hasInterval and hasAnchor are whether each group of fields was in the
      form. */
  datatype Draft = Draft(
    shape: Shape, every: Typed, unit: Unit, seasonal: bool, from: int, til: int, day: int, month: int, year: int,
    hasInterval: bool, hasAnchor: bool)

  datatype Today = Today(month: int, year: int)

  function NewDraft(now: Today): Draft {
    Draft(Cadence, Number(1), Weeks, false, 3, 9, ANY_DAY, now.month, now.year + 1, true, true)
  }

  /** The shape is told by which groups of columns are set. */
  function DraftOf(r: Row, now: Today): Draft
    requires Schema(r)
  {
    var f := NewDraft(now);
    var f := f.(shape := if r.anchor.None? then Cadence else if r.count.None? then Once else OnDate);
    var f := if r.count.Some? then f.(every := Number(r.count.value), unit := r.unit.value) else f;
    var f := if r.seasonStart.Some? then f.(seasonal := true, from := r.seasonStart.value, til := r.seasonEnd.value)
        else f;
    if r.anchor.Some? then
      var month := MonthOf(r.anchor.value);
      f.(day := if r.precision.value.ToMonth? then ANY_DAY else DayOfMonth(r.anchor.value),
          month := MonthNumber(month), year := Year(month))
    else f
  }

  // ----- The options of each select -----

  /** This year and the six after it, with the schedule's own year in front when
      it is past. */
  method AnchorYears(nowYear: int, of: int) returns (years: seq<int>)
    ensures years == YearsFor(nowYear, of)
    ensures forall y :: y in years <==> IsAnchorYear(nowYear, of, y)
  {
    years := [];
    if of < nowYear {
      years := [of];
    }
    ghost var front := years;
    for i := 0 to ANCHOR_SPAN
      invariant years == front + Span(nowYear, i)
    {
      years := years + [nowYear + i];
    }
    YearsOffered(nowYear, of);
  }

  function Span(first: int, n: nat): (s: seq<int>)
    ensures |s| == n && forall i :: 0 <= i < n ==> s[i] == first + i
  {
    if n == 0 then [] else Span(first, n - 1) + [first + n - 1]
  }

  function YearsFor(nowYear: int, of: int): (years: seq<int>)
    ensures years != []
  {
    (if of < nowYear then [of] else []) + Span(nowYear, ANCHOR_SPAN)
  }

  predicate IsAnchorYear(nowYear: int, of: int, y: int) {
    (y == of && of < nowYear) || nowYear <= y < nowYear + ANCHOR_SPAN
  }

  lemma YearsOffered(nowYear: int, of: int)
    ensures forall y :: y in YearsFor(nowYear, of) <==> IsAnchorYear(nowYear, of, y)
    ensures of >= nowYear ==> YearsFor(nowYear, of)[0] == nowYear
  {
    var span := Span(nowYear, ANCHOR_SPAN);
    forall y | nowYear <= y < nowYear + ANCHOR_SPAN ensures y in span {
      assert span[y - nowYear] == y;
    }
  }

  datatype Choice = Choice(value: int, on: bool)

  /** Every number once, and the selected one on. A browser posts what such a
      select shows: the option that is on, or the first when none is. */
  method NumberOptions(numbers: seq<int>, selected: int) returns (options: seq<Choice>)
    ensures |options| == |numbers|
    ensures forall i :: 0 <= i < |numbers| ==> options[i] == Choice(numbers[i], numbers[i] == selected)
    ensures numbers != [] ==> Shown(options) == Posted(numbers, selected)
  {
    options := [];
    for i := 0 to |numbers|
      invariant |options| == i
      invariant forall k :: 0 <= k < i ==> options[k] == Choice(numbers[k], numbers[k] == selected)
    {
      options := options + [Choice(numbers[i], numbers[i] == selected)];
    }
    if numbers != [] {
      ShownIsPosted(options, numbers, selected);
    }
  }

  function FirstOn(options: seq<Choice>): Option<int> {
    if options == [] then None else if options[0].on then Some(options[0].value) else FirstOn(options[1..])
  }

  function Shown(options: seq<Choice>): int
    requires options != []
  {
    if FirstOn(options).Some? then FirstOn(options).value else options[0].value
  }

  function Posted(numbers: seq<int>, selected: int): int
    requires numbers != []
  {
    if selected in numbers then selected else numbers[0]
  }

  predicate AreOptions(options: seq<Choice>, numbers: seq<int>, selected: int) {
    |options| == |numbers| && forall i :: 0 <= i < |numbers| ==>
        options[i] == Choice(numbers[i], numbers[i] == selected)
  }

  lemma {:induction false} FirstOnIsSelected(options: seq<Choice>, numbers: seq<int>, selected: int)
    requires AreOptions(options, numbers, selected)
    ensures FirstOn(options) == if selected in numbers then Some(selected) else None
    decreases |options|
  {
    if options != [] {
      FirstOnIsSelected(options[1..], numbers[1..], selected);
      assert numbers == [numbers[0]] + numbers[1..];
    }
  }

  lemma ShownIsPosted(options: seq<Choice>, numbers: seq<int>, selected: int)
    requires AreOptions(options, numbers, selected) && numbers != []
    ensures Shown(options) == Posted(numbers, selected)
  {
    FirstOnIsSelected(options, numbers, selected);
  }

  const MONTHS: seq<int> := Span(1, 12)
  const DAYS: seq<int> := Span(ANY_DAY, 32)

  lemma MonthsAndDays()
    ensures MONTHS != [] && DAYS != []
    ensures forall m :: m in MONTHS <==> 1 <= m <= 12
    ensures forall d :: d in DAYS <==> 0 <= d <= 31
  {
    forall m | 1 <= m <= 12 ensures m in MONTHS {
      assert MONTHS[m - 1] == m;
    }
    forall d | 0 <= d <= 31 ensures d in DAYS {
      assert DAYS[d] == d;
    }
  }

  // ----- The form -----

  /** A posted field: not there, readable, or neither. */
  datatype Field<T> = Absent | Given(value: T) | Garbled

  datatype Form = Form(
    shape: Field<Shape>, every: Option<Typed>, unit: Field<Unit>, seasonal: bool, from: Field<int>, til: Field<int>,
    day: Field<int>, month: Field<int>, year: Field<int>)

  predicate Repeats(f: Draft) {
    !f.shape.Once?
  }

  predicate Dated(f: Draft) {
    !f.shape.Cadence?
  }

  /** What the browser posts when nothing on the row is changed: only the
      controls the row's shape renders. */
  function Untouched(f: Draft, nowYear: int): Form {
    var dated := Dated(f);
    var season := !Dated(f) && f.seasonal;
    MonthsAndDays();
    Form(
      Given(f.shape),
      if Repeats(f) then Some(f.every) else None,
      if Repeats(f) then Given(f.unit) else Absent,
      season,
      if season then Given(Posted(MONTHS, f.from)) else Absent,
      if season then Given(Posted(MONTHS, f.til)) else Absent,
      if dated then Given(Posted(DAYS, f.day)) else Absent,
      if dated then Given(Posted(MONTHS, f.month)) else Absent,
      if dated then Given(Posted(YearsFor(nowYear, f.year), f.year)) else Absent)
  }

  predicate NumberIn(field: Field<int>, offered: seq<int>) {
    field.Given? && field.value in offered
  }

  function FillInterval(f: Draft, form: Form): Option<Draft> {
    if form.every.None? then Some(f.(hasInterval := false))
    else if !form.unit.Given? then None
    else Some(f.(hasInterval := true, every := form.every.value, unit := form.unit.value))
  }

  function FillSeason(f: Draft, form: Form): Option<Draft> {
    var f := f.(seasonal := form.seasonal);
    if form.from.Absent? then Some(f)
    else if !NumberIn(form.from, MONTHS) || !NumberIn(form.til, MONTHS) then None
    else Some(f.(from := form.from.value, til := form.til.value))
  }

  function FillAnchor(f: Draft, form: Form, years: seq<int>): Option<Draft> {
    if form.month.Absent? then Some(f.(hasAnchor := false))
    else if !NumberIn(form.day, DAYS) || !NumberIn(form.month, MONTHS) || !NumberIn(form.year, years) then None
    else Some(f.(hasAnchor := true, day := form.day.value, month := form.month.value, year := form.year.value))
  }

  /** The posted values over a draft, or None for a value no control offers. The
      years offered are those of the draft, before anything is filled. */
  function Fill(f: Draft, form: Form, nowYear: int): Option<Draft> {
    var years := YearsFor(nowYear, f.year);
    if form.shape.Garbled? then None
    else
      var f := if form.shape.Given? then f.(shape := form.shape.value) else f;
      var f := FillInterval(f, form);
      var f := if f.None? then None else FillSeason(f.value, form);
      if f.None? then None else FillAnchor(f.value, form, years)
  }

  datatype Message = HowOften | NotANumber | ChooseADate | InvalidDate

  datatype Result = Ok(row: Row) | Refused(message: Message) | BadRequest

  /** The interval columns of a draft, None and None for a one-off. */
  predicate IntervalReads(f: Draft) {
    f.every.Number? && 1 <= f.every.n <= MAX_INTERVAL
  }

  function Params(f: Draft): Result {
    var repeats := !f.shape.Once?;
    if repeats && !f.hasInterval then Refused(HowOften)
    else if repeats && !IntervalReads(f) then Refused(NotANumber)
    else
      var row := Row(if repeats then Some(f.every.n) else None, if repeats then Some(f.unit) else None, None, None,
          None, None);
      if f.shape.Cadence? then
        Ok(if f.seasonal then row.(seasonStart := Some(f.from), seasonEnd := Some(f.til)) else row)
      else if !f.hasAnchor then Refused(ChooseADate)
      else
        var day := if f.day == ANY_DAY then 1 else f.day;
        var anchor := DateOf(MonthIndex(f.year, f.month), day);
        if DayOfMonth(anchor) != day then Refused(InvalidDate)
        else Ok(row.(anchor := Some(anchor), precision := Some(if f.day == ANY_DAY then ToMonth else ToDay)))
  }

  // ----- What a row can be -----

  /** The three shapes of a schedule, with every value one the editor offers. */
  predicate IsCadence(r: Row) {
    && r.count.Some? && 1 <= r.count.value <= MAX_INTERVAL && r.unit.Some? && r.anchor.None? && r.precision.None?
    && (r.seasonStart.None? <==> r.seasonEnd.None?)
    && (r.seasonStart.Some? ==> 1 <= r.seasonStart.value <= 12 && 1 <= r.seasonEnd.value <= 12)
  }

  predicate IsAnchored(r: Row) {
    r.count.Some? && 1 <= r.count.value <= MAX_INTERVAL && r.unit.Some? && HasDate(r)
  }

  predicate IsOneOff(r: Row) {
    r.count.None? && r.unit.None? && HasDate(r)
  }

  predicate HasDate(r: Row) {
    && r.anchor.Some? && r.precision.Some? && r.seasonStart.None? && r.seasonEnd.None?
    && (r.precision.value.ToMonth? ==> DayOfMonth(r.anchor.value) == 1)
  }

  /** The selects other than the year can hold the draft. */
  predicate InRange(f: Draft) {
    0 <= f.day <= 31 && 1 <= f.month <= 12 && 1 <= f.from <= 12 && 1 <= f.til <= 12
  }

  /** Every select can hold the draft, the year included when it has one. */
  predicate Offered(f: Draft, nowYear: int) {
    InRange(f) && (f.hasAnchor ==> f.year < nowYear + ANCHOR_SPAN)
  }

  /** Whatever is posted, and whatever year the draft had, an accepted draft holds
      only values the selects offer. */
  lemma FillStaysOffered(f: Draft, form: Form, nowYear: int)
    requires InRange(f) && Fill(f, form, nowYear).Some?
    ensures Offered(Fill(f, form, nowYear).value, nowYear)
  {
    var shaped := if form.shape.Given? then f.(shape := form.shape.value) else f;
    var timed := FillInterval(shaped, form).value;
    SeasonStaysOffered(timed, form);
    YearsOffered(nowYear, f.year);
    AnchorStaysOffered(FillSeason(timed, form).value, form, YearsFor(nowYear, f.year));
  }

  lemma SeasonStaysOffered(f: Draft, form: Form)
    requires InRange(f) && FillSeason(f, form).Some?
    ensures InRange(FillSeason(f, form).value)
  {
    MonthsAndDays();
  }

  lemma AnchorStaysOffered(f: Draft, form: Form, years: seq<int>)
    requires InRange(f) && FillAnchor(f, form, years).Some?
    ensures InRange(FillAnchor(f, form, years).value)
  {
    MonthsAndDays();
  }

  /** Params yields only the three shapes of the schema, each exactly for its own
      choice in the When select, so a season only ever bounds a cadence. */
  lemma ParamsFitTheSchema(f: Draft)
    requires InRange(f) && Params(f).Ok?
    ensures Schema(Params(f).row)
    ensures f.shape.Cadence? <==> IsCadence(Params(f).row)
    ensures f.shape.OnDate? <==> IsAnchored(Params(f).row)
    ensures f.shape.Once? <==> IsOneOff(Params(f).row)
    ensures Params(f).row.seasonStart.Some? <==> f.shape.Cadence? && f.seasonal
  {
  }

  /** A date is invalid exactly when its day is past the end of its month. */
  lemma InvalidDateExactly(f: Draft)
    requires InRange(f) && !f.shape.Cadence? && f.hasAnchor && (f.shape.OnDate? ==> f.hasInterval && IntervalReads(f))
    ensures Params(f) == Refused(InvalidDate) <==> f.day > Length(MonthIndex(f.year, f.month))
  {
    RollsWhenTooLong(MonthIndex(f.year, f.month), if f.day == ANY_DAY then 1 else f.day);
  }

  // ----- There and back -----

  /** Opening the editor on a stored schedule and saving it untouched, perhaps in
      a later year. */
  function EditUntouched(r: Row, start: Today, now: Today): Result
    requires Schema(r)
  {
    var f := Fill(DraftOf(r, now), Untouched(DraftOf(r, start), start.year), now.year);
    if f.None? then BadRequest else Params(f.value)
  }

  /** Every value of the row is one the editor can show when it is opened. */
  predicate Editable(r: Row, nowYear: int) {
    && (r.count.Some? ==> r.count.value <= MAX_INTERVAL)
    && (r.seasonStart.Some? ==> r.seasonEnd.Some? && 1 <= r.seasonStart.value <= 12 && 1 <= r.seasonEnd.value <= 12)
    && (r.anchor.Some? ==>
          && Year(MonthOf(r.anchor.value)) < nowYear + ANCHOR_SPAN
          && (r.precision == Some(ToMonth) ==> DayOfMonth(r.anchor.value) == 1))
  }

  /** What a select of months posts. */
  function ShownMonth(m: int): int {
    if 1 <= m <= 12 then m else 1
  }

  lemma MonthPosts(m: int)
    ensures MONTHS != [] && Posted(MONTHS, m) == ShownMonth(m) && ShownMonth(m) in MONTHS
  {
    MonthsAndDays();
  }

  /** The form of an untouched cadence: its interval, and its season as the
      selects show it. */
  predicate IsCadenceForm(form: Form, f: Draft) {
    && form.shape == Given(Cadence) && form.every == Some(f.every) && form.unit == Given(f.unit)
    && form.seasonal == f.seasonal && form.month.Absent?
    && form.from == (if f.seasonal then Given(ShownMonth(f.from)) else Absent)
    && form.til == (if f.seasonal then Given(ShownMonth(f.til)) else Absent)
  }

  lemma CadencePosts(f: Draft, nowYear: int)
    requires f.shape.Cadence?
    ensures IsCadenceForm(Untouched(f, nowYear), f)
  {
    MonthPosts(f.from);
    MonthPosts(f.til);
  }

  lemma CadenceFormFills(f: Draft, form: Form, nowYear: int)
    requires f.shape.Cadence? && f.hasInterval && IsCadenceForm(form, f)
    ensures Fill(f, form, nowYear)
            == Some(if f.seasonal then f.(hasAnchor := false, from := ShownMonth(f.from), til := ShownMonth(f.til))
                else f.(hasAnchor := false))
  {
    MonthPosts(f.from);
    MonthPosts(f.til);
  }

  /** An untouched cadence fills its own draft, with the season as the selects
      show it. */
  lemma CadenceFills(r: Row, start: Today, now: Today)
    requires Schema(r) && r.anchor.None?
    ensures var f := DraftOf(r, now);
            Fill(f, Untouched(DraftOf(r, start), start.year), now.year)
            == Some(if f.seasonal then f.(hasAnchor := false, from := ShownMonth(f.from), til := ShownMonth(f.til))
                else f.(hasAnchor := false))
  {
    CadencePosts(DraftOf(r, start), start.year);
    CadenceFormFills(DraftOf(r, now), Untouched(DraftOf(r, start), start.year), now.year);
  }

  lemma CadenceRoundTrips(r: Row, start: Today, now: Today)
    requires Schema(r) && r.anchor.None?
    ensures EditUntouched(r, start, now) == Ok(r) <==> Editable(r, start.year)
  {
    CadenceFills(r, start, now);
    var f := Fill(DraftOf(r, now), Untouched(DraftOf(r, start), start.year), now.year).value;
    CadenceConverts(r, f, start.year);
  }

  lemma CadenceConverts(r: Row, f: Draft, nowYear: int)
    requires Schema(r) && r.anchor.None? && f.shape.Cadence? && f.hasInterval
    requires f.every == Number(r.count.value) && f.unit == r.unit.value && f.seasonal == r.seasonStart.Some?
    requires f.seasonal ==> f.from == ShownMonth(r.seasonStart.value) && f.til == ShownMonth(r.seasonEnd.value)
    ensures Params(f) == Ok(r) <==> Editable(r, nowYear)
  {
  }

  /** The form of an untouched dated row, with its year or, where that was not on
      offer, the first that was. */
  predicate IsDateForm(form: Form, f: Draft, nowYear: int) {
    && form.shape == Given(f.shape) && form.day == Given(f.day) && form.month == Given(f.month)
    && form.year == Given(if f.year < nowYear + ANCHOR_SPAN then f.year else nowYear)
    && form.from.Absent? && !form.seasonal
    && form.every == (if Repeats(f) then Some(f.every) else None)
    && form.unit == if Repeats(f) then Given(f.unit) else Absent
  }

  lemma DatePosts(f: Draft, nowYear: int)
    requires Dated(f) && InRange(f)
    ensures IsDateForm(Untouched(f, nowYear), f, nowYear)
  {
    MonthsAndDays();
    YearsOffered(nowYear, f.year);
  }

  lemma DateFormFills(f: Draft, form: Form, startYear: int, nowYear: int)
    requires Dated(f) && InRange(f) && f.hasAnchor && !f.seasonal && IsDateForm(form, f, startYear)
             && startYear <= nowYear
    ensures var filled := Fill(f, form, nowYear);
            if f.year < startYear + ANCHOR_SPAN then filled == Some(f.(hasInterval := !f.shape.Once?))
            else filled.Some? ==> filled.value.year == startYear
  {
    IsOption(f.day, f.month);
    if f.year < startYear + ANCHOR_SPAN {
      OwnYearOffered(nowYear, f.year);
    }
  }

  lemma IsOption(day: int, month: int)
    requires 0 <= day <= 31 && 1 <= month <= 12
    ensures day in DAYS && month in MONTHS
  {
    MonthsAndDays();
  }

  lemma OwnYearOffered(nowYear: int, year: int)
    requires year < nowYear + ANCHOR_SPAN
    ensures year in YearsFor(nowYear, year)
  {
    YearsOffered(nowYear, year);
  }

  /** An untouched dated row fills its own draft, unless its year was not among
      the options when the editor was opened. */
  lemma DateFills(r: Row, start: Today, now: Today)
    requires Schema(r) && r.anchor.Some? && start.year <= now.year
    ensures var f := DraftOf(r, now);
            var filled := Fill(f, Untouched(DraftOf(r, start), start.year), now.year);
            if f.year < start.year + ANCHOR_SPAN then filled == Some(f.(hasInterval := !f.shape.Once?))
            else filled.Some? ==> filled.value.year == start.year
  {
    DraftIsOffered(r, start);
    DraftIsOffered(r, now);
    DatePosts(DraftOf(r, start), start.year);
    DateFormFills(DraftOf(r, now), Untouched(DraftOf(r, start), start.year), start.year, now.year);
  }

  lemma DateConverts(r: Row, f: Draft)
    requires Schema(r) && r.anchor.Some? && f.shape == (if r.count.None? then Once else OnDate)
    requires r.count.Some? ==> f.hasInterval && f.every == Number(r.count.value) && f.unit == r.unit.value
    requires f.hasAnchor && MonthIndex(f.year, f.month) == MonthOf(r.anchor.value)
    requires f.day == if r.precision.value.ToMonth? then ANY_DAY else DayOfMonth(r.anchor.value)
    ensures Params(f) == Ok(r)
            <==> && (r.count.Some? ==> r.count.value <= MAX_INTERVAL)
                 && (r.precision == Some(ToMonth) ==> DayOfMonth(r.anchor.value) == 1)
  {
    var m, d := MonthOf(r.anchor.value), DayOfMonth(r.anchor.value);
    RollsWhenTooLong(m, 1);
    assert DateOf(m, d) == r.anchor.value;
    assert DateOf(m, 1) == r.anchor.value <==> d == 1;
  }

  /** A converted date is in the year of its draft. */
  lemma ConvertsToItsYear(f: Draft)
    requires InRange(f) && Params(f).Ok? && Params(f).row.anchor.Some?
    ensures Year(MonthOf(Params(f).row.anchor.value)) == f.year
  {
    var day := if f.day == ANY_DAY then 1 else f.day;
    RollsWhenTooLong(MonthIndex(f.year, f.month), day);
  }

  lemma DatedRoundTrips(r: Row, start: Today, now: Today)
    requires Schema(r) && r.anchor.Some? && start.year <= now.year
    ensures EditUntouched(r, start, now) == Ok(r) <==> Editable(r, start.year)
  {
    var f := DraftOf(r, now);
    DateFills(r, start, now);
    if f.year < start.year + ANCHOR_SPAN {
      DateConverts(r, f.(hasInterval := !f.shape.Once?));
    } else {
      DraftIsOffered(r, now);
      var filled := Fill(f, Untouched(DraftOf(r, start), start.year), now.year);
      if filled.Some? && Params(filled.value).Ok? && Params(filled.value).row.anchor.Some? {
        FillStaysOffered(f, Untouched(DraftOf(r, start), start.year), now.year);
        ConvertsToItsYear(filled.value);
      }
    }
  }

  lemma DraftIsOffered(r: Row, now: Today)
    requires Schema(r) && r.anchor.Some?
    ensures InRange(DraftOf(r, now))
  {
  }

  /** For every schedule the table can hold, rendering the editor, posting only
      the controls its shape renders and converting back gives the same row
      exactly when the editor can show every value of the row. */
  lemma EditorRoundTripsExactly(r: Row, start: Today, now: Today)
    requires Schema(r) && start.year <= now.year
    ensures EditUntouched(r, start, now) == Ok(r) <==> Editable(r, start.year)
  {
    if r.anchor.Some? {
      DatedRoundTrips(r, start, now);
    } else {
      CadenceRoundTrips(r, start, now);
    }
  }

  // ----- Edit after edit -----

  predicate SeasonInRange(r: Row) {
    r.seasonStart.Some? ==> r.seasonEnd.Some? && 1 <= r.seasonStart.value <= 12 && 1 <= r.seasonEnd.value <= 12
  }

  /** What posting a form to the editor saves, over the row there was, if any. */
  function Edit(r: Option<Row>, form: Form, now: Today): Result
    requires r.Some? ==> Schema(r.value)
  {
    var f := Fill(if r.Some? then DraftOf(r.value, now) else NewDraft(now), form, now.year);
    if f.None? then BadRequest else Params(f.value)
  }

  lemma ConvertedIsEditable(f: Draft, nowYear: int, later: int)
    requires Offered(f, nowYear) && Params(f).Ok? && nowYear <= later
    ensures Editable(Params(f).row, later)
  {
    if !f.shape.Cadence? {
      ConvertsToItsYear(f);
      RollsWhenTooLong(MonthIndex(f.year, f.month), 1);
    }
  }

  lemma OpenedIsInRange(r: Row, now: Today)
    requires Schema(r) && SeasonInRange(r) && 1 <= now.month <= 12
    ensures InRange(DraftOf(r, now))
  {
  }

  /** Whatever is posted, what the editor saves is a row of the schema that the
      editor can show again in any later year. */
  lemma SavedRowsAreEditable(r: Option<Row>, form: Form, now: Today, later: int)
    requires (r.Some? ==> Schema(r.value) && SeasonInRange(r.value)) && 1 <= now.month <= 12 && now.year <= later
    ensures Edit(r, form, now).Ok? ==>
              var row := Edit(r, form, now).row;
              Schema(row) && SeasonInRange(row) && Editable(row, later)
  {
    var f := if r.Some? then DraftOf(r.value, now) else NewDraft(now);
    if r.Some? {
      OpenedIsInRange(r.value, now);
    }
    if Fill(f, form, now.year).Some? && Params(Fill(f, form, now.year).value).Ok? {
      FillStaysOffered(f, form, now.year);
      ParamsFitTheSchema(Fill(f, form, now.year).value);
      ConvertedIsEditable(Fill(f, form, now.year).value, now.year, later);
    }
  }

  /** A form and when it was posted. */
  datatype Posting = Posting(form: Form, now: Today)

  predicate InOrder(posts: seq<Posting>, year: int)
    decreases |posts|
  {
    posts == [] ||
    (1 <= posts[0].now.month <= 12 && year <= posts[0].now.year && InOrder(posts[1..], posts[0].now.year))
  }

  predicate Sound(r: Option<Row>, year: int) {
    r.Some? ==> Schema(r.value) && SeasonInRange(r.value) && Editable(r.value, year)
  }

  lemma StaysEditable(r: Row, year: int, later: int)
    requires Editable(r, year) && year <= later
    ensures Editable(r, later)
  {
  }

  /** The row after one post: what it saves, or what there was. */
  function After(r: Option<Row>, p: Posting): Option<Row>
    requires r.Some? ==> Schema(r.value)
  {
    if Edit(r, p.form, p.now).Ok? then Some(Edit(r, p.form, p.now).row) else r
  }

  lemma AfterIsSound(r: Option<Row>, p: Posting, year: int)
    requires Sound(r, year) && 1 <= p.now.month <= 12 && year <= p.now.year
    ensures Sound(After(r, p), p.now.year)
  {
    SavedRowsAreEditable(r, p.form, p.now, p.now.year);
    if r.Some? {
      StaysEditable(r.value, year, p.now.year);
    }
  }

  /** Every schedule any run of posts has made is kept, in any later year, by
      opening its editor and saving it untouched. */
  lemma {:induction false} EditsRoundTrip(r: Option<Row>, posts: seq<Posting>, year: int, start: Today, now: Today)
    requires Sound(r, year) && InOrder(posts, year) && start.year <= now.year
    requires year <= start.year && forall p :: p in posts ==> p.now.year <= start.year
    ensures var row := AfterAll(r, posts, year);
            row.Some? ==> Schema(row.value) && EditUntouched(row.value, start, now) == Ok(row.value)
    decreases |posts|
  {
    if posts == [] {
      if r.Some? {
        StaysEditable(r.value, year, start.year);
        EditorRoundTripsExactly(r.value, start, now);
      }
    } else {
      AfterIsSound(r, posts[0], year);
      EditsRoundTrip(After(r, posts[0]), posts[1..], posts[0].now.year, start, now);
    }
  }

  function AfterAll(r: Option<Row>, posts: seq<Posting>, year: int): Option<Row>
    requires Sound(r, year) && InOrder(posts, year)
    decreases |posts|
  {
    if posts == [] then r
    else
      AfterIsSound(r, posts[0], year);
      AfterAll(After(r, posts[0]), posts[1..], posts[0].now.year)
  }
}
