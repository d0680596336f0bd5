/** What an edit saves: which posts are accepted, what each column of the row is
    then, and what the editor shows when it is opened on it. */
module ScheduleEdits {
  import opened Options
  import opened Civil
  import opened ScheduleForm

  // ----- Which posts are accepted -----

  /** The When that counts: the posted one, or that of the row there was. */
  function PickedShape(r: Option<Row>, form: Form): Shape {
    if form.shape.Given? then form.shape.value
    else if r.None? || r.value.anchor.None? then Cadence
    else if r.value.count.None? then Once
    else OnDate
  }

  predicate IsNumber(field: Field<int>, low: int, high: int) {
    field.Given? && low <= field.value <= high
  }

  /** This year, the six after it, and the year of the row's own date. */
  predicate YearOnOffer(r: Option<Row>, year: int, now: Today) {
    || now.year <= year <= now.year + 6
    || (year < now.year && r.Some? && r.value.anchor.Some? && year == Year(MonthOf(r.value.anchor.value)))
  }

  /** Every value posted is one the editor offers over this row. */
  predicate Readable(r: Option<Row>, form: Form, now: Today) {
    && !form.shape.Garbled?
    && (form.every.Some? ==> form.unit.Given?)
    && (!form.from.Absent? ==> IsNumber(form.from, 1, 12) && IsNumber(form.til, 1, 12))
    && (!form.month.Absent? ==>
          IsNumber(form.day, 0, 31) && IsNumber(form.month, 1, 12) && form.year.Given?
          && YearOnOffer(r, form.year.value, now))
  }

  predicate EveryPosted(form: Form) {
    form.every.Some? && form.every.value.Number? && 1 <= form.every.value.n <= 999
  }

  /** A month and year, and a day of that month or none. */
  predicate DatePosted(form: Form)
    requires form.month.Given? && form.year.Given? && form.day.Given?
  {
    form.day.value <= Length(MonthIndex(form.year.value, form.month.value))
  }

  /** The draft a post is filled over. */
  function Opened(r: Option<Row>, now: Today): Draft
    requires r.Some? ==> Schema(r.value)
  {
    if r.Some? then DraftOf(r.value, now) else NewDraft(now)
  }

  lemma OffersYear(r: Option<Row>, year: int, now: Today)
    requires r.Some? ==> Schema(r.value)
    ensures year in YearsFor(now.year, Opened(r, now).year) <==> YearOnOffer(r, year, now)
  {
    YearsOffered(now.year, Opened(r, now).year);
  }

  predicate SeasonReadable(form: Form) {
    !form.from.Absent? ==> IsNumber(form.from, 1, 12) && IsNumber(form.til, 1, 12)
  }

  predicate AnchorReadable(form: Form, years: seq<int>) {
    !form.month.Absent? ==>
      IsNumber(form.day, 0, 31) && IsNumber(form.month, 1, 12) && form.year.Given? && form.year.value in years
  }

  predicate ReadableOver(form: Form, years: seq<int>) {
    && !form.shape.Garbled? && (form.every.Some? ==> form.unit.Given?)
    && SeasonReadable(form) && AnchorReadable(form, years)
  }

  lemma SeasonFills(f: Draft, form: Form)
    ensures FillSeason(f, form).Some? <==> SeasonReadable(form)
    ensures SeasonReadable(form) ==>
              FillSeason(f, form)
              == Some(if form.from.Given?
                      then f.(seasonal := form.seasonal, from := form.from.value, til := form.til.value)
                      else f.(seasonal := form.seasonal))
  {
    MonthsAndDays();
  }

  lemma AnchorFills(f: Draft, form: Form, years: seq<int>)
    ensures FillAnchor(f, form, years).Some? <==> AnchorReadable(form, years)
    ensures AnchorReadable(form, years) ==>
              FillAnchor(f, form, years)
              == Some(if form.month.Absent? then f.(hasAnchor := false)
                      else f.(hasAnchor := true, day := form.day.value, month := form.month.value,
                              year := form.year.value))
  {
    MonthsAndDays();
  }

  /** The draft f holds what was posted, and the season of the draft before it where
      no months were posted. */
  predicate Holds(f: Draft, was: Draft, shape: Shape, form: Form) {
    && f.shape == shape && f.hasInterval == form.every.Some? && f.hasAnchor == !form.month.Absent?
    && (f.hasInterval ==> form.every == Some(f.every) && form.unit == Given(f.unit))
    && f.seasonal == form.seasonal
    && (if form.from.Given? then form.from == Given(f.from) && form.til == Given(f.til)
        else f.from == was.from && f.til == was.til)
    && (f.hasAnchor ==> form.day == Given(f.day) && form.month == Given(f.month) && form.year == Given(f.year))
  }

  /** The season and the date over a draft. */
  function Dating(f: Draft, form: Form, years: seq<int>): Option<Draft> {
    var seasoned := FillSeason(f, form);
    if seasoned.None? then None else FillAnchor(seasoned.value, form, years)
  }

  lemma DatingHolds(f: Draft, form: Form, years: seq<int>)
    ensures Dating(f, form, years).Some? <==> SeasonReadable(form) && AnchorReadable(form, years)
    ensures Dating(f, form, years).Some? ==>
              var g := Dating(f, form, years).value;
              && g.shape == f.shape && g.hasInterval == f.hasInterval && g.every == f.every && g.unit == f.unit
              && g.hasAnchor == !form.month.Absent? && g.seasonal == form.seasonal
              && (if form.from.Given? then form.from == Given(g.from) && form.til == Given(g.til)
                  else g.from == f.from && g.til == f.til)
              && (g.hasAnchor ==>
                    form.day == Given(g.day) && form.month == Given(g.month) && form.year == Given(g.year))
  {
    SeasonFills(f, form);
    if FillSeason(f, form).Some? {
      AnchorFills(FillSeason(f, form).value, form, years);
    }
  }

  lemma FillIsDating(was: Draft, form: Form, nowYear: int)
    ensures Fill(was, form, nowYear)
            == if form.shape.Garbled? then None
               else var timed := FillInterval(if form.shape.Given? then was.(shape := form.shape.value) else was, form);
                    if timed.None? then None else Dating(timed.value, form, YearsFor(nowYear, was.year))
  {
  }

  lemma FillHolds(was: Draft, form: Form, nowYear: int)
    ensures Fill(was, form, nowYear).Some? <==> ReadableOver(form, YearsFor(nowYear, was.year))
    ensures Fill(was, form, nowYear).Some? ==>
              Holds(Fill(was, form, nowYear).value, was, if form.shape.Given? then form.shape.value else was.shape,
                  form)
  {
    FillIsDating(was, form, nowYear);
    if !form.shape.Garbled? {
      var timed := FillInterval(if form.shape.Given? then was.(shape := form.shape.value) else was, form);
      if timed.Some? {
        DatingHolds(timed.value, form, YearsFor(nowYear, was.year));
      }
    }
  }

  /** A post fills the draft exactly when every value is on offer. */
  lemma FilledIs(r: Option<Row>, form: Form, now: Today)
    requires r.Some? ==> Schema(r.value)
    ensures Fill(Opened(r, now), form, now.year).Some? <==> Readable(r, form, now)
    ensures Readable(r, form, now) ==>
              Holds(Fill(Opened(r, now), form, now.year).value, Opened(r, now), PickedShape(r, form), form)
  {
    FillHolds(Opened(r, now), form, now.year);
    if form.year.Given? {
      OffersYear(r, form.year.value, now);
    }
  }

  predicate Repeating(r: Option<Row>, form: Form) {
    !PickedShape(r, form).Once?
  }

  predicate OnACalendarDate(r: Option<Row>, form: Form) {
    !PickedShape(r, form).Cadence?
  }

  predicate EveryWrong(f: Draft) {
    Repeats(f) && !(f.hasInterval && f.every.Number? && 1 <= f.every.n <= 999)
  }

  /** What is said of a draft, or that it is saved. */
  lemma ParamsAnswer(f: Draft)
    requires f.hasAnchor ==> 0 <= f.day <= 31 && 1 <= f.month <= 12
    ensures Params(f) == Refused(HowOften) <==> Repeats(f) && !f.hasInterval
    ensures Params(f) == Refused(NotANumber) <==> EveryWrong(f) && f.hasInterval
    ensures Params(f) == Refused(ChooseADate) <==> !EveryWrong(f) && Dated(f) && !f.hasAnchor
    ensures Params(f) == Refused(InvalidDate) <==>
            !EveryWrong(f) && Dated(f) && f.hasAnchor && f.day > Length(MonthIndex(f.year, f.month))
    ensures Params(f).Ok? <==>
            !EveryWrong(f) && (Dated(f) ==> f.hasAnchor && f.day <= Length(MonthIndex(f.year, f.month)))
    ensures !Params(f).BadRequest?
  {
    if f.hasAnchor {
      RollsWhenTooLong(MonthIndex(f.year, f.month), if f.day == 0 then 1 else f.day);
    }
  }

  /** A post is a bad request exactly when it holds a value the editor does not offer.
      Otherwise the first of these that is wrong is said: no interval, one that is no
      number from 1 to 999, no date, or a day past the end of its month. It is saved
      exactly when none is. */
  lemma AnsweredExactly(r: Option<Row>, form: Form, now: Today)
    requires r.Some? ==> Schema(r.value)
    ensures var answer := Edit(r, form, now);
            var everyWrong := Repeating(r, form) && !EveryPosted(form);
            && (answer.BadRequest? <==> !Readable(r, form, now))
            && (Readable(r, form, now) ==>
                && (answer == Refused(HowOften) <==> Repeating(r, form) && form.every.None?)
                && (answer == Refused(NotANumber) <==> everyWrong && form.every.Some?)
                && (answer == Refused(ChooseADate) <==>
                    !everyWrong && OnACalendarDate(r, form) && form.month.Absent?)
                && (answer == Refused(InvalidDate) <==>
                    !everyWrong && OnACalendarDate(r, form) && !form.month.Absent? && !DatePosted(form))
                && (answer.Ok? <==>
                    !everyWrong && (OnACalendarDate(r, form) ==> !form.month.Absent? && DatePosted(form))))
  {
    FilledIs(r, form, now);
    if Readable(r, form, now) {
      ParamsAnswer(Fill(Opened(r, now), form, now.year).value);
    }
  }

  // ----- What an accepted post saves -----

  /** The months of a season: as posted, or as the row had them, or March to September. */
  function SeasonPosted(r: Option<Row>, form: Form): (int, int) {
    if form.from.Given? && form.til.Given? then (form.from.value, form.til.value)
    else if r.Some? && r.value.seasonStart.Some? && r.value.seasonEnd.Some?
    then (r.value.seasonStart.value, r.value.seasonEnd.value)
    else (3, 9)
  }

  /** The months a draft opens with. */
  lemma SeasonBefore(r: Option<Row>, form: Form, now: Today)
    requires (r.Some? ==> Schema(r.value)) && !form.from.Given?
    ensures SeasonPosted(r, form) == (Opened(r, now).from, Opened(r, now).til)
  {
  }

  lemma SavesTheDraft(f: Draft)
    requires Params(f).Ok?
    ensures var row := Params(f).row;
            && row.count == (if Repeats(f) then Some(f.every.n) else None)
            && row.unit == (if Repeats(f) then Some(f.unit) else None)
            && row.seasonStart == (if f.shape.Cadence? && f.seasonal then Some(f.from) else None)
            && row.seasonEnd == (if f.shape.Cadence? && f.seasonal then Some(f.til) else None)
            && row.anchor == (if Dated(f)
               then Some(DateOf(MonthIndex(f.year, f.month), if f.day == 0 then 1 else f.day))
                              else None)
            && row.precision == (if Dated(f) then Some(if f.day == 0 then ToMonth else ToDay) else None)
  {
  }

  /** Every column of the row saved is what was posted: the number and unit of a
      schedule that repeats, the months of a cadence's season in order, and the date
      of any other, which a day of zero makes the first of its month to the month. */
  lemma SavesWhatWasPosted(r: Option<Row>, form: Form, now: Today)
    requires (r.Some? ==> Schema(r.value)) && Edit(r, form, now).Ok?
    ensures var row := Edit(r, form, now).row;
            && (if Repeating(r, form)
                then EveryPosted(form) && form.unit.Given?
                     && row.count == Some(form.every.value.n) && row.unit == Some(form.unit.value)
                else row.count.None? && row.unit.None?)
            && (if PickedShape(r, form).Cadence? && form.seasonal
                then row.seasonStart == Some(SeasonPosted(r, form).0) && row.seasonEnd == Some(SeasonPosted(r, form).1)
                else row.seasonStart.None? && row.seasonEnd.None?)
            && (if OnACalendarDate(r, form)
                then form.day.Given? && form.month.Given? && form.year.Given?
                     && var month := MonthIndex(form.year.value, form.month.value);
                        if form.day.value == 0
                        then row.anchor == Some(FirstDay(month)) && row.precision == Some(ToMonth)
                        else row.anchor == Some(DateOf(month, form.day.value)) && row.precision == Some(ToDay)
                else row.anchor.None? && row.precision.None?)
  {
    FilledIs(r, form, now);
    AnsweredExactly(r, form, now);
    SavesTheDraft(Fill(Opened(r, now), form, now.year).value);
    if !form.from.Given? {
      SeasonBefore(r, form, now);
    }
  }

  /** A post that says when, and the months of its season, saves the same row over
      whatever row there was. */
  lemma OldRowLeavesNoTrace(a: Option<Row>, b: Option<Row>, form: Form, now: Today)
    requires (a.Some? ==> Schema(a.value)) && (b.Some? ==> Schema(b.value))
    requires form.shape.Given? && (form.shape.value.Cadence? && form.seasonal ==> form.from.Given?)
    requires form.year.Given? ==> (YearOnOffer(a, form.year.value, now) <==> YearOnOffer(b, form.year.value, now))
    ensures Edit(a, form, now) == Edit(b, form, now)
  {
    FilledIs(a, form, now);
    FilledIs(b, form, now);
    if Readable(a, form, now) {
      SameParams(Fill(Opened(a, now), form, now.year).value, Fill(Opened(b, now), form, now.year).value);
    }
  }

  /** Only the values a draft's shape uses decide its row. */
  lemma SameParams(f: Draft, g: Draft)
    requires f.shape == g.shape && f.hasInterval == g.hasInterval && f.hasAnchor == g.hasAnchor
    requires f.hasInterval ==> f.every == g.every && f.unit == g.unit
    requires f.seasonal == g.seasonal && (f.shape.Cadence? && f.seasonal ==> f.from == g.from && f.til == g.til)
    requires f.hasAnchor ==> f.day == g.day && f.month == g.month && f.year == g.year
    ensures Params(f) == Params(g)
  {
  }

  /** The editor opened on what was saved shows what was posted. */
  lemma OpensAsPosted(r: Option<Row>, form: Form, now: Today, later: Today)
    requires (r.Some? ==> Schema(r.value)) && Edit(r, form, now).Ok?
    ensures Schema(Edit(r, form, now).row)
    ensures var f := DraftOf(Edit(r, form, now).row, later);
            && f.shape == PickedShape(r, form)
            && (Repeating(r, form) ==> form.every == Some(f.every) && form.unit == Given(f.unit))
            && f.seasonal == (PickedShape(r, form).Cadence? && form.seasonal)
            && (f.seasonal ==> (f.from, f.til) == SeasonPosted(r, form))
            && (OnACalendarDate(r, form) ==>
                form.day == Given(f.day) && form.month == Given(f.month) && form.year == Given(f.year))
  {
    SavesWhatWasPosted(r, form, now);
    AnsweredExactly(r, form, now);
    if OnACalendarDate(r, form) {
      RollsWhenTooLong(MonthIndex(form.year.value, form.month.value),
          if form.day.value == 0 then 1 else form.day.value);
    }
  }
}
