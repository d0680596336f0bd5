/** The sheet that corrects an event already logged: what it shows, what its form
    posts, and what a save writes. Times are nanoseconds and a timezone is a
    fixed offset. */
module CareSheet {
  import opened Options
  import Civil
  import opened LocalTime
  import opened FormText

  const DEFAULT_REMINDER: int := 2
  const FALLBACK_REMINDER: int := 7

  datatype CareType = CareType(id: nat, slug: string, created: int)

  datatype Schedule = Schedule(count: Option<int>, unit: Civil.Unit)

  datatype Offer = Offer(care: CareType, schedule: Schedule)

  /** A row of care_event. again is the interval of a skip, in days. */
  datatype Event = Event(
    care: nat, plant: nat, performer: nat, performed: int, recorded: int, done: bool, note: Option<string>,
    again: Option<int>)

  datatype When = Now | Today | Yesterday | Other

  /** Clock and day fields hold minutes of a day and a date, or None for text that
      does not parse. */
  datatype Draft = Draft(
    care: string, shown: string, skipped: bool, when: When, clock: Option<int>, at: Option<(int, int)>, again: int,
    note: string)

  // ----- Local time -----

  function Clock(at: int, offset: int): int {
    (at + offset) % DAY / MINUTE
  }

  function Instant(date: int, minute: int, offset: int): int {
    date * DAY + minute * MINUTE - offset
  }

  function ToTheMinute(at: int, offset: int): int {
    at - (at + offset) % MINUTE
  }

  lemma DateAndClockMakeTheMinute(at: int, offset: int)
    ensures Instant(DateAt(at, offset), Clock(at, offset), offset) == ToTheMinute(at, offset)
  {
    var t := at + offset;
    var day, rest := t / DAY, t % DAY;
    assert t == day * 1440 * MINUTE + rest;
    RemainderOfSum(day * 1440, rest);
  }

  lemma RemainderOfSum(k: int, rest: int)
    ensures (k * MINUTE + rest) % MINUTE == rest % MINUTE
  {
    assert k * MINUTE + rest == (k + rest / MINUTE) * MINUTE + rest % MINUTE;
  }

  // ----- The Remind me in chips -----

  datatype Chip = Chip(days: int, on: bool)

  function UsualDays(s: Schedule): int {
    if s.count.None? then 0
    else match s.unit
      case Days => s.count.value
      case Weeks => 7 * s.count.value
      case _ => 0
  }

  function ReminderChips(usual: int): (chips: seq<Chip>)
    ensures Offers(chips, DEFAULT_REMINDER) && Distinct(chips)
    ensures Offers(chips, if usual == 0 then FALLBACK_REMINDER else usual)
  {
    var fourth := if usual == 0 then FALLBACK_REMINDER else usual;
    var short := [Chip(1, false), Chip(2, false), Chip(3, false)];
    assert short[0].days == 1 && short[1].days == 2 && short[2].days == 3;
    if 1 <= fourth <= 3 then short
    else
      var chips := short + [Chip(fourth, false)];
      assert chips[3].days == fourth && chips[1].days == 2;
      chips
  }

  predicate Offers(chips: seq<Chip>, days: int) {
    exists i :: 0 <= i < |chips| && chips[i].days == days
  }

  predicate Distinct(chips: seq<Chip>) {
    forall i, j :: 0 <= i < j < |chips| ==> chips[i].days != chips[j].days
  }

  /** Where a new chip goes: before the first with more days. */
  function PlaceFor(chips: seq<Chip>, days: int): (at: nat)
    ensures at <= |chips| && (forall i :: 0 <= i < at ==> chips[i].days <= days)
            && (at < |chips| ==> chips[at].days > days)
  {
    if chips == [] || chips[0].days > days then 0 else 1 + PlaceFor(chips[1..], days)
  }

  function Inserted(chips: seq<Chip>, at: nat, chip: Chip): (r: seq<Chip>)
    requires at <= |chips|
    ensures |r| == |chips| + 1 && r[at] == chip
    ensures forall k :: 0 <= k < at ==> r[k] == chips[k]
    ensures forall k :: at < k < |r| ==> r[k] == chips[k - 1]
  {
    chips[..at] + [chip] + chips[at..]
  }

  function WithReminder(chips: seq<Chip>, days: Option<int>): seq<Chip> {
    if days.None? || Offers(chips, days.value) then chips
    else Inserted(chips, PlaceFor(chips, days.value), Chip(days.value, false))
  }

  /** The interval of the event is always on offer, beside all that were. */
  lemma ReminderIsOffered(chips: seq<Chip>, days: Option<int>)
    ensures days.Some? ==> Offers(WithReminder(chips, days), days.value)
    ensures forall d :: Offers(chips, d) ==> Offers(WithReminder(chips, days), d)
    ensures Distinct(chips) ==> Distinct(WithReminder(chips, days))
  {
    var r := WithReminder(chips, days);
    if days.Some? && !Offers(chips, days.value) {
      var at := PlaceFor(chips, days.value);
      assert r[at].days == days.value;
      forall d | Offers(chips, d) ensures Offers(r, d) {
        var i :| 0 <= i < |chips| && chips[i].days == d;
        assert r[if i < at then i else i + 1].days == d;
      }
    }
  }

  function Chosen(chips: seq<Chip>, selected: int): int {
    if Offers(chips, selected) then selected else DEFAULT_REMINDER
  }

  function Selected(chips: seq<Chip>, selected: int): (r: seq<Chip>)
    ensures |r| == |chips| && forall d :: Offers(r, d) <==> Offers(chips, d)
  {
    var r := seq(|chips|, i requires 0 <= i < |chips| => chips[i].(on := chips[i].days == Chosen(chips, selected)));
    assert forall i :: 0 <= i < |chips| ==> r[i].days == chips[i].days;
    r
  }

  /** The value a radio group posts. */
  function Checked(chips: seq<Chip>): Option<int> {
    if chips == [] then None else if chips[0].on then Some(chips[0].days) else Checked(chips[1..])
  }

  lemma {:induction false} CheckedIsOn(chips: seq<Chip>, value: int)
    requires Offers(chips, value) && forall i :: 0 <= i < |chips| ==> (chips[i].on <==> chips[i].days == value)
    ensures Checked(chips) == Some(value)
  {
    if chips[0].days != value {
      var i :| 0 <= i < |chips| && chips[i].days == value;
      assert chips[1..][i - 1].days == value;
      CheckedIsOn(chips[1..], value);
    }
  }

  /** Selecting leaves exactly one chip checked: the one asked for if offered, and
      otherwise the default. */
  lemma OneChipIsChecked(chips: seq<Chip>, selected: int)
    requires Distinct(chips) && Offers(chips, DEFAULT_REMINDER)
    ensures Checked(Selected(chips, selected)) == Some(Chosen(chips, selected))
    ensures forall i, j :: 0 <= i < j < |chips| ==> !Selected(chips, selected)[i].on || !Selected(chips, selected)[j].on
  {
    CheckedIsOn(Selected(chips, selected), Chosen(chips, selected));
  }

  // ----- The care types on offer -----

  /** Ids and slugs are both keys, and the event's own type is one of the rows. */
  predicate Catalogue(offers: seq<Offer>, care: CareType) {
    forall i :: 0 <= i < |offers| ==> (offers[i].care.id == care.id <==> offers[i].care.slug == care.slug)
  }

  method OfferFor(offers: seq<Offer>, slug: string) returns (o: Option<Offer>)
    ensures o == Offered(offers, slug)
  {
    for i := 0 to |offers|
      invariant Offered(offers, slug) == Offered(offers[i..], slug)
    {
      if offers[i].care.slug == slug {
        return Some(offers[i]);
      }
    }
    return None;
  }

  function Offered(offers: seq<Offer>, slug: string): (o: Option<Offer>)
    ensures o.Some? ==> o.value in offers && o.value.care.slug == slug
    ensures o.None? ==> forall x :: x in offers ==> x.care.slug != slug
  {
    if offers == [] then None
    else if offers[0].care.slug == slug then Some(offers[0])
    else
      assert offers == [offers[0]] + offers[1..];
      Offered(offers[1..], slug)
  }

  /** Whatever was archived since, the event's own care type is on offer. The
      rest keep their order. */
  method WithEventCare(offers: seq<Offer>, care: CareType) returns (r: seq<Offer>)
    ensures r == Extended(offers, care)
    ensures Catalogue(offers, care) ==> Catalogue(r, care)
  {
    var found := OfferFor(offers, care.slug);
    if found.Some? {
      return offers;
    }
    var at := |offers|;
    for i := 0 to |offers|
      invariant at == |offers|
      invariant PlaceOf(offers, care) == i + PlaceOf(offers[i..], care)
    {
      if offers[i].care.created > care.created {
        at := i;
        break;
      }
    }
    r := offers[..at] + [Offer(care, Schedule(None, Civil.Days))] + offers[at..];
  }

  function PlaceOf(offers: seq<Offer>, care: CareType): (at: nat)
    ensures at <= |offers|
  {
    if offers == [] || offers[0].care.created > care.created then 0 else 1 + PlaceOf(offers[1..], care)
  }

  function Extended(offers: seq<Offer>, care: CareType): (r: seq<Offer>)
    ensures Offered(r, care.slug).Some?
    ensures Catalogue(offers, care) ==> Catalogue(r, care)
  {
    if Offered(offers, care.slug).Some? then offers
    else
      var at := PlaceOf(offers, care);
      var r := offers[..at] + [Offer(care, Schedule(None, Civil.Days))] + offers[at..];
      assert r[at].care == care && r[at] in r;
      r
  }

  // ----- The sheet -----

  /** What the page renders. */
  datatype View = View(
    careId: nat, care: string, cares: seq<(string, bool)>, skipped: bool, when: When, clock: Option<int>,
    at: Option<(int, int)>, reminders: seq<Chip>, note: string)

  function CareChips(offers: seq<Offer>, id: nat): (chips: seq<(string, bool)>)
    ensures |chips| == |offers| && forall i :: 0 <= i < |offers| ==>
            chips[i] == (offers[i].care.slug, offers[i].care.id == id)
  {
    seq(|offers|, i requires 0 <= i < |offers| => (offers[i].care.slug, offers[i].care.id == id))
  }

  /** The sheet over an event for a draft, or None for a care type the garden does
      not have. */
  function SheetOver(offers: seq<Offer>, care: CareType, again: Option<int>, d: Draft): Option<View> {
    var all := Extended(offers, care);
    var chosen := Offered(all, d.care);
    if chosen.None? then None
    else
      var o := chosen.value;
      var chips := Selected(ReminderChips(UsualDays(o.schedule)), d.again);
      Some(View(o.care.id, o.care.slug, CareChips(all, o.care.id), d.skipped, d.when, d.clock, d.at,
                Selected(WithReminder(chips, again), d.again), d.note))
  }

  class Sheet {
    var view: View

    /** newSheet, for a draft whose clock and day fields are filled. */
    constructor (offers: seq<Offer>, chosen: Offer, d: Draft)
      ensures view == View(chosen.care.id, chosen.care.slug, CareChips(offers, chosen.care.id), d.skipped, d.when,
              d.clock, d.at,
                           Selected(ReminderChips(UsualDays(chosen.schedule)), d.again), d.note)
    {
      view := View(chosen.care.id, chosen.care.slug, CareChips(offers, chosen.care.id), d.skipped, d.when, d.clock,
          d.at,
                   ReminderChips(UsualDays(chosen.schedule)), d.note);
      new;
      SelectReminder(d.again);
    }

    method OfferReminder(days: Option<int>)
      modifies this
      ensures view == old(view).(reminders := WithReminder(old(view.reminders), days))
    {
      if days.None? {
        return;
      }
      var chips := view.reminders;
      if Offers(chips, days.value) {
        return;
      }
      var at := |chips|;
      for i := 0 to |chips|
        invariant at == |chips| && view == old(view)
        invariant PlaceFor(chips, days.value) == i + PlaceFor(chips[i..], days.value)
      {
        if chips[i].days > days.value {
          at := i;
          break;
        }
      }
      view := view.(reminders := Inserted(chips, at, Chip(days.value, false)));
    }

    method SelectReminder(selected: int)
      modifies this
      ensures view == old(view).(reminders := Selected(old(view.reminders), selected))
    {
      var chips := view.reminders;
      var value := if Offers(chips, selected) then selected else DEFAULT_REMINDER;
      for i := 0 to |chips|
        invariant |view.reminders| == |chips| && view == old(view).(reminders := view.reminders)
        invariant forall k :: 0 <= k < i ==> view.reminders[k] == chips[k].(on := chips[k].days == value)
        invariant forall k :: i <= k < |chips| ==> view.reminders[k] == chips[k]
      {
        view := view.(reminders := view.reminders[i := view.reminders[i].(on := view.reminders[i].days == value)]);
      }
      assert view.reminders == Selected(chips, selected);
    }

    method ForEvent(again: Option<int>, selected: int)
      modifies this
      ensures view == old(view).(reminders := Selected(WithReminder(old(view.reminders), again), selected))
    {
      OfferReminder(again);
      SelectReminder(selected);
    }
  }

  method NewSheetOver(offers: seq<Offer>, care: CareType, again: Option<int>, d: Draft) returns (view: Option<View>)
    ensures view == SheetOver(offers, care, again, d)
  {
    var all := WithEventCare(offers, care);
    var chosen := OfferFor(all, d.care);
    if chosen.None? {
      return None;
    }
    var s := new Sheet(all, chosen.value, d);
    s.ForEvent(again, d.again);
    return Some(s.view);
  }

  // ----- Opening, posting and saving -----

  function DraftOf(e: Event, care: CareType, now: int, offset: int): Draft {
    var ago := DateAt(now, offset) - DateAt(e.performed, offset);
    Draft(care.slug, "", !e.done,
          if ago <= 0 then Today else if ago == 1 then Yesterday else Other,
          Some(Clock(e.performed, offset)), Some((DateAt(e.performed, offset), Clock(e.performed, offset))),
          if e.again.Some? then e.again.value else DEFAULT_REMINDER,
          if e.note.Some? then e.note.value else "")
  }

  /** A field of a posted form: left out, readable, or neither. */
  datatype Field<T> = Absent | Given(value: T) | Garbled

  datatype Form = Form(
    care: string, shown: string, skipped: Field<bool>, when: Field<When>, clock: Option<int>, at: Option<(int, int)>,
    again: Field<int>, note: string)

  function CheckedCare(chips: seq<(string, bool)>): string {
    if chips == [] then "" else if chips[0].1 then chips[0].0 else CheckedCare(chips[1..])
  }

  /** What the browser posts when nothing on the sheet is changed. The note is in
      a text input. */
  function Post(v: View): Form {
    Form(if |v.cares| > 1 then CheckedCare(v.cares) else v.care, v.care, Given(v.skipped), Given(v.when), v.clock, v.at,
         if Checked(v.reminders).Some? then Given(Checked(v.reminders).value) else Absent, OneLine(v.note))
  }

  function ReadDraft(f: Form): Option<Draft> {
    if f.skipped.Garbled? || f.when.Garbled? || f.again.Garbled? then None
    else Some(Draft(f.care, f.shown, f.skipped == Given(true), if f.when.Given? then f.when.value else Now,
                    f.clock, f.at, if f.again.Given? then f.again.value else DEFAULT_REMINDER, TrimSpace(f.note)))
  }

  /** None is a time the sheet refuses. */
  function PerformedAt(d: Draft, now: int, offset: int): Option<int> {
    match d.when
    case Now => Some(now)
    case Other => if d.at.None? then None else Past(Instant(d.at.value.0, d.at.value.1, offset), now)
    case _ =>
      if d.clock.None? then None
      else Past(Instant(if d.when.Today? then DateAt(now, offset) else DateAt(now, offset) - 1, d.clock.value,
          offset), now)
  }

  function Past(at: int, now: int): Option<int> {
    if at > now then None else Some(at)
  }

  datatype Saved = BadRequest | CareChanged | NotThen | Written(event: Event)

  /** The correction of an event by a draft. */
  function SaveDraft(e: Event, care: CareType, offers: seq<Offer>, d: Draft, now: int, offset: int): Saved {
    var sheet := SheetOver(offers, care, e.again, d);
    if sheet.None? then BadRequest
    else if d.shown != "" && d.shown != d.care && d.skipped then CareChanged
    else if d.skipped && !Offers(sheet.value.reminders, d.again) then BadRequest
    else
      var at := PerformedAt(d, now, offset);
      if at.None? then NotThen
      else Written(e.(care := sheet.value.careId, performed := at.value, done := !d.skipped,
                      note := if d.note != "" then Some(d.note) else None,
                      again := if d.skipped then Some(d.again) else None))
  }

  function Save(e: Event, care: CareType, offers: seq<Offer>, f: Form, now: int, offset: int): Saved {
    var d := ReadDraft(f);
    if d.None? then BadRequest else SaveDraft(e, care, offers, d.value, now, offset)
  }

  /** Opening the sheet at one time and saving it untouched at another. The
      garden's care types and the plant's schedules may change in between. */
  function SaveUntouched(
    e: Event, care: CareType, atOpen: seq<Offer>, atSave: seq<Offer>, start: int, now: int, offset: int): Saved {
    var sheet := SheetOver(atOpen, care, e.again, DraftOf(e, care, start, offset));
    if sheet.None? then BadRequest else Save(e, care, atSave, Post(sheet.value), now, offset)
  }

  lemma {:induction false} CheckedCareIsTheOne(offers: seq<Offer>, care: CareType)
    requires Catalogue(offers, care) && Offered(offers, care.slug).Some?
    ensures CheckedCare(CareChips(offers, care.id)) == care.slug
  {
    assert CareChips(offers, care.id)[1..] == CareChips(offers[1..], care.id);
    if offers[0].care.id != care.id {
      CheckedCareIsTheOne(offers[1..], care);
    }
  }

  /** The day chip still names the day of the event. */
  predicate DayKept(e: Event, start: int, now: int, offset: int) {
    match DraftOf(e, CareType(0, "", 0), start, offset).when
    case Today => DateAt(now, offset) == DateAt(e.performed, offset)
    case Yesterday => DateAt(now, offset) == DateAt(e.performed, offset) + 1
    case _ => true
  }

  predicate NoteKept(note: Option<string>) {
    note.Some? ==> note.value != "" && OnOneLine(note.value) && TrimSpace(note.value) == note.value
  }

  /** A skip has its interval and nothing else does. */
  predicate IntervalKept(e: Event) {
    e.done <==> e.again.None?
  }

  /** The time an untouched sheet posts, whenever it is saved. */
  function PostedTime(e: Event, start: int, now: int, offset: int): int {
    var clock := Clock(e.performed, offset);
    match DraftOf(e, CareType(0, "", 0), start, offset).when
    case Today => Instant(DateAt(now, offset), clock, offset)
    case Yesterday => Instant(DateAt(now, offset) - 1, clock, offset)
    case _ => Instant(DateAt(e.performed, offset), clock, offset)
  }

  /** What an untouched sheet posts reads back as the draft it was opened with,
      its note on one line and trimmed. */
  lemma PostReadsBack(e: Event, care: CareType, offers: seq<Offer>, start: int, offset: int)
    requires Catalogue(offers, care)
    ensures var d := DraftOf(e, care, start, offset);
            var sheet := SheetOver(offers, care, e.again, d);
            sheet.Some? && ReadDraft(Post(sheet.value))
                == Some(d.(shown := care.slug, note := TrimSpace(OneLine(d.note))))
  {
    var d := DraftOf(e, care, start, offset);
    var all := Extended(offers, care);
    var o := Offered(all, care.slug).value;
    assert o.care.id == care.id;
    CheckedCareIsTheOne(all, care);
    ReminderPosts(UsualDays(o.schedule), e.again, d.again);
  }

  /** The chip an untouched sheet posts is the event's own interval, or the
      default for an event with none. */
  lemma ReminderPosts(usual: int, again: Option<int>, selected: int)
    requires selected == if again.Some? then again.value else DEFAULT_REMINDER
    ensures Checked(Selected(WithReminder(Selected(ReminderChips(usual), selected), again), selected)) == Some(selected)
  {
    var first := ReminderChips(usual);
    var chips := Selected(first, selected);
    SelectedStaysDistinct(first, selected);
    ReminderIsOffered(chips, again);
    OneChipIsChecked(WithReminder(chips, again), selected);
  }

  lemma SelectedStaysDistinct(chips: seq<Chip>, selected: int)
    requires Distinct(chips)
    ensures Distinct(Selected(chips, selected))
  {
  }

  /** A draft whose interval is the event's own or the default is never refused
      for its interval, whatever the plant's schedule says now. */
  lemma IntervalIsAccepted(offers: seq<Offer>, care: CareType, again: Option<int>, d: Draft)
    requires d.care == care.slug && d.again == if again.Some? then again.value else DEFAULT_REMINDER
    ensures var sheet := SheetOver(offers, care, again, d);
            sheet.Some? && Offers(sheet.value.reminders, d.again)
  {
    var o := Offered(Extended(offers, care), d.care).value;
    var chips := Selected(ReminderChips(UsualDays(o.schedule)), d.again);
    ReminderIsOffered(chips, again);
  }

  lemma OwnDraftSaves(e: Event, care: CareType, offers: seq<Offer>, d: Draft, now: int, offset: int)
    requires e.care == care.id && Catalogue(offers, care)
    requires d.care == d.shown == care.slug && d.again == if e.again.Some? then e.again.value else DEFAULT_REMINDER
    ensures SaveDraft(e, care, offers, d, now, offset) ==
            var at := PerformedAt(d, now, offset);
            if at.None? then NotThen
            else Written(e.(performed := at.value, done := !d.skipped,
                note := if d.note != "" then Some(d.note) else None,
                            again := if d.skipped then Some(d.again) else None))
  {
    IntervalIsAccepted(offers, care, e.again, d);
    assert Offered(Extended(offers, care), care.slug).value.care.id == care.id;
  }

  /** The draft a sheet is opened with, once posted and read back. */
  function Reread(e: Event, care: CareType, start: int, offset: int): Draft {
    var d := DraftOf(e, care, start, offset);
    d.(shown := care.slug, note := TrimSpace(OneLine(d.note)))
  }

  lemma UntouchedReadsBack(
    e: Event, care: CareType, atOpen: seq<Offer>, atSave: seq<Offer>, start: int, now: int, offset: int)
    requires Catalogue(atOpen, care)
    ensures SaveUntouched(e, care, atOpen, atSave, start, now, offset)
            == SaveDraft(e, care, atSave, Reread(e, care, start, offset), now, offset)
  {
    PostReadsBack(e, care, atOpen, start, offset);
  }

  lemma RereadTime(e: Event, care: CareType, start: int, now: int, offset: int)
    ensures PerformedAt(Reread(e, care, start, offset), now, offset) == Past(PostedTime(e, start, now, offset), now)
  {
  }

  /** What an untouched sheet writes, from the event and the two times alone. */
  function Untouched(e: Event, start: int, now: int, offset: int): Saved {
    var at := PostedTime(e, start, now, offset);
    var note := TrimSpace(OneLine(if e.note.Some? then e.note.value else ""));
    if at > now then NotThen
    else Written(e.(performed := at, note := if note != "" then Some(note) else None,
                    again := if e.done then None else if e.again.Some? then e.again else Some(DEFAULT_REMINDER)))
  }

  /** An untouched sheet is refused only for a time still to come, and otherwise
      writes the event with the posted time and the note on one line, trimmed. */
  lemma UntouchedSaveWrites(
    e: Event, care: CareType, atOpen: seq<Offer>, atSave: seq<Offer>, start: int, now: int, offset: int)
    requires e.care == care.id && Catalogue(atOpen, care) && Catalogue(atSave, care)
    ensures SaveUntouched(e, care, atOpen, atSave, start, now, offset) == Untouched(e, start, now, offset)
  {
    UntouchedReadsBack(e, care, atOpen, atSave, start, now, offset);
    OwnDraftSaves(e, care, atSave, Reread(e, care, start, offset), now, offset);
    RereadTime(e, care, start, now, offset);
  }

  predicate Kept(e: Event, start: int, now: int, offset: int) {
    && DayKept(e, start, now, offset) && ToTheMinute(e.performed, offset) <= now
    && NoteKept(e.note) && IntervalKept(e)
  }

  /** Saving untouched keeps everything but the seconds exactly when the day chip
      still names the event's day, the event is not still to come, its note is one
      trimmed line and not empty, and it has an interval if and only if it is a skip.
      Archiving the care type or changing the schedule is no part of it. */
  lemma UntouchedSaveKeepsExactly(
    e: Event, care: CareType, atOpen: seq<Offer>, atSave: seq<Offer>, start: int, now: int, offset: int)
    requires e.care == care.id && Catalogue(atOpen, care) && Catalogue(atSave, care)
    ensures SaveUntouched(e, care, atOpen, atSave, start, now, offset)
            == Written(e.(performed := ToTheMinute(e.performed, offset)))
            <==> Kept(e, start, now, offset)
  {
    UntouchedSaveWrites(e, care, atOpen, atSave, start, now, offset);
    UntouchedKeepsExactly(e, start, now, offset);
  }

  lemma UntouchedKeepsExactly(e: Event, start: int, now: int, offset: int)
    ensures Untouched(e, start, now, offset) == Written(e.(performed := ToTheMinute(e.performed, offset)))
            <==> Kept(e, start, now, offset)
  {
    TextInputKeepsExactly(if e.note.Some? then e.note.value else "");
    TimeKeptExactly(e, start, now, offset);
  }

  lemma TimeKeptExactly(e: Event, start: int, now: int, offset: int)
    ensures PostedTime(e, start, now, offset) == ToTheMinute(e.performed, offset) <==> DayKept(e, start, now, offset)
  {
    DateAndClockMakeTheMinute(e.performed, offset);
    InstantsDiffer(DateAt(now, offset), DateAt(e.performed, offset), Clock(e.performed, offset), offset);
    InstantsDiffer(DateAt(now, offset) - 1, DateAt(e.performed, offset), Clock(e.performed, offset), offset);
  }

  lemma InstantsDiffer(one: int, other: int, minute: int, offset: int)
    ensures Instant(one, minute, offset) == Instant(other, minute, offset) <==> one == other
  {
  }

  /** Events as the sheets write them. */
  predicate AsLogged(e: Event, now: int) {
    e.performed <= now && NoteKept(e.note) && IntervalKept(e)
  }

  /** So a sheet opened on anything the app logged and saved untouched the same
      day is never refused and changes nothing but the seconds. */
  lemma SameDaySaveKeeps(
    e: Event, care: CareType, atOpen: seq<Offer>, atSave: seq<Offer>, start: int, now: int, offset: int)
    requires e.care == care.id && Catalogue(atOpen, care) && Catalogue(atSave, care)
    requires AsLogged(e, start) && start <= now && DateAt(start, offset) == DateAt(now, offset)
    ensures SaveUntouched(e, care, atOpen, atSave, start, now, offset)
            == Written(e.(performed := ToTheMinute(e.performed, offset)))
  {
    UntouchedSaveKeepsExactly(e, care, atOpen, atSave, start, now, offset);
    SameDayIsKept(e, start, now, offset);
  }

  lemma SameDayIsKept(e: Event, start: int, now: int, offset: int)
    requires AsLogged(e, start) && start <= now && DateAt(start, offset) == DateAt(now, offset)
    ensures Kept(e, start, now, offset)
  {
    assert DateAt(e.performed, offset) <= DateAt(now, offset);
  }

  /** A save of any form leaves an event as the sheets write them exactly when the
      note that was posted is one line, which a text input sees to. */
  lemma SavesAreAsLoggedExactly(e: Event, care: CareType, offers: seq<Offer>, f: Form, now: int, offset: int)
    requires Save(e, care, offers, f, now, offset).Written?
    ensures AsLogged(Save(e, care, offers, f, now, offset).event, now) <==> OnOneLine(TrimSpace(f.note))
    ensures OnOneLine(f.note) ==> OnOneLine(TrimSpace(f.note))
  {
    TrimmedIsTrimmed(f.note);
    forall c | c in TrimSpace(f.note) ensures c in f.note {
      TrimmedIsInside(f.note, c);
    }
    WrittenFields(e, care, offers, ReadDraft(f).value, now, offset);
    PerformedIsPast(ReadDraft(f).value, now, offset);
  }

  lemma WrittenFields(e: Event, care: CareType, offers: seq<Offer>, d: Draft, now: int, offset: int)
    requires SaveDraft(e, care, offers, d, now, offset).Written?
    ensures var saved := SaveDraft(e, care, offers, d, now, offset).event;
            && PerformedAt(d, now, offset) == Some(saved.performed) && saved.done == !d.skipped
            && saved.note == (if d.note != "" then Some(d.note) else None) && saved.again == if d.skipped
               then Some(d.again) else None
  {
  }

  lemma PerformedIsPast(d: Draft, now: int, offset: int)
    ensures PerformedAt(d, now, offset).Some? ==> PerformedAt(d, now, offset).value <= now
  {
  }

  // ----- Sheets that do not keep their event -----

  const WATER := CareType(1, "water", 0)

  /** Watered at ten to midnight on day zero. */
  const LATE := Event(1, 1, 1, 1430 * MINUTE, 1430 * MINUTE, true, None, None)

  /** The day chip says today. Opened before midnight and saved after it, the sheet
      refuses the time as one still to come, and a day later writes the wrong day. */
  lemma MidnightMovesTheDay(atOpen: seq<Offer>, atSave: seq<Offer>)
    requires Catalogue(atOpen, WATER) && Catalogue(atSave, WATER)
    ensures SaveUntouched(LATE, WATER, atOpen, atSave, 1435 * MINUTE, 1445 * MINUTE, 0) == NotThen
    ensures SaveUntouched(LATE, WATER, atOpen, atSave, 1435 * MINUTE, 2875 * MINUTE, 0)
            == Written(LATE.(performed := 2870 * MINUTE))
  {
    LatePosts();
    UntouchedSaveWrites(LATE, WATER, atOpen, atSave, 1435 * MINUTE, 1445 * MINUTE, 0);
    UntouchedSaveWrites(LATE, WATER, atOpen, atSave, 1435 * MINUTE, 2875 * MINUTE, 0);
  }

  lemma LatePosts()
    ensures Untouched(LATE, 1435 * MINUTE, 1445 * MINUTE, 0) == NotThen
    ensures Untouched(LATE, 1435 * MINUTE, 2875 * MINUTE, 0) == Written(LATE.(performed := 2870 * MINUTE))
  {
  }

  /** A note of two lines, which a post made by hand can store, is joined. */
  lemma LineBreaksAreLost(atOpen: seq<Offer>, atSave: seq<Offer>)
    requires Catalogue(atOpen, WATER) && Catalogue(atSave, WATER)
    ensures SaveUntouched(LATE.(note := Some("a\nb")), WATER, atOpen, atSave, 1435 * MINUTE, 1436 * MINUTE, 0)
            == Written(LATE.(note := Some("ab")))
  {
    TwoLinesPost();
    UntouchedSaveWrites(LATE.(note := Some("a\nb")), WATER, atOpen, atSave, 1435 * MINUTE, 1436 * MINUTE, 0);
  }

  lemma TwoLinesJoin()
    ensures TrimSpace(OneLine("a\nb")) == "ab"
  {
    assert "a\nb"[1..] == "\nb" && "\nb"[1..] == "b" && "b"[1..] == "";
    assert OneLine("b") == "b" && OneLine("\nb") == "b" && OneLine("a\nb") == "ab";
    LettersStay("ab");
    assert TrimSpace("ab") == "ab";
  }

  lemma TwoLinesPost()
    ensures Untouched(LATE.(note := Some("a\nb")), 1435 * MINUTE, 1436 * MINUTE, 0)
            == Written(LATE.(note := Some("ab")))
  {
    TwoLinesJoin();
    assert PostedTime(LATE.(note := Some("a\nb")), 1435 * MINUTE, 1436 * MINUTE, 0) == 1430 * MINUTE;
  }

  // ----- Deleting and undoing -----

  datatype Garden = Garden(events: map<nat, Event>, plants: set<nat>, careTypes: set<nat>, users: set<nat>)

  /** The reader, and whether the reader may delete anyone's care. */
  datatype Reader = Reader(user: nat, mayDeleteAny: bool)

  predicate MayDelete(r: Reader, performer: nat) {
    r.mayDeleteAny || performer == r.user
  }

  function Delete(g: Garden, id: nat, r: Reader): Option<Garden> {
    if id in g.events && MayDelete(r, g.events[id].performer) then Some(g.(events := g.events - {id})) else None
  }

  /** The hidden fields of the Undo form. */
  datatype UndoForm = UndoForm(
    care: nat, performer: nat, performed: int, recorded: int, done: bool, note: string, again: Option<int>)

  function UndoFields(e: Event, sender: Sender): UndoForm {
    UndoForm(e.care, e.performer, e.performed, e.recorded, e.done,
             HiddenField(if e.note.Some? then e.note.value else "", sender), e.again)
  }

  /** The event the form describes. Its plant is in the URL. */
  function RestoreParams(plant: nat, f: UndoForm, now: int): Option<Event> {
    if f.performed > now || f.recorded > now || (!f.done && f.again.None?) then None
    else Some(Event(f.care, plant, f.performer, f.performed, f.recorded, f.done,
                    if f.note != "" then Some(f.note) else None, f.again))
  }

  function Restore(g: Garden, plant: nat, id: nat, f: UndoForm, r: Reader, now: int): Option<Garden> {
    var e := RestoreParams(plant, f, now);
    if plant !in g.plants || e.None? || e.value.care !in g.careTypes || e.value.performer !in g.users then None
    else if !MayDelete(r, e.value.performer) || id in g.events then None
    else Some(g.(events := g.events[id := e.value]))
  }

  /** Everything the event refers to is there. */
  predicate Referenced(g: Garden, e: Event) {
    e.plant in g.plants && e.care in g.careTypes && e.performer in g.users
  }

  /** What the Undo form can carry. */
  predicate Undoable(e: Event, now: int, sender: Sender) {
    && e.performed <= now && e.recorded <= now && (e.done || e.again.Some?)
    && (e.note.Some? ==> e.note.value != "" && Survives(e.note.value, sender))
  }

  /** Undo after a delete puts back the very same events exactly when the event is
      dated no later than now, a skip has its interval, its note is not empty and
      has only line breaks that come back as they were, and its plant, its care type
      and its performer are still there. */
  lemma UndoRestoresExactly(g: Garden, id: nat, r: Reader, now: int, sender: Sender)
    requires id in g.events && Delete(g, id, r).Some?
    ensures var e := g.events[id];
            Restore(Delete(g, id, r).value, e.plant, id, UndoFields(e, sender), r, now) == Some(g)
            <==> Undoable(e, now, sender) && Referenced(g, e)
  {
    var e := g.events[id];
    var g' := Delete(g, id, r).value;
    var back := Restore(g', e.plant, id, UndoFields(e, sender), r, now);
    HiddenFieldKeepsExactly(if e.note.Some? then e.note.value else "", sender);
    if back.Some? {
      assert back.value.events[id] == RestoreParams(e.plant, UndoFields(e, sender), now).value;
      assert Undoable(e, now, sender) ==> back.value.events == g.events;
    }
  }

  /** A note of two lines comes back from Undo with another line break: from htmx one
      that was CR LF, and from the browser's own form one that was LF. */
  lemma UndoRewritesLineBreaks(sender: Sender)
    ensures var note := if sender.Htmx? then "a\r\nb" else "a\nb";
            var e := LATE.(note := Some(note));
            var g := Garden(map[7 := e], {1}, {1}, {1});
            var r := Reader(1, false);
            && Delete(g, 7, r).Some? && Referenced(g, e)
            && var back := Restore(Delete(g, 7, r).value, 1, 7, UndoFields(e, sender), r, 1435 * MINUTE);
               && back.Some? && back != Some(g)
               && back.value.events == map[7 := e.(note := Some(if sender.Htmx? then "a\nb" else "a\r\nb"))]
  {
    TwoLinesRewritten(sender);
  }

  lemma TwoLinesRewritten(sender: Sender)
    ensures HiddenField(if sender.Htmx? then "a\r\nb" else "a\nb", sender) == if sender.Htmx? then "a\nb" else "a\r\nb"
  {
    assert "b"[1..] == "" && Parsed("b") == "b" && Wired("b") == "b";
    assert "\nb"[1..] == "b" && Parsed("\nb") == "\nb" && Wired("\nb") == "\r\nb";
    assert "\r\nb"[2..] == "b" && Parsed("\r\nb") == "\nb";
    assert "a\nb"[1..] == "\nb" && Parsed("a\nb") == "a\nb" && Wired("a\nb") == "a\r\nb";
    assert "a\r\nb"[1..] == "\r\nb" && Parsed("a\r\nb") == "a\nb";
  }

  /** A second Undo changes nothing. */
  lemma UndoTwiceIsOnce(g: Garden, plant: nat, id: nat, f: UndoForm, r: Reader, now: int)
    requires Restore(g, plant, id, f, r, now).Some?
    ensures Restore(Restore(g, plant, id, f, r, now).value, plant, id, f, r, now) == None
  {
  }
}
