/** What saving the correcting sheet does with any post: which are accepted, and what
    the event is then. */
module CareEdits {
  import opened Options
  import Civil
  import opened LocalTime
  import opened FormText
  import opened CareSheet

  // ----- The intervals on offer -----

  /** One, two and three days, the plant's usual interval in days or a week, and the
      event's own. */
  predicate IntervalOnOffer(s: Schedule, again: Option<int>, days: int) {
    || 1 <= days <= 3 || again == Some(days)
    || days == match s.unit
               case Days => if s.count.Some? && s.count.value != 0 then s.count.value else 7
               case Weeks => if s.count.Some? && s.count.value != 0 then 7 * s.count.value else 7
               case _ => 7
  }

  lemma ChipsOffer(usual: int, days: int)
    ensures Offers(ReminderChips(usual), days) <==> 1 <= days <= 3 || days == if usual == 0 then 7 else usual
  {
    var chips := ReminderChips(usual);
    assert chips[0].days == 1 && chips[1].days == 2 && chips[2].days == 3;
  }

  lemma InsertedOffers(chips: seq<Chip>, again: Option<int>, days: int)
    ensures Offers(WithReminder(chips, again), days) <==> Offers(chips, days) || again == Some(days)
  {
    ReminderIsOffered(chips, again);
    if again.Some? && !Offers(chips, again.value) {
      var at := PlaceFor(chips, again.value);
      var r := WithReminder(chips, again);
      if Offers(r, days) && again != Some(days) {
        var i :| 0 <= i < |r| && r[i].days == days;
        assert chips[if i < at then i else i - 1].days == days;
      }
    }
  }

  /** The sheet's own list: selecting changes nothing of it. */
  lemma SheetOffers(offers: seq<Offer>, care: CareType, again: Option<int>, d: Draft, days: int)
    requires Offered(Extended(offers, care), d.care).Some?
    ensures SheetOver(offers, care, again, d).Some?
    ensures Offers(SheetOver(offers, care, again, d).value.reminders, days)
            <==> IntervalOnOffer(Offered(Extended(offers, care), d.care).value.schedule, again, days)
  {
    var o := Offered(Extended(offers, care), d.care).value;
    var chips := Selected(ReminderChips(UsualDays(o.schedule)), d.again);
    ChipsOffer(UsualDays(o.schedule), days);
    InsertedOffers(chips, again, days);
  }

  // ----- The care types on offer -----

  /** The event's own care type is on offer, and every one the plant has. */
  predicate CareOnOffer(offers: seq<Offer>, care: CareType, slug: string) {
    slug == care.slug || exists o :: o in offers && o.care.slug == slug
  }

  lemma ExtendedHolds(offers: seq<Offer>, care: CareType, o: Offer)
    ensures o in Extended(offers, care) <==>
            o in offers || (Offered(offers, care.slug).None? && o == Offer(care, Schedule(None, Civil.Days)))
  {
    if Offered(offers, care.slug).None? {
      var at := PlaceOf(offers, care);
      var own := Offer(care, Schedule(None, Civil.Days));
      assert offers == offers[..at] + offers[at..];
      assert Extended(offers, care) == offers[..at] + [own] + offers[at..];
    }
  }

  lemma OfferedExactly(offers: seq<Offer>, care: CareType, slug: string)
    ensures Offered(Extended(offers, care), slug).Some? <==> CareOnOffer(offers, care, slug)
  {
    var all := Extended(offers, care);
    if Offered(all, slug).Some? {
      ExtendedHolds(offers, care, Offered(all, slug).value);
    } else if o :| o in offers && o.care.slug == slug {
      ExtendedHolds(offers, care, o);
    }
  }

  ghost predicate ByCreation(offers: seq<Offer>) {
    forall i, j :: 0 <= i < j < |offers| ==> offers[i].care.created <= offers[j].care.created
  }

  lemma {:induction false} PlaceIsByCreation(offers: seq<Offer>, care: CareType)
    ensures var at := PlaceOf(offers, care);
            && (forall i :: 0 <= i < at ==> offers[i].care.created <= care.created)
            && (at < |offers| ==> care.created < offers[at].care.created)
    decreases |offers|
  {
    if offers != [] && offers[0].care.created <= care.created {
      PlaceIsByCreation(offers[1..], care);
      assert forall i :: 0 < i < |offers| ==> offers[i] == offers[1..][i - 1];
    }
  }

  /** The care types stay in the order they were made in. */
  lemma ExtendedIsByCreation(offers: seq<Offer>, care: CareType)
    requires ByCreation(offers)
    ensures ByCreation(Extended(offers, care))
  {
    if Offered(offers, care.slug).None? {
      PlaceIsByCreation(offers, care);
      var at, all := PlaceOf(offers, care), Extended(offers, care);
      forall i, j | 0 <= i < j < |all| ensures all[i].care.created <= all[j].care.created {
        assert i != at ==> all[i] == offers[if i < at then i else i - 1];
        assert j != at ==> all[j] == offers[if j < at then j else j - 1];
        assert j > at ==> offers[at].care.created <= offers[j - 1].care.created;
      }
    }
  }

  // ----- The time a post names -----

  predicate IsMinute(clock: int) {
    0 <= clock < 1440
  }

  /** The date and the clock of a minute are the ones it was made from. */
  lemma InstantReadsBack(date: int, minute: int, offset: int)
    requires IsMinute(minute)
    ensures var at := Instant(date, minute, offset);
            DateAt(at, offset) == date && Clock(at, offset) == minute && ToTheMinute(at, offset) == at
  {
    var t := Instant(date, minute, offset) + offset;
    assert t == date * DAY + minute * MINUTE && 0 <= minute * MINUTE < DAY;
    assert t / DAY == date && t % DAY == minute * MINUTE;
    DateAndClockMakeTheMinute(Instant(date, minute, offset), offset);
  }

  /** The post gives a time, by the chip that is on: no chip is now, today and
      yesterday take the clock field, and another day takes the day field. */
  function DayAsked(f: Form, now: int, offset: int): Option<(int, int)> {
    if f.when == Given(Other) then f.at
    else if f.clock.None? then None
    else Some((if f.when == Given(Yesterday) then DateAt(now, offset) - 1 else DateAt(now, offset), f.clock.value))
  }

  predicate AsksNow(f: Form) {
    f.when.Absent? || f.when == Given(Now)
  }

  /** The time is now, or one given that has come. */
  predicate TimeAccepted(f: Form, now: int, offset: int) {
    AsksNow(f)
    || (DayAsked(f, now, offset).Some?
        && var (date, minute) := DayAsked(f, now, offset).value;
           Instant(date, minute, offset) <= now)
  }

  lemma TimeIs(f: Form, now: int, offset: int)
    requires ReadDraft(f).Some?
    ensures var at := PerformedAt(ReadDraft(f).value, now, offset);
            && (at.Some? <==> TimeAccepted(f, now, offset))
            && (at.Some? ==>
                if AsksNow(f) then at.value == now
                else var (date, minute) := DayAsked(f, now, offset).value; at.value == Instant(date, minute, offset))
  {
  }

  // ----- Which posts are accepted -----

  predicate Skips(f: Form) {
    f.skipped == Given(true)
  }

  function AgainAsked(f: Form): int {
    if f.again.Given? then f.again.value else 2
  }

  predicate Readable(f: Form) {
    !f.skipped.Garbled? && !f.when.Garbled? && !f.again.Garbled?
  }

  /** The schedule of the care type the post names. */
  function ScheduleOf(offers: seq<Offer>, care: CareType, slug: string): Schedule
    requires CareOnOffer(offers, care, slug)
  {
    OfferedExactly(offers, care, slug);
    Offered(Extended(offers, care), slug).value.schedule
  }

  /** A bad request names a value or a care type that is not on offer, or skips for an
      interval that is not. A skip of another care type than the sheet showed is said
      to have changed it. Otherwise a time that is missing or still to come is said,
      and everything else is written. */
  lemma AnsweredExactly(e: Event, care: CareType, offers: seq<Offer>, f: Form, now: int, offset: int)
    ensures var answer := Save(e, care, offers, f, now, offset);
            var named := Readable(f) && CareOnOffer(offers, care, f.care);
            var changed := Skips(f) && f.shown != "" && f.shown != f.care;
            && (answer.CareChanged? <==> named && changed)
            && (answer.BadRequest? <==>
                !named || (!changed && Skips(f)
                           && !IntervalOnOffer(ScheduleOf(offers, care, f.care), e.again, AgainAsked(f))))
            && (answer.NotThen? <==> !answer.BadRequest? && !answer.CareChanged? && !TimeAccepted(f, now, offset))
            && (answer.Written? <==> !answer.BadRequest? && !answer.CareChanged? && TimeAccepted(f, now, offset))
  {
    OfferedExactly(offers, care, f.care);
    if Readable(f) {
      TimeIs(f, now, offset);
      if CareOnOffer(offers, care, f.care) {
        SheetOffers(offers, care, e.again, ReadDraft(f).value, AgainAsked(f));
      }
    }
  }

  // ----- What an accepted post writes -----

  /** Each column is what was posted: the care type named, the time now or as given to
      the minute, done or skipped for the interval, and the note trimmed. Whose plant
      it was, who did it and when it was recorded stay. */
  lemma SavesWhatWasPosted(e: Event, care: CareType, offers: seq<Offer>, f: Form, now: int, offset: int)
    requires Save(e, care, offers, f, now, offset).Written?
    ensures var saved := Save(e, care, offers, f, now, offset).event;
            && (if AsksNow(f) then saved.performed == now
                else DayAsked(f, now, offset).Some?
                     && var (date, minute) := DayAsked(f, now, offset).value;
                        IsMinute(minute) ==>
                          DateAt(saved.performed, offset) == date && Clock(saved.performed, offset) == minute
                          && ToTheMinute(saved.performed, offset) == saved.performed)
            && saved.done == !Skips(f)
            && saved.again == (if Skips(f) then Some(AgainAsked(f)) else None)
            && saved.note == (if TrimSpace(f.note) == "" then None else Some(TrimSpace(f.note)))
            && (saved.plant, saved.performer, saved.recorded) == (e.plant, e.performer, e.recorded)
            && exists o :: NamesCare(offers, care, f.care, o) && saved.care == o.care.id
  {
    var d := ReadDraft(f).value;
    TimeIs(f, now, offset);
    WrittenFields(e, care, offers, d, now, offset);
    if !AsksNow(f) && IsMinute(DayAsked(f, now, offset).value.1) {
      InstantReadsBack(DayAsked(f, now, offset).value.0, DayAsked(f, now, offset).value.1, offset);
    }
    var o := Offered(Extended(offers, care), f.care).value;
    ExtendedHolds(offers, care, o);
    assert NamesCare(offers, care, f.care, o);
    WrittenCare(e, care, offers, d, now, offset);
  }

  /** An offer of the care type with the slug, or the event's own. */
  predicate NamesCare(offers: seq<Offer>, care: CareType, slug: string, o: Offer) {
    o.care.slug == slug && (o in offers || o.care == care)
  }

  lemma WrittenCare(e: Event, care: CareType, offers: seq<Offer>, d: Draft, now: int, offset: int)
    requires SaveDraft(e, care, offers, d, now, offset).Written?
    ensures Offered(Extended(offers, care), d.care).Some?
    ensures var saved := SaveDraft(e, care, offers, d, now, offset).event;
            && saved.care == Offered(Extended(offers, care), d.care).value.care.id
            && (saved.plant, saved.performer, saved.recorded) == (e.plant, e.performer, e.recorded)
  {
  }

  // ----- Deleting and undoing -----

  /** An event is deleted exactly when it is there and the reader gave the care or may
      delete anyone's, and nothing else goes with it. */
  lemma DeletesExactly(g: Garden, id: nat, r: Reader)
    ensures Delete(g, id, r).Some? <==> id in g.events && (r.mayDeleteAny || g.events[id].performer == r.user)
    ensures Delete(g, id, r).Some? ==>
              var left := Delete(g, id, r).value;
              && left.events.Keys == g.events.Keys - {id} && left == g.(events := left.events)
              && forall i :: i in left.events ==> left.events[i] == g.events[i]
  {
  }

  /** An Undo is accepted exactly when its times have come, a skip has its interval,
      the plant, the care type and the performer are there, the reader gave the care or
      may delete anyone's, and no event has the id. It adds the event of the form. */
  lemma RestoresExactly(g: Garden, plant: nat, id: nat, f: UndoForm, r: Reader, now: int)
    ensures Restore(g, plant, id, f, r, now).Some? <==>
            && f.performed <= now && f.recorded <= now && (f.done || f.again.Some?)
            && plant in g.plants && f.care in g.careTypes && f.performer in g.users
            && (r.mayDeleteAny || f.performer == r.user) && id !in g.events
    ensures Restore(g, plant, id, f, r, now).Some? ==>
              var after := Restore(g, plant, id, f, r, now).value;
              && after.events.Keys == g.events.Keys + {id} && after == g.(events := after.events)
              && (forall i :: i in g.events ==> after.events[i] == g.events[i])
              && after.events[id]
                 == Event(f.care, plant, f.performer, f.performed, f.recorded, f.done,
                          if f.note == "" then None else Some(f.note), f.again)
  {
  }
}
