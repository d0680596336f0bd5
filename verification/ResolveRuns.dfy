/** The statements of resolving a request's garden, with other requests' statements
    in between. One session of one account. */
module ResolveRuns {
  import opened Options
  import opened Sessions
  import opened Resolving

  /** How far a request has come: it has read the session, found its garden not
      live, chosen another from the list, or ended with an answer or an error. */
  datatype Stage =
    | Checking(named: Id, now: int)
    | Listing(garden: Option<Id>, now: int)
    | Moving(now: int, choice: Option<Id>)
    | Done(answer: Option<Id>)
    | Failed

  /** garden is what the session row names, and list the account's memberships as the
      query orders them. */
  datatype State = State(garden: Option<Id>, list: seq<Membership>, stages: map<Id, Stage>)

  /** Look, Check, List and Write are the statements of one request. Switch is any
      other that sets the session's garden: switching, accepting, setting up. Change
      is any that changes the account's memberships or their order. */
  datatype Action =
    | Look(id: Id, now: int)
    | Check(id: Id)
    | List(id: Id)
    | Write(id: Id)
    | Switch(garden: Id)
    | Change(list: seq<Membership>)

  predicate IsMember(list: seq<Membership>, garden: Id) {
    exists i :: 0 <= i < |list| && list[i].garden == garden
  }

  /** The foreign key takes a garden the account has a membership of, or none. */
  predicate Allowed(list: seq<Membership>, garden: Option<Id>) {
    garden.Some? ==> IsMember(list, garden.value)
  }

  function FirstLive(list: seq<Membership>, now: int): (g: Option<Id>)
    ensures g.None? <==> forall m :: m in list ==> Ended(m, now)
    ensures g.Some? ==> LiveIn(list, g.value, now)
  {
    if list == [] then None
    else if !Ended(list[0], now) then Some(list[0].garden)
    else
      assert list == [list[0]] + list[1..];
      var g := FirstLive(list[1..], now);
      if g.Some? then
        assert exists i :: 0 <= i < |list[1..]| && list[1..][i].garden == g.value && !Ended(list[1..][i], now);
        assert forall i :: 0 <= i < |list[1..]| ==> list[1..][i] == list[i + 1];
        g
      else g
  }

  predicate At(s: State, id: Id) {
    id in s.stages
  }

  function Enter(s: State, id: Id, stage: Stage): State {
    s.(stages := s.stages[id := stage])
  }

  function Step(s: State, a: Action): State {
    match a
    case Look(id, now) =>
      if At(s, id) then s
      else Enter(s, id, if s.garden.Some? then Checking(s.garden.value, now) else Listing(None, now))
    case Check(id) =>
      if !(At(s, id) && s.stages[id].Checking?) then s
      else
        var Checking(garden, now) := s.stages[id];
        Enter(s, id, if LiveIn(s.list, garden, now) then Done(Some(garden)) else Listing(Some(garden), now))
    case List(id) =>
      if !(At(s, id) && s.stages[id].Listing?) then s
      else
        var Listing(garden, now) := s.stages[id];
        var choice := FirstLive(s.list, now);
        Enter(s, id, if choice.None? && garden.None? then Done(None) else Moving(now, choice))
    case Write(id) =>
      if !(At(s, id) && s.stages[id].Moving?) then s
      else if !Allowed(s.list, s.stages[id].choice) then Enter(s, id, Failed)
      else Enter(s.(garden := s.stages[id].choice), id, Done(s.stages[id].choice))
    case Switch(garden) => if IsMember(s.list, garden) then s.(garden := Some(garden)) else s
    case Change(list) => s.(list := list, garden := if Allowed(list, s.garden) then s.garden else None)
  }

  function Run(s: State, actions: seq<Action>): State
    decreases |actions|
  {
    if actions == [] then s else Run(Step(s, actions[0]), actions[1..])
  }

  // ----- With nothing in between -----

  lemma FirstLiveIsFirst(list: seq<Membership>, last: Option<Id>, now: int)
    requires Listed(list, last) && FirstLive(list, now).Some?
    ensures exists i :: 0 <= i < |list| && list[i].garden == FirstLive(list, now).value && !Ended(list[i], now)
                        && forall m :: m in list && m != list[i] && !Ended(m, now) ==> Before(last, list[i], m)
  {
    var i := FirstIndex(list, now);
    assert forall m :: m in list && m != list[i] && !Ended(m, now) ==> Before(last, list[i], m);
  }

  function FirstIndex(list: seq<Membership>, now: int): (i: nat)
    requires FirstLive(list, now).Some?
    ensures i < |list| && !Ended(list[i], now) && list[i].garden == FirstLive(list, now).value
    ensures forall j :: 0 <= j < i ==> Ended(list[j], now)
  {
    if !Ended(list[0], now) then 0 else FirstIndex(list[1..], now) + 1
  }

  /** A request whose statements nothing comes between resolves to the garden the
      session belongs on, and the row names it. */
  lemma AloneResolves(s: State, last: Option<Id>, id: Id, now: int)
    requires id !in s.stages && Listed(s.list, last) && Allowed(s.list, s.garden)
    ensures var s' := Step(Step(Step(Step(s, Look(id, now)), Check(id)), List(id)), Write(id));
            s'.stages[id] == Done(s'.garden) && Belongs(s.list, last, s.garden, now, s'.garden)
  {
    var choice := FirstLive(s.list, now);
    if choice.Some? {
      FirstLiveIsFirst(s.list, last, now);
    }
  }

  // ----- With other statements in between -----

  /** The write takes the session off a garden that is live, for another. */
  predicate Overwrites(s: State, id: Id) {
    && At(s, id) && s.stages[id].Moving? && s.garden.Some? && LiveIn(s.list, s.garden.value, s.stages[id].now)
    && s.garden != s.stages[id].choice
  }

  /** A statement of another request that sets the session's garden, or changes the
      account's memberships. */
  predicate Disturbs(s: State, a: Action, id: Id) {
    || a.Change? || (a.Switch? && IsMember(s.list, a.garden))
    || (a.Write? && a.id != id && At(s, a.id) && s.stages[a.id].Moving? && Allowed(s.list, s.stages[a.id].choice))
  }

  /** What the last of them leaves. */
  function LastLeft(s: State, actions: seq<Action>, id: Id): Option<State>
    decreases |actions|
  {
    if actions == [] then None
    else
      var s' := Step(s, actions[0]);
      var later := LastLeft(s', actions[1..], id);
      if later.Some? then later else if Disturbs(s, actions[0], id) then Some(s') else None
  }

  /** What a request knows while nothing disturbs it: where the session was when it
      looked, and that it was not live when it checked. */
  predicate Undisturbed(s: State, id: Id) {
    && At(s, id)
    && match s.stages[id]
       case Checking(garden, now) => s.garden == Some(garden)
       case Listing(garden, now) => s.garden == garden && (garden.Some? ==> !LiveIn(s.list, garden.value, now))
       case Moving(now, choice) => s.garden.Some? ==> !LiveIn(s.list, s.garden.value, now)
       case Done(_) => true
       case Failed => true
  }

  /** The request's own write is not among the actions. */
  predicate NotYetWritten(actions: seq<Action>, id: Id) {
    Write(id) !in actions
  }

  lemma StepUndisturbed(s: State, a: Action, id: Id)
    requires Undisturbed(s, id) && !Disturbs(s, a, id) && a != Write(id)
    ensures Undisturbed(Step(s, a), id)
  {
  }

  lemma {:induction false} LeftIsLeft(s: State, actions: seq<Action>, id: Id)
    requires At(s, id) && NotYetWritten(actions, id) && (Undisturbed(s, id) || LastLeft(s, actions, id).Some?)
    ensures var s' := Run(s, actions);
            var left := LastLeft(s, actions, id);
            At(s', id) && if left.Some? then s'.garden == left.value.garden && s'.list == left.value.list
                else Undisturbed(s', id)
    decreases |actions|
  {
    if actions != [] {
      var a, rest := actions[0], actions[1..];
      var s' := Step(s, a);
      assert a in actions;
      if LastLeft(s', rest, id).Some? {
        LeftIsLeft(s', rest, id);
      } else if Disturbs(s, a, id) {
        NothingMoreLeaves(s', rest, id);
      } else {
        StepUndisturbed(s, a, id);
        LeftIsLeft(s', rest, id);
      }
    }
  }

  lemma {:induction false} NothingMoreLeaves(s: State, actions: seq<Action>, id: Id)
    requires At(s, id) && NotYetWritten(actions, id) && LastLeft(s, actions, id).None?
    ensures At(Run(s, actions), id) && Run(s, actions).garden == s.garden && Run(s, actions).list == s.list
    decreases |actions|
  {
    if actions != [] {
      assert actions[0] in actions;
      NothingMoreLeaves(Step(s, actions[0]), actions[1..], id);
    }
  }

  /** Over every interleaving, the write of a request takes the session off a live
      garden exactly when, since the request read the session, another statement set
      the garden or changed the memberships, and the last that did left the session
      on a live garden other than the one the request had chosen. */
  lemma OverwritesExactly(s: State, id: Id, now: int, actions: seq<Action>)
    requires id !in s.stages && NotYetWritten(actions, id)
    requires var s' := Run(Step(s, Look(id, now)), actions); At(s', id) && s'.stages[id].Moving?
    ensures var looked := Step(s, Look(id, now));
            var s' := Run(looked, actions);
            var left := LastLeft(looked, actions, id);
            Overwrites(s', id) <==>
              && left.Some? && left.value.garden.Some?
              && LiveIn(left.value.list, left.value.garden.value, s'.stages[id].now)
              && left.value.garden != s'.stages[id].choice
  {
    LeftIsLeft(Step(s, Look(id, now)), actions, id);
  }

  // ----- A switch that is lost -----

  /** Garden 1 has ended, and 2 and 3 are live. */
  const LIST := [Membership(1, 1, 0, Some(5)), Membership(2, 2, 1, None), Membership(3, 3, 2, None)]

  const ON_ENDED := State(Some(1), LIST, map[])

  const CHOSEN := State(Some(1), LIST, map[9 := Moving(10, Some(2))])

  lemma ListIsSo()
    ensures FirstLive(LIST, 10) == Some(2) && !LiveIn(LIST, 1, 10) && LiveIn(LIST, 3, 10)
    ensures IsMember(LIST, 2) && IsMember(LIST, 3)
  {
    assert LIST[1..][0] == LIST[1] && FirstLive(LIST[1..], 10) == Some(2);
    assert LIST[1].garden == 2 && LIST[2].garden == 3;
  }

  lemma ChoosesTwo()
    ensures Step(Step(Step(ON_ENDED, Look(9, 10)), Check(9)), List(9)) == CHOSEN
  {
    ListIsSo();
    var looked := Step(ON_ENDED, Look(9, 10));
    assert looked.stages == map[9 := Checking(1, 10)];
    var checked := Step(looked, Check(9));
    assert checked.stages == map[9 := Listing(Some(1), 10)];
    assert Step(checked, List(9)).stages == map[9 := Moving(10, Some(2))];
  }

  /** A request chooses 2, the account switches to 3, and the request writes 2. */
  lemma SwitchIsOverwritten()
    ensures var listed := Step(Step(Step(ON_ENDED, Look(9, 10)), Check(9)), List(9));
            var switched := Step(listed, Switch(3));
            && switched.garden == Some(3) && Overwrites(switched, 9) && Step(switched, Write(9)).garden == Some(2)
  {
    ChoosesTwo();
    ListIsSo();
  }
}
