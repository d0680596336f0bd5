/** Every interleaving of the statements that touch sessions. A lookup reads the
    row in one statement and touches or deletes it in a later one, and its
    response reaches the browser later still, so statements of other requests,
    sign-outs and sweeps can come in between. */
module SessionRuns {
  import opened Options
  import opened Sessions

  /** The second statement a request has decided on. */
  datatype Waiting = Touching(token: Id, now: int) | Deleting(token: Id)

  /** A response on its way: it sets the cookie with a deadline, or clears it. */
  datatype Reply = Reply(token: Id, deadline: Option<int>)

  /** issued holds every token ever made, and asked maps every request that has read
      to its clock reading. jar maps a token to the instant the browser holding it drops the cookie. */
  datatype State = State(
    rows: map<Id, Row>,
    issued: set<Id>,
    asked: map<Id, int>,
    waiting: map<Id, Waiting>,
    replies: map<Id, Reply>,
    jar: map<Id, int>)

  const NONE := State(map[], {}, map[], map[], map[], map[])

  /** Read is a request's first statement and Finish its second. SignOut is
      whatever deletes the row: a sign-out, a removed passkey, a closed account. */
  datatype Action =
    | SignIn(token: Id, user: Id, garden: Option<Id>, now: int)
    | Read(id: Id, token: Id, now: int)
    | Finish(id: Id)
    | Arrive(id: Id)
    | SignOut(token: Id)
    | Sweep(now: int)

  /** A cookie with Max-Age set at `now` lasts that many seconds. */
  function CookieDeadline(c: Config, now: int): int {
    now + c.MaxAge() * SECOND
  }

  /** A token is random, so it is never issued twice. */
  function SignInStep(c: Config, s: State, token: Id, row: Row): State {
    if token in s.issued then s
    else s.(rows := s.rows[token := row], issued := s.issued + {token},
            jar := s.jar[token := CookieDeadline(c, row.lastSeen)])
  }

  /** The second statement a read decides on, if it needs one. */
  function Second(c: Config, rows: map<Id, Row>, token: Id, now: int): Option<Waiting> {
    if token !in rows then None
    else if Expired(c, rows[token].lastSeen, now) then Some(Deleting(token))
    else if now - rows[token].lastSeen < c.TouchAfter() then None
    else Some(Touching(token, now))
  }

  function ReadStep(c: Config, s: State, id: Id, token: Id, now: int): State {
    if id in s.asked then s
    else
      var second := Second(c, s.rows, token, now);
      s.(asked := s.asked[id := now],
         waiting := if second.Some? then s.waiting[id := second.value] else s.waiting,
         replies := if token !in s.rows then s.replies[id := Reply(token, None)] else s.replies)
  }

  function FinishStep(c: Config, s: State, id: Id): State {
    if id !in s.waiting then s
    else
      var w := s.waiting[id];
      var s := s.(waiting := s.waiting - {id});
      if w.Touching? && w.token in s.rows then
        s.(rows := s.rows[w.token := s.rows[w.token].(lastSeen := w.now)],
           replies := s.replies[id := Reply(w.token, Some(CookieDeadline(c, w.now)))])
      else s.(rows := s.rows - {w.token}, replies := s.replies[id := Reply(w.token, None)])
  }

  function ArriveStep(s: State, id: Id): State {
    if id !in s.replies then s
    else
      var r := s.replies[id];
      s.(replies := s.replies - {id},
         jar := if r.deadline.Some? then s.jar[r.token := r.deadline.value] else s.jar - {r.token})
  }

  function Step(c: Config, s: State, a: Action): State {
    match a
    case SignIn(token, user, garden, now) => SignInStep(c, s, token, Row(user, garden, now))
    case Read(id, token, now) => ReadStep(c, s, id, token, now)
    case Finish(id) => FinishStep(c, s, id)
    case Arrive(id) => ArriveStep(s, id)
    case SignOut(token) => s.(rows := s.rows - {token}, jar := s.jar - {token})
    case Sweep(now) => s.(rows := Kept(c, s.rows, now))
  }

  /** A request waits, or is answered, only once it has read. */
  predicate Asked(s: State) {
    s.waiting.Keys <= s.asked.Keys && s.replies.Keys <= s.asked.Keys && s.waiting.Keys !! s.replies.Keys
  }

  function Run(c: Config, s: State, actions: seq<Action>): State
    decreases |actions|
  {
    if actions == [] then s else Run(c, Step(c, s, actions[0]), actions[1..])
  }

  /** What a statement decides for its request, if it decides. */
  function Decides(c: Config, s: State, a: Action): Option<Outcome> {
    match a
    case Read(id, token, now) =>
      if id in s.asked then None
      else if token !in s.rows || Expired(c, s.rows[token].lastSeen, now) then Some(Refused)
      else if now - s.rows[token].lastSeen < c.TouchAfter() then Some(Live(s.rows[token], false))
      else None
    case Finish(id) =>
      if id !in s.waiting || s.waiting[id].Deleting? then None
      else if s.waiting[id].token !in s.rows then Some(Refused)
      else Some(Live(s.rows[s.waiting[id].token].(lastSeen := s.waiting[id].now), true))
    case _ => None
  }

  /** Whether a statement is one of a request that holds the token. */
  predicate Concerns(s: State, a: Action, t: Id) {
    (a.Read? && a.token == t) || (a.Finish? && a.id in s.waiting && s.waiting[a.id].token == t)
  }

  /** The answers to the requests that hold one token. */
  function Answers(c: Config, s: State, actions: seq<Action>, t: Id): seq<Outcome>
    decreases |actions|
  {
    if actions == [] then []
    else
      var rest := Answers(c, Step(c, s, actions[0]), actions[1..], t);
      var o := Decides(c, s, actions[0]);
      if Concerns(s, actions[0], t) && o.Some? then [o.value] + rest else rest
  }

  /** The clock does not go back, from `floor` on. */
  predicate Rising(actions: seq<Action>, floor: int)
    decreases |actions|
  {
    actions == [] ||
    var now := if actions[0].SignIn? || actions[0].Read? || actions[0].Sweep? then actions[0].now else floor;
    floor <= now && Rising(actions[1..], now)
  }

  predicate NoSignOut(actions: seq<Action>, t: Id) {
    SignOut(t) !in actions
  }

  /** Read and finish back to back are the whole lookup. */
  lemma StatementsMakeALookup(c: Config, s: State, id: Id, token: Id, now: int)
    requires id !in s.asked && id !in s.waiting
    ensures var read := Step(c, s, Read(id, token, now));
            var first, second := Decides(c, s, Read(id, token, now)), Decides(c, read, Finish(id));
            var (rows, outcome) := LookupStep(c, s.rows, token, now);
            Step(c, read, Finish(id)).rows == rows && (if first.Some? then first else second) == Some(outcome)
  {
  }

  // ----- A session that has ended -----

  /** However statements interleave, a session that has ended never comes back
      and never answers again. */
  lemma {:induction false} GoneForGood(c: Config, s: State, actions: seq<Action>, t: Id)
    requires t in s.issued && t !in s.rows
    ensures t !in Run(c, s, actions).rows
    ensures forall o :: o in Answers(c, s, actions, t) ==> o == Refused
    decreases |actions|
  {
    if actions != [] {
      GoneForGood(c, Step(c, s, actions[0]), actions[1..], t);
    }
  }

  /** A session that is signed out answers nobody again, though a request of it has
      read and has yet to write. */
  lemma SignedOutForGood(c: Config, s: State, actions: seq<Action>, t: Id)
    requires t in s.issued
    ensures forall o :: o in Answers(c, Step(c, s, SignOut(t)), actions, t) ==> o == Refused
  {
    GoneForGood(c, Step(c, s, SignOut(t)), actions, t);
  }

  // ----- Whose session it is -----

  /** While it lasts a session answers for the account and the garden it was made
      with, whatever comes in between. */
  lemma {:induction false} SessionKeepsItsUser(
    c: Config, s: State, actions: seq<Action>, t: Id, user: Id, garden: Option<Id>)
    requires t in s.issued && (t in s.rows ==> s.rows[t].user == user && s.rows[t].garden == garden)
    ensures forall o :: o in Answers(c, s, actions, t) && o.Live? ==> o.row.user == user && o.row.garden == garden
    decreases |actions|
  {
    if actions != [] {
      SessionKeepsItsUser(c, Step(c, s, actions[0]), actions[1..], t, user, garden);
      AnswersOfFirst(c, s, actions, t);
    }
  }

  // ----- Who is refused -----

  /** A read that comes at or after the deadline in force: ttl after the last
      touch written. */
  predicate LateRead(c: Config, s: State, a: Action, t: Id) {
    a.Read? && a.token == t && a.id !in s.asked && t in s.rows && Expired(c, s.rows[t].lastSeen, a.now)
  }

  /** A sweep that takes the row. */
  predicate TakesRow(c: Config, s: State, a: Action, t: Id) {
    a.Sweep? && t in s.rows && s.rows[t].lastSeen <= a.now - c.configured
  }

  predicate IsRead(s: State, a: Action, t: Id) {
    a.Read? && a.token == t && a.id !in s.asked
  }

  /** A touch of the token is written, or finds the row gone. */
  predicate IsTouch(s: State, a: Action, t: Id) {
    a.Finish? && a.id in s.waiting && s.waiting[a.id].Touching? && s.waiting[a.id].token == t
  }

  /** A read of the token, or a touch that was waiting, is still to come. */
  predicate UsedAgain(c: Config, s: State, actions: seq<Action>, t: Id)
    decreases |actions|
  {
    actions != [] &&
    (IsRead(s, actions[0], t) || IsTouch(s, actions[0], t) || UsedAgain(c, Step(c, s, actions[0]), actions[1..], t))
  }

  /** No read of the token is late, and no sweep takes its row while a read of it or
      a waiting touch is still to come. */
  predicate InTime(c: Config, s: State, actions: seq<Action>, t: Id)
    decreases |actions|
  {
    actions == [] ||
    var s' := Step(c, s, actions[0]);
    && !LateRead(c, s, actions[0], t)
    && (TakesRow(c, s, actions[0], t) ==> !UsedAgain(c, s', actions[1..], t))
    && InTime(c, s', actions[1..], t)
  }

  /** The row is there, and no request has decided to delete it. */
  predicate Alive(s: State, t: Id) {
    Asked(s) && t in s.issued && t in s.rows && forall id :: id in s.waiting ==> s.waiting[id] != Deleting(t)
  }

  lemma {:induction false} NothingIsLateOnceGone(c: Config, s: State, actions: seq<Action>, t: Id)
    requires t in s.issued && t !in s.rows
    ensures InTime(c, s, actions, t)
    decreases |actions|
  {
    if actions != [] {
      NothingIsLateOnceGone(c, Step(c, s, actions[0]), actions[1..], t);
    }
  }

  lemma StepKeepsAlive(c: Config, s: State, a: Action, t: Id)
    requires Alive(s, t) && a != SignOut(t) && !LateRead(c, s, a, t) && !TakesRow(c, s, a, t)
    ensures Alive(Step(c, s, a), t)
    ensures Concerns(s, a, t) ==> Decides(c, s, a) != Some(Refused)
  {
  }

  /** Over every interleaving and whatever the clock does, a session nobody signs
      out is refused exactly when one of its reads comes ttl or more after the
      last touch written, or a sweep comes so late and the session is used again. */
  lemma {:induction false} RefusedExactlyWhenLate(c: Config, s: State, actions: seq<Action>, t: Id)
    requires Alive(s, t) && NoSignOut(actions, t)
    ensures (forall o :: o in Answers(c, s, actions, t) ==> o.Live?) <==> InTime(c, s, actions, t)
    decreases |actions|
  {
    if actions != [] {
      var a, rest := actions[0], actions[1..];
      var s' := Step(c, s, a);
      assert a in actions;
      if LateRead(c, s, a, t) {
        assert Answers(c, s, actions, t)[0] == Refused && Refused in Answers(c, s, actions, t);
      } else if TakesRow(c, s, a, t) {
        GoneForGood(c, s', rest, t);
        GoneAnswersUses(c, s', rest, t);
        NothingIsLateOnceGone(c, s', rest, t);
        if Answers(c, s', rest, t) != [] {
          assert Answers(c, s', rest, t)[0] in Answers(c, s, actions, t);
        }
      } else {
        StepKeepsAlive(c, s, a, t);
        RefusedExactlyWhenLate(c, s', rest, t);
        AnswersOfFirst(c, s, actions, t);
      }
    }
  }

  /** Once the row is gone, what is answered is exactly each later use. */
  lemma {:induction false} GoneAnswersUses(c: Config, s: State, actions: seq<Action>, t: Id)
    requires t in s.issued && t !in s.rows
    ensures Answers(c, s, actions, t) != [] <==> UsedAgain(c, s, actions, t)
    decreases |actions|
  {
    if actions != [] {
      GoneAnswersUses(c, Step(c, s, actions[0]), actions[1..], t);
    }
  }

  lemma AnswersOfFirst(c: Config, s: State, actions: seq<Action>, t: Id)
    requires actions != []
    ensures var rest := Answers(c, Step(c, s, actions[0]), actions[1..], t);
            var o := Decides(c, s, actions[0]);
            forall x :: x in Answers(c, s, actions, t) <==>
                        x in rest || (Concerns(s, actions[0], t) && o == Some(x))
  {
  }

  // ----- A session in steady use -----

  /** Each read of the token comes at most ttl - touchAfter after the last. */
  predicate Steady(c: Config, s: State, actions: seq<Action>, t: Id, last: int)
    decreases |actions|
  {
    actions == [] ||
    var a := actions[0];
    && (IsRead(s, a, t) ==> a.now - last <= c.Ttl() - c.TouchAfter())
    && Steady(c, Step(c, s, a), actions[1..], t, if IsRead(s, a, t) then a.now else last)
  }

  /** A request of the token that read at `now` has yet to write its touch. */
  predicate TouchWaits(s: State, t: Id, now: int) {
    exists id :: id in s.waiting && s.waiting[id] == Touching(t, now)
  }

  /** A touch that leaves the row with an earlier time than it had. */
  predicate MovesBack(s: State, a: Action, t: Id) {
    IsTouch(s, a, t) && t in s.rows && s.waiting[a.id].now < s.rows[t].lastSeen
  }

  /** A statement that gets the session refused: a late read, or a sweep that
      takes the row while a read or a waiting touch is still to come. */
  predicate Late(c: Config, s: State, actions: seq<Action>, t: Id)
    requires actions != []
  {
    || LateRead(c, s, actions[0], t)
    || (TakesRow(c, s, actions[0], t) && UsedAgain(c, Step(c, s, actions[0]), actions[1..], t))
  }

  /** A statement falls in a gap of the token: between a read and its touch. */
  predicate InAGap(s: State, t: Id) {
    exists id :: id in s.waiting && s.waiting[id].Touching? && s.waiting[id].token == t
  }

  /** The first late statement, if there is one, falls between a read of the token
      and its touch, or after a touch that moved the deadline back. */
  predicate LateOnlyInAGap(c: Config, s: State, actions: seq<Action>, t: Id, back: bool)
    decreases |actions|
  {
    actions == [] ||
    if Late(c, s, actions, t) then back || InAGap(s, t)
    else LateOnlyInAGap(c, Step(c, s, actions[0]), actions[1..], t, back || MovesBack(s, actions[0], t))
  }

  /** The latest read is recorded, or its touch is still to be written. */
  predicate Recorded(c: Config, s: State, t: Id, last: int, back: bool) {
    t in s.rows ==> back || last - s.rows[t].lastSeen < c.TouchAfter() || TouchWaits(s, t, last)
  }

  lemma StepIsAsked(c: Config, s: State, a: Action)
    requires Asked(s)
    ensures Asked(Step(c, s, a))
  {
  }

  lemma ReadRecords(c: Config, s: State, id: Id, token: Id, now: int, t: Id, last: int, back: bool)
    requires Asked(s) && Recorded(c, s, t, last, back) && id !in s.asked && !LateRead(c, s, Read(id, token, now), t)
    ensures Recorded(c, ReadStep(c, s, id, token, now), t, if token == t then now else last, back)
  {
    var s' := ReadStep(c, s, id, token, now);
    if t in s.rows && token == t && id in s'.waiting {
      assert s'.waiting[id] == Touching(t, now);
    } else if t in s.rows && TouchWaits(s, t, last) {
      var other :| other in s.waiting && s.waiting[other] == Touching(t, last);
      assert other in s'.waiting && s'.waiting[other] == Touching(t, last);
    }
  }

  lemma FinishRecords(c: Config, s: State, id: Id, t: Id, last: int, back: bool)
    requires c.Valid() && Recorded(c, s, t, last, back)
    ensures Recorded(c, FinishStep(c, s, id), t, last, back || MovesBack(s, Finish(id), t))
  {
    var s' := FinishStep(c, s, id);
    if t in s'.rows && TouchWaits(s, t, last) {
      var other :| other in s.waiting && s.waiting[other] == Touching(t, last);
      if other != id {
        assert other in s'.waiting && s'.waiting[other] == Touching(t, last);
      }
    }
  }

  lemma StepRecords(c: Config, s: State, a: Action, t: Id, last: int, back: bool)
    requires c.Valid() && Asked(s) && t in s.issued && Recorded(c, s, t, last, back) && !LateRead(c, s, a, t)
    ensures Recorded(c, Step(c, s, a), t, if IsRead(s, a, t) then a.now else last, back || MovesBack(s, a, t))
  {
    if a.Read? && a.id !in s.asked {
      ReadRecords(c, s, a.id, a.token, a.now, t, last, back);
    } else if a.Finish? {
      FinishRecords(c, s, a.id, t, last, back);
    } else {
      assert Step(c, s, a).waiting == s.waiting;
      assert TouchWaits(s, t, last) ==> TouchWaits(Step(c, s, a), t, last);
    }
  }

  /** With no touch waiting, another use means another read, and a steady one bounds
      the clock. */
  lemma {:induction false} LaterReadBoundsClock(
    c: Config, s: State, actions: seq<Action>, t: Id, last: int, clock: int)
    requires Asked(s) && t in s.issued && t !in s.rows && !InAGap(s, t)
    requires Steady(c, s, actions, t, last) && Rising(actions, clock) && UsedAgain(c, s, actions, t)
    ensures clock - last <= c.Ttl() - c.TouchAfter()
    decreases |actions|
  {
    var a, rest := actions[0], actions[1..];
    var s' := Step(c, s, a);
    if !IsRead(s, a, t) {
      StepIsAsked(c, s, a);
      assert forall id :: id in s'.waiting && s'.waiting[id].token == t ==>
          id in s.waiting && s'.waiting[id] == s.waiting[id];
      LaterReadBoundsClock(c, s', rest, t, last, if a.SignIn? || a.Read? || a.Sweep? then a.now else clock);
    }
  }

  /** On a clock that does not go back, a session in steady use is late only in a
      gap. */
  lemma {:induction false} SteadyIsLateOnlyInAGap(
    c: Config, s: State, actions: seq<Action>, t: Id, last: int, clock: int, back: bool)
    requires c.Valid() && Asked(s) && t in s.issued && Recorded(c, s, t, last, back)
    requires Steady(c, s, actions, t, last) && Rising(actions, clock) && last <= clock
    ensures LateOnlyInAGap(c, s, actions, t, back)
    decreases |actions|
  {
    if actions != [] {
      var a, rest := actions[0], actions[1..];
      var s' := Step(c, s, a);
      var clock' := if a.SignIn? || a.Read? || a.Sweep? then a.now else clock;
      var last' := if IsRead(s, a, t) then a.now else last;
      StepIsAsked(c, s, a);
      if !Late(c, s, actions, t) {
        StepRecords(c, s, a, t, last, back);
        SteadyIsLateOnlyInAGap(c, s', rest, t, last', clock', back || MovesBack(s, a, t));
      } else if TakesRow(c, s, a, t) && !InAGap(s, t) {
        LaterReadBoundsClock(c, s', rest, t, last, clock');
      }
    }
  }

  /** From sign-in on, on a clock that does not go back, a session whose reads are
      never more than ttl - touchAfter apart and that nobody signs out is never
      refused exactly when no statement is late, and a statement is late only
      between a read and its touch or after a touch moved the deadline back. */
  lemma SteadySessionsLastExactly(c: Config, s: State, signIn: Action, actions: seq<Action>)
    requires c.Valid() && Asked(s) && signIn.SignIn? && signIn.token !in s.issued
    requires forall id :: id in s.waiting ==> s.waiting[id].token != signIn.token
    requires NoSignOut(actions, signIn.token) && Rising(actions, signIn.now)
    requires Steady(c, Step(c, s, signIn), actions, signIn.token, signIn.now)
    ensures var s' := Step(c, s, signIn);
            && ((forall o :: o in Answers(c, s', actions, signIn.token) ==> o.Live?)
                <==> InTime(c, s', actions, signIn.token))
            && LateOnlyInAGap(c, s', actions, signIn.token, false)
  {
    RefusedExactlyWhenLate(c, Step(c, s, signIn), actions, signIn.token);
    SteadyIsLateOnlyInAGap(c, Step(c, s, signIn), actions, signIn.token, signIn.now, signIn.now, false);
  }

  // ----- One statement at a time -----

  /** No read of the token and no sweep falls between a read of the token and its
      second statement. */
  predicate Alone(c: Config, s: State, actions: seq<Action>, t: Id)
    decreases |actions|
  {
    actions == [] ||
    var a := actions[0];
    && ((a.Read? && a.token == t) || a.Sweep? ==> !Waits(s, t))
    && Alone(c, Step(c, s, a), actions[1..], t)
  }

  predicate Waits(s: State, t: Id) {
    exists id :: id in s.waiting && s.waiting[id].token == t
  }

  /** At most one request of the token waits, and it would move the deadline
      forward. */
  predicate Orderly(s: State, t: Id) {
    && (forall i, j :: i in s.waiting && j in s.waiting && s.waiting[i].token == t == s.waiting[j].token ==> i == j)
    && (forall i :: i in s.waiting && s.waiting[i].token == t && s.waiting[i].Touching? && t in s.rows
            ==> s.rows[t].lastSeen < s.waiting[i].now)
  }

  lemma StepIsOrderly(c: Config, s: State, a: Action, t: Id)
    requires c.Valid() && Asked(s) && t in s.issued && Orderly(s, t)
    requires (a.Read? && a.token == t) ==> !Waits(s, t)
    ensures Orderly(Step(c, s, a), t) && !MovesBack(s, a, t)
  {
  }

  lemma {:induction false} AloneIsNeverLate(c: Config, s: State, actions: seq<Action>, t: Id)
    requires c.Valid() && Asked(s) && t in s.issued && Orderly(s, t) && Alone(c, s, actions, t)
    requires LateOnlyInAGap(c, s, actions, t, false)
    ensures InTime(c, s, actions, t)
    decreases |actions|
  {
    if actions != [] {
      StepIsAsked(c, s, actions[0]);
      StepIsOrderly(c, s, actions[0], t);
      assert InAGap(s, t) ==> Waits(s, t);
      AloneIsNeverLate(c, Step(c, s, actions[0]), actions[1..], t);
    }
  }

  /** So a session in steady use whose requests do not overlap each other or a
      sweep is never refused. */
  lemma SteadySessionsLast(c: Config, s: State, signIn: Action, actions: seq<Action>)
    requires c.Valid() && Asked(s) && signIn.SignIn? && signIn.token !in s.issued
    requires forall id :: id in s.waiting ==> s.waiting[id].token != signIn.token
    requires NoSignOut(actions, signIn.token) && Rising(actions, signIn.now)
    requires Steady(c, Step(c, s, signIn), actions, signIn.token, signIn.now)
    requires Alone(c, Step(c, s, signIn), actions, signIn.token)
    ensures forall o :: o in Answers(c, Step(c, s, signIn), actions, signIn.token) ==> o.Live?
  {
    SteadySessionsLastExactly(c, s, signIn, actions);
    AloneIsNeverLate(c, Step(c, s, signIn), actions, signIn.token);
  }

  // ----- A session left alone -----

  /** Nothing the token's row holds, or is about to be given, is after `bound`. */
  predicate UsedBy(s: State, t: Id, bound: int) {
    && (t in s.rows ==> s.rows[t].lastSeen <= bound)
    && (forall id :: id in s.waiting && s.waiting[id].Touching? && s.waiting[id].token == t ==>
       s.waiting[id].now <= bound)
  }

  predicate Uses(a: Action, t: Id) {
    (a.Read? || a.SignIn?) && a.token == t
  }

  lemma StepUsedBy(c: Config, s: State, a: Action, t: Id, bound: int)
    requires UsedBy(s, t, bound) && (Uses(a, t) ==> a.now <= bound)
    ensures UsedBy(Step(c, s, a), t, bound)
  {
    var s' := Step(c, s, a);
    assert forall id :: id in s'.waiting && s'.waiting[id].token == t ==>
        (id in s.waiting && s.waiting[id] == s'.waiting[id]) || a == Read(id, t, a.now);
  }

  lemma {:induction false} UsesBoundRows(c: Config, s: State, actions: seq<Action>, t: Id, bound: int)
    requires UsedBy(s, t, bound) && forall a :: a in actions && Uses(a, t) ==> a.now <= bound
    ensures UsedBy(Run(c, s, actions), t, bound)
    decreases |actions|
  {
    if actions != [] {
      assert Uses(actions[0], t) ==> actions[0].now <= bound;
      StepUsedBy(c, s, actions[0], t, bound);
      UsesBoundRows(c, Step(c, s, actions[0]), actions[1..], t, bound);
    }
  }

  /** Every read of the token is refused. */
  predicate ReadsRefused(c: Config, s: State, actions: seq<Action>, t: Id)
    decreases |actions|
  {
    actions == [] ||
    var a := actions[0];
    && (IsRead(s, a, t) ==> Decides(c, s, a) == Some(Refused))
    && ReadsRefused(c, Step(c, s, a), actions[1..], t)
  }

  /** Past the deadline of everything the row can hold, a step leaves it so. */
  lemma StepStaysLapsed(c: Config, s: State, a: Action, t: Id, bound: int, clock: int)
    requires t in s.issued && UsedBy(s, t, bound) && bound + c.Ttl() <= clock && (a.Read? ==> clock <= a.now)
    ensures UsedBy(Step(c, s, a), t, bound) && t in Step(c, s, a).issued
    ensures IsRead(s, a, t) ==> Decides(c, s, a) == Some(Refused)
  {
    if !(Uses(a, t) && a.now > bound) {
      StepUsedBy(c, s, a, t, bound);
    } else if a.Read? {
      assert Step(c, s, a).rows == s.rows;
      assert Second(c, s.rows, t, a.now) == None || Second(c, s.rows, t, a.now) == Some(Deleting(t));
    }
  }

  lemma {:induction false} LapsedStaysRefused(
    c: Config, s: State, actions: seq<Action>, t: Id, bound: int, clock: int)
    requires t in s.issued && UsedBy(s, t, bound) && bound + c.Ttl() <= clock && Rising(actions, clock)
    ensures ReadsRefused(c, s, actions, t)
    decreases |actions|
  {
    if actions != [] {
      var a := actions[0];
      var clock' := if a.SignIn? || a.Read? || a.Sweep? then a.now else clock;
      StepStaysLapsed(c, s, a, t, bound, clock);
      LapsedStaysRefused(c, Step(c, s, a), actions[1..], t, bound, clock');
    }
  }

  /** On a clock that does not go back, a read that comes ttl or more after every
      earlier use of its token is refused, and so is every later one, even while
      a touch of an earlier request is still to be written. */
  lemma LapsedSessionsEnd(c: Config, before: seq<Action>, t: Id, now: int, after: seq<Action>)
    requires t in Run(c, NONE, before).issued && Rising(after, now)
    requires forall a :: a in before && Uses(a, t) ==> a.now <= now - c.Ttl()
    ensures ReadsRefused(c, Run(c, NONE, before), after, t)
  {
    UsesBoundRows(c, NONE, before, t, now - c.Ttl());
    LapsedStaysRefused(c, Run(c, NONE, before), after, t, now - c.Ttl(), now);
  }
}
