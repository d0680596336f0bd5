/** WebAuthn ceremonies: a challenge is issued, and answered at most once with
    success. */
module Ceremonies {
  import opened Options

  type Id = nat

  const LIFE: int := 300_000_000_000

  /** A device for an account, the first device of an account yet to be made, or
      a sign-in. */
  datatype Kind = Registration(user: Id) | SetUp(account: Id) | SignIn

  /** The row: the account it names, and the account id in its session data. */
  datatype Ceremony = Ceremony(user: Option<Id>, session: Option<Id>, expires: int)

  /** The handlers that take a challenge: redeeming a sign-in link, recovering an
      account, the Passkeys page, setting up or joining, and signing in. */
  datatype Handler = AddDevice | Recover | PasskeysPage | SetUpPage | SignInPage

  /** Those that take it inside the transaction that saves the passkey, so that a
      refusal puts it back. */
  predicate InTx(h: Handler) {
    h.AddDevice? || h.Recover?
  }

  /** What an answer to a challenge that was there came to. */
  datatype Entry =
    | Registered(token: Id, user: Id, at: int)
    | TookSetUp(token: Id, account: Id, at: int)
    | SignedIn(token: Id, at: int)
    | TurnedDown(token: Id, handler: Handler, at: int)

  /** begun remembers every challenge issued: its kind and when. */
  datatype State = State(rows: map<Id, Ceremony>, begun: map<Id, (Kind, int)>, log: seq<Entry>)

  /** Register is an answer to one of the first three handlers. verified is
      whether the device's answer checks and the rest of the handler's
      transaction goes through. */
  datatype Action =
    | Begin(token: Id, kind: Kind, now: int)
    | Register(handler: Handler, token: Id, user: Id, verified: bool, now: int)
    | TakeSetUp(token: Id, now: int)
    | FinishAssertion(token: Id, verified: bool, now: int)
    | CloseAccount(user: Id)

  function RowFor(kind: Kind, now: int): Ceremony {
    match kind
    case Registration(user) => Ceremony(Some(user), Some(user), now + LIFE)
    case SetUp(account) => Ceremony(None, Some(account), now + LIFE)
    case SignIn => Ceremony(None, None, now + LIFE)
  }

  /** Whether the row can be taken: it is there and has not expired. */
  predicate Takeable(s: State, token: Id, now: int) {
    token in s.rows && s.rows[token].expires > now
  }

  /** The challenge is taken for good. */
  function Spend(s: State, token: Id, e: Entry): State {
    s.(rows := s.rows - {token}, log := s.log + [e])
  }

  /** The answer is refused: the challenge is gone unless its deletion is rolled
      back. */
  function TurnDown(s: State, token: Id, h: Handler, now: int): State {
    if InTx(h) then s.(log := s.log + [TurnedDown(token, h, now)]) else Spend(s, token, TurnedDown(token, h, now))
  }

  function Step(s: State, a: Action): State {
    match a
    case Begin(token, kind, now) =>
      if token in s.begun then s
      else
        var left := map t | t in s.rows && s.rows[t].expires > now :: s.rows[t];
        s.(rows := left[token := RowFor(kind, now)], begun := s.begun[token := (kind, now)])
    case Register(handler, token, user, verified, now) =>
      if !Takeable(s, token, now) || handler.SetUpPage? || handler.SignInPage? then s
      else if s.rows[token].user == Some(user) && verified then Spend(s, token, Registered(token, user, now))
      else TurnDown(s, token, handler, now)
    case TakeSetUp(token, now) =>
      if !Takeable(s, token, now) then s
      else if s.rows[token].user.None? && s.rows[token].session.Some?
      then Spend(s, token, TookSetUp(token, s.rows[token].session.value, now))
      else TurnDown(s, token, SetUpPage, now)
    case FinishAssertion(token, verified, now) =>
      if !Takeable(s, token, now) then s
      else if verified then Spend(s, token, SignedIn(token, now))
      else TurnDown(s, token, SignInPage, now)
    case CloseAccount(user) => s.(rows := map t | t in s.rows && s.rows[t].user != Some(user) :: s.rows[t])
  }

  function Run(s: State, actions: seq<Action>): State
    decreases |actions|
  {
    if actions == [] then s else Run(Step(s, actions[0]), actions[1..])
  }

  const NONE := State(map[], map[], [])

  /** The answer is to a challenge that was issued, before it expired, and a
      success is of the kind and for the account it was issued for. */
  predicate Earned(s: State, e: Entry) {
    && e.token in s.begun
    && var (kind, at) := s.begun[e.token];
       && e.at < at + LIFE
       && (e.Registered? ==> kind == Registration(e.user))
       && (e.TookSetUp? ==> kind == SetUp(e.account))
  }

  /** An answer after which the challenge is gone: any but a refusal that rolls its
      transaction back. */
  predicate Final(e: Entry) {
    !(e.TurnedDown? && InTx(e.handler))
  }

  predicate Safe(s: State) {
    && (forall t :: t in s.rows ==> t in s.begun && s.rows[t] == RowFor(s.begun[t].0, s.begun[t].1))
    && (forall i :: 0 <= i < |s.log| ==> Earned(s, s.log[i]) && (Final(s.log[i]) ==> s.log[i].token !in s.rows))
    && (forall i, j :: 0 <= i < j < |s.log| && Final(s.log[i]) ==> s.log[i].token != s.log[j].token)
  }

  /** Rows that go, or that a new challenge adds, keep the log as it was. */
  lemma RowsChangeSafely(s: State, s': State)
    requires Safe(s) && s'.log == s.log
    requires forall t :: t in s.begun ==> t in s'.begun && s'.begun[t] == s.begun[t]
    requires forall t :: t in s'.rows ==>
                           || (t in s.rows && s'.rows[t] == s.rows[t])
                           || (t !in s.begun && t in s'.begun && s'.rows[t] == RowFor(s'.begun[t].0, s'.begun[t].1))
    ensures Safe(s')
  {
    forall i | 0 <= i < |s.log| ensures Earned(s', s.log[i]) && (Final(s.log[i]) ==> s.log[i].token !in s'.rows) {
      assert Earned(s, s.log[i]) && (Final(s.log[i]) ==> s.log[i].token !in s.rows);
    }
  }

  lemma AnswerIsSafe(s: State, s': State, e: Entry)
    requires Safe(s) && e.token in s.rows && Earned(s, e)
    requires s' == s.(rows := if Final(e) then s.rows - {e.token} else s.rows, log := s.log + [e])
    ensures Safe(s')
  {
    forall i | 0 <= i < |s'.log| ensures Earned(s', s'.log[i]) && (Final(s'.log[i]) ==> s'.log[i].token !in s'.rows) {
      assert i < |s.log| ==> s'.log[i] == s.log[i] && Earned(s, s.log[i]);
    }
  }

  lemma StepIsSafe(s: State, a: Action)
    requires Safe(s)
    ensures Safe(Step(s, a))
  {
    var s' := Step(s, a);
    if s'.log == s.log {
      RowsChangeSafely(s, s');
    } else {
      assert s.rows[a.token] == RowFor(s.begun[a.token].0, s.begun[a.token].1);
      AnswerIsSafe(s, s', s'.log[|s.log|]);
    }
  }

  lemma {:induction false} RunIsSafe(s: State, actions: seq<Action>)
    requires Safe(s)
    ensures Safe(Run(s, actions))
    decreases |actions|
  {
    if actions != [] {
      StepIsSafe(s, actions[0]);
      RunIsSafe(Step(s, actions[0]), actions[1..]);
    }
  }

  /** Over every run, a challenge has at most one successful answer and none after
      it, none at or after its expiry, a registration succeeds only on a challenge
      issued to the same account, and setup takes only what was issued for a
      setup, with the account id chosen then. */
  lemma ChallengesSucceedOnce(actions: seq<Action>, i: nat, j: nat)
    requires i < |Run(NONE, actions).log| && j < |Run(NONE, actions).log|
    ensures var s := Run(NONE, actions);
            && Earned(s, s.log[i])
            && (i < j && !s.log[i].TurnedDown? ==> s.log[i].token != s.log[j].token)
  {
    RunIsSafe(NONE, actions);
  }

  // ----- What a refusal leaves -----

  /** An answer to a challenge that can be taken, which the handler refuses. */
  predicate Refused(s: State, a: Action) {
    a.Register? && Step(s, a).log != s.log && Step(s, a).log[|s.log|].TurnedDown?
  }

  /** After any run, and whatever comes between that neither answers the challenge
      nor lets it lapse, a refused challenge can be answered again with success
      exactly when it was refused by one of the two handlers that answer inside a
      transaction: redeeming a sign-in link, or recovering an account. */
  lemma RefusedIsAnsweredAgainExactly(before: seq<Action>, a: Action, between: seq<Action>, again: Action)
    requires Refused(Run(NONE, before), a)
    requires again.Register? && again.token == a.token && again.verified && !again.handler.SetUpPage?
             && !again.handler.SignInPage?
    requires var s := Run(NONE, before);
             s.rows[a.token].user == Some(again.user) && again.now < s.rows[a.token].expires
    requires forall b :: b in between ==> Spares(b, a.token, again.user, again.now)
    ensures var s := Run(Step(Run(NONE, before), a), between);
            Step(s, again) == Spend(s, a.token, Registered(a.token, again.user, again.now)) <==> InTx(a.handler)
  {
    RunIsSafe(NONE, before);
    var s := Step(Run(NONE, before), a);
    StepIsSafe(Run(NONE, before), a);
    if InTx(a.handler) {
      SparedStays(s, between, a.token, again.user, again.now);
    } else {
      SpentStaysSpent(s, between, a.token);
      var s' := Run(s, between);
      assert |Spend(s', a.token, Registered(a.token, again.user, again.now)).log| == |s'.log| + 1;
    }
  }

  /** A step that does not answer the challenge, close its account, or begin
      another after `now`. */
  predicate Spares(a: Action, token: Id, user: Id, now: int) {
    match a
    case Begin(_, _, at) => at <= now
    case CloseAccount(closed) => closed != user
    case _ => a.token != token
  }

  lemma {:induction false} SparedStays(s: State, actions: seq<Action>, token: Id, user: Id, now: int)
    requires token in s.rows && token in s.begun && s.rows[token].user == Some(user) && now < s.rows[token].expires
    requires forall a :: a in actions ==> Spares(a, token, user, now)
    ensures token in Run(s, actions).rows && Run(s, actions).rows[token] == s.rows[token]
    decreases |actions|
  {
    if actions != [] {
      assert Spares(actions[0], token, user, now);
      SparedStays(Step(s, actions[0]), actions[1..], token, user, now);
    }
  }

  lemma {:induction false} SpentStaysSpent(s: State, actions: seq<Action>, token: Id)
    requires token !in s.rows && token in s.begun
    ensures token !in Run(s, actions).rows
    decreases |actions|
  {
    if actions != [] {
      SpentStaysSpent(Step(s, actions[0]), actions[1..], token);
    }
  }

  /** A device is refused on a sign-in link, and the very same challenge is then
      answered with success. */
  lemma AnsweredTwice()
    ensures var answers := [Begin(5, Registration(1), 0), Register(AddDevice, 5, 1, false, 1),
            Register(AddDevice, 5, 1, true, 2)];
            Run(NONE, answers).log == [TurnedDown(5, AddDevice, 1), Registered(5, 1, 2)]
  {
    var a, b, c := Begin(5, Registration(1), 0), Register(AddDevice, 5, 1, false, 1),
        Register(AddDevice, 5, 1, true, 2);
    var s1 := State(map[5 := Ceremony(Some(1), Some(1), LIFE)], map[5 := (Registration(1), 0)], []);
    var s2 := s1.(log := [TurnedDown(5, AddDevice, 1)]);
    assert Step(NONE, a) == s1 && Step(s1, b) == s2;
    assert [a, b, c][1..] == [b, c] && [b, c][1..] == [c] && [c][1..] == [];
    assert Run(s2, [c]) == Step(s2, c);
    assert Run(s1, [b, c]) == Step(s2, c);
  }

  // ----- Which answers succeed -----

  /** The step leaves no challenge: it answers it for good, closes the account it is
      for, or begins another once it has lapsed, which clears it away. */
  predicate Takes(s: State, a: Action, token: Id, kind: Kind, expires: int) {
    var s' := Step(s, a);
    || (|s'.log| > |s.log| && s'.log[|s.log|].token == token && Final(s'.log[|s.log|]))
    || (a.CloseAccount? && kind == Registration(a.user))
    || (a.Begin? && a.token !in s.begun && expires <= a.now)
  }

  predicate NoneTakes(s: State, actions: seq<Action>, token: Id, kind: Kind, expires: int)
    decreases |actions|
  {
    actions != [] ==>
      !Takes(s, actions[0], token, kind, expires)
      && NoneTakes(Step(s, actions[0]), actions[1..], token, kind, expires)
  }

  predicate Stands(s: State, token: Id, kind: Kind, at: int) {
    token in s.begun && s.begun[token] == (kind, at) && token in s.rows && s.rows[token] == RowFor(kind, at)
  }

  predicate Gone(s: State, token: Id) {
    token in s.begun && token !in s.rows
  }

  lemma StepTakes(s: State, a: Action, token: Id, kind: Kind, at: int)
    requires Stands(s, token, kind, at)
    ensures if Takes(s, a, token, kind, at + LIFE) then Gone(Step(s, a), token) else Stands(Step(s, a), token, kind, at)
  {
  }

  /** A challenge stands after a run exactly when no step of the run took it. */
  lemma {:induction false} StandsUntilTaken(s: State, actions: seq<Action>, token: Id, kind: Kind, at: int)
    requires Stands(s, token, kind, at)
    ensures if NoneTakes(s, actions, token, kind, at + LIFE) then Stands(Run(s, actions), token, kind, at)
            else Gone(Run(s, actions), token)
    decreases |actions|
  {
    if actions != [] {
      var s' := Step(s, actions[0]);
      StepTakes(s, actions[0], token, kind, at);
      if Takes(s, actions[0], token, kind, at + LIFE) {
        SpentStaysSpent(s', actions[1..], token);
        BegunStays(s', actions[1..], token);
      } else {
        StandsUntilTaken(s', actions[1..], token, kind, at);
      }
    }
  }

  lemma {:induction false} BegunStays(s: State, actions: seq<Action>, token: Id)
    requires token in s.begun
    ensures token in Run(s, actions).begun
    decreases |actions|
  {
    if actions != [] {
      BegunStays(Step(s, actions[0]), actions[1..], token);
    }
  }

  predicate Logs(s: State, a: Action, e: Entry) {
    Step(s, a).log == s.log + [e]
  }

  /** The three answers to a challenge that stands or is gone. */
  lemma AnsweredFrom(s: State, token: Id, kind: Kind, at: int, h: Handler, user: Id, verified: bool, now: int)
    requires Stands(s, token, kind, at) || Gone(s, token)
    requires h.AddDevice? || h.Recover? || h.PasskeysPage?
    ensures var open := Stands(s, token, kind, at) && now < at + LIFE;
            && (Logs(s, Register(h, token, user, verified, now), Registered(token, user, now)) <==>
                open && kind == Registration(user) && verified)
            && (Logs(s, FinishAssertion(token, verified, now), SignedIn(token, now)) <==> open && verified)
            && forall account :: Logs(s, TakeSetUp(token, now), TookSetUp(token, account, now)) <==>
                                 open && kind == SetUp(account)
  {
    assert forall e: Entry :: |s.log + [e]| == |s.log| + 1 && (s.log + [e])[|s.log|] == e;
  }

  /** A challenge is begun under a new token after any run, and answered any steps
      later. The answer succeeds exactly when no step took the challenge, it has not
      lapsed and the device's answer verifies, for a device only on the account it was
      begun for, and for a setup, which returns the account id chosen then, only when
      it was begun for one. */
  lemma SucceedsExactly(
    s: State, token: Id, kind: Kind, at: int, actions: seq<Action>, h: Handler, user: Id, verified: bool, now: int)
    requires token !in s.begun && (h.AddDevice? || h.Recover? || h.PasskeysPage?)
    ensures var begun := Step(s, Begin(token, kind, at));
            var here := Run(begun, actions);
            var open := NoneTakes(begun, actions, token, kind, at + LIFE) && now < at + LIFE;
            && (Logs(here, Register(h, token, user, verified, now), Registered(token, user, now)) <==>
                open && kind == Registration(user) && verified)
            && (Logs(here, FinishAssertion(token, verified, now), SignedIn(token, now)) <==> open && verified)
            && forall account :: Logs(here, TakeSetUp(token, now), TookSetUp(token, account, now)) <==>
                                 open && kind == SetUp(account)
  {
    var begun := Step(s, Begin(token, kind, at));
    StandsUntilTaken(begun, actions, token, kind, at);
    AnsweredFrom(Run(begun, actions), token, kind, at, h, user, verified, now);
  }
}
