/** Two writes that depend on a count of an account's rows: removing a passkey,
    which must not take the last one, and subscribing a browser, which must not
    pass the maximum. Locking the account, counting and writing are steps of
    their own, and any other request may run between them. */
module AccountLocks {
  import opened Options
  import opened Sets

  type Id = nat

  const MAX_SUBSCRIPTIONS := 10

  /** A transaction that holds, or should hold, the account's row lock. counted
      is what its count returned. */
  datatype Tx =
    | Removing(user: Id, passkey: Id, counted: Option<nat>)
    | Subscribing(user: Id, endpoint: Id, counted: Option<nat>)

  /** accounts maps each account to whether it is open, passkeys and browsers
      map each row to the account that has it. */
  datatype State = State(
    accounts: map<Id, bool>, passkeys: map<Id, Id>, browsers: map<Id, Id>, locks: map<Id, Id>, running: map<Id, Tx>)

  datatype Action =
    | CreateAccount(user: Id, passkey: Id)
    | AddPasskey(user: Id, passkey: Id)
    | CloseAccount(user: Id)
    | Unsubscribe(endpoint: Id)
    | Lock(tx: Id, begin: Tx)
    | Count(tx: Id)
    | Write(tx: Id)

  const INSTALL := State(map[], map[], map[], map[], map[])

  function Held(rows: map<Id, Id>, user: Id): set<Id> {
    set k | k in rows && rows[k] == user
  }

  function Without(rows: map<Id, Id>, user: Id): map<Id, Id> {
    map k | k in rows && rows[k] != user :: rows[k]
  }

  function CountFor(s: State, t: Tx): nat {
    match t
    case Removing(user, _, _) => |Held(s.passkeys, user)|
    case Subscribing(user, endpoint, _) => |Held(s.browsers, user) - {endpoint}|
  }

  /** The write and the commit, which releases the lock. */
  function Written(s: State, tx: Id): State
    requires tx in s.running
  {
    var t := s.running[tx];
    var done := s.(running := s.running - {tx}, locks := s.locks - {t.user});
    if t.counted.None? then s
    else match t
      case Removing(user, passkey, counted) =>
        if counted.value > 1 && passkey in s.passkeys && s.passkeys[passkey] == user
        then done.(passkeys := s.passkeys - {passkey}) else done
      case Subscribing(user, endpoint, counted) =>
        if counted.value >= MAX_SUBSCRIPTIONS then done
        else done.(browsers := s.browsers[endpoint := user])
  }

  /** One step. locking says whether a transaction waits for the lock. */
  function Step(locking: bool, s: State, a: Action): State {
    match a
    case CreateAccount(user, passkey) =>
      if user in s.accounts || passkey in s.passkeys then s
      else s.(accounts := s.accounts[user := true], passkeys := s.passkeys[passkey := user])
    case AddPasskey(user, passkey) =>
      if user !in s.accounts || passkey in s.passkeys then s else s.(passkeys := s.passkeys[passkey := user])
    case CloseAccount(user) =>
      if user !in s.accounts then s
      else s.(accounts := s.accounts[user := false], passkeys := Without(s.passkeys, user),
          browsers := Without(s.browsers, user))
    case Unsubscribe(endpoint) => s.(browsers := s.browsers - {endpoint})
    case Lock(tx, begin) =>
      if tx in s.running || begin.counted.Some? || begin.user !in s.accounts || (locking && begin.user in s.locks)
          then s
      else s.(running := s.running[tx := begin], locks := s.locks[begin.user := tx])
    case Count(tx) =>
      if tx !in s.running then s
      else s.(running := s.running[tx := s.running[tx].(counted := Some(CountFor(s, s.running[tx])))])
    case Write(tx) => if tx in s.running then Written(s, tx) else s
  }

  function Run(locking: bool, s: State, actions: seq<Action>): State
    decreases |actions|
  {
    if actions == [] then s else Run(locking, Step(locking, s, actions[0]), actions[1..])
  }

  predicate Open(s: State, user: Id) {
    user in s.accounts && s.accounts[user]
  }

  ghost predicate CanSignIn(s: State) {
    forall u :: Open(s, u) ==> Held(s.passkeys, u) != {}
  }

  ghost predicate WithinMaximum(s: State) {
    forall u :: |Held(s.browsers, u)| <= MAX_SUBSCRIPTIONS
  }

  /** A count made under the lock can only have become safer. */
  predicate CountHolds(s: State, t: Tx) {
    t.counted.Some? ==>
      match t
      case Removing(user, _, counted) => Open(s, user) && counted.value > 1 ==> |Held(s.passkeys, user)| > 1
      case Subscribing(user, endpoint, counted) => |Held(s.browsers, user) - {endpoint}| <= counted.value
  }

  /** Every running transaction is the one that holds its account's lock. */
  predicate Locked(s: State) {
    forall x :: x in s.running ==>
                  s.running[x].user in s.accounts && s.running[x].user in s.locks && s.locks[s.running[x].user] == x
  }

  predicate CountsHold(s: State) {
    forall x :: x in s.running ==> CountHolds(s, s.running[x])
  }

  ghost predicate Safe(s: State) {
    CanSignIn(s) && WithinMaximum(s) && Locked(s) && CountsHold(s)
  }

  lemma HeldAfterInsert(rows: map<Id, Id>, k: Id, u: Id, v: Id)
    ensures Held(rows[k := u], v) == if u == v then Held(rows, v) + {k} else Held(rows, v) - {k}
  {
  }

  lemma HeldAfterDelete(rows: map<Id, Id>, k: Id, v: Id)
    ensures Held(rows - {k}, v) == Held(rows, v) - {k}
  {
  }

  lemma HeldAfterClose(rows: map<Id, Id>, u: Id, v: Id)
    ensures Held(Without(rows, u), v) == if u == v then {} else Held(rows, v)
  {
    assert u != v ==> Held(Without(rows, u), v) == Held(rows, v);
  }

  lemma TwoLeavesOne(a: set<Id>, k: Id)
    requires |a| > 1
    ensures a - {k} != {}
  {
    assert if k in a then |a - {k}| == |a| - 1 else a - {k} == a;
  }

  /** A row more, for any account, leaves no account with fewer. */
  lemma InsertGrows(rows: map<Id, Id>, k: Id, user: Id, u: Id)
    requires k !in rows
    ensures Held(rows, u) <= Held(rows[k := user], u) && |Held(rows, u)| <= |Held(rows[k := user], u)|
    ensures u == user ==> Held(rows[k := user], u) != {}
  {
    HeldAfterInsert(rows, k, user, u);
    SmallerSet(Held(rows, u), Held(rows[k := user], u));
    if u == user {
      assert k in Held(rows[k := user], u);
    }
  }

  lemma GrownCanSignIn(s: State, s': State, user: Id, passkey: Id)
    requires CanSignIn(s) && passkey !in s.passkeys && s'.passkeys == s.passkeys[passkey := user]
    requires forall u :: Open(s', u) ==> Open(s, u) || u == user
    ensures CanSignIn(s')
  {
    forall u | Open(s', u) ensures Held(s'.passkeys, u) != {} {
      InsertGrows(s.passkeys, passkey, user, u);
    }
  }

  /** A count stays good when the account's passkeys grow, and it did not just open. */
  lemma CountSurvivesGrowth(s: State, s': State, user: Id, passkey: Id, t: Tx)
    requires CountHolds(s, t) && passkey !in s.passkeys && s'.passkeys == s.passkeys[passkey := user]
    requires s'.browsers == s.browsers && (Open(s', t.user) ==> Open(s, t.user))
    ensures CountHolds(s', t)
  {
    InsertGrows(s.passkeys, passkey, user, t.user);
  }

  lemma PasskeysGrow(s: State, s': State, user: Id, passkey: Id)
    requires Safe(s) && passkey !in s.passkeys
    requires s'.accounts == s.accounts || (user !in s.accounts && s'.accounts == s.accounts[user := true])
    requires s' == s.(accounts := s'.accounts, passkeys := s.passkeys[passkey := user])
    ensures Safe(s')
  {
    GrownCanSignIn(s, s', user, passkey);
    forall x | x in s.running ensures CountHolds(s', s.running[x]) {
      CountSurvivesGrowth(s, s', user, passkey, s.running[x]);
    }
  }

  /** Rows taken from browsers, and from the passkeys of a closed account, break nothing. */
  lemma RowsShrink(s: State, s': State)
    requires Safe(s) && s' == s.(accounts := s'.accounts, passkeys := s'.passkeys, browsers := s'.browsers)
    requires s.accounts.Keys == s'.accounts.Keys
    requires forall u :: Open(s', u) ==> Open(s, u) && Held(s'.passkeys, u) == Held(s.passkeys, u)
    requires forall u :: Held(s'.browsers, u) <= Held(s.browsers, u)
    ensures Safe(s')
  {
    forall u
      ensures |Held(s'.browsers, u)| <= |Held(s.browsers, u)|
    {
      SmallerSet(Held(s'.browsers, u), Held(s.browsers, u));
    }
    forall x | x in s'.running
      ensures CountHolds(s', s'.running[x])
    {
      var t := s.running[x];
      assert CountHolds(s, t);
      if t.Subscribing? {
        SmallerSet(Held(s'.browsers, t.user) - {t.endpoint}, Held(s.browsers, t.user) - {t.endpoint});
      }
    }
  }

  /** A count stays good while its account's passkeys are not taken and its
      browsers do not grow. */
  lemma CountSurvives(s: State, s': State, t: Tx)
    requires CountHolds(s, t) && s'.accounts == s.accounts
    requires Held(s'.passkeys, t.user) == Held(s.passkeys, t.user)
             && Held(s'.browsers, t.user) <= Held(s.browsers, t.user)
    ensures CountHolds(s', t)
  {
    if t.Subscribing? {
      SmallerSet(Held(s'.browsers, t.user) - {t.endpoint}, Held(s.browsers, t.user) - {t.endpoint});
    }
  }

  /** Once its transaction has written, no other holds a count of the account. */
  lemma OthersSurvive(s: State, tx: Id, s': State)
    requires Locked(s) && CountsHold(s) && tx in s.running && s'.running == s.running - {tx}
             && s'.locks == s.locks - {s.running[tx].user}
    requires s'.accounts == s.accounts
    requires forall u :: u != s.running[tx].user ==> Held(s'.passkeys, u) == Held(s.passkeys, u)
    requires forall u :: u != s.running[tx].user ==> Held(s'.browsers, u) <= Held(s.browsers, u)
    ensures Locked(s') && CountsHold(s')
  {
    StaysLocked(s, tx, s');
    forall x | x in s'.running
      ensures CountHolds(s', s'.running[x])
    {
      OneTransactionEach(s, tx, x);
      assert CountHolds(s, s.running[x]);
      CountSurvives(s, s', s.running[x]);
    }
  }

  lemma StaysLocked(s: State, tx: Id, s': State)
    requires Locked(s) && tx in s.running && s'.running == s.running - {tx} && s'.accounts == s.accounts
             && s'.locks == s.locks - {s.running[tx].user}
    ensures Locked(s')
  {
    forall x | x in s'.running
      ensures s.running[x].user != s.running[tx].user
    {
      OneTransactionEach(s, tx, x);
    }
  }

  lemma OneTransactionEach(s: State, tx: Id, x: Id)
    requires Locked(s) && tx in s.running && x in s.running && x != tx
    ensures s.running[x].user != s.running[tx].user
  {
  }

  lemma RemoveIsSafe(s: State, tx: Id)
    requires Safe(s) && tx in s.running && s.running[tx].Removing?
    ensures Safe(Written(s, tx))
  {
    var t := s.running[tx];
    var s' := Written(s, tx);
    if t.counted.Some? {
      assert CountHolds(s, t);
      forall u
        ensures u != t.user ==> Held(s'.passkeys, u) == Held(s.passkeys, u)
        ensures Open(s, u) ==> Held(s'.passkeys, u) != {}
      {
        HeldAfterDelete(s.passkeys, t.passkey, u);
        if u == t.user && Open(s, u) && t.counted.value > 1 {
          TwoLeavesOne(Held(s.passkeys, u), t.passkey);
        }
      }
      OthersSurvive(s, tx, s');
    }
  }

  /** A browser that moves to an account leaves every other with no more. */
  lemma BrowserMoves(rows: map<Id, Id>, endpoint: Id, user: Id, u: Id)
    ensures u != user ==> Held(rows[endpoint := user], u) <= Held(rows, u)
    ensures |Held(rows[endpoint := user], u)| <= if u == user then |Held(rows, u) - {endpoint}| + 1 else |Held(rows, u)|
  {
    HeldAfterInsert(rows, endpoint, user, u);
    var others := Held(rows, u) - {endpoint};
    SmallerSet(others, Held(rows, u));
    if u == user {
      assert Held(rows[endpoint := user], u) == others + {endpoint};
    }
  }

  lemma SubscribeIsSafe(s: State, tx: Id)
    requires Safe(s) && tx in s.running && s.running[tx].Subscribing?
    ensures Safe(Written(s, tx))
  {
    var t := s.running[tx];
    var s' := Written(s, tx);
    if t.counted.Some? {
      assert CountHolds(s, t);
      if t.counted.value < MAX_SUBSCRIPTIONS {
        forall u {
          BrowserMoves(s.browsers, t.endpoint, t.user, u);
        }
      }
      OthersSurvive(s, tx, s');
    }
  }

  lemma StepIsSafe(s: State, a: Action)
    requires Safe(s)
    ensures Safe(Step(true, s, a))
  {
    var s' := Step(true, s, a);
    match a
    case CreateAccount(user, passkey) => if s' != s { PasskeysGrow(s, s', user, passkey); }
    case AddPasskey(user, passkey) => if s' != s { PasskeysGrow(s, s', user, passkey); }
    case CloseAccount(user) =>
      forall u { HeldAfterClose(s.passkeys, user, u); }
      forall u { HeldAfterClose(s.browsers, user, u); }
      RowsShrink(s, s');
    case Unsubscribe(endpoint) =>
      forall u { HeldAfterDelete(s.browsers, endpoint, u); }
      RowsShrink(s, s');
    case Lock(tx, begin) => LockIsSafe(s, tx, begin);
    case Count(tx) => CountIsSafe(s, tx);
    case Write(tx) =>
      if tx in s.running {
        if s.running[tx].Removing? { RemoveIsSafe(s, tx); } else { SubscribeIsSafe(s, tx); }
      }
  }

  lemma LockIsSafe(s: State, tx: Id, begin: Tx)
    requires Safe(s)
    ensures Safe(Step(true, s, Lock(tx, begin)))
  {
    var s' := Step(true, s, Lock(tx, begin));
    if s' != s {
      StartsUncounted(s, s', tx, begin);
    }
  }

  lemma StartsUncounted(s: State, s': State, tx: Id, begin: Tx)
    requires Safe(s) && begin.counted.None? && tx !in s.running && begin.user in s.accounts && begin.user !in s.locks
    requires s' == s.(running := s.running[tx := begin], locks := s.locks[begin.user := tx])
    ensures Safe(s')
  {
    StartsLocked(s, s', tx, begin);
    forall x | x in s'.running
      ensures CountHolds(s', s'.running[x])
    {
      if x != tx {
        assert CountHolds(s, s.running[x]);
        CountSurvives(s, s', s.running[x]);
      }
    }
  }

  lemma StartsLocked(s: State, s': State, tx: Id, begin: Tx)
    requires Locked(s) && tx !in s.running && begin.user in s.accounts && begin.user !in s.locks
    requires s' == s.(running := s.running[tx := begin], locks := s.locks[begin.user := tx])
    ensures Locked(s')
  {
  }

  lemma CountIsSafe(s: State, tx: Id)
    requires Safe(s)
    ensures Safe(Step(true, s, Count(tx)))
  {
    if tx in s.running {
      var t := s.running[tx].(counted := Some(CountFor(s, s.running[tx])));
      CountsOnce(s, s.(running := s.running[tx := t]), tx, t);
    }
  }

  lemma CountsOnce(s: State, s': State, tx: Id, t: Tx)
    requires Safe(s) && tx in s.running && t.user == s.running[tx].user && CountHolds(s, t)
    requires s' == s.(running := s.running[tx := t])
    ensures Safe(s')
  {
    forall x | x in s'.running
      ensures CountHolds(s', s'.running[x])
    {
      CountSurvives(s, s', s'.running[x]);
    }
  }

  lemma {:induction false} RunIsSafe(s: State, actions: seq<Action>)
    requires Safe(s)
    ensures Safe(Run(true, s, actions))
    decreases |actions|
  {
    if actions != [] {
      StepIsSafe(s, actions[0]);
      RunIsSafe(Step(true, s, actions[0]), actions[1..]);
    }
  }

  /** With the lock, in every interleaving from an empty install, an open account
      always has a passkey and no account has more than ten browsers subscribed,
      even when a browser moves from one account to another. */
  lemma LocksKeepCounts(actions: seq<Action>)
    ensures CanSignIn(Run(true, INSTALL, actions)) && WithinMaximum(Run(true, INSTALL, actions))
  {
    assert forall u :: Held(INSTALL.browsers, u) == {};
    RunIsSafe(INSTALL, actions);
  }

  // ----- What a count decides -----

  /** No step counts for the transaction or writes it. */
  predicate LeavesTx(actions: seq<Action>, tx: Id) {
    Count(tx) !in actions && Write(tx) !in actions
  }

  lemma {:induction false} TxStays(s: State, actions: seq<Action>, tx: Id)
    requires tx in s.running && LeavesTx(actions, tx)
    ensures tx in Run(true, s, actions).running && Run(true, s, actions).running[tx] == s.running[tx]
    decreases |actions|
  {
    if actions != [] {
      assert actions[0] in actions;
      TxStays(Step(true, s, actions[0]), actions[1..], tx);
    }
  }

  /** The write of a transaction that counted in state s, with any steps of others in
      between: its rows are as the count allows, all others are left, and the lock is
      released. */
  predicate WritesBy(s: State, here: State, done: State, tx: Id, t: Tx) {
    && tx !in done.running && t.user !in done.locks && done.accounts == here.accounts
    && match t
       case Subscribing(user, endpoint, _) =>
         && done.passkeys == here.passkeys
         && done.browsers == if |Held(s.browsers, user) - {endpoint}| < 10 then here.browsers[endpoint := user]
                             else here.browsers
       case Removing(user, passkey, _) =>
         && done.browsers == here.browsers
         && done.passkeys == if |Held(s.passkeys, user)| >= 2 && passkey in Held(here.passkeys, user)
                             then here.passkeys - {passkey} else here.passkeys
  }

  /** A transaction gets its account's lock exactly when the account has a row and
      nobody holds it. A subscribe then makes the browser the account's exactly when
      the account had fewer than ten others at its count, and a removal takes the
      account's passkey exactly when it had two or more, whatever comes in between. */
  lemma CountDecides(s: State, tx: Id, begin: Tx, before: seq<Action>, between: seq<Action>)
    requires tx !in s.running && begin.counted.None? && LeavesTx(before, tx) && LeavesTx(between, tx)
    ensures var locked := Step(true, s, Lock(tx, begin));
            && (tx in locked.running <==> begin.user in s.accounts && begin.user !in s.locks)
            && (tx in locked.running ==>
                var counts := Run(true, locked, before);
                var here := Run(true, Step(true, counts, Count(tx)), between);
                WritesBy(counts, here, Step(true, here, Write(tx)), tx, begin))
  {
    var locked := Step(true, s, Lock(tx, begin));
    if tx in locked.running {
      TxStays(locked, before, tx);
      var counts := Run(true, locked, before);
      TxStays(Step(true, counts, Count(tx)), between, tx);
      WritesAsCounted(counts, Run(true, Step(true, counts, Count(tx)), between), tx, begin);
    }
  }

  lemma WritesAsCounted(s: State, here: State, tx: Id, begin: Tx)
    requires tx in here.running && here.running[tx] == begin.(counted := Some(CountFor(s, begin)))
    ensures WritesBy(s, here, Step(true, here, Write(tx)), tx, begin)
  {
  }

  // ----- Without the lock two removals can both count two -----

  const RACE := [
    CreateAccount(1, 10), AddPasskey(1, 11),
    Lock(20, Removing(1, 10, None)), Lock(21, Removing(1, 11, None)),
    Count(20), Count(21), Write(20), Write(21)]

  lemma RunSteps(locking: bool, s: State, actions: seq<Action>, i: nat)
    requires i < |actions|
    ensures Run(locking, s, actions[i..]) == Run(locking, Step(locking, s, actions[i]), actions[i + 1..])
  {
    assert actions[i..][1..] == actions[i + 1..];
  }

  const TWO_KEYS := State(map[1 := true], map[10 := 1, 11 := 1], map[], map[], map[])

  const BOTH_RUNNING :=
    TWO_KEYS.(running := map[20 := Removing(1, 10, None), 21 := Removing(1, 11, None)], locks := map[1 := 21])

  const BOTH_COUNTED := BOTH_RUNNING.(running := map[20 := Removing(1, 10, Some(2)), 21 := Removing(1, 11, Some(2))])

  lemma BothStart()
    ensures Step(false, Step(false, INSTALL, RACE[0]), RACE[1]) == TWO_KEYS
    ensures Step(false, Step(false, TWO_KEYS, RACE[2]), RACE[3]) == BOTH_RUNNING
  {
  }

  lemma BothCount()
    ensures Step(false, Step(false, BOTH_RUNNING, RACE[4]), RACE[5]) == BOTH_COUNTED
  {
    assert Held(TWO_KEYS.passkeys, 1) == {10, 11};
  }

  lemma BothRemove()
    ensures var s := Step(false, Step(false, BOTH_COUNTED, RACE[6]), RACE[7]);
            s.passkeys == map[] && Open(s, 1)
  {
    var s := Step(false, BOTH_COUNTED, RACE[6]);
    assert s.passkeys == map[11 := 1] && s.running == map[21 := Removing(1, 11, Some(2))];
  }

  /** The lock is needed: without it two removals sent together leave an open
      account with no passkey. */
  lemma WithoutTheLock()
    ensures !CanSignIn(Run(false, INSTALL, RACE))
  {
    BothStart();
    BothCount();
    BothRemove();
    EightSteps(RACE);
    var s := Run(false, INSTALL, RACE);
    assert Held(s.passkeys, 1) == {};
  }

  lemma EightSteps(a: seq<Action>)
    requires |a| == 8
    ensures Run(false, INSTALL, a)
            == Step(false, Step(false, Step(false, Step(false, Step(false, Step(false, Step(false, Step(false,
                 INSTALL, a[0]), a[1]), a[2]), a[3]), a[4]), a[5]), a[6]), a[7])
  {
    assert a[0..] == a && a[8..] == [];
    FourSteps(INSTALL, a, 0);
    FourSteps(Step(false, Step(false, Step(false, Step(false, INSTALL, a[0]), a[1]), a[2]), a[3]), a, 4);
  }

  lemma FourSteps(s: State, a: seq<Action>, i: nat)
    requires i + 4 <= |a|
    ensures Run(false, s, a[i..])
            == Run(false, Step(false, Step(false, Step(false, Step(false, s, a[i]), a[i + 1]), a[i + 2]), a[i + 3]),
                a[i + 4..])
  {
    var s1 := Step(false, s, a[i]);
    var s2 := Step(false, s1, a[i + 1]);
    RunSteps(false, s, a, i);
    RunSteps(false, s1, a, i + 1);
    RunSteps(false, s2, a, i + 2);
    RunSteps(false, Step(false, s2, a[i + 2]), a, i + 3);
  }
}
