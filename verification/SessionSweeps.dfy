/** What the sweep of expired sessions can be seen to do, over every interleaving
    of statements. */
module SessionSweeps {
  import opened Options
  import opened Sessions
  import opened SessionRuns

  /** What each statement other than a sweep decides, in order. */
  function Outcomes(c: Config, s: State, actions: seq<Action>): seq<Option<Outcome>>
    decreases |actions|
  {
    if actions == [] then []
    else
      var rest := Outcomes(c, Step(c, s, actions[0]), actions[1..]);
      if actions[0].Sweep? then rest else [Decides(c, s, actions[0])] + rest
  }

  /** A run without its sweeps. */
  function Unswept(actions: seq<Action>): seq<Action> {
    if actions == [] then []
    else if actions[0].Sweep? then Unswept(actions[1..])
    else [actions[0]] + Unswept(actions[1..])
  }

  /** The rows a sweep takes. */
  function Taken(c: Config, rows: map<Id, Row>, now: int): set<Id> {
    set t | t in rows && rows[t].lastSeen <= now - c.configured
  }

  /** In the run without sweeps, a statement that finds alive a row that a sweep
      would have taken: a touch, or a read before the deadline. */
  predicate Cut(c: Config, s: State, gone: set<Id>, a: Action) {
    || (a.Finish? && a.id in s.waiting && s.waiting[a.id].Touching? && s.waiting[a.id].token in gone)
    || (a.Read? && a.id !in s.asked && a.token in gone && a.token in s.rows
        && !Expired(c, s.rows[a.token].lastSeen, a.now))
  }

  /** The run without sweeps from s has no such statement. gone holds the rows the
      sweeps so far have taken and nothing else has deleted since. */
  predicate NoneCut(c: Config, s: State, gone: set<Id>, actions: seq<Action>)
    decreases |actions|
  {
    actions == [] ||
    var a := actions[0];
    if a.Sweep? then NoneCut(c, s, gone + Taken(c, s.rows, a.now), actions[1..])
    else !Cut(c, s, gone, a) && NoneCut(c, Step(c, s, a), gone * Step(c, s, a).rows.Keys, actions[1..])
  }

  /** The swept table is the full one less the rows that are gone, and differs
      otherwise only in deletes of rows it does not have. */
  predicate Simulates(swept: State, full: State, gone: set<Id>) {
    && swept.issued == full.issued && swept.asked == full.asked
    && full.rows.Keys <= full.issued && full.waiting.Keys <= full.asked.Keys
    && gone <= full.rows.Keys
    && swept.rows.Keys == full.rows.Keys - gone && (forall t :: t in swept.rows ==> swept.rows[t] == full.rows[t])
    && SameWaiting(swept.waiting, full.waiting, full.issued - swept.rows.Keys)
  }

  /** The same requests wait, but for some deletes of tokens with no row. */
  predicate SameWaiting(swept: map<Id, Waiting>, full: map<Id, Waiting>, rowless: set<Id>) {
    && (forall i :: i in swept ==> i in full && swept[i] == full[i])
    && (forall i :: i in full && i !in swept ==> full[i].Deleting? && full[i].token in rowless)
  }

  lemma SweepSimulates(c: Config, swept: State, full: State, gone: set<Id>, now: int)
    requires Simulates(swept, full, gone)
    ensures Simulates(Step(c, swept, Sweep(now)), full, gone + Taken(c, full.rows, now))
  {
  }

  /** A statement decides the same in both exactly when it is not cut. */
  lemma SameExactlyUnlessCut(c: Config, swept: State, full: State, gone: set<Id>, a: Action)
    requires Simulates(swept, full, gone) && !a.Sweep?
    ensures Decides(c, swept, a) == Decides(c, full, a) <==> !Cut(c, full, gone, a)
  {
  }

  lemma ReadSimulates(c: Config, swept: State, full: State, gone: set<Id>, id: Id, token: Id, now: int)
    requires Simulates(swept, full, gone) && !Cut(c, full, gone, Read(id, token, now))
    ensures Simulates(ReadStep(c, swept, id, token, now), ReadStep(c, full, id, token, now), gone)
  {
    if id !in full.asked {
      assert id !in full.waiting;
      var rowless := full.issued - swept.rows.Keys;
      WaitingStaysSame(swept.waiting, full.waiting, rowless, id,
                       Second(c, swept.rows, token, now), Second(c, full.rows, token, now));
    }
  }

  lemma WaitingStaysSame(
    swept: map<Id, Waiting>, full: map<Id, Waiting>, rowless: set<Id>, id: Id, w: Option<Waiting>, w': Option<Waiting>)
    requires SameWaiting(swept, full, rowless) && id !in full
    requires w == w' || (w.None? && w'.value.Deleting? && w'.value.token in rowless)
    ensures SameWaiting(if w.Some? then swept[id := w.value] else swept,
            if w'.Some? then full[id := w'.value] else full, rowless)
  {
  }

  lemma TouchSimulates(c: Config, swept: State, full: State, gone: set<Id>, id: Id)
    requires Simulates(swept, full, gone) && id in full.waiting && full.waiting[id].Touching?
    requires full.waiting[id].token !in gone
    ensures Simulates(FinishStep(c, swept, id), FinishStep(c, full, id), gone)
  {
    var t := full.waiting[id].token;
    var swept', full' := FinishStep(c, swept, id), FinishStep(c, full, id);
    assert t in swept.rows <==> t in full.rows;
    assert swept'.rows.Keys == swept.rows.Keys && full'.rows.Keys == full.rows.Keys;
    assert swept'.waiting == swept.waiting - {id} && full'.waiting == full.waiting - {id};
  }

  lemma DeleteSimulates(c: Config, swept: State, full: State, gone: set<Id>, id: Id)
    requires Simulates(swept, full, gone) && id in full.waiting && full.waiting[id].Deleting?
    ensures Simulates(FinishStep(c, swept, id), FinishStep(c, full, id), gone - {full.waiting[id].token})
  {
    var t := full.waiting[id].token;
    assert FinishStep(c, full, id).rows == full.rows - {t};
    assert FinishStep(c, swept, id).rows.Keys == swept.rows.Keys - {t};
  }

  lemma FinishSimulates(c: Config, swept: State, full: State, gone: set<Id>, id: Id)
    requires Simulates(swept, full, gone) && !Cut(c, full, gone, Finish(id))
    ensures var full' := FinishStep(c, full, id);
            Simulates(FinishStep(c, swept, id), full', gone * full'.rows.Keys)
  {
    var full' := FinishStep(c, full, id);
    if id !in full.waiting {
      assert gone * full.rows.Keys == gone;
    } else if full.waiting[id].Touching? {
      TouchSimulates(c, swept, full, gone, id);
      assert gone * full'.rows.Keys == gone;
    } else {
      DeleteSimulates(c, swept, full, gone, id);
      assert gone * full'.rows.Keys == gone - {full.waiting[id].token};
    }
  }

  lemma StepSimulates(c: Config, swept: State, full: State, gone: set<Id>, a: Action)
    requires Simulates(swept, full, gone) && !a.Sweep? && !Cut(c, full, gone, a)
    ensures Simulates(Step(c, swept, a), Step(c, full, a), gone * Step(c, full, a).rows.Keys)
  {
    if a.Finish? {
      FinishSimulates(c, swept, full, gone, a.id);
    } else if a.Read? {
      ReadSimulates(c, swept, full, gone, a.id, a.token, a.now);
      assert gone * full.rows.Keys == gone;
    } else {
      OtherSimulates(c, swept, full, gone, a);
    }
  }

  lemma SignInSimulates(c: Config, swept: State, full: State, gone: set<Id>, token: Id, row: Row)
    requires Simulates(swept, full, gone)
    ensures Simulates(SignInStep(c, swept, token, row), SignInStep(c, full, token, row), gone)
  {
  }

  lemma OtherSimulates(c: Config, swept: State, full: State, gone: set<Id>, a: Action)
    requires Simulates(swept, full, gone) && (a.SignIn? || a.Arrive? || a.SignOut?)
    ensures Simulates(Step(c, swept, a), Step(c, full, a), gone * Step(c, full, a).rows.Keys)
  {
    if a.SignIn? {
      SignInSimulates(c, swept, full, gone, a.token, Row(a.user, a.garden, a.now));
    }
    if !a.SignOut? {
      assert gone * Step(c, full, a).rows.Keys == gone;
    }
  }

  lemma {:induction false} HiddenExactlyUnlessCut(
    c: Config, swept: State, full: State, gone: set<Id>, actions: seq<Action>)
    requires Simulates(swept, full, gone)
    ensures Outcomes(c, swept, actions) == Outcomes(c, full, Unswept(actions)) <==> NoneCut(c, full, gone, actions)
    decreases |actions|
  {
    if actions != [] {
      var a, rest := actions[0], actions[1..];
      if a.Sweep? {
        SweepSimulates(c, swept, full, gone, a.now);
        HiddenExactlyUnlessCut(c, Step(c, swept, a), full, gone + Taken(c, full.rows, a.now), rest);
      } else {
        var plain := Unswept(actions);
        assert plain[0] == a && plain[1..] == Unswept(rest);
        SameExactlyUnlessCut(c, swept, full, gone, a);
        assert Outcomes(c, swept, actions)[0] == Decides(c, swept, a);
        assert Outcomes(c, full, plain)[0] == Decides(c, full, a);
        if !Cut(c, full, gone, a) {
          StepSimulates(c, swept, full, gone, a);
          HiddenExactlyUnlessCut(c, Step(c, swept, a), Step(c, full, a), gone * Step(c, full, a).rows.Keys, rest);
          assert Outcomes(c, swept, actions)[1..] == Outcomes(c, Step(c, swept, a), rest);
          assert Outcomes(c, full, plain)[1..] == Outcomes(c, Step(c, full, a), Unswept(rest));
        }
      }
    }
  }

  /** Over every interleaving and whatever the clock does, sweeps put in anywhere
      change nothing that any statement decides exactly when no touch, and no
      read before the deadline, is of a row that a sweep has taken. */
  lemma SweepsAreUnobservableExactly(c: Config, actions: seq<Action>)
    ensures Outcomes(c, NONE, actions) == Outcomes(c, NONE, Unswept(actions)) <==> NoneCut(c, NONE, {}, actions)
  {
    HiddenExactlyUnlessCut(c, NONE, NONE, {}, actions);
  }

  // ----- On a clock that does not go back -----

  /** No sweep takes a row between a read of its token and the touch. */
  predicate ClearOfGaps(c: Config, s: State, actions: seq<Action>)
    decreases |actions|
  {
    actions == [] ||
    var a := actions[0];
    if a.Sweep? then (forall t :: t in Taken(c, s.rows, a.now) ==> !InAGap(s, t)) && ClearOfGaps(c, s, actions[1..])
    else ClearOfGaps(c, Step(c, s, a), actions[1..])
  }

  /** Every row that is gone has expired, with no touch to come. */
  predicate Dead(c: Config, s: State, gone: set<Id>, clock: int) {
    forall t :: t in gone ==> t in s.rows && t in s.issued && Expired(c, s.rows[t].lastSeen, clock) && !InAGap(s, t)
  }

  lemma DeadStayDead(c: Config, s: State, gone: set<Id>, clock: int, a: Action, now: int)
    requires Dead(c, s, gone, clock) && clock <= now && !a.Sweep? && (a.Read? ==> a.now == now)
    ensures !Cut(c, s, gone, a) && Dead(c, Step(c, s, a), gone * Step(c, s, a).rows.Keys, now)
  {
    var s' := Step(c, s, a);
    forall t | t in gone * s'.rows.Keys ensures s'.rows[t] == s.rows[t] && !InAGap(s', t) {
      assert !InAGap(s, t);
      if a.Read? {
        assert forall i :: i in s'.waiting && s'.waiting[i].Touching? && s'.waiting[i].token == t ==>
                             i in s.waiting && s.waiting[i] == s'.waiting[i];
      }
    }
  }

  lemma {:induction false} ClearOfGapsIsUncut(
    c: Config, s: State, gone: set<Id>, clock: int, actions: seq<Action>)
    requires c.Valid() && s.rows.Keys <= s.issued && Dead(c, s, gone, clock)
    requires Rising(actions, clock) && ClearOfGaps(c, s, actions)
    ensures NoneCut(c, s, gone, actions)
    decreases |actions|
  {
    if actions != [] {
      var a, rest := actions[0], actions[1..];
      var now := if a.SignIn? || a.Read? || a.Sweep? then a.now else clock;
      if a.Sweep? {
        ClearOfGapsIsUncut(c, s, gone + Taken(c, s.rows, a.now), now, rest);
      } else {
        DeadStayDead(c, s, gone, clock, a, now);
        ClearOfGapsIsUncut(c, Step(c, s, a), gone * Step(c, s, a).rows.Keys, now, rest);
      }
    }
  }

  /** So, on a clock that does not go back, a sweep can be seen only if it takes a
      row between a read of the session and its touch. */
  lemma SweepsShowOnlyInAGap(c: Config, actions: seq<Action>, clock: int)
    requires c.Valid() && Rising(actions, clock) && ClearOfGaps(c, NONE, actions)
    ensures Outcomes(c, NONE, actions) == Outcomes(c, NONE, Unswept(actions))
  {
    ClearOfGapsIsUncut(c, NONE, {}, clock, actions);
    SweepsAreUnobservableExactly(c, actions);
  }
}
