/** When a session's deadline moves back, over every interleaving. */
module SessionDeadlines {
  import opened Options
  import opened Sessions
  import opened SessionRuns

  /** No step of the run leaves the row with an earlier time than it had. */
  predicate NeverMovesBack(c: Config, s: State, actions: seq<Action>, t: Id)
    decreases |actions|
  {
    actions == [] ||
    var s' := Step(c, s, actions[0]);
    && (t in s.rows && t in s'.rows ==> s.rows[t].lastSeen <= s'.rows[t].lastSeen)
    && NeverMovesBack(c, s', actions[1..], t)
  }

  /** The requests that write a touch of the token, in the order they write. */
  function Writers(c: Config, s: State, actions: seq<Action>, t: Id): seq<Id>
    decreases |actions|
  {
    if actions == [] then []
    else
      var rest := Writers(c, Step(c, s, actions[0]), actions[1..], t);
      if IsTouch(s, actions[0], t) && t in s.rows then [actions[0].id] + rest else rest
  }

  /** The clock readings of requests, once they have all read. */
  function ReadTimes(asked: map<Id, int>, ids: seq<Id>): seq<int>
    requires forall id :: id in ids ==> id in asked
  {
    if ids == [] then [] else [asked[ids[0]]] + ReadTimes(asked, ids[1..])
  }

  predicate Sorted(times: seq<int>) {
    forall i, j :: 0 <= i < j < |times| ==> times[i] <= times[j]
  }

  /** Every touch that waits was decided at its request's clock reading. */
  predicate Timed(s: State) {
    Asked(s) && forall id :: id in s.waiting && s.waiting[id].Touching? ==> s.waiting[id].now == s.asked[id]
  }

  lemma StepIsTimed(c: Config, s: State, a: Action)
    requires Timed(s)
    ensures Timed(Step(c, s, a))
    ensures forall id :: id in s.asked ==> id in Step(c, s, a).asked && Step(c, s, a).asked[id] == s.asked[id]
  {
  }

  lemma {:induction false} RunIsTimed(c: Config, s: State, actions: seq<Action>)
    requires Timed(s)
    ensures Timed(Run(c, s, actions))
    ensures forall id :: id in s.asked ==> id in Run(c, s, actions).asked && Run(c, s, actions).asked[id] == s.asked[id]
    decreases |actions|
  {
    if actions != [] {
      StepIsTimed(c, s, actions[0]);
      RunIsTimed(c, Step(c, s, actions[0]), actions[1..]);
    }
  }

  lemma {:induction false} WritersHaveRead(c: Config, s: State, actions: seq<Action>, t: Id)
    requires Timed(s)
    ensures forall id :: id in Writers(c, s, actions, t) ==> id in Run(c, s, actions).asked
    decreases |actions|
  {
    if actions != [] {
      StepIsTimed(c, s, actions[0]);
      RunIsTimed(c, s, actions);
      WritersHaveRead(c, Step(c, s, actions[0]), actions[1..], t);
    }
  }

  lemma SortedFrom(first: int, second: int, rest: seq<int>)
    ensures Sorted([first, second] + rest) <==> first <= second && Sorted([second] + rest)
  {
    var all, tail := [first, second] + rest, [second] + rest;
    assert forall i :: 0 <= i < |tail| ==> all[i + 1] == tail[i];
    if first <= second && Sorted(tail) {
      forall i, j | 0 <= i < j < |all| ensures all[i] <= all[j] {
        assert tail[0] <= tail[j - 1];
        assert i > 0 ==> tail[i - 1] <= tail[j - 1];
      }
    }
    if Sorted(all) {
      assert all[0] <= all[1];
      forall i, j | 0 <= i < j < |tail| ensures tail[i] <= tail[j] {
        assert all[i + 1] <= all[j + 1];
      }
    }
  }

  lemma {:induction false} NothingMovesOnceGone(c: Config, s: State, actions: seq<Action>, t: Id)
    requires t in s.issued && t !in s.rows
    ensures NeverMovesBack(c, s, actions, t) && Written(c, s, actions, t) == []
    decreases |actions|
  {
    if actions != [] {
      NothingMovesOnceGone(c, Step(c, s, actions[0]), actions[1..], t);
    }
  }

  /** The times the touches of the token write, in order. */
  function Written(c: Config, s: State, actions: seq<Action>, t: Id): seq<int>
    decreases |actions|
  {
    if actions == [] then []
    else
      var rest := Written(c, Step(c, s, actions[0]), actions[1..], t);
      if IsTouch(s, actions[0], t) && t in s.rows then [s.waiting[actions[0].id].now] + rest else rest
  }

  /** A touch writes the clock reading of its request. */
  lemma {:induction false} WrittenAreReadTimes(c: Config, s: State, actions: seq<Action>, t: Id)
    requires Timed(s)
    ensures forall id :: id in Writers(c, s, actions, t) ==> id in Run(c, s, actions).asked
    ensures Written(c, s, actions, t) == ReadTimes(Run(c, s, actions).asked, Writers(c, s, actions, t))
    decreases |actions|
  {
    WritersHaveRead(c, s, actions, t);
    if actions != [] {
      var a, rest := actions[0], actions[1..];
      StepIsTimed(c, s, a);
      RunIsTimed(c, s, actions);
      WrittenAreReadTimes(c, Step(c, s, a), rest, t);
      if IsTouch(s, a, t) && t in s.rows {
        ReadTimesFirst(Run(c, s, actions).asked, a.id, Writers(c, Step(c, s, a), rest, t));
      }
    }
  }

  lemma ReadTimesFirst(asked: map<Id, int>, id: Id, rest: seq<Id>)
    requires id in asked && forall i :: i in rest ==> i in asked
    ensures ReadTimes(asked, [id] + rest) == [asked[id]] + ReadTimes(asked, rest)
  {
    assert ([id] + rest)[1..] == rest;
  }

  lemma StillIssued(c: Config, s: State, a: Action, t: Id)
    requires t in s.issued && t in s.rows && t !in Step(c, s, a).rows
    ensures t in Step(c, s, a).issued && !(IsTouch(s, a, t) && t in s.rows)
  {
  }

  lemma OnlyTouchesWrite(c: Config, s: State, a: Action, t: Id)
    requires t in s.issued && t in s.rows && t in Step(c, s, a).rows
    ensures Step(c, s, a).rows[t].lastSeen == if IsTouch(s, a, t) then s.waiting[a.id].now else s.rows[t].lastSeen
    ensures t in Step(c, s, a).issued
  {
  }

  lemma {:induction false} NeverBackWhenSorted(c: Config, s: State, actions: seq<Action>, t: Id)
    requires t in s.issued && t in s.rows
    ensures NeverMovesBack(c, s, actions, t) <==> Sorted([s.rows[t].lastSeen] + Written(c, s, actions, t))
    decreases |actions|
  {
    if actions != [] {
      var a, rest := actions[0], actions[1..];
      var s' := Step(c, s, a);
      var now := s.rows[t].lastSeen;
      if t !in s'.rows {
        StillIssued(c, s, a, t);
        NothingMovesOnceGone(c, s', rest, t);
        assert Sorted([now] + []);
      } else {
        OnlyTouchesWrite(c, s, a, t);
        NeverBackWhenSorted(c, s', rest, t);
        if IsTouch(s, a, t) {
          var later := Written(c, s', rest, t);
          SortedFrom(now, s'.rows[t].lastSeen, later);
          assert [now] + ([s'.rows[t].lastSeen] + later) == [now, s'.rows[t].lastSeen] + later;
        }
      }
    }
  }

  /** A deadline moves back exactly when a touch is written after that of a request
      with a later clock reading, or after a later sign-in: over a whole interleaving
      it never does if and only if the touches are written in the order of the
      readings of their requests. */
  lemma MovesBackExactly(c: Config, s: State, actions: seq<Action>, t: Id)
    requires Timed(s) && t in s.issued && t in s.rows
    ensures forall id :: id in Writers(c, s, actions, t) ==> id in Run(c, s, actions).asked
    ensures NeverMovesBack(c, s, actions, t)
            <==> Sorted([s.rows[t].lastSeen] + ReadTimes(Run(c, s, actions).asked, Writers(c, s, actions, t)))
  {
    NeverBackWhenSorted(c, s, actions, t);
    WrittenAreReadTimes(c, s, actions, t);
  }

  // ----- Requests that do not overlap -----

  /** Whatever the clock does, a deadline never moves back while no read of the
      session falls between another and its second statement. */
  lemma {:induction false} AloneNeverMovesBack(c: Config, s: State, actions: seq<Action>, t: Id)
    requires c.Valid() && Asked(s) && t in s.issued && Orderly(s, t) && Alone(c, s, actions, t)
    ensures NeverMovesBack(c, s, actions, t)
    decreases |actions|
  {
    if actions != [] {
      StepIsAsked(c, s, actions[0]);
      StepIsOrderly(c, s, actions[0], t);
      AloneNeverMovesBack(c, Step(c, s, actions[0]), actions[1..], t);
    }
  }

  lemma {:induction false} EndsNoEarlier(c: Config, s: State, actions: seq<Action>, t: Id)
    requires t in s.issued && t in s.rows && NeverMovesBack(c, s, actions, t) && t in Run(c, s, actions).rows
    ensures Run(c, s, actions).rows[t].lastSeen >= s.rows[t].lastSeen
    decreases |actions|
  {
    if actions != [] {
      var s' := Step(c, s, actions[0]);
      if t in s'.rows {
        EndsNoEarlier(c, s', actions[1..], t);
      } else {
        GoneForGood(c, s', actions[1..], t);
      }
    }
  }

  /** So at the end of such a run it is no earlier than at the start, and the touches
      are written in the order of the readings of their requests. */
  lemma DeadlinesNeverMoveBack(c: Config, s: State, actions: seq<Action>, t: Id)
    requires c.Valid() && Timed(s) && t in s.issued && t in s.rows && Orderly(s, t) && Alone(c, s, actions, t)
    ensures t in Run(c, s, actions).rows ==> Run(c, s, actions).rows[t].lastSeen >= s.rows[t].lastSeen
    ensures forall id :: id in Writers(c, s, actions, t) ==> id in Run(c, s, actions).asked
    ensures Sorted([s.rows[t].lastSeen] + ReadTimes(Run(c, s, actions).asked, Writers(c, s, actions, t)))
  {
    AloneNeverMovesBack(c, s, actions, t);
    MovesBackExactly(c, s, actions, t);
    if t in Run(c, s, actions).rows {
      EndsNoEarlier(c, s, actions, t);
    }
  }
}
