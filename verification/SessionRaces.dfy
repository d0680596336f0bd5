/** Runs in which two requests of one session, or a request and a sweep, overlap
    and a promise made for requests one at a time fails. */
module SessionRaces {
  import opened Options
  import opened Sessions
  import opened SessionRuns
  import SessionSweeps
  import SessionCookies

  /** Sessions last 100 seconds and are touched after 10. */
  const C := Config(100 * SECOND)

  const SIGN_IN := SignIn(7, 1, None, 0)

  /** Session 7 with its row, its cookie, and requests that have read. */
  function Session(
    lastSeen: int, asked: map<Id, int>, waiting: map<Id, Waiting>, replies: map<Id, Reply>, jar: int): State {
    State(map[7 := Row(1, None, lastSeen)], {7}, asked, waiting, replies, map[7 := jar])
  }

  const SIGNED_IN := Session(0, map[], map[], map[], 100 * SECOND)

  lemma SignsIn()
    ensures Step(C, NONE, SIGN_IN) == SIGNED_IN
  {
  }

  // ----- Steady use refused -----

  /** Reads at 9, 99 and 100 seconds. The last falls between the second and its
      touch. */
  const STEADY := [Read(1, 7, 9 * SECOND), Read(2, 7, 99 * SECOND), Read(3, 7, 100 * SECOND)]

  lemma SteadyUseIsRefused()
    ensures var s := Step(C, NONE, SIGN_IN);
            && Steady(C, s, STEADY, 7, 0) && Rising(STEADY, 0) && NoSignOut(STEADY, 7)
            && Refused in Answers(C, s, STEADY, 7)
  {
    SignsIn();
    var s1 := Session(0, map[1 := 9 * SECOND], map[], map[], 100 * SECOND);
    var s2 := Session(0, map[1 := 9 * SECOND, 2 := 99 * SECOND], map[2 := Touching(7, 99 * SECOND)], map[],
        100 * SECOND);
    assert Step(C, SIGNED_IN, STEADY[0]) == s1;
    assert Step(C, s1, STEADY[1]) == s2;
    assert STEADY[1..] == [STEADY[1], STEADY[2]] && STEADY[1..][1..] == [STEADY[2]] && [STEADY[2]][1..] == [];
    assert Answers(C, s2, [STEADY[2]], 7) == [Refused];
    assert Answers(C, s1, STEADY[1..], 7) == [Refused];
    assert Refused in Answers(C, SIGNED_IN, STEADY, 7);
    assert Steady(C, s2, [STEADY[2]], 7, 99 * SECOND);
    assert Steady(C, s1, STEADY[1..], 7, 9 * SECOND);
    assert Rising([STEADY[2]], 99 * SECOND) && Rising(STEADY[1..], 9 * SECOND);
  }

  // ----- A sweep that is seen -----

  const SWEPT := [SIGN_IN, Read(2, 7, 99 * SECOND), Sweep(100 * SECOND), Finish(2)]

  lemma SweepIsSeen()
    ensures SessionSweeps.Outcomes(C, NONE, SWEPT) != SessionSweeps.Outcomes(C, NONE, SessionSweeps.Unswept(SWEPT))
  {
    SignsIn();
    var s := Session(0, map[2 := 99 * SECOND], map[2 := Touching(7, 99 * SECOND)], map[], 100 * SECOND);
    assert Step(C, SIGNED_IN, SWEPT[1]) == s;
    assert 7 in SessionSweeps.Taken(C, s.rows, 100 * SECOND);
    var last := [SWEPT[3]];
    assert !SessionSweeps.NoneCut(C, s, SessionSweeps.Taken(C, s.rows, 100 * SECOND), last);
    assert SWEPT[1..][1..][1..] == last && SWEPT[1..][1..][0] == SWEPT[2];
    assert !SessionSweeps.NoneCut(C, s, {}, SWEPT[1..][1..]);
    assert {} * s.rows.Keys == {} && {} * SIGNED_IN.rows.Keys == {};
    assert !SessionSweeps.NoneCut(C, SIGNED_IN, {}, SWEPT[1..]);
    SessionSweeps.SweepsAreUnobservableExactly(C, SWEPT);
  }

  // ----- Touches written in the other order -----

  /** Two requests read, and the later one writes first. The responses then arrive
      in the order of the requests. */
  const RACE := [
    SIGN_IN, Read(1, 7, 20 * SECOND), Read(2, 7, 21 * SECOND), Finish(2), Finish(1), Arrive(1), Arrive(2)]

  const READINGS := map[1 := 20 * SECOND, 2 := 21 * SECOND]

  const BOTH_WAITING :=
    Session(0, READINGS, map[1 := Touching(7, 20 * SECOND), 2 := Touching(7, 21 * SECOND)], map[], 100 * SECOND)

  const LATER_WRITTEN :=
    Session(21 * SECOND, READINGS, map[1 := Touching(7, 20 * SECOND)], map[2 := Reply(7, Some(121 * SECOND))],
            100 * SECOND)

  const BOTH_WRITTEN :=
    Session(20 * SECOND, READINGS, map[], map[1 := Reply(7, Some(120 * SECOND)), 2 := Reply(7, Some(121 * SECOND))],
            100 * SECOND)

  const BOTH_ARRIVED := Session(20 * SECOND, READINGS, map[], map[], 121 * SECOND)

  lemma RunOfMore(s: State, a: Action, rest: seq<Action>)
    ensures Run(C, s, [a] + rest) == Run(C, Step(C, s, a), rest)
  {
    assert ([a] + rest)[1..] == rest;
  }

  lemma BothWait()
    ensures Step(C, Step(C, Step(C, NONE, RACE[0]), RACE[1]), RACE[2]) == BOTH_WAITING
  {
    SignsIn();
    var one := Session(0, map[1 := 20 * SECOND], map[1 := Touching(7, 20 * SECOND)], map[], 100 * SECOND);
    assert Step(C, SIGNED_IN, RACE[1]) == one;
  }

  lemma BothWrite()
    ensures Step(C, BOTH_WAITING, Finish(2)) == LATER_WRITTEN && Step(C, LATER_WRITTEN, Finish(1)) == BOTH_WRITTEN
  {
  }

  lemma BothArrive()
    ensures Step(C, Step(C, BOTH_WRITTEN, Arrive(1)), Arrive(2)) == BOTH_ARRIVED
  {
  }

  /** The first n steps of the race. */
  lemma {:induction false} RunTakes(s: State, actions: seq<Action>, n: nat)
    requires n <= |actions|
    ensures n > 0 ==> Run(C, s, actions[..n]) == Step(C, Run(C, s, actions[..n - 1]), actions[n - 1])
    decreases n
  {
    if n == 1 {
      assert actions[..1] == [actions[0]] + [] && actions[..0] == [];
      RunOfMore(s, actions[0], []);
    } else if n > 1 {
      assert actions[..n] == [actions[0]] + actions[1..][..n - 1];
      assert actions[..n - 1] == [actions[0]] + actions[1..][..n - 2];
      RunOfMore(s, actions[0], actions[1..][..n - 1]);
      RunOfMore(s, actions[0], actions[1..][..n - 2]);
      RunTakes(Step(C, s, actions[0]), actions[1..], n - 1);
    }
  }

  lemma RaceReads()
    ensures Run(C, NONE, RACE[..3]) == BOTH_WAITING
  {
    assert RACE[..0] == [];
    RunTakes(NONE, RACE, 1);
    RunTakes(NONE, RACE, 2);
    RunTakes(NONE, RACE, 3);
    BothWait();
  }

  lemma RaceWrites()
    ensures Run(C, NONE, RACE[..4]) == LATER_WRITTEN && Run(C, NONE, RACE[..5]) == BOTH_WRITTEN
  {
    RaceReads();
    RunTakes(NONE, RACE, 4);
    RunTakes(NONE, RACE, 5);
    BothWrite();
  }

  lemma RaceEnds()
    ensures Run(C, NONE, RACE) == BOTH_ARRIVED
  {
    RaceWrites();
    RunTakes(NONE, RACE, 6);
    RunTakes(NONE, RACE, 7);
    BothArrive();
    assert RACE[..7] == RACE;
  }

  /** The touch is unconditional, so the earlier of two requests can leave the
      deadline. */
  lemma RacingTouchMovesBack()
    ensures var before, after := Run(C, NONE, RACE[..4]), Run(C, NONE, RACE[..5]);
            && 7 in before.rows && 7 in after.rows
            && before.rows[7].lastSeen == 21 * SECOND && after.rows[7].lastSeen == 20 * SECOND
  {
    RaceWrites();
  }

  /** And the browser keeps the cookie a second after the row has expired, with
      nothing more on its way. */
  lemma CookieOutlivesRow()
    ensures var s := Run(C, NONE, RACE);
            && SessionCookies.Quiet(s, 7) && 7 in s.rows && 7 in s.jar
            && s.jar[7] == s.rows[7].lastSeen + C.Ttl() + SECOND
  {
    RaceEnds();
  }
}
