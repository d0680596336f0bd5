/** The signature counter of one passkey, over every interleaving of sign-ins. A
    sign-in reads the row and compares, and later writes the row on a condition. */
module PasskeyCounter {

  /** Counters are 32 bits. The column is wider. */
  const MAX: int := 0xFFFF_FFFF

  type Id = nat

  function StoredCount(count: int): (c: int)
    ensures 0 <= c <= MAX
  {
    if count < 0 || count > MAX then MAX else count
  }

  predicate Cloned(stored: int, returned: int) {
    if stored == 0 && returned == 0 then false else returned <= stored
  }

  /** checked holds the counters of sign-ins that passed the first comparison and
      have yet to write. accepted is the counters accepted, in order, and answers
      says of each sign-in that is over whether it was accepted. */
  datatype State = State(count: int, checked: map<Id, int>, accepted: seq<int>, answers: map<Id, bool>)

  datatype Action = Check(id: Id, returned: int) | Record(id: Id)

  /** Devices send 32 bits. */
  predicate Sent(a: Action) {
    a.Check? ==> 0 <= a.returned <= MAX
  }

  function Step(s: State, a: Action): State {
    match a
    case Check(id, returned) =>
      if id in s.checked || id in s.answers then s
      else if Cloned(StoredCount(s.count), returned) then s.(answers := s.answers[id := false])
      else s.(checked := s.checked[id := returned])
    case Record(id) =>
      if id !in s.checked then s
      else
        var returned, left := s.checked[id], s.checked - {id};
        if s.count < returned || (s.count == 0 && returned == 0)
        then State(returned, left, s.accepted + [returned], s.answers[id := true])
        else s.(checked := left, answers := s.answers[id := false])
  }

  function Run(s: State, actions: seq<Action>): State
    decreases |actions|
  {
    if actions == [] then s else Run(Step(s, actions[0]), actions[1..])
  }

  function Registered(count: int): State {
    State(count, map[], [], map[])
  }

  predicate InRange(s: State) {
    0 <= s.count <= MAX && forall i :: i in s.checked ==> 0 <= s.checked[i] <= MAX
  }

  /** The counter is the last one accepted, and each one accepted is greater than
      every one before it, unless both are zero. */
  predicate Advancing(s: State, from: int) {
    && InRange(s) && from <= s.count
    && (forall i :: 0 <= i < |s.accepted| ==> from <= s.accepted[i] <= s.count)
    && (s.accepted != [] ==> s.accepted[|s.accepted| - 1] == s.count)
    && (s.accepted == [] ==> s.count == from)
    && (forall i, j :: 0 <= i < j < |s.accepted| ==>
       s.accepted[i] < s.accepted[j] || s.accepted[j] == 0 == s.accepted[i])
  }

  lemma {:induction false} RunAdvances(s: State, actions: seq<Action>, from: int)
    requires Advancing(s, from) && forall a :: a in actions ==> Sent(a)
    ensures Advancing(Run(s, actions), from) && s.count <= Run(s, actions).count
    decreases |actions|
  {
    if actions != [] {
      assert Sent(actions[0]);
      assert Advancing(Step(s, actions[0]), from);
      RunAdvances(Step(s, actions[0]), actions[1..], from);
    }
  }

  /** In every interleaving the stored counter is never less than it was and is the
      last one accepted, the non-zero counters accepted strictly increase, and zero
      is never accepted after a non-zero one. */
  lemma CountersIncrease(count: int, actions: seq<Action>)
    requires 0 <= count <= MAX && forall a :: a in actions ==> Sent(a)
    ensures var s := Run(Registered(count), actions);
            && count <= s.count <= MAX
            && s.count == (if s.accepted == [] then count else s.accepted[|s.accepted| - 1])
            && (forall i :: 0 <= i < |s.accepted| ==> count <= s.accepted[i] <= s.count)
            && (forall i, j :: 0 <= i < j < |s.accepted| && s.accepted[j] != 0 ==> s.accepted[i] < s.accepted[j])
            && (forall i, j :: 0 <= i < j < |s.accepted| && s.accepted[i] != 0 ==> s.accepted[j] != 0)
  {
    RunAdvances(Registered(count), actions, count);
  }

  lemma {:induction false} RunSplits(s: State, before: seq<Action>, after: seq<Action>)
    ensures Run(s, before + after) == Run(Run(s, before), after)
    decreases |before|
  {
    if before == [] {
      assert before + after == after;
    } else {
      assert (before + after)[1..] == before[1..] + after;
      RunSplits(Step(s, before[0]), before[1..], after);
    }
  }

  /** At no point of a run does the stored counter decrease. */
  lemma StoredNeverDecreases(s: State, before: seq<Action>, after: seq<Action>, from: int)
    requires Advancing(s, from) && forall a :: a in before + after ==> Sent(a)
    ensures Run(s, before).count <= Run(s, before + after).count
  {
    assert forall a :: a in before ==> a in before + after;
    assert forall a :: a in after ==> a in before + after;
    RunSplits(s, before, after);
    RunAdvances(s, before, from);
    RunAdvances(Run(s, before), after, from);
  }

  // ----- Which sign-ins are refused -----

  /** The counter moved on, or the authenticator keeps none. */
  predicate Advances(stored: int, returned: int) {
    stored < returned || (stored == 0 && returned == 0)
  }

  lemma {:induction false} OthersLeaveIt(s: State, id: Id, actions: seq<Action>)
    requires forall a :: a in actions ==> a.id != id
    ensures var s' := Run(s, actions);
            && (id in s'.checked <==> id in s.checked) && (id in s'.answers <==> id in s.answers)
            && (id in s.checked ==> s'.checked[id] == s.checked[id])
            && (id in s.answers ==> s'.answers[id] == s.answers[id])
    decreases |actions|
  {
    if actions != [] {
      assert actions[0].id != id;
      OthersLeaveIt(Step(s, actions[0]), id, actions[1..]);
    }
  }

  /** The run up to the write of a sign-in, with any steps of others before it and
      between its two statements. */
  function UpToWrite(before: seq<Action>, id: Id, returned: int, between: seq<Action>): seq<Action> {
    before + ([Check(id, returned)] + between)
  }

  lemma UpToWriteRuns(s: State, before: seq<Action>, id: Id, returned: int, between: seq<Action>)
    ensures Run(s, UpToWrite(before, id, returned, between))
            == Run(Step(Run(s, before), Check(id, returned)), between)
  {
    RunSplits(s, before, [Check(id, returned)] + between);
    assert ([Check(id, returned)] + between)[1..] == between;
  }

  /** In every interleaving a sign-in has its answer once it has written, and is
      refused exactly when its counter had not advanced on the one stored when it
      checked or on the one stored when it wrote. */
  lemma RefusedExactly(count: int, before: seq<Action>, id: Id, returned: int, between: seq<Action>)
    requires 0 <= count <= MAX && 0 <= returned <= MAX
    requires forall a :: a in before + between ==> Sent(a) && a.id != id
    ensures var checks := Run(Registered(count), before);
            var writes := Run(Registered(count), UpToWrite(before, id, returned, between));
            var done := Step(writes, Record(id));
            && id in done.answers
            && (!done.answers[id] <==> !Advances(checks.count, returned) || !Advances(writes.count, returned))
            && done.count == (if done.answers[id] then returned else writes.count)
            && done.accepted == if done.answers[id] then writes.accepted + [returned] else writes.accepted
  {
    assert forall a :: a in before ==> a in before + between;
    assert forall a :: a in between ==> a in before + between;
    var s := Registered(count);
    RunAdvances(s, before, count);
    OthersLeaveIt(s, id, before);
    OthersLeaveIt(Step(Run(s, before), Check(id, returned)), id, between);
    UpToWriteRuns(s, before, id, returned, between);
  }

  /** To advance on the stored counter is to advance on all before it. */
  lemma AdvancesOnAll(s: State, count: int, returned: int)
    requires Advancing(s, count) && 0 <= count && 0 <= returned
    ensures Advances(s.count, returned) <==>
            || (count < returned && forall c :: c in s.accepted ==> c < returned)
            || (count == 0 == returned && forall c :: c in s.accepted ==> c == 0)
  {
    assert s.accepted != [] ==> s.count in s.accepted;
  }

  /** In terms of the sign-ins alone: one is accepted exactly when its counter is
      greater than the registered one and every one accepted before it wrote, or all
      of them are zero. */
  lemma AcceptedExactly(count: int, before: seq<Action>, id: Id, returned: int, between: seq<Action>)
    requires 0 <= count <= MAX && 0 <= returned <= MAX
    requires forall a :: a in before + between ==> Sent(a) && a.id != id
    ensures var writes := Run(Registered(count), UpToWrite(before, id, returned, between));
            var done := Step(writes, Record(id));
            && id in done.answers
            && (done.answers[id] <==>
                || (count < returned && forall c :: c in writes.accepted ==> c < returned)
                || (count == 0 == returned && forall c :: c in writes.accepted ==> c == 0))
            && done.accepted == if done.answers[id] then writes.accepted + [returned] else writes.accepted
  {
    var s, run := Registered(count), UpToWrite(before, id, returned, between);
    RefusedExactly(count, before, id, returned, between);
    SentUpToWrite(before, id, returned, between);
    RunAdvances(s, run, count);
    StoredNeverDecreases(s, before, [Check(id, returned)] + between, count);
    AdvancesOnAll(Run(s, run), count, returned);
  }

  lemma SentUpToWrite(before: seq<Action>, id: Id, returned: int, between: seq<Action>)
    requires 0 <= returned <= MAX && forall a :: a in before + between ==> Sent(a)
    ensures forall a :: a in UpToWrite(before, id, returned, between) ==> Sent(a)
  {
    assert forall a :: a in UpToWrite(before, id, returned, between) ==>
      a in before + between || a == Check(id, returned);
  }

  /** One sign-in after another, each with its own counter. */
  function InTurn(counters: seq<int>): (actions: seq<Action>) {
    if counters == [] then []
    else InTurn(counters[..|counters| - 1])
         + [Check(|counters| - 1, counters[|counters| - 1]), Record(|counters| - 1)]
  }

  lemma TurnIsAccepted(s: State, id: Id, returned: int)
    requires s.checked == map[] && id !in s.answers && 0 <= s.count < returned <= MAX
    ensures Run(s, [Check(id, returned), Record(id)])
            == State(returned, map[], s.accepted + [returned], s.answers[id := true])
  {
    var checked := Step(s, Check(id, returned));
    assert checked == s.(checked := map[id := returned]);
    assert checked.checked - {id} == map[];
    assert [Check(id, returned), Record(id)][1..] == [Record(id)] && [Record(id)][1..] == [];
    assert Run(Step(checked, Record(id)), []) == Step(checked, Record(id));
    assert Run(checked, [Record(id)]) == Step(checked, Record(id));
  }

  /** A device that counts up from what was registered is accepted every time. */
  lemma {:induction false} HonestIsAccepted(count: int, counters: seq<int>)
    requires 0 <= count <= MAX
    requires forall i :: 0 <= i < |counters| ==> count < counters[i] <= MAX
    requires forall i, j :: 0 <= i < j < |counters| ==> counters[i] < counters[j]
    ensures var s := Run(Registered(count), InTurn(counters));
            && s.accepted == counters && s.checked == map[]
            && (forall i :: i in s.answers <==> 0 <= i < |counters|) && (forall i :: i in s.answers ==> s.answers[i])
            && s.count == if counters == [] then count else counters[|counters| - 1]
    decreases |counters|
  {
    if counters != [] {
      var n := |counters| - 1;
      var earlier := InTurn(counters[..n]);
      HonestIsAccepted(count, counters[..n]);
      RunSplits(Registered(count), earlier, [Check(n, counters[n]), Record(n)]);
      TurnIsAccepted(Run(Registered(count), earlier), n, counters[n]);
      assert counters == counters[..n] + [counters[n]];
    }
  }

  /** An authenticator that keeps no counter is never refused. */
  lemma {:induction false} ZerosAreNeverRefused(s: State, actions: seq<Action>)
    requires s.count == 0 && (forall i :: i in s.checked ==> s.checked[i] == 0)
             && forall i :: i in s.answers ==> s.answers[i]
    requires forall a :: a in actions && a.Check? ==> a.returned == 0
    ensures Run(s, actions).count == 0 && forall i :: i in Run(s, actions).answers ==> Run(s, actions).answers[i]
    decreases |actions|
  {
    if actions != [] {
      ZerosAreNeverRefused(Step(s, actions[0]), actions[1..]);
    }
  }

  /** A row no ceremony could have written refuses every sign-in. */
  lemma {:induction false} OutOfRangeRefusesAll(s: State, actions: seq<Action>)
    requires (s.count < 0 || s.count > MAX) && s.checked == map[] && s.accepted == []
    requires forall i :: i in s.answers ==> !s.answers[i]
    requires forall a :: a in actions ==> Sent(a)
    ensures var s' := Run(s, actions);
            && s'.accepted == [] && s'.count == s.count
            && (forall a :: a in actions && a.Check? ==> a.id in s'.answers)
            && forall i :: i in s'.answers ==> !s'.answers[i]
    decreases |actions|
  {
    if actions != [] {
      assert Sent(actions[0]);
      var s' := Step(s, actions[0]);
      OutOfRangeRefusesAll(s', actions[1..]);
      AnswersStay(s', actions[1..]);
    }
  }

  lemma {:induction false} AnswersStay(s: State, actions: seq<Action>)
    ensures s.answers.Keys <= Run(s, actions).answers.Keys
    decreases |actions|
  {
    if actions != [] {
      AnswersStay(Step(s, actions[0]), actions[1..]);
    }
  }
}
