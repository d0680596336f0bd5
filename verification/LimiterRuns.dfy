/** Whole runs of the limiter: sweeping is unobservable, the map stays small,
    no window admits more than its budget, and a delay is exact. */
module LimiterRuns {
  import opened TokenBucket
  import opened RateLimit

  datatype Call = Call(key: Key, now: int)

  predicate Ordered(calls: seq<Call>, clock: int) {
    calls == [] || (clock <= calls[0].now && Ordered(calls[1..], calls[0].now))
  }

  /** The answers the sweeping limiter gives to a run of calls. */
  function Answers(c: Config, s: State, calls: seq<Call>): (r: seq<Decision>)
    ensures |r| == |calls|
    decreases |calls|
  {
    if calls == [] then []
    else
      var (s', d) := Step(c, s, calls[0].key, calls[0].now);
      [d] + Answers(c, s', calls[1..])
  }

  function After(c: Config, s: State, calls: seq<Call>): State
    decreases |calls|
  {
    if calls == [] then s
    else After(c, Step(c, s, calls[0].key, calls[0].now).0, calls[1..])
  }

  // ----- The reference: a limiter that never deletes a bucket -----

  type Buckets = map<Key, Bucket>

  function Level(c: Config, m: Buckets, key: Key): Bucket {
    if key in m then m[key] else Fresh(c)
  }

  function PlainAnswers(c: Config, m: Buckets, calls: seq<Call>): (r: seq<Decision>)
    ensures |r| == |calls|
    decreases |calls|
  {
    if calls == [] then []
    else
      var (b, d) := Spend(c, Level(c, m, calls[0].key), calls[0].now);
      [d] + PlainAnswers(c, m[calls[0].key := b], calls[1..])
  }

  predicate PlainValid(c: Config, m: Buckets, clock: int) {
    forall k :: k in m ==> Settled(c, m[k], clock) && 0 <= m[k].last
  }

  /** The sweeping limiter holds the reference's bucket for every key it holds,
      and every bucket it has dropped is full again by `clock`. */
  predicate Agree(c: Config, s: State, m: Buckets, clock: int) {
    && PlainValid(c, m, clock)
    && (forall k :: k in s.buckets ==> k in m && s.buckets[k] == Entry(m[k], m[k].last))
    && (forall k :: k in m && k !in s.buckets ==> clock - m[k].last >= c.Refill())
  }

  lemma StepAgrees(c: Config, s: State, m: Buckets, clock: int, key: Key, now: int)
    requires c.Valid() && Agree(c, s, m, clock) && 0 <= clock <= now
    ensures var (s', d) := Step(c, s, key, now);
            var (b, d') := Spend(c, Level(c, m, key), now);
            d == d' && Agree(c, s', m[key := b], now)
  {
    var kept := Swept(c, s, now);
    assert Agree(c, kept, m, now);
    if key in m {
      SpendAccounts(c, m[key], clock, now);
      if key !in kept.buckets {
        IdleIsFresh(c, m[key], clock, now);
      }
    } else {
      SpendAccounts(c, Fresh(c), clock, now);
    }
  }

  lemma {:induction false} SweepingAgrees(c: Config, s: State, m: Buckets, clock: int, calls: seq<Call>)
    requires c.Valid() && Agree(c, s, m, clock) && 0 <= clock && Ordered(calls, clock)
    ensures Answers(c, s, calls) == PlainAnswers(c, m, calls)
    decreases |calls|
  {
    if calls != [] {
      var call := calls[0];
      StepAgrees(c, s, m, clock, call.key, call.now);
      var (s', _) := Step(c, s, call.key, call.now);
      var (b, _) := Spend(c, Level(c, m, call.key), call.now);
      SweepingAgrees(c, s', m[call.key := b], call.now, calls[1..]);
    }
  }

  /** Deleting an idle bucket changes no later answer, over every run of calls
      on any keys at non-decreasing times. */
  lemma SweepIsUnobservable(c: Config, calls: seq<Call>)
    requires c.Valid() && Ordered(calls, 0)
    ensures Answers(c, EMPTY, calls) == PlainAnswers(c, map[], calls)
  {
    SweepingAgrees(c, EMPTY, map[], 0, calls);
  }

  // ----- The map does not grow with the number of distinct keys ever seen -----

  predicate Recent(c: Config, s: State, clock: int) {
    && 0 <= s.lastSweep <= clock
    && (forall k :: k in s.buckets ==> s.lastSweep - c.Refill() < s.buckets[k].lastSeen <= clock)
  }

  lemma {:induction false} KeepsRecent(c: Config, s: State, clock: int, calls: seq<Call>)
    requires c.Valid() && Recent(c, s, clock) && Ordered(calls, clock)
    ensures Recent(c, After(c, s, calls), if calls == [] then clock else calls[|calls| - 1].now)
    ensures calls != [] ==> calls[|calls| - 1].now - After(c, s, calls).lastSweep < c.Refill()
    decreases |calls|
  {
    if calls != [] {
      PeriodWithinRefill(c);
      var s' := Step(c, s, calls[0].key, calls[0].now).0;
      assert Recent(c, s', calls[0].now);
      KeepsRecent(c, s', calls[0].now, calls[1..]);
    }
  }

  /** After every call, every bucket left was seen less than two refills ago. */
  lemma BucketsAreRecent(c: Config, calls: seq<Call>, k: Key)
    requires c.Valid() && Ordered(calls, 0) && calls != []
    requires k in After(c, EMPTY, calls).buckets
    ensures calls[|calls| - 1].now - After(c, EMPTY, calls).buckets[k].lastSeen < 2 * c.Refill()
  {
    KeepsRecent(c, EMPTY, 0, calls);
  }

  // ----- The budget of a window -----

  /** Calls on `key` allowed at a time in [from, from + span]. */
  function AllowedIn(calls: seq<Call>, answers: seq<Decision>, key: Key, from: int, span: nat): (n: nat)
    requires |calls| == |answers|
  {
    if calls == [] then 0
    else
      (if calls[0].key == key && answers[0].Allowed? && from <= calls[0].now <= from + span then 1 else 0)
      + AllowedIn(calls[1..], answers[1..], key, from, span)
  }

  /** How far the clock moves forward from one reading to another, and how far
      back. */
  function Forward(clock: int, now: int): nat {
    if now > clock then now - clock else 0
  }

  function BackStep(clock: int, now: int): nat {
    if now < clock then clock - now else 0
  }

  function BackFrom(clock: int, calls: seq<Call>): nat
    decreases |calls|
  {
    if calls == [] then 0 else BackStep(clock, calls[0].now) + BackFrom(calls[0].now, calls[1..])
  }

  /** All the back-steps of a run: how far in total a call's reading is before that
      of the call the limiter answered just before it. */
  function BackSteps(calls: seq<Call>): nat {
    if calls == [] then 0 else BackFrom(calls[0].now, calls[1..])
  }

  /** What a key has to spend at a time, its bucket being full if it has none. */
  function Potential(c: Config, s: State, key: Key, clock: int): int {
    if key in s.buckets then Holds(c, s.buckets[key].bucket, clock) else c.Refill()
  }

  predicate Filled(c: Config, s: State) {
    forall k :: k in s.buckets ==>
                  && 0 <= s.buckets[k].bucket.level <= c.Refill()
                  && s.buckets[k].lastSeen == s.buckets[k].bucket.last
  }

  /** A sweep takes nothing that anybody has, and adds nothing, at that time. */
  lemma SweepKeepsPotential(c: Config, s: State, key: Key, now: int)
    requires c.Valid() && Filled(c, s)
    ensures Filled(c, Swept(c, s, now)) && Potential(c, Swept(c, s, now), key, now) == Potential(c, s, key, now)
  {
  }

  lemma PotentialGrows(c: Config, s: State, key: Key, clock: int, now: int)
    requires c.Valid() && Filled(c, s)
    ensures 0 <= Potential(c, s, key, now) <= c.Refill()
    ensures Potential(c, s, key, now) <= Potential(c, s, key, clock) + Forward(clock, now)
  {
  }

  /** What a call spends and leaves is no more than there was and the clock added. */
  lemma CallSpends(c: Config, s: State, call: Call, key: Key, clock: int)
    requires c.Valid() && Filled(c, s)
    ensures var (s', d) := Step(c, s, call.key, call.now);
            && Filled(c, s') && 0 <= Potential(c, s', key, call.now)
            && Potential(c, s', key, call.now) + (if call.key == key && d.Allowed? then c.period else 0)
               <= Potential(c, s, key, clock) + Forward(clock, call.now)
  {
    var kept := Swept(c, s, call.now);
    SweepKeepsPotential(c, s, key, call.now);
    PotentialGrows(c, s, key, clock, call.now);
    SweepKeepsPotential(c, s, call.key, call.now);
    SpendAtAnyTime(c, BucketFor(c, kept.buckets, call.key), call.now);
    PotentialGrows(c, Step(c, s, call.key, call.now).0, key, call.now, call.now);
  }

  predicate InWindow(call: Call, key: Key, from: int, span: nat) {
    call.key == key && from <= call.now <= from + span
  }

  predicate AnyInWindow(calls: seq<Call>, key: Key, from: int, span: nat) {
    calls != [] && (InWindow(calls[0], key, from, span) || AnyInWindow(calls[1..], key, from, span))
  }

  /** How far the clock moves forward up to the last call inside the window. */
  function Reach(clock: int, calls: seq<Call>, key: Key, from: int, span: nat): nat
    decreases |calls|
  {
    if !AnyInWindow(calls, key, from, span) then 0
    else Forward(clock, calls[0].now) + Reach(calls[0].now, calls[1..], key, from, span)
  }

  lemma {:induction false} ReachIsBounded(clock: int, calls: seq<Call>, key: Key, from: int, span: nat)
    requires AnyInWindow(calls, key, from, span)
    ensures Reach(clock, calls, key, from, span) <= from + span - clock + BackFrom(clock, calls)
    decreases |calls|
  {
    var now, rest := calls[0].now, calls[1..];
    if AnyInWindow(rest, key, from, span) {
      ReachIsBounded(now, rest, key, from, span);
    }
  }

  lemma {:induction false} SpentWithinReach(
    c: Config, s: State, clock: int, calls: seq<Call>, key: Key, from: int, span: nat)
    requires c.Valid() && Filled(c, s)
    ensures AllowedIn(calls, Answers(c, s, calls), key, from, span) * c.period
            <= if AnyInWindow(calls, key, from, span)
                then Potential(c, s, key, clock) + Reach(clock, calls, key, from, span) else 0
    decreases |calls|
  {
    if calls != [] {
      var call, rest := calls[0], calls[1..];
      var (s', d) := Step(c, s, call.key, call.now);
      CallSpends(c, s, call, key, clock);
      SpentWithinReach(c, s', call.now, rest, key, from, span);
      AllowedFirst(c, s, calls, key, from, span);
      OneMoreToken(AllowedIn(rest, Answers(c, s', rest), key, from, span), c.period);
    }
  }

  /** The count of a run is that of its first call and of the rest. */
  lemma AllowedFirst(c: Config, s: State, calls: seq<Call>, key: Key, from: int, span: nat)
    requires calls != []
    ensures var (s', d) := Step(c, s, calls[0].key, calls[0].now);
            AllowedIn(calls, Answers(c, s, calls), key, from, span)
            == (if InWindow(calls[0], key, from, span) && d.Allowed? then 1 else 0)
               + AllowedIn(calls[1..], Answers(c, s', calls[1..]), key, from, span)
  {
    var s' := Step(c, s, calls[0].key, calls[0].now).0;
    assert Answers(c, s, calls)[1..] == Answers(c, s', calls[1..]);
  }

  lemma OneMoreToken(n: int, p: int)
    ensures (1 + n) * p == p + n * p
  {
  }

  /** From a call inside the window on, no more is spent than a full bucket and what
      the clock adds. */
  lemma SpentFromHere(c: Config, s: State, calls: seq<Call>, key: Key, from: int, span: nat)
    requires c.Valid() && Filled(c, s) && calls != [] && InWindow(calls[0], key, from, span)
    ensures AllowedIn(calls, Answers(c, s, calls), key, from, span) * c.period <= c.Refill() + span + BackSteps(calls)
  {
    var now, rest := calls[0].now, calls[1..];
    SpentWithinReach(c, s, now, calls, key, from, span);
    PotentialGrows(c, s, key, now, now);
    if AnyInWindow(rest, key, from, span) {
      ReachIsBounded(now, rest, key, from, span);
    }
  }

  lemma {:induction false} SpentWithinBudget(c: Config, s: State, calls: seq<Call>, key: Key, from: int, span: nat)
    requires c.Valid() && Filled(c, s)
    ensures AllowedIn(calls, Answers(c, s, calls), key, from, span) * c.period <= c.Refill() + span + BackSteps(calls)
    decreases |calls|
  {
    if calls != [] {
      if InWindow(calls[0], key, from, span) {
        SpentFromHere(c, s, calls, key, from, span);
      } else {
        var s' := Step(c, s, calls[0].key, calls[0].now).0;
        CallSpends(c, s, calls[0], key, calls[0].now);
        SpentWithinBudget(c, s', calls[1..], key, from, span);
        AllowedFirst(c, s, calls, key, from, span);
      }
    }
  }

  lemma CancelFactor(a: int, b: int, p: nat)
    requires a * p < b * p
    ensures a < b
  {
    assert (b - a) * p > 0;
  }

  lemma DivideBudget(n: nat, p: nat, burst: nat, span: nat)
    requires p >= 1 && n * p <= burst * p + span
    ensures n <= burst + span / p
  {
    assert span < (span / p + 1) * p;
    assert (burst + span / p + 1) * p == burst * p + (span / p + 1) * p;
    CancelFactor(n, burst + span / p + 1, p);
  }

  /** In every run, whatever the clock does, the calls allowed for one key within a
      window of length `span` number at most burst + floor((span + back) / period),
      where back is how far the limiter's clock readings go back in all. */
  lemma WindowBound(c: Config, calls: seq<Call>, key: Key, from: int, span: nat)
    requires c.Valid()
    ensures AllowedIn(calls, Answers(c, EMPTY, calls), key, from, span)
            <= c.burst + (span + BackSteps(calls)) / c.period
  {
    var n := AllowedIn(calls, Answers(c, EMPTY, calls), key, from, span);
    SpentWithinBudget(c, EMPTY, calls, key, from, span);
    DivideBudget(n, c.period, c.burst, span + BackSteps(calls));
  }

  lemma {:induction false} OrderedNeverStepsBack(calls: seq<Call>, clock: int)
    requires Ordered(calls, clock)
    ensures BackFrom(clock, calls) == 0 == BackSteps(calls)
    decreases |calls|
  {
    if calls != [] {
      OrderedNeverStepsBack(calls[1..], calls[0].now);
    }
  }

  /** So on readings in order it is burst + floor(span / period). */
  lemma WindowBoundInOrder(c: Config, calls: seq<Call>, key: Key, from: int, span: nat)
    requires c.Valid() && Ordered(calls, 0)
    ensures AllowedIn(calls, Answers(c, EMPTY, calls), key, from, span) <= c.burst + span / c.period
  {
    OrderedNeverStepsBack(calls, 0);
    WindowBound(c, calls, key, from, span);
  }

  /** A token a minute. */
  const SLOW := Config(60, 1)

  /** Out of order the bound without back-steps fails: a refused call with an earlier
      reading sets the bucket's clock back, and the time is then added again. */
  lemma OutOfOrderOverspends()
    ensures var calls := [Call("a", 100), Call("a", 50), Call("a", 110)];
            AllowedIn(calls, Answers(SLOW, EMPTY, calls), "a", 100, 10) == 2 > SLOW.burst + 10 / SLOW.period
  {
    var a, b, c := Call("a", 100), Call("a", 50), Call("a", 110);
    var s1 := State(map["a" := Entry(Bucket(0, 100), 100)], 100);
    var s2 := State(map["a" := Entry(Bucket(0, 50), 50)], 100);
    assert Step(SLOW, EMPTY, "a", 100) == (s1, Allowed);
    assert Swept(SLOW, s1, 50) == s1 && Spend(SLOW, Bucket(0, 100), 50) == (Bucket(0, 50), Refused(60));
    assert s1.buckets["a" := Entry(Bucket(0, 50), 50)] == s2.buckets;
    assert Step(SLOW, s1, "a", 50) == (s2, Refused(60));
    assert Step(SLOW, s2, "a", 110).1 == Allowed;
    ThreeCalls(a, b, c, "a", 100, 10);
  }

  /** A key's own back-steps are not enough either: a sweep in a call on another key,
      with a later reading, drops the bucket before it has filled. */
  lemma AnotherKeyOverspends()
    ensures var calls := [Call("a", 100), Call("b", 200), Call("a", 110)];
            AllowedIn(calls, Answers(SLOW, EMPTY, calls), "a", 100, 10) == 2 > SLOW.burst + 10 / SLOW.period
  {
    var a, b, c := Call("a", 100), Call("b", 200), Call("a", 110);
    var s1 := State(map["a" := Entry(Bucket(0, 100), 100)], 100);
    var s2 := State(map["b" := Entry(Bucket(0, 200), 200)], 200);
    assert Step(SLOW, EMPTY, "a", 100) == (s1, Allowed);
    assert Step(SLOW, s1, "b", 200) == (s2, Allowed);
    assert Step(SLOW, s2, "a", 110).1 == Allowed;
    ThreeCalls(a, b, c, "a", 100, 10);
  }

  /** The count of a run of three calls. */
  lemma ThreeCalls(a: Call, b: Call, c: Call, key: Key, from: int, span: nat)
    ensures var (s1, d1) := Step(SLOW, EMPTY, a.key, a.now);
            var (s2, d2) := Step(SLOW, s1, b.key, b.now);
            var d3 := Step(SLOW, s2, c.key, c.now).1;
            AllowedIn([a, b, c], Answers(SLOW, EMPTY, [a, b, c]), key, from, span)
            == (if InWindow(a, key, from, span) && d1.Allowed? then 1 else 0)
               + (if InWindow(b, key, from, span) && d2.Allowed? then 1 else 0)
               + (if InWindow(c, key, from, span) && d3.Allowed? then 1 else 0)
  {
    var s1 := Step(SLOW, EMPTY, a.key, a.now).0;
    var s2 := Step(SLOW, s1, b.key, b.now).0;
    assert [a, b, c][1..] == [b, c] && [b, c][1..] == [c] && [c][1..] == [];
    AllowedFirst(SLOW, EMPTY, [a, b, c], key, from, span);
    AllowedFirst(SLOW, s1, [b, c], key, from, span);
    AllowedFirst(SLOW, s2, [c], key, from, span);
  }

  // ----- The delay a refusal reports -----

  function PlainAfter(c: Config, m: Buckets, calls: seq<Call>): Buckets
    decreases |calls|
  {
    if calls == [] then m
    else PlainAfter(c, m[calls[0].key := Spend(c, Level(c, m, calls[0].key), calls[0].now).0], calls[1..])
  }

  function End(calls: seq<Call>, clock: int): int {
    if calls == [] then clock else calls[|calls| - 1].now
  }

  lemma {:induction false} RunContinues(c: Config, m: Buckets, clock: int, a: seq<Call>, b: seq<Call>)
    requires c.Valid() && PlainValid(c, m, clock) && 0 <= clock && Ordered(a + b, clock)
    ensures clock <= End(a, clock) && Ordered(a, clock) && Ordered(b, End(a, clock))
    ensures PlainValid(c, PlainAfter(c, m, a), End(a, clock))
    decreases |a|
  {
    if a == [] {
      assert a + b == b;
    } else {
      assert (a + b)[1..] == a[1..] + b;
      SpendAccounts(c, Level(c, m, a[0].key), clock, a[0].now);
      var m' := m[a[0].key := Spend(c, Level(c, m, a[0].key), a[0].now).0];
      RunContinues(c, m', a[0].now, a[1..], b);
    }
  }

  lemma {:induction false} AnswersSplit(c: Config, m: Buckets, a: seq<Call>, b: seq<Call>)
    ensures PlainAnswers(c, m, a + b) == PlainAnswers(c, m, a) + PlainAnswers(c, PlainAfter(c, m, a), b)
    decreases |a|
  {
    if a == [] {
      assert a + b == b;
    } else {
      assert (a + b)[1..] == a[1..] + b;
      AnswersSplit(c, m[a[0].key := Spend(c, Level(c, m, a[0].key), a[0].now).0], a[1..], b);
    }
  }

  /** The bucket is short of a token, and will hold one at `due`. */
  predicate ShortUntil(c: Config, b: Bucket, due: int) {
    b.level + (due - b.last) == c.period && b.last < due
  }

  predicate NoneDue(calls: seq<Call>, key: Key, due: int) {
    forall i :: 0 <= i < |calls| && calls[i].key == key ==> calls[i].now < due
  }

  lemma {:induction false} RefusedUntilDue(c: Config, m: Buckets, clock: int, calls: seq<Call>, key: Key, due: int)
    requires c.Valid() && PlainValid(c, m, clock) && 0 <= clock && Ordered(calls, clock)
    requires key in m && ShortUntil(c, m[key], due) && NoneDue(calls, key, due)
    ensures forall i :: 0 <= i < |calls| && calls[i].key == key ==>
                          PlainAnswers(c, m, calls)[i] == Refused(due - calls[i].now)
    ensures key in PlainAfter(c, m, calls) && ShortUntil(c, PlainAfter(c, m, calls)[key], due)
    decreases |calls|
  {
    if calls != [] {
      PeriodWithinRefill(c);
      var call := calls[0];
      var (b, d) := Spend(c, Level(c, m, call.key), call.now);
      SpendAccounts(c, Level(c, m, call.key), clock, call.now);
      var m' := m[call.key := b];
      assert NoneDue(calls[1..], key, due) by {
        assert forall i :: 0 <= i < |calls| - 1 ==> calls[1..][i] == calls[i + 1];
      }
      RefusedUntilDue(c, m', call.now, calls[1..], key, due);
      assert PlainAnswers(c, m, calls) == [d] + PlainAnswers(c, m', calls[1..]);
      forall i | 0 <= i < |calls| && calls[i].key == key
        ensures PlainAnswers(c, m, calls)[i] == Refused(due - calls[i].now)
      {
        if i > 0 {
          assert calls[1..][i - 1] == calls[i];
        }
      }
    }
  }

  /** A run that makes two calls on `key`, with any calls before, between. */
  function Twice(before: seq<Call>, first: Call, between: seq<Call>, second: Call): (r: seq<Call>) {
    before + ([first] + (between + [second]))
  }

  lemma TwiceSplits(c: Config, before: seq<Call>, first: Call, between: seq<Call>, second: Call)
    requires c.Valid() && Ordered(Twice(before, first, between, second), 0)
    ensures var m := PlainAfter(c, map[], before);
            var (b, d) := Spend(c, Level(c, m, first.key), first.now);
            var m' := m[first.key := b];
            var m'' := PlainAfter(c, m', between);
            && PlainAnswers(c, map[], Twice(before, first, between, second))
               == PlainAnswers(c, map[], before)
                  + ([d] + (PlainAnswers(c, m', between) + [Spend(c, Level(c, m'', second.key), second.now).1]))
            && PlainValid(c, m, End(before, 0)) && 0 <= End(before, 0) <= first.now
            && PlainValid(c, m', first.now) && Ordered(between, first.now)
            && PlainValid(c, m'', End(between, first.now)) && End(between, first.now) <= second.now
  {
    var tail := between + [second];
    var m := PlainAfter(c, map[], before);
    var (b, d) := Spend(c, Level(c, m, first.key), first.now);
    var m' := m[first.key := b];
    RunContinues(c, map[], 0, before, [first] + tail);
    AnswersSplit(c, map[], before, [first] + tail);
    SpendAccounts(c, Level(c, m, first.key), End(before, 0), first.now);
    assert ([first] + tail)[1..] == tail;
    RunContinues(c, m', first.now, between, [second]);
    AnswersSplit(c, m', between, [second]);
  }

  /** A call on `key` is refused at `now` with a delay. Every later call on the
      key before now + delay is refused, however many there are and whatever
      other keys do, and the next call on it is allowed exactly when it comes
      at or after now + delay. */
  lemma RetryIsExact(c: Config, before: seq<Call>, between: seq<Call>, key: Key, now: int, retry: int)
    requires c.Valid()
    requires Ordered(Twice(before, Call(key, now), between, Call(key, retry)), 0)
    ensures var run := Twice(before, Call(key, now), between, Call(key, retry));
            var answers := Answers(c, EMPTY, run);
            answers[|before|].Refused? ==>
              var due := now + answers[|before|].delay;
              NoneDue(between, key, due) ==>
                && (forall i :: |before| < i < |run| - 1 && run[i].key == key ==>
                   answers[i] == Refused(due - run[i].now))
                && (answers[|run| - 1].Allowed? <==> retry >= due)
  {
    var first, second := Call(key, now), Call(key, retry);
    var run := Twice(before, first, between, second);
    SweepIsUnobservable(c, run);
    TwiceSplits(c, before, first, between, second);
    var m := PlainAfter(c, map[], before);
    var (b, d) := Spend(c, Level(c, m, key), now);
    SpendAccounts(c, Level(c, m, key), End(before, 0), now);
    var m' := m[key := b];
    var last := Spend(c, Level(c, PlainAfter(c, m', between), key), retry).1;
    var inside := PlainAnswers(c, m', between);
    ReadTwice(before, first, between, second, PlainAnswers(c, map[], before), d, inside, last);
    if d.Refused? && NoneDue(between, key, now + d.delay) {
      RetryWhenDue(c, m', now, between, key, now + d.delay, retry);
    }
  }

  /** From a bucket short until `due`, a call later on is allowed exactly from
      then on, whatever is called before. */
  lemma RetryWhenDue(c: Config, m: Buckets, clock: int, between: seq<Call>, key: Key, due: int, retry: int)
    requires c.Valid() && PlainValid(c, m, clock) && 0 <= clock && Ordered(between, clock)
             && End(between, clock) <= retry
    requires key in m && ShortUntil(c, m[key], due) && NoneDue(between, key, due)
    requires PlainValid(c, PlainAfter(c, m, between), End(between, clock))
    ensures forall j :: 0 <= j < |between| && between[j].key == key ==>
            PlainAnswers(c, m, between)[j] == Refused(due - between[j].now)
    ensures Spend(c, Level(c, PlainAfter(c, m, between), key), retry).1.Allowed? <==> retry >= due
  {
    RefusedUntilDue(c, m, clock, between, key, due);
    SpendAccounts(c, PlainAfter(c, m, between)[key], End(between, clock), retry);
    PeriodWithinRefill(c);
  }

  /** Where the parts of a run of two calls, and of its answers, are. */
  lemma ReadTwice(before: seq<Call>, first: Call, between: seq<Call>, second: Call,
                  earlier: seq<Decision>, d: Decision, inside: seq<Decision>, last: Decision)
    requires |earlier| == |before| && |inside| == |between|
    ensures var run := Twice(before, first, between, second);
            var answers := earlier + ([d] + (inside + [last]));
            && |run| == |answers| == |before| + |between| + 2
            && answers[|before|] == d && answers[|run| - 1] == last
            && forall i :: |before| < i < |run| - 1 ==>
               run[i] == between[i - |before| - 1] && answers[i] == inside[i - |before| - 1]
  {
  }

  const SECOND: int := 1_000_000_000

  /** Limit rounds the delay up to whole seconds: the fewest that reach it, and never
      zero. */
  function RetryAfter(delay: int): (seconds: int)
    ensures seconds >= 1 && delay <= seconds * SECOND && (seconds == 1 || (seconds - 1) * SECOND < delay)
  {
    var seconds := (delay + SECOND - 1) / SECOND;
    if seconds < 1 then 1 else seconds
  }

  /** A client that waits the Retry-After seconds is allowed, if nobody else has
      used the key in the meantime. */
  lemma RetryAfterIsEnough(c: Config, before: seq<Call>, between: seq<Call>, key: Key, now: int, retry: int)
    requires c.Valid()
    requires forall i :: 0 <= i < |between| ==> between[i].key != key
    requires Ordered(Twice(before, Call(key, now), between, Call(key, retry)), 0)
    ensures var answers := Answers(c, EMPTY, Twice(before, Call(key, now), between, Call(key, retry)));
            answers[|before|].Refused? && retry >= now + RetryAfter(answers[|before|].delay) * SECOND
            ==> answers[|before| + 1 + |between|].Allowed?
  {
    RetryIsExact(c, before, between, key, now, retry);
  }
}
