/** What the limiter grants: a call is refused exactly when its key has used up the
    budget of some window that ends at the call, and never sooner. */
module LimiterGrants {
  import opened TokenBucket
  import opened RateLimit
  import opened LimiterRuns

  // ----- The burst, whatever the clock does -----

  function CallsOn(calls: seq<Call>, key: Key): (n: nat) {
    if calls == [] then 0 else (if calls[0].key == key then 1 else 0) + CallsOn(calls[1..], key)
  }

  /** The bucket of a key that has been called n times lacks no more than n tokens. */
  predicate Lacks(c: Config, s: State, key: Key, n: nat) {
    key in s.buckets ==>
      c.burst * c.period - n * c.period <= s.buckets[key].bucket.level <= c.burst * c.period
  }

  lemma TokensLeft(n: nat, burst: nat, p: nat)
    requires n < burst
    ensures n * p + p <= burst * p
  {
    assert burst * p - n * p == (burst - n) * p;
    assert (burst - n) * p == p + (burst - n - 1) * p;
  }

  lemma SpendLacksOneMore(c: Config, b: Bucket, now: int, n: nat)
    requires c.Valid() && 0 <= b.level && c.burst * c.period - n * c.period <= b.level <= c.burst * c.period
    ensures var (b', d) := Spend(c, b, now);
            && b'.last == now && 0 <= b'.level <= c.burst * c.period
            && c.burst * c.period - (n + 1) * c.period <= b'.level
            && (n < c.burst ==> d.Allowed?)
  {
    SpendAtAnyTime(c, b, now);
    OneMoreToken(n, c.period);
    if n < c.burst {
      TokensLeft(n, c.burst, c.period);
    }
  }

  lemma CallLacksOneMore(c: Config, s: State, call: Call, key: Key, n: nat)
    requires c.Valid() && Filled(c, s) && Lacks(c, s, key, n)
    ensures var (s', d) := Step(c, s, call.key, call.now);
            && Filled(c, s') && Lacks(c, s', key, if call.key == key then n + 1 else n)
            && (call.key == key && n < c.burst ==> d.Allowed?)
  {
    var b := BucketFor(c, Swept(c, s, call.now).buckets, call.key);
    if call.key == key {
      assert n * c.period >= 0;
      SpendLacksOneMore(c, b, call.now, n);
    } else {
      SpendAtAnyTime(c, b, call.now);
    }
  }

  lemma {:induction false} GrantsFrom(c: Config, s: State, calls: seq<Call>, key: Key, n: nat, i: nat)
    requires c.Valid() && Filled(c, s) && Lacks(c, s, key, n)
    requires i < |calls| && calls[i].key == key && n + CallsOn(calls[..i], key) < c.burst
    ensures Answers(c, s, calls)[i].Allowed?
    decreases i
  {
    CallLacksOneMore(c, s, calls[0], key, n);
    if i > 0 {
      assert calls[..i][1..] == calls[1..][..i - 1];
      var s' := Step(c, s, calls[0].key, calls[0].now).0;
      GrantsFrom(c, s', calls[1..], key, if calls[0].key == key then n + 1 else n, i - 1);
    }
  }

  /** Whatever the clock and the other keys do, the first `burst` calls on a key are
      allowed. */
  lemma BurstIsGranted(c: Config, calls: seq<Call>, i: nat)
    requires c.Valid() && i < |calls| && CallsOn(calls[..i], calls[i].key) < c.burst
    ensures Answers(c, EMPTY, calls)[i].Allowed?
  {
    GrantsFrom(c, EMPTY, calls, calls[i].key, 0, i);
  }

  // ----- The exact condition, on readings in order -----

  /** The calls on `key` allowed so far in [from, now] are all its budget for that
      window. */
  predicate UsedUp(c: Config, calls: seq<Call>, answers: seq<Decision>, key: Key, from: int, now: int)
    requires c.period >= 1 && |calls| == |answers|
  {
    from <= now && AllowedIn(calls, answers, key, from, now - from) == c.burst + (now - from) / c.period
  }

  lemma {:induction false} AllowedSplits(
    a: seq<Call>, x: seq<Decision>, b: seq<Call>, y: seq<Decision>, key: Key, from: int, span: nat)
    requires |a| == |x| && |b| == |y|
    ensures AllowedIn(a + b, x + y, key, from, span)
            == AllowedIn(a, x, key, from, span) + AllowedIn(b, y, key, from, span)
    decreases |a|
  {
    if a == [] {
      assert a + b == b && x + y == y;
    } else {
      assert (a + b)[1..] == a[1..] + b && (x + y)[1..] == x[1..] + y;
      AllowedSplits(a[1..], x[1..], b, y, key, from, span);
    }
  }

  predicate OnUpTo(calls: seq<Call>, key: Key, last: int) {
    forall i :: 0 <= i < |calls| && calls[i].key == key ==> calls[i].now <= last
  }

  /** A window that ends after the key's last call holds what one that ends on it does. */
  lemma {:induction false} AllowedUpTo(
    calls: seq<Call>, answers: seq<Decision>, key: Key, from: int, last: int, now: int)
    requires |calls| == |answers| && OnUpTo(calls, key, last) && from <= now
    ensures last < from ==> AllowedIn(calls, answers, key, from, now - from) == 0
    ensures from <= last <= now ==>
              AllowedIn(calls, answers, key, from, now - from) == AllowedIn(calls, answers, key, from, last - from)
    decreases |calls|
  {
    if calls != [] {
      assert forall i :: 0 <= i < |calls| - 1 ==> calls[1..][i] == calls[i + 1];
      AllowedUpTo(calls[1..], answers[1..], key, from, last, now);
    }
  }

  /** The bucket has been filling since `from`, when it was full, and has given a
      token to each call allowed since. */
  predicate FillsSince(c: Config, b: Bucket, calls: seq<Call>, answers: seq<Decision>, key: Key, from: int)
    requires |calls| == |answers|
  {
    && from <= b.last && OnUpTo(calls, key, b.last)
    && b.level == c.burst * c.period + (b.last - from) - AllowedIn(calls, answers, key, from, b.last - from) * c.period
  }

  /** A key that was never called, or one whose bucket has a time it fills since. */
  ghost predicate Accounted(c: Config, m: Buckets, calls: seq<Call>, answers: seq<Decision>, key: Key)
    requires |calls| == |answers|
  {
    if key in m then exists from :: FillsSince(c, m[key], calls, answers, key, from)
    else forall i :: 0 <= i < |calls| ==> calls[i].key != key
  }

  /** What a key's bucket holds at `now` is all it can, or its budget for a window
      that ends at `now` less what was allowed in it. */
  lemma HoldsTheRest(
    c: Config, m: Buckets, calls: seq<Call>, answers: seq<Decision>, key: Key, clock: int, now: int) returns (from: int)
    requires c.Valid() && PlainValid(c, m, clock) && 0 <= clock <= now && |calls| == |answers|
    requires Accounted(c, m, calls, answers, key) && OnUpTo(calls, key, clock)
    ensures from <= now
    ensures Holds(c, Level(c, m, key), now)
            == c.burst * c.period + (now - from) - AllowedIn(calls, answers, key, from, now - from) * c.period
  {
    if key in m {
      var b := m[key];
      from :| FillsSince(c, b, calls, answers, key, from);
      AllowedUpTo(calls, answers, key, from, b.last, now);
      if b.level + (now - b.last) > c.burst * c.period {
        from := now;
        AllowedUpTo(calls, answers, key, now, b.last, now);
      }
    } else {
      from := now;
      assert OnUpTo(calls, key, now - 1);
      AllowedUpTo(calls, answers, key, now, now - 1, now);
    }
  }

  function Prefix(c: Config, calls: seq<Call>, i: nat): (answers: seq<Decision>)
    requires i <= |calls|
    ensures |answers| == i
  {
    PlainAnswers(c, map[], calls[..i])
  }

  lemma {:induction false} AfterSplits(c: Config, m: Buckets, a: seq<Call>, b: seq<Call>)
    ensures PlainAfter(c, m, a + b) == PlainAfter(c, PlainAfter(c, m, a), b)
    decreases |a|
  {
    if a == [] {
      assert a + b == b;
    } else {
      assert (a + b)[1..] == a[1..] + b;
      AfterSplits(c, m[a[0].key := Spend(c, Level(c, m, a[0].key), a[0].now).0], a[1..], b);
    }
  }

  /** A call keeps the account of every key. */
  lemma CallIsAccounted(
    c: Config, m: Buckets, calls: seq<Call>, answers: seq<Decision>, call: Call, key: Key, clock: int)
    requires c.Valid() && PlainValid(c, m, clock) && 0 <= clock <= call.now && |calls| == |answers|
    requires Accounted(c, m, calls, answers, key) && OnUpTo(calls, key, clock)
    ensures var (b, d) := Spend(c, Level(c, m, call.key), call.now);
            Accounted(c, m[call.key := b], calls + [call], answers + [d], key)
  {
    var (b, d) := Spend(c, Level(c, m, call.key), call.now);
    var m' := m[call.key := b];
    if call.key == key {
      var from := HoldsTheRest(c, m, calls, answers, key, clock, call.now);
      SpendAccounts(c, Level(c, m, key), clock, call.now);
      AllowedSplits(calls, answers, [call], [d], key, from, call.now - from);
      OneMoreToken(AllowedIn(calls, answers, key, from, call.now - from), c.period);
      assert FillsSince(c, b, calls + [call], answers + [d], key, from);
    } else if key in m {
      var from :| FillsSince(c, m[key], calls, answers, key, from);
      AllowedSplits(calls, answers, [call], [d], key, from, m[key].last - from);
      assert FillsSince(c, m'[key], calls + [call], answers + [d], key, from);
    }
  }

  /** What the calls before the i-th leave, from what those before the call before it do. */
  lemma PrefixGrows(c: Config, calls: seq<Call>, i: nat)
    requires 0 < i <= |calls|
    ensures var m, call := PlainAfter(c, map[], calls[..i - 1]), calls[i - 1];
            var (b, d) := Spend(c, Level(c, m, call.key), call.now);
            && calls[..i] == calls[..i - 1] + [call] && Prefix(c, calls, i) == Prefix(c, calls, i - 1) + [d]
            && PlainAfter(c, map[], calls[..i]) == m[call.key := b] && End(calls[..i], 0) == call.now
  {
    assert calls[..i] == calls[..i - 1] + [calls[i - 1]];
    AfterSplits(c, map[], calls[..i - 1], [calls[i - 1]]);
    AnswersSplit(c, map[], calls[..i - 1], [calls[i - 1]]);
  }

  lemma PrefixIsInOrder(c: Config, calls: seq<Call>, i: nat)
    requires c.Valid() && Ordered(calls, 0) && i <= |calls|
    ensures PlainValid(c, PlainAfter(c, map[], calls[..i]), End(calls[..i], 0)) && 0 <= End(calls[..i], 0)
    ensures i < |calls| ==> End(calls[..i], 0) <= calls[i].now
  {
    assert calls == calls[..i] + calls[i..];
    RunContinues(c, map[], 0, calls[..i], calls[i..]);
  }

  /** The buckets the calls before the i-th leave account for what those were allowed. */
  lemma {:induction false} PrefixIsAccounted(c: Config, calls: seq<Call>, i: nat, key: Key)
    requires c.Valid() && Ordered(calls, 0) && i <= |calls|
    ensures OnUpTo(calls[..i], key, End(calls[..i], 0))
    ensures Accounted(c, PlainAfter(c, map[], calls[..i]), calls[..i], Prefix(c, calls, i), key)
    decreases i
  {
    if i > 0 {
      var before := calls[..i - 1];
      PrefixIsAccounted(c, calls, i - 1, key);
      PrefixIsInOrder(c, calls, i - 1);
      PrefixGrows(c, calls, i);
      CallIsAccounted(c, PlainAfter(c, map[], before), before, Prefix(c, calls, i - 1), calls[i - 1], key,
                      End(before, 0));
    }
  }

  lemma ShortByMore(a: int, b: int, p: int)
    requires a <= b && p >= 1
    ensures a * p <= b * p
  {
    assert (b - a) * p >= 0;
    assert b * p == a * p + (b - a) * p;
  }

  /** A bucket is short of a token exactly when a window's whole budget is used. */
  lemma ShortWhenUsedUp(burst: nat, p: nat, span: nat, n: nat)
    requires p >= 1
    ensures burst * p + span - n * p < p <==> n >= burst + span / p
  {
    var q := span / p;
    assert q * p <= span < q * p + p;
    assert (burst + q) * p == burst * p + q * p;
    if n >= burst + q {
      ShortByMore(burst + q, n, p);
    } else {
      ShortByMore(n + 1, burst + q, p);
      assert (n + 1) * p == n * p + p;
    }
  }

  /** The decision on the i-th call, and what stood in the windows that end at it. */
  lemma DecidedBy(c: Config, calls: seq<Call>, i: nat) returns (from: int)
    requires c.Valid() && Ordered(calls, 0) && i < |calls|
    ensures |Answers(c, EMPTY, calls)| == |calls| && Prefix(c, calls, i) == Answers(c, EMPTY, calls)[..i]
    ensures from <= calls[i].now
    ensures var span := calls[i].now - from;
            Answers(c, EMPTY, calls)[i].Refused? <==>
            AllowedIn(calls[..i], Prefix(c, calls, i), calls[i].key, from, span) >= c.burst + span / c.period
  {
    var before, call, key := calls[..i], calls[i], calls[i].key;
    var m := PlainAfter(c, map[], before);
    SweepIsUnobservable(c, calls);
    assert calls == before + calls[i..];
    AnswersSplit(c, map[], before, calls[i..]);
    assert Answers(c, EMPTY, calls)[i] == Spend(c, Level(c, m, key), call.now).1;
    PrefixIsAccounted(c, calls, i, key);
    PrefixIsInOrder(c, calls, i);
    from := HoldsTheRest(c, m, before, Prefix(c, calls, i), key, End(before, 0), call.now);
    SpendAccounts(c, Level(c, m, key), End(before, 0), call.now);
    ShortWhenUsedUp(c.burst, c.period, call.now - from,
        AllowedIn(before, Prefix(c, calls, i), key, from, call.now - from));
  }

  /** With the readings in order, a call is refused exactly when, for some window that
      ends at it, the calls on its key allowed in the window are the window's whole
      budget, burst + floor(length / period). */
  lemma RefusedExactlyWhenUsedUp(c: Config, calls: seq<Call>, i: nat)
    requires c.Valid() && Ordered(calls, 0) && i < |calls|
    ensures var answers := Answers(c, EMPTY, calls);
            answers[i].Refused? <==>
            exists from :: UsedUp(c, calls[..i], answers[..i], calls[i].key, from, calls[i].now)
  {
    var answers, key, now := Answers(c, EMPTY, calls), calls[i].key, calls[i].now;
    var from := DecidedBy(c, calls, i);
    BoundWithCall(c, calls, i, from);
    if answers[i].Refused? {
      assert UsedUp(c, calls[..i], answers[..i], key, from, now);
    } else if w :| UsedUp(c, calls[..i], answers[..i], key, w, now) {
      BoundWithCall(c, calls, i, w);
    }
  }

  lemma BoundWithCall(c: Config, calls: seq<Call>, i: nat, from: int)
    requires c.Valid() && Ordered(calls, 0) && i < |calls| && from <= calls[i].now
    ensures var answers, span := Answers(c, EMPTY, calls), calls[i].now - from;
            AllowedIn(calls[..i], answers[..i], calls[i].key, from, span) + (if answers[i].Allowed? then 1 else 0)
            <= c.burst + span / c.period
  {
    var answers, key, span := Answers(c, EMPTY, calls), calls[i].key, calls[i].now - from;
    WindowBoundInOrder(c, calls, key, from, span);
    var rest, restAnswers := calls[i + 1..], answers[i + 1..];
    assert calls == calls[..i] + ([calls[i]] + rest) && answers == answers[..i] + ([answers[i]] + restAnswers);
    AllowedSplits(calls[..i], answers[..i], [calls[i]] + rest, [answers[i]] + restAnswers, key, from, span);
    AllowedSplits([calls[i]], [answers[i]], rest, restAnswers, key, from, span);
  }
}
