/** Several limiters around one route or several, wrapped so that the first is
    outermost. A request calls them one after another, each with a clock reading
    of its own, and the calls of other requests come in between. */
module LimiterLayers {
  import opened Options
  import opened Sets
  import opened TokenBucket
  import opened RateLimit
  import opened LimiterRuns

  type Id = nat

  /** A handler is the route's own, or a limiter around another handler. */
  datatype Handler = Endpoint | Limited(layer: nat, inner: Handler)

  function Nested(i: nat, n: nat): Handler
    requires i <= n
    decreases n - i
  {
    if i == n then Endpoint else Limited(i, Nested(i + 1, n))
  }

  /** The mux wraps backwards, which leaves limits[0] outermost. */
  method Wrap(n: nat) returns (h: Handler)
    ensures h == Nested(0, n)
  {
    h := Endpoint;
    var i := n;
    while i > 0
      invariant 0 <= i <= n && h == Nested(i, n)
    {
      i := i - 1;
      h := Limited(i, h);
    }
  }

  /** The limiters' states, and the handler each request is about to enter: none
      once it is refused, and the whole stack before its first call. */
  datatype System = System(limiters: seq<State>, at: map<Id, Option<Handler>>)

  /** A request calls the limiter it is at. */
  datatype Ask = Ask(id: Id, now: int)

  /** A call as it was made and answered. */
  datatype Answered = Answered(id: Id, layer: nat, key: Key, now: int, decision: Decision)

  function At(s: System, id: Id): Option<Handler> {
    if id in s.at then s.at[id] else Some(Nested(0, |s.limiters|))
  }

  predicate Calls(s: System, id: Id) {
    At(s, id).Some? && At(s, id).value.Limited? && At(s, id).value.layer < |s.limiters|
  }

  /** What the call makes of the limiter, and the answer. keyOf says what each layer
      keys a request on. */
  function Call(cs: seq<Config>, keyOf: (Id, nat) -> Key, s: System, a: Ask): (State, Answered)
    requires |cs| == |s.limiters| && Calls(s, a.id)
  {
    var j := At(s, a.id).value.layer;
    var (limiter, d) := RateLimit.Step(cs[j], s.limiters[j], keyOf(a.id, j), a.now);
    (limiter, Answered(a.id, j, keyOf(a.id, j), a.now, d))
  }

  function Step(cs: seq<Config>, keyOf: (Id, nat) -> Key, s: System, a: Ask): (s': System)
    requires |cs| == |s.limiters|
    ensures |s'.limiters| == |s.limiters|
  {
    if !Calls(s, a.id) then s
    else
      var h := At(s, a.id).value;
      var (limiter, answered) := Call(cs, keyOf, s, a);
      System(s.limiters[h.layer := limiter],
             s.at[a.id := if answered.decision.Allowed? then Some(h.inner) else None])
  }

  function Run(cs: seq<Config>, keyOf: (Id, nat) -> Key, s: System, asks: seq<Ask>): System
    requires |cs| == |s.limiters|
    decreases |asks|
  {
    if asks == [] then s else Run(cs, keyOf, Step(cs, keyOf, s, asks[0]), asks[1..])
  }

  /** The calls of a run, in order. */
  function Log(cs: seq<Config>, keyOf: (Id, nat) -> Key, s: System, asks: seq<Ask>): seq<Answered>
    requires |cs| == |s.limiters|
    decreases |asks|
  {
    if asks == [] then []
    else
      var rest := Log(cs, keyOf, Step(cs, keyOf, s, asks[0]), asks[1..]);
      if Calls(s, asks[0].id) then [Call(cs, keyOf, s, asks[0]).1] + rest else rest
  }

  function Idle(n: nat): System {
    System(seq(n, _ => EMPTY), map[])
  }

  // ----- Each limiter is alone with the calls that reach it -----

  function CallsAt(log: seq<Answered>, j: nat): seq<LimiterRuns.Call> {
    if log == [] then []
    else (if log[0].layer == j then [LimiterRuns.Call(log[0].key, log[0].now)] else []) + CallsAt(log[1..], j)
  }

  function DecisionsAt(log: seq<Answered>, j: nat): seq<Decision> {
    if log == [] then [] else (if log[0].layer == j then [log[0].decision] else []) + DecisionsAt(log[1..], j)
  }

  lemma FirstAt(first: Answered, rest: seq<Answered>, j: nat)
    ensures first.layer == j ==>
              && CallsAt([first] + rest, j) == [LimiterRuns.Call(first.key, first.now)] + CallsAt(rest, j)
              && DecisionsAt([first] + rest, j) == [first.decision] + DecisionsAt(rest, j)
    ensures first.layer != j ==>
              CallsAt([first] + rest, j) == CallsAt(rest, j) && DecisionsAt([first] + rest, j) == DecisionsAt(rest, j)
  {
    assert ([first] + rest)[1..] == rest;
  }

  lemma AnswersFirst(c: Config, limiter: State, call: LimiterRuns.Call, calls: seq<LimiterRuns.Call>)
    ensures var (limiter', d) := RateLimit.Step(c, limiter, call.key, call.now);
            Answers(c, limiter, [call] + calls) == [d] + Answers(c, limiter', calls)
  {
    assert ([call] + calls)[1..] == calls;
  }

  /** However the calls of the layers interleave, each limiter answers as it would
      alone on the calls that reach it. */
  lemma {:induction false} EachLimiterIsAlone(
    cs: seq<Config>, keyOf: (Id, nat) -> Key, s: System, asks: seq<Ask>, j: nat)
    requires |cs| == |s.limiters| && j < |cs|
    ensures var log := Log(cs, keyOf, s, asks);
            DecisionsAt(log, j) == Answers(cs[j], s.limiters[j], CallsAt(log, j))
    decreases |asks|
  {
    if asks != [] {
      var s' := Step(cs, keyOf, s, asks[0]);
      EachLimiterIsAlone(cs, keyOf, s', asks[1..], j);
      if Calls(s, asks[0].id) {
        OneMoreCall(cs, keyOf, s, asks[0], Log(cs, keyOf, s', asks[1..]), j);
      }
    }
  }

  lemma OneMoreCall(cs: seq<Config>, keyOf: (Id, nat) -> Key, s: System, a: Ask, rest: seq<Answered>, j: nat)
    requires |cs| == |s.limiters| && j < |cs| && Calls(s, a.id)
    requires DecisionsAt(rest, j) == Answers(cs[j], Step(cs, keyOf, s, a).limiters[j], CallsAt(rest, j))
    ensures var log := [Call(cs, keyOf, s, a).1] + rest;
            DecisionsAt(log, j) == Answers(cs[j], s.limiters[j], CallsAt(log, j))
  {
    var (limiter, first) := Call(cs, keyOf, s, a);
    FirstAt(first, rest, j);
    if first.layer == j {
      AnswersFirst(cs[j], s.limiters[j], LimiterRuns.Call(first.key, first.now), CallsAt(rest, j));
    }
  }

  // ----- Who gets through -----

  /** The request has been let through layer j. */
  predicate Passed(log: seq<Answered>, keyOf: (Id, nat) -> Key, id: Id, j: nat) {
    exists k :: 0 <= k < |log| && log[k].id == id && log[k].layer == j && log[k].key == keyOf(id, j)
        && log[k].decision.Allowed?
  }

  lemma PassedLater(first: Answered, rest: seq<Answered>, keyOf: (Id, nat) -> Key, id: Id, j: nat)
    ensures Passed(rest, keyOf, id, j) ==> Passed([first] + rest, keyOf, id, j)
    ensures first.id == id && first.layer == j && first.key == keyOf(id, j) && first.decision.Allowed?
            ==> Passed([first] + rest, keyOf, id, j)
  {
    if Passed(rest, keyOf, id, j) {
      var k :| 0 <= k < |rest| && rest[k].id == id && rest[k].layer == j && rest[k].key == keyOf(id, j)
               && rest[k].decision.Allowed?;
      assert ([first] + rest)[k + 1] == rest[k];
    }
    assert ([first] + rest)[0] == first;
  }

  lemma {:induction false} NestedIsNested(i: nat, j: nat, n: nat)
    requires i <= n && j <= n && Nested(i, n) == Nested(j, n)
    ensures i == j
  {
  }

  /** A request at layer j has been let through every layer before, from the one it
      was at. */
  lemma {:induction false} ThroughEveryLayerBefore(
    cs: seq<Config>, keyOf: (Id, nat) -> Key, s: System, asks: seq<Ask>, id: Id, i: nat, j: nat)
    requires |cs| == |s.limiters| && i <= j <= |cs| && At(s, id) == Some(Nested(i, |cs|))
    requires At(Run(cs, keyOf, s, asks), id) == Some(Nested(j, |cs|))
    ensures forall k :: i <= k < j ==> Passed(Log(cs, keyOf, s, asks), keyOf, id, k)
    decreases |asks|
  {
    if asks == [] {
      NestedIsNested(i, j, |cs|);
    } else {
      var s' := Step(cs, keyOf, s, asks[0]);
      var rest := Log(cs, keyOf, s', asks[1..]);
      if Calls(s, asks[0].id) {
        forall k {
          PassedLater(Call(cs, keyOf, s, asks[0]).1, rest, keyOf, id, k);
        }
      }
      if asks[0].id == id && Calls(s, id) {
        if At(s', id).None? {
          RefusedStays(cs, keyOf, s', asks[1..], id);
        } else {
          NeverBack(cs, keyOf, s', asks[1..], id, i + 1, j);
          ThroughEveryLayerBefore(cs, keyOf, s', asks[1..], id, i + 1, j);
        }
      } else {
        ThroughEveryLayerBefore(cs, keyOf, s', asks[1..], id, i, j);
      }
    }
  }

  lemma {:induction false} NeverBack(
    cs: seq<Config>, keyOf: (Id, nat) -> Key, s: System, asks: seq<Ask>, id: Id, i: nat, j: nat)
    requires |cs| == |s.limiters| && i <= |cs| && j <= |cs| && At(s, id) == Some(Nested(i, |cs|))
    requires At(Run(cs, keyOf, s, asks), id) == Some(Nested(j, |cs|))
    ensures i <= j
    decreases |asks|
  {
    if asks == [] {
      NestedIsNested(i, j, |cs|);
    } else {
      var s' := Step(cs, keyOf, s, asks[0]);
      if asks[0].id == id && Calls(s, id) {
        if At(s', id).None? {
          RefusedStays(cs, keyOf, s', asks[1..], id);
        } else {
          NeverBack(cs, keyOf, s', asks[1..], id, i + 1, j);
        }
      } else {
        NeverBack(cs, keyOf, s', asks[1..], id, i, j);
      }
    }
  }

  /** A refused request makes no further call, so it spends nothing from the layers
      inside the one that refused it. */
  lemma {:induction false} RefusedStays(cs: seq<Config>, keyOf: (Id, nat) -> Key, s: System, asks: seq<Ask>, id: Id)
    requires |cs| == |s.limiters| && At(s, id).None?
    ensures At(Run(cs, keyOf, s, asks), id).None?
    ensures forall e :: e in Log(cs, keyOf, s, asks) ==> e.id != id
    decreases |asks|
  {
    if asks != [] {
      RefusedStays(cs, keyOf, Step(cs, keyOf, s, asks[0]), asks[1..], id);
    }
  }

  // ----- Every layer's budget holds of what reaches the route -----

  predicate IsLetThrough(e: Answered, j: nat, key: Key, from: int, span: nat) {
    e.layer == j && e.key == key && e.decision.Allowed? && from <= e.now <= from + span
  }

  /** The requests layer j lets through on a key inside a window. */
  function LetThrough(log: seq<Answered>, j: nat, key: Key, from: int, span: nat): set<Id> {
    set e | e in log && IsLetThrough(e, j, key, from, span) :: e.id
  }

  lemma AtMostOneMore(ids: set<Id>, id: Id)
    ensures |ids + {id}| <= |ids| + 1
  {
    assert ids + {id} == if id in ids then ids else ids + {id};
  }

  lemma LetThroughFirst(first: Answered, rest: seq<Answered>, j: nat, key: Key, from: int, span: nat)
    ensures LetThrough([first] + rest, j, key, from, span)
            == LetThrough(rest, j, key, from, span) + if IsLetThrough(first, j, key, from, span) then {first.id} else {}
  {
  }

  lemma AllowedFirst(
    call: LimiterRuns.Call, calls: seq<LimiterRuns.Call>, d: Decision, ds: seq<Decision>, key: Key, from: int,
    span: nat)
    requires |calls| == |ds|
    ensures AllowedIn([call] + calls, [d] + ds, key, from, span)
            == AllowedIn(calls, ds, key, from, span)
               + if call.key == key && d.Allowed? && from <= call.now <= from + span then 1 else 0
  {
    assert ([call] + calls)[1..] == calls && ([d] + ds)[1..] == ds;
  }

  lemma {:induction false} LetThroughIsCounted(log: seq<Answered>, j: nat, key: Key, from: int, span: nat)
    ensures |CallsAt(log, j)| == |DecisionsAt(log, j)|
    ensures |LetThrough(log, j, key, from, span)| <= AllowedIn(CallsAt(log, j), DecisionsAt(log, j), key, from, span)
    decreases |log|
  {
    if log == [] {
      assert LetThrough(log, j, key, from, span) == {};
    } else {
      var e, rest := log[0], log[1..];
      LetThroughIsCounted(rest, j, key, from, span);
      assert log == [e] + rest;
      FirstAt(e, rest, j);
      LetThroughFirst(e, rest, j, key, from, span);
      AtMostOneMore(LetThrough(rest, j, key, from, span), e.id);
      if e.layer == j {
        AllowedFirst(LimiterRuns.Call(e.key, e.now), CallsAt(rest, j), e.decision, DecisionsAt(rest, j), key, from,
            span);
      }
    }
  }

  /** The back-steps of a limiter's own calls. */
  function BackAt(log: seq<Answered>, j: nat): nat {
    BackSteps(CallsAt(log, j))
  }

  /** However requests to the routes sharing a stack of limiters interleave, and
      whatever their clock readings, no limiter lets through more requests on a key
      in a window than its budget for the window and the back-steps of its calls, and
      every request that reaches its route has been let through by every one. */
  lemma EveryLayerBounds(
    cs: seq<Config>, keyOf: (Id, nat) -> Key, asks: seq<Ask>, j: nat, key: Key, from: int, span: nat)
    requires j < |cs| && cs[j].Valid()
    ensures var log := Log(cs, keyOf, Idle(|cs|), asks);
            && |LetThrough(log, j, key, from, span)| <= cs[j].burst + (span + BackAt(log, j)) / cs[j].period
            && forall id :: At(Run(cs, keyOf, Idle(|cs|), asks), id) == Some(Endpoint) ==> Passed(log, keyOf, id, j)
  {
    var s := Idle(|cs|);
    var log := Log(cs, keyOf, s, asks);
    EachLimiterIsAlone(cs, keyOf, s, asks, j);
    LetThroughIsCounted(log, j, key, from, span);
    WindowBound(cs[j], CallsAt(log, j), key, from, span);
    forall id | At(Run(cs, keyOf, s, asks), id) == Some(Endpoint) ensures Passed(log, keyOf, id, j) {
      ThroughEveryLayerBefore(cs, keyOf, s, asks, id, 0, |cs|);
    }
  }

  // ----- The three routes that take a recovery code -----

  const MINUTE: int := 60 * SECOND

  /** Eight a minute from one address, ten a minute from everybody. */
  const RECOVERY: seq<Config> := [Config(MINUTE / 8, 8), Config(MINUTE / 10, 10)]

  /** The first limiter keys a request on its address and the second, shared, keys
      every request on the empty string. */
  function RecoveryKey(address: Id -> Key): (Id, nat) -> Key {
    (id: Id, j: nat) => if j == 0 then address(id) else ""
  }

  /** The request reaches a route, and its call to layer j was inside the window. */
  ghost predicate ReachedIn(log: seq<Answered>, s: System, id: Id, j: nat, from: int, span: nat) {
    At(s, id) == Some(Endpoint) && forall e :: e in log && e.id == id && e.layer == j ==> from <= e.now <= from + span
  }

  /** No more requests get through, of those that call layer j on a key inside a
      window, than its budget for the window and its back-steps. */
  lemma ReachedWithinBudget(
    cs: seq<Config>, keyOf: (Id, nat) -> Key, asks: seq<Ask>, ids: set<Id>, j: nat, key: Key, from: int, span: nat)
    requires j < |cs| && cs[j].Valid()
    requires var log := Log(cs, keyOf, Idle(|cs|), asks);
             forall id :: id in ids ==>
               keyOf(id, j) == key && ReachedIn(log, Run(cs, keyOf, Idle(|cs|), asks), id, j, from, span)
    ensures |ids| <= cs[j].burst + (span + BackAt(Log(cs, keyOf, Idle(|cs|), asks), j)) / cs[j].period
  {
    var log := Log(cs, keyOf, Idle(|cs|), asks);
    EveryLayerBounds(cs, keyOf, asks, j, key, from, span);
    forall id | id in ids ensures id in LetThrough(log, j, key, from, span) {
      assert Passed(log, keyOf, id, j);
      var k :| 0 <= k < |log| && log[k].id == id && log[k].layer == j && log[k].key == key && log[k].decision.Allowed?;
      assert log[k] in log && IsLetThrough(log[k], j, key, from, span);
    }
    SmallerSet(ids, LetThrough(log, j, key, from, span));
  }

  /** Eight and ten a minute, as periods. */
  lemma RecoveryPeriods()
    ensures |RECOVERY| == 2
    ensures RECOVERY[0].Valid() && RECOVERY[0].burst == 8 && RECOVERY[0].period == 7 * SECOND + SECOND / 2
    ensures RECOVERY[1].Valid() && RECOVERY[1].burst == 10 && RECOVERY[1].period == 6 * SECOND
  {
  }

  /** However their requests interleave, the three recovery routes together let
      through at most ten requests plus one for each six seconds of any window and of
      the shared limiter's back-steps. */
  lemma RecoveryBudget(cs: seq<Config>, address: Id -> Key, asks: seq<Ask>, ids: set<Id>, from: int, span: nat)
    requires cs == RECOVERY
    requires forall id :: id in ids ==> InRecovery(cs, address, asks, id, 1, from, span)
    ensures |cs| == 2 && |ids| <= 10 + (span + BackAt(Log(cs, RecoveryKey(address), Idle(2), asks), 1)) / (6 * SECOND)
  {
    RecoveryPeriods();
    ReachedWithinBudget(cs, RecoveryKey(address), asks, ids, 1, "", from, span);
  }

  /** And at most eight from one address, plus one for each seven and a half of the
      window and of that limiter's back-steps. */
  lemma RecoveryBudgetPerAddress(
    cs: seq<Config>, address: Id -> Key, asks: seq<Ask>, ids: set<Id>, from: int, span: nat, key: Key)
    requires cs == RECOVERY
    requires forall id :: id in ids ==> address(id) == key && InRecovery(cs, address, asks, id, 0, from, span)
    ensures |cs| == 2
    ensures |ids| <= 8 + (span + BackAt(Log(cs, RecoveryKey(address), Idle(2), asks), 0)) / (7 * SECOND + SECOND / 2)
  {
    RecoveryPeriods();
    ReachedWithinBudget(cs, RecoveryKey(address), asks, ids, 0, key, from, span);
  }

  ghost predicate InRecovery(
    cs: seq<Config>, address: Id -> Key, asks: seq<Ask>, id: Id, j: nat, from: int, span: nat)
  {
    && |cs| == 2
    && ReachedIn(Log(cs, RecoveryKey(address), Idle(2), asks), Run(cs, RecoveryKey(address), Idle(2), asks), id, j,
       from, span)
  }
}
