/** What a stack of limiters grants: a request reaches its route exactly when every
    limiter lets it through, and each refuses it exactly when its own budget is used. */
module LayerGrants {
  import opened Options
  import opened TokenBucket
  import opened RateLimit
  import opened LimiterRuns
  import opened LimiterGrants
  import L = LimiterLayers

  // ----- Who reaches the route -----

  lemma {:induction false} ArrivedStays(
    cs: seq<Config>, keyOf: (L.Id, nat) -> Key, s: L.System, asks: seq<L.Ask>, id: L.Id)
    requires |cs| == |s.limiters| && L.At(s, id) == Some(L.Endpoint)
    ensures L.At(L.Run(cs, keyOf, s, asks), id) == Some(L.Endpoint)
    decreases |asks|
  {
    if asks != [] {
      ArrivedStays(cs, keyOf, L.Step(cs, keyOf, s, asks[0]), asks[1..], id);
    }
  }

  lemma PassedInRest(
    first: L.Answered, rest: seq<L.Answered>, keyOf: (L.Id, nat) -> Key, id: L.Id, j: nat)
    requires L.Passed([first] + rest, keyOf, id, j)
    ensures L.Passed(rest, keyOf, id, j) || (first.id == id && first.layer == j && first.decision.Allowed?)
  {
    var log := [first] + rest;
    var k :| 0 <= k < |log| && log[k].id == id && log[k].layer == j && log[k].key == keyOf(id, j)
             && log[k].decision.Allowed?;
    if k > 0 {
      assert rest[k - 1] == log[k];
    }
  }

  /** A request the innermost limiter lets through is at its route. */
  lemma {:induction false} LastLayerLetsIn(
    cs: seq<Config>, keyOf: (L.Id, nat) -> Key, s: L.System, asks: seq<L.Ask>, id: L.Id, i: nat)
    requires |cs| == |s.limiters| && i < |cs| && L.At(s, id) == Some(L.Nested(i, |cs|))
    requires L.Passed(L.Log(cs, keyOf, s, asks), keyOf, id, |cs| - 1)
    ensures L.At(L.Run(cs, keyOf, s, asks), id) == Some(L.Endpoint)
    decreases |asks|
  {
    var s', n := L.Step(cs, keyOf, s, asks[0]), |cs|;
    var rest := L.Log(cs, keyOf, s', asks[1..]);
    if L.Calls(s, asks[0].id) {
      PassedInRest(L.Call(cs, keyOf, s, asks[0]).1, rest, keyOf, id, n - 1);
    }
    if asks[0].id != id {
      LastLayerLetsIn(cs, keyOf, s', asks[1..], id, i);
    } else if L.At(s', id).None? {
      L.RefusedStays(cs, keyOf, s', asks[1..], id);
    } else if i + 1 == n {
      ArrivedStays(cs, keyOf, s', asks[1..], id);
    } else {
      LastLayerLetsIn(cs, keyOf, s', asks[1..], id, i + 1);
    }
  }

  predicate PassedAll(log: seq<L.Answered>, keyOf: (L.Id, nat) -> Key, id: L.Id, n: nat) {
    forall j :: 0 <= j < n ==> L.Passed(log, keyOf, id, j)
  }

  /** However requests interleave, one has reached its route exactly when every
      limiter has let it through. */
  lemma ReachesExactly(cs: seq<Config>, keyOf: (L.Id, nat) -> Key, asks: seq<L.Ask>, id: L.Id)
    ensures var log, s := L.Log(cs, keyOf, L.Idle(|cs|), asks), L.Run(cs, keyOf, L.Idle(|cs|), asks);
            L.At(s, id) == Some(L.Endpoint) <==> PassedAll(log, keyOf, id, |cs|)
  {
    var s, log := L.Idle(|cs|), L.Log(cs, keyOf, L.Idle(|cs|), asks);
    if L.At(L.Run(cs, keyOf, s, asks), id) == Some(L.Endpoint) {
      L.ThroughEveryLayerBefore(cs, keyOf, s, asks, id, 0, |cs|);
    }
    if PassedAll(log, keyOf, id, |cs|) {
      if |cs| == 0 {
        ArrivedStays(cs, keyOf, s, asks, id);
      } else {
        LastLayerLetsIn(cs, keyOf, s, asks, id, 0);
      }
    }
  }

  // ----- What each limiter decides -----

  /** Where the k-th call of a run stands among those of its limiter. */
  lemma {:induction false} CallIsAt(log: seq<L.Answered>, k: nat)
    requires k < |log|
    ensures var j := log[k].layer;
            var n := |L.CallsAt(log[..k], j)|;
            && n < |L.CallsAt(log, j)| && n == |L.DecisionsAt(log[..k], j)| && n < |L.DecisionsAt(log, j)|
            && L.CallsAt(log, j)[..n] == L.CallsAt(log[..k], j) && L.CallsAt(log, j)[n] == Call(log[k].key, log[k].now)
            && L.DecisionsAt(log, j)[..n] == L.DecisionsAt(log[..k], j) && L.DecisionsAt(log, j)[n] == log[k].decision
    decreases k
  {
    if k > 0 {
      CallIsAt(log[1..], k - 1);
      assert log[1..][..k - 1] == log[..k][1..];
      L.FirstAt(log[0], log[1..], log[k].layer);
      L.FirstAt(log[0], log[..k][1..], log[k].layer);
      assert log == [log[0]] + log[1..] && log[..k] == [log[0]] + log[..k][1..];
    }
  }

  lemma {:induction false} LayersExist(
    cs: seq<Config>, keyOf: (L.Id, nat) -> Key, s: L.System, asks: seq<L.Ask>, k: nat)
    requires |cs| == |s.limiters| && k < |L.Log(cs, keyOf, s, asks)|
    ensures L.Log(cs, keyOf, s, asks)[k].layer < |cs|
    decreases |asks|
  {
    var s' := L.Step(cs, keyOf, s, asks[0]);
    if !L.Calls(s, asks[0].id) {
      LayersExist(cs, keyOf, s', asks[1..], k);
    } else if k > 0 {
      LayersExist(cs, keyOf, s', asks[1..], k - 1);
    }
  }

  /** Whatever the interleaving and the clock readings, a limiter lets the first
      `burst` calls on a key through. With its own calls' readings in order it refuses
      a call exactly when some window ending at the call has its whole budget used by
      the calls on the key it let through. */
  lemma EveryLayerGrants(cs: seq<Config>, keyOf: (L.Id, nat) -> Key, asks: seq<L.Ask>, k: nat)
    requires (forall c :: c in cs ==> c.Valid()) && k < |L.Log(cs, keyOf, L.Idle(|cs|), asks)|
    ensures var log := L.Log(cs, keyOf, L.Idle(|cs|), asks);
            var (e, before) := (log[k], log[..k]);
            && e.layer < |cs| && cs[e.layer].Valid()
            && |L.CallsAt(before, e.layer)| == |L.DecisionsAt(before, e.layer)|
            && (CallsOn(L.CallsAt(before, e.layer), e.key) < cs[e.layer].burst ==> e.decision.Allowed?)
            && (Ordered(L.CallsAt(log, e.layer), 0) ==>
                (e.decision.Refused? <==>
                 exists from :: UsedUp(cs[e.layer], L.CallsAt(before, e.layer), L.DecisionsAt(before, e.layer), e.key,
                                       from, e.now)))
  {
    var s := L.Idle(|cs|);
    var log := L.Log(cs, keyOf, s, asks);
    var j := log[k].layer;
    var n := |L.CallsAt(log[..k], j)|;
    LayersExist(cs, keyOf, s, asks, k);
    assert cs[j] in cs;
    CallIsAt(log, k);
    L.EachLimiterIsAlone(cs, keyOf, s, asks, j);
    if CallsOn(L.CallsAt(log[..k], j), log[k].key) < cs[j].burst {
      BurstIsGranted(cs[j], L.CallsAt(log, j), n);
    }
    if Ordered(L.CallsAt(log, j), 0) {
      RefusedExactlyWhenUsedUp(cs[j], L.CallsAt(log, j), n);
    }
  }
}
