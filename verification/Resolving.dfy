/** Which garden a request is for: the one its session names while the account's
    membership of it is live, and otherwise the first live membership. */
module Resolving {
  import opened Options
  import opened Sessions

  datatype Membership = Membership(id: Id, garden: Id, created: int, ends: Option<int>)

  predicate Ended(m: Membership, now: int) {
    m.ends.Some? && now >= m.ends.value
  }

  /** The order an account's memberships are listed in: the garden it last
      switched to, then oldest first, then by id. */
  predicate Before(last: Option<Id>, m: Membership, n: Membership) {
    var (mLast, nLast) := (Some(m.garden) == last, Some(n.garden) == last);
    if mLast != nLast then mLast
    else if m.created != n.created then m.created < n.created
    else m.id < n.id
  }

  /** One account's memberships as the query lists them. An account has at most
      one membership of a garden. */
  ghost predicate Listed(list: seq<Membership>, last: Option<Id>) {
    && (forall i, j :: 0 <= i < j < |list| ==> Before(last, list[i], list[j]))
    && (forall i, j :: 0 <= i < j < |list| ==> list[i].garden != list[j].garden)
  }

  predicate LiveIn(list: seq<Membership>, garden: Id, now: int) {
    exists i :: 0 <= i < |list| && list[i].garden == garden && !Ended(list[i], now)
  }

  /** Where a session on `garden` belongs. */
  ghost predicate Belongs(list: seq<Membership>, last: Option<Id>, garden: Option<Id>, now: int, chosen: Option<Id>) {
    && (chosen.Some? ==> LiveIn(list, chosen.value, now))
    && (chosen.None? ==> forall g :: !LiveIn(list, g, now))
    && (garden.Some? && LiveIn(list, garden.value, now) ==> chosen == garden)
    && (chosen.Some? && chosen != garden ==>
        exists i :: 0 <= i < |list| && list[i].garden == chosen.value
                    && forall m :: m in list && m != list[i] && !Ended(m, now) ==> Before(last, list[i], m))
  }

  datatype Principal = NoSession | Principal(row: Row, touched: bool)

  class Resolver {
    const sessions: SessionTable
    var memberships: map<Id, seq<Membership>>
    var lastGarden: map<Id, Option<Id>>

    function List(user: Id): seq<Membership>
      reads this
    {
      if user in memberships then memberships[user] else []
    }

    function Last(user: Id): Option<Id>
      reads this
    {
      if user in lastGarden then lastGarden[user] else None
    }

    ghost predicate Valid()
      reads this
    {
      sessions.Valid() && forall u :: u in memberships ==> Listed(memberships[u], Last(u))
    }

    constructor (table: SessionTable)
      requires table.Valid()
      ensures Valid() && sessions == table
    {
      sessions := table;
      memberships := map[];
      lastGarden := map[];
    }

    method GetMembership(garden: Id, user: Id) returns (m: Option<Membership>)
      ensures m.Some? ==> m.value in List(user) && m.value.garden == garden
      ensures m.None? ==> forall n :: n in List(user) ==> n.garden != garden
    {
      var list := List(user);
      var i := 0;
      while i < |list|
        invariant 0 <= i <= |list|
        invariant forall j :: 0 <= j < i ==> list[j].garden != garden
      {
        if list[i].garden == garden {
          return Some(list[i]);
        }
        i := i + 1;
      }
      return None;
    }

    method FirstLiveMembership(user: Id, now: int) returns (m: Option<Membership>)
      requires Valid()
      ensures m.None? <==> forall n :: n in List(user) ==> Ended(n, now)
      ensures m.Some? ==>
                && m.value in List(user) && !Ended(m.value, now)
                && forall n :: n in List(user) && n != m.value && !Ended(n, now) ==> Before(Last(user), m.value, n)
    {
      var list := List(user);
      var i := 0;
      while i < |list|
        invariant 0 <= i <= |list|
        invariant forall j :: 0 <= j < i ==> Ended(list[j], now)
      {
        if !Ended(list[i], now) {
          return Some(list[i]);
        }
        i := i + 1;
      }
      return None;
    }

    /** The request is refused exactly when its session lookup is. Otherwise the
        session row names the garden the session belongs on, and the principal
        agrees with the row. */
    method Resolve(token: Id, now: int) returns (p: Principal)
      requires Valid()
      modifies sessions
      ensures var (rows, outcome) := LookupStep(sessions.config, old(sessions.rows), token, now);
              if outcome.Refused? then p == NoSession && sessions.rows == rows
              else
                && p.Principal? && p.touched == outcome.touched
                && p.row == outcome.row.(garden := p.row.garden)
                && sessions.rows == rows[token := p.row]
                && Belongs(List(p.row.user), Last(p.row.user), outcome.row.garden, now, p.row.garden)
      ensures Valid()
    {
      var outcome := sessions.Lookup(token, now);
      if outcome.Refused? {
        return NoSession;
      }
      var session := outcome.row;
      if session.garden.Some? {
        var m := GetMembership(session.garden.value, session.user);
        if m.Some? && !Ended(m.value, now) {
          return Principal(session, outcome.touched);
        }
      }
      var first := FirstLiveMembership(session.user, now);
      if first.None? {
        if session.garden.Some? {
          session := session.(garden := None);
          sessions.rows := sessions.rows[token := session];
        }
        return Principal(session, outcome.touched);
      }
      session := session.(garden := Some(first.value.garden));
      sessions.rows := sessions.rows[token := session];
      return Principal(session, outcome.touched);
    }
  }

  /** The garden a session belongs on is determined. */
  lemma BelongsIsUnique(
    list: seq<Membership>, last: Option<Id>, garden: Option<Id>, now: int, one: Option<Id>, other: Option<Id>)
    requires Listed(list, last) && Belongs(list, last, garden, now, one) && Belongs(list, last, garden, now, other)
    ensures one == other
  {
    if one.Some? && other.Some? {
      var i :| 0 <= i < |list| && list[i].garden == one.value && !Ended(list[i], now);
      var j :| 0 <= j < |list| && list[j].garden == other.value && !Ended(list[j], now);
    }
  }

  /** A session where it belongs is left there, so an immediate second request
      moves neither the garden nor the deadline. */
  lemma SettledSessionsStay(
    c: Config, rows: map<Id, Row>, token: Id, now: int, list: seq<Membership>, last: Option<Id>, chosen: Option<Id>,
    again: Option<Id>)
    requires c.Valid() && Listed(list, last)
    requires var (_, outcome) := LookupStep(c, rows, token, now);
             outcome.Live? && Belongs(list, last, outcome.row.garden, now, chosen)
    requires Belongs(list, last, chosen, now, again)
    ensures again == chosen
    ensures var (rows', outcome) := LookupStep(c, rows, token, now);
            var settled := rows'[token := outcome.row.(garden := chosen)];
            LookupStep(c, settled, token, now) == (settled, Live(settled[token], false))
  {
    if chosen.Some? {
      assert Belongs(list, last, chosen, now, chosen);
    }
    BelongsIsUnique(list, last, chosen, now, chosen, again);
  }

  /** A new pick is the garden last switched to whenever that one is live, and
      otherwise the oldest live membership. */
  lemma PicksLastThenOldest(list: seq<Membership>, last: Option<Id>, garden: Option<Id>, now: int, chosen: Option<Id>)
    requires Listed(list, last) && Belongs(list, last, garden, now, chosen) && chosen.Some? && chosen != garden
    ensures last.Some? && LiveIn(list, last.value, now) ==> chosen == last
    ensures !(last.Some? && LiveIn(list, last.value, now)) ==>
              exists m :: m in list && m.garden == chosen.value && forall n :: n in list && !Ended(n, now) ==>
                  m.created <= n.created
  {
    var i :| 0 <= i < |list| && list[i].garden == chosen.value
             && forall m :: m in list && m != list[i] && !Ended(m, now) ==> Before(last, list[i], m);
    var m := list[i];
    if last.Some? && LiveIn(list, last.value, now) {
      var j :| 0 <= j < |list| && list[j].garden == last.value && !Ended(list[j], now);
      assert list[j] in list;
    } else {
      assert !Ended(m, now);
      forall n | n in list && !Ended(n, now)
        ensures m.created <= n.created
      {
        assert Some(n.garden) != last;
      }
    }
  }
}
