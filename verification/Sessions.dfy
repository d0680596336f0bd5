/** Sessions with a sliding deadline that is written lazily. Times and durations
    are nanoseconds. */
module Sessions {
  import opened Options

  type Id = nat

  datatype Row = Row(user: Id, garden: Option<Id>, lastSeen: int)

  const SECOND: int := 1_000_000_000
  const TOUCH_INTERVAL: int := 300 * SECOND

  /** configured is the lifetime the deployment asks for. Sessions use it cut to
      whole seconds; the sweep uses it as it is. */
  datatype Config = Config(configured: int) {
    /** The whole seconds of the lifetime asked for. */
    function Ttl(): (ttl: int)
      ensures ttl % SECOND == 0 && ttl <= configured < ttl + SECOND
    {
      configured - configured % SECOND
    }

    /** As long as a tenth of the lifetime allows, up to five minutes. */
    function TouchAfter(): (after: int)
      ensures after <= 300 * SECOND && 10 * after <= Ttl() && (after == 300 * SECOND || Ttl() < 10 * after + 10)
    {
      if Ttl() / 10 < TOUCH_INTERVAL then Ttl() / 10 else TOUCH_INTERVAL
    }

    function MaxAge(): (seconds: int)
      ensures seconds * SECOND == Ttl()
    {
      Ttl() / SECOND
    }

    predicate Valid() {
      configured >= SECOND
    }
  }

  predicate Expired(c: Config, lastSeen: int, now: int) {
    now >= lastSeen + c.Ttl()
  }

  datatype Outcome = Refused | Live(row: Row, touched: bool)

  /** What a lookup leaves and answers. */
  function LookupStep(c: Config, rows: map<Id, Row>, token: Id, now: int): (map<Id, Row>, Outcome) {
    if token !in rows then (rows, Refused)
    else if Expired(c, rows[token].lastSeen, now) then (rows - {token}, Refused)
    else if now - rows[token].lastSeen < c.TouchAfter() then (rows, Live(rows[token], false))
    else
      var row := rows[token].(lastSeen := now);
      (rows[token := row], Live(row, true))
  }

  /** What a sweep at `now` keeps. */
  function Kept(c: Config, rows: map<Id, Row>, now: int): map<Id, Row> {
    map t | t in rows && rows[t].lastSeen > now - c.configured :: rows[t]
  }

  class SessionTable {
    const config: Config
    const ttl: int
    const touchAfter: int
    var rows: map<Id, Row>

    ghost predicate Valid()
    {
      config.Valid() && ttl == config.Ttl() && touchAfter == config.TouchAfter()
    }

    constructor (configured: int)
      requires configured >= SECOND
      ensures Valid() && config == Config(configured) && rows == map[]
    {
      config := Config(configured);
      var whole := configured - configured % SECOND;
      ttl := whole;
      touchAfter := if TOUCH_INTERVAL <= whole / 10 then TOUCH_INTERVAL else whole / 10;
      rows := map[];
    }

    /** One row is added, and its session answers at once. */
    method Create(token: Id, user: Id, garden: Option<Id>, now: int)
      requires Valid() && token !in rows
      modifies this
      ensures rows == old(rows)[token := Row(user, garden, now)]
      ensures LookupStep(config, rows, token, now) == (rows, Live(Row(user, garden, now), false))
    {
      rows := rows[token := Row(user, garden, now)];
    }

    method Lookup(token: Id, now: int) returns (outcome: Outcome)
      requires Valid()
      modifies this
      ensures (rows, outcome) == LookupStep(config, old(rows), token, now)
    {
      if token !in rows {
        return Refused;
      }
      var session := rows[token];
      if now >= session.lastSeen + ttl {
        rows := rows - {token};
        return Refused;
      }
      if now - session.lastSeen < touchAfter {
        return Live(session, false);
      }
      session := session.(lastSeen := now);
      rows := rows[token := session];
      return Live(session, true);
    }

    /** The session is refused from then on, and every other answers as it did. */
    method Delete(token: Id)
      modifies this
      ensures rows == old(rows) - {token}
      ensures forall now :: LookupStep(config, rows, token, now).1 == Refused
      ensures forall t, now :: t != token ==>
                LookupStep(config, rows, t, now).1 == LookupStep(config, old(rows), t, now).1
    {
      rows := rows - {token};
    }

    /** Every session answers from then on as it would have. */
    method Sweep(now: int)
      requires Valid()
      modifies this
      ensures rows == Kept(config, old(rows), now)
      ensures forall t, at :: at >= now ==> LookupStep(config, rows, t, at).1 == LookupStep(config, old(rows), t, at).1
    {
      var before := now - config.configured;
      rows := map t | t in rows && !(rows[t].lastSeen <= before) :: rows[t];
    }
  }
}
