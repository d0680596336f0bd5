/** One key's token bucket, as golang.org/x/time/rate keeps it.

    The level is kept in time units: a token is worth `period` of them, so a
    bucket refills by one unit for each unit of time that passes and holds at
    most `burst * period`. */
module TokenBucket {

  datatype Config = Config(period: nat, burst: nat) {

    /** NewLimiter panics unless both are positive. */
    predicate Valid() {
      period >= 1 && burst >= 1
    }

    /** How long an empty bucket takes to fill, and the most it holds. */
    function Refill(): (r: nat) {
      burst * period
    }
  }

  datatype Bucket = Bucket(level: int, last: int)

  datatype Decision = Allowed | Refused(delay: int)

  function Fresh(c: Config): Bucket {
    Bucket(c.Refill(), 0)
  }

  /** What the bucket holds at `now`. A clock reading before `last` adds nothing. */
  function Holds(c: Config, b: Bucket, now: int): int {
    var filled := b.level + if now < b.last then 0 else now - b.last;
    if filled > c.Refill() then c.Refill() else filled
  }

  /** A reservation takes a token whether or not one is there. A negative level
      says how long the holder has to wait for it. */
  function Reserve(c: Config, b: Bucket, now: int): Bucket {
    Bucket(Holds(c, b, now) - c.period, now)
  }

  function Delay(reserved: Bucket): int {
    if reserved.level < 0 then -reserved.level else 0
  }

  /** Cancelling puts the reserved token back. */
  function Cancel(c: Config, reserved: Bucket, now: int): Bucket {
    var restored := Holds(c, reserved, now) + c.period;
    Bucket(if restored > c.Refill() then c.Refill() else restored, now)
  }

  /** Spend one token at `now`, or report how long until there is one. */
  function Spend(c: Config, b: Bucket, now: int): (Bucket, Decision) {
    var reserved := Reserve(c, b, now);
    if Delay(reserved) > 0 then
      (Cancel(c, reserved, now), Refused(Delay(reserved)))
    else
      (reserved, Allowed)
  }

  /** A bucket as calls at times up to `clock` can leave it. */
  predicate Settled(c: Config, b: Bucket, clock: int) {
    0 <= b.level <= c.Refill() && b.last <= clock
  }

  /** Spending is exact accounting: a token goes only when the bucket holds a
      whole one, a refusal costs nothing, and the delay is the shortfall. */
  lemma SpendAccounts(c: Config, b: Bucket, clock: int, now: int)
    requires c.Valid() && Settled(c, b, clock) && clock <= now
    ensures var (b', d) := Spend(c, b, now);
            && Settled(c, b', now) && b'.last == now
            && (d.Allowed? <==> Holds(c, b, now) >= c.period)
            && (d.Allowed? ==> b'.level == Holds(c, b, now) - c.period)
            && (d.Refused? ==> b'.level == Holds(c, b, now) && d.delay == c.period - b'.level && d.delay > 0)
  {
    PeriodWithinRefill(c);
  }

  /** The same whatever the clock does: a reading before the last adds nothing. */
  lemma SpendAtAnyTime(c: Config, b: Bucket, now: int)
    requires c.Valid() && 0 <= b.level <= c.Refill()
    ensures var (b', d) := Spend(c, b, now);
            && 0 <= b'.level <= c.Refill() && b'.last == now
            && b'.level + (if d.Allowed? then c.period else 0) == Holds(c, b, now)
  {
    PeriodWithinRefill(c);
  }

  lemma PeriodWithinRefill(c: Config)
    requires c.Valid()
    ensures c.period <= c.Refill()
  {
    assert c.Refill() - c.period == (c.burst - 1) * c.period;
  }

  /** A bucket nobody has used for a refill answers as one just made. */
  lemma IdleIsFresh(c: Config, b: Bucket, clock: int, now: int)
    requires c.Valid() && Settled(c, b, clock) && 0 <= b.last && now - b.last >= c.Refill()
    ensures Spend(c, b, now) == Spend(c, Fresh(c), now)
  {
  }
}
