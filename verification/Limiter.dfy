/** The keyed limiter: one token bucket per key, with idle buckets swept out. */
module RateLimit {
  import opened TokenBucket

  type Key = string

  datatype Entry = Entry(bucket: Bucket, lastSeen: int)

  datatype State = State(buckets: map<Key, Entry>, lastSweep: int)

  const EMPTY := State(map[], 0)

  /** The buckets a sweep at `now` keeps: those seen less than a refill ago. */
  function Kept(c: Config, buckets: map<Key, Entry>, now: int): map<Key, Entry> {
    map k | k in buckets && now - buckets[k].lastSeen < c.Refill() :: buckets[k]
  }

  function Swept(c: Config, s: State, now: int): State {
    if now - s.lastSweep >= c.Refill() then State(Kept(c, s.buckets, now), now) else s
  }

  function BucketFor(c: Config, buckets: map<Key, Entry>, key: Key): Bucket {
    if key in buckets then buckets[key].bucket else Fresh(c)
  }

  /** What one call to Allow leaves and answers. */
  function Step(c: Config, s: State, key: Key, now: int): (State, Decision) {
    var kept := Swept(c, s, now);
    var (b, d) := Spend(c, BucketFor(c, kept.buckets, key), now);
    (kept.(buckets := kept.buckets[key := Entry(b, now)]), d)
  }

  class Limiter {
    const config: Config
    var buckets: map<Key, Entry>
    var lastSweep: int

    ghost function Contents(): State
      reads this
    {
      State(buckets, lastSweep)
    }

    constructor (c: Config)
      requires c.Valid()
      ensures config == c && Contents() == EMPTY
    {
      config := c;
      buckets := map[];
      lastSweep := 0;
    }

    method Allow(key: Key, now: int) returns (d: Decision)
      modifies this
      ensures Contents() == Step(config, old(Contents()), key, now).0
      ensures d == Step(config, old(Contents()), key, now).1
    {
      if now - lastSweep >= config.Refill() {
        Sweep(now);
      }
      var b := if key in buckets then buckets[key].bucket else Fresh(config);
      var reserved := Reserve(config, b, now);
      var delay := Delay(reserved);
      if delay > 0 {
        buckets := buckets[key := Entry(Cancel(config, reserved, now), now)];
        return Refused(delay);
      }
      buckets := buckets[key := Entry(reserved, now)];
      return Allowed;
    }

    method Sweep(now: int)
      modifies this
      ensures Contents() == State(Kept(config, old(buckets), now), now)
    {
      lastSweep := now;
      var todo := buckets.Keys;
      while todo != {}
        invariant todo <= old(buckets).Keys
        invariant lastSweep == now
        invariant buckets == map k | k in old(buckets)
                                     && (k in todo || now - old(buckets)[k].lastSeen < config.Refill())
                                 :: old(buckets)[k]
        decreases todo
      {
        var key :| key in todo;
        if now - buckets[key].lastSeen >= config.Refill() {
          buckets := buckets - {key};
        }
        todo := todo - {key};
      }
    }
  }
}
