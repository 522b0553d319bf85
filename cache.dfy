/**
 * The Redis wrapper: a keyed store whose entries carry an expiry deadline, read and
 * written through JSON helpers, and the invalidation of the aggregate's key.
 * Time is an explicit clock; an entry is live while the clock is before its deadline.
 */
module RedisCache {
  import opened Wrappers
  import opened JsonValue
  import Models

  /** The one key `InvalidateStats` deletes. */
  const InvalidatedKey: string := "last_bp_by_patient"

  /** A stored payload and the instant from which it counts as expired. */
  datatype Entry = Entry(value: Json, expiresAt: int)

  /** What a read of `key` at time `clock` sees: expired entries look exactly like absent ones. */
  function Live(entries: map<string, Entry>, clock: int, key: string): Option<Json>
  {
    if key in entries && clock < entries[key].expiresAt then Some(entries[key].value) else None
  }

  /** A value written with a positive TTL is read back unchanged until the TTL has elapsed. */
  lemma GetAfterSet(entries: map<string, Entry>, now: int, key: string, v: Json, ttl: int, t: int)
    requires 0 < ttl && now <= t < now + ttl
    ensures Live(entries[key := Entry(v, now + ttl)], t, key) == Some(v)
  {
  }

  /** Once the TTL has elapsed the entry reads as absent, with no delete needed. */
  lemma ExpiredAfterTtl(entries: map<string, Entry>, now: int, key: string, v: Json, ttl: int, t: int)
    requires now + ttl <= t
    ensures Live(entries[key := Entry(v, now + ttl)], t, key) == None
  {
  }

  /** Writing or deleting one key leaves what every other key reads unchanged. */
  lemma OtherKeysUnaffected(entries: map<string, Entry>, t: int, key: string, other: string, e: Entry)
    requires other != key
    ensures Live(entries[key := e], t, other) == Live(entries, t, other)
    ensures Live(entries - {key}, t, other) == Live(entries, t, other)
  {
  }

  class Redis {
    var entries: map<string, Entry>
    var clock: int

    constructor (now: int)
      ensures entries == map[] && clock == now
    {
      entries, clock := map[], now;
    }

    function Lookup(key: string): Option<Json>
      reads this
    {
      Live(entries, clock, key)
    }

    /** Time passes; stored entries are not touched, they only age. */
    method Tick(dt: nat)
      modifies this
      ensures clock == old(clock) + dt && entries == old(entries)
    {
      clock := clock + dt;
    }

    /** `redis_get_json`: the live payload under `key`, or `None` when it is absent or expired. */
    method GetJson(key: string) returns (v: Option<Json>)
      ensures v.Some? <==> key in entries && clock < entries[key].expiresAt
      ensures v.Some? ==> v.value == entries[key].value
    {
      v := None;
      if key in entries && clock < entries[key].expiresAt {
        v := Some(entries[key].value);
      }
    }

    /**
     * `redis_set_json`: SETEX overwrites any entry under `key` and restarts its expiry
     * at now + ttl. Redis refuses a TTL that is not positive; then nothing is stored.
     */
    method SetJson(key: string, data: Json, ttl: int) returns (accepted: bool)
      modifies this
      ensures accepted <==> 0 < ttl
      ensures entries == if accepted then old(entries)[key := Entry(data, old(clock) + ttl)] else old(entries)
      ensures clock == old(clock)
    {
      accepted := 0 < ttl;
      if accepted {
        entries := entries[key := Entry(data, clock + ttl)];
      }
    }

    /**
     * A write followed by `dt` seconds of waiting and a read: with a positive TTL the
     * read returns the written payload exactly while `dt` is below the TTL, and nothing after.
     */
    method ReadAfterWait(key: string, data: Json, ttl: int, dt: nat) returns (v: Option<Json>)
      modifies this
      ensures 0 < ttl ==> (v == Some(data) <==> dt < ttl)
      ensures 0 < ttl && ttl <= dt ==> v == None
    {
      var _ := SetJson(key, data, ttl);
      Tick(dt);
      v := GetJson(key);
    }

    /**
     * `invalidate_stats`: deletes the aggregate's key (a no-op when it is absent).
     * The database handle is taken and ignored: only this store may change.
     */
    method InvalidateStats(db: Models.Database)
      modifies this
      ensures entries == old(entries) - {InvalidatedKey}
      ensures clock == old(clock)
      ensures Lookup(InvalidatedKey) == None
    {
      entries := entries - {InvalidatedKey};
    }
  }
}
