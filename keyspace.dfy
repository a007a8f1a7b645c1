/** The part of the shared store's key space that the counting script touches:
    integer counters with an optional absolute expiry time, and the three
    commands the script issues against them (INCR, EXPIRE, TTL).
    Time is an explicit integer number of seconds; an entry whose expiry is
    not after `now` behaves exactly as if the key were absent. */
module KeySpace {

  datatype Option<T> = None | Some(value: T)

  /** One counter: its integer value and, once EXPIRE has run on it, the
      absolute second at which the store drops it. */
  datatype Entry = Entry(count: int, expiresAt: Option<int>)

  type Table = map<string, Entry>

  /** The key is present and not yet expired at time `now`. */
  predicate Live(t: Table, key: string, now: int)
  {
    key in t && (t[key].expiresAt.None? || now < t[key].expiresAt.value)
  }

  /** The value INCR starts from: the stored count of a live key, 0 otherwise. */
  function CountOf(t: Table, key: string, now: int): int
  {
    if Live(t, key, now) then t[key].count else 0
  }

  /** Every key other than `key` is bound in `t'` exactly as in `t`. */
  ghost predicate OthersUnchanged(t: Table, t': Table, key: string)
  {
    forall k :: k != key ==> (k in t' <==> k in t) && (k in t ==> t'[k] == t[k])
  }

  /** What the TTL command reports: -2 for a missing (or expired) key, -1 for
      a key with no expiry, otherwise the seconds left, which is positive. */
  function TtlOf(t: Table, key: string, now: int): (ttl: int)
    ensures ttl == -2 <==> !Live(t, key, now)
    ensures ttl == -1 <==> Live(t, key, now) && t[key].expiresAt.None?
    ensures ttl >= 0 ==> Live(t, key, now) && ttl > 0 && t[key].expiresAt == Some(now + ttl)
    ensures Live(t, key, now) && t[key].expiresAt.Some? ==> ttl == t[key].expiresAt.value - now && ttl > 0
  {
    if !Live(t, key, now) then -2
    else if t[key].expiresAt.None? then -1
    else t[key].expiresAt.value - now
  }

  /** The store itself, updated in place by the commands below. */
  class Store {
    var entries: Table

    constructor ()
      ensures entries == map[]
    {
      entries := map[];
    }

    /** INCR: a missing or expired key is first recreated at 0 with no
        expiry; the counter then goes up by one and the new value is returned.
        No other key changes. */
    method Incr(key: string, now: int) returns (cnt: int)
      modifies this
      ensures cnt == CountOf(old(entries), key, now) + 1
      ensures entries == old(entries)[key := Entry(cnt,
                if Live(old(entries), key, now) then old(entries)[key].expiresAt else None)]
    {
      if Live(entries, key, now) {
        cnt := entries[key].count + 1;
        entries := entries[key := Entry(cnt, entries[key].expiresAt)];
      } else {
        cnt := 1;
        entries := entries[key := Entry(cnt, None)];
      }
    }

    /** EXPIRE: a live key gets the expiry `now + secs`, or is deleted when
        `secs <= 0`, as the store does with a non-positive timeout; a missing
        key is left alone. */
    method Expire(key: string, secs: int, now: int)
      modifies this
      ensures !Live(old(entries), key, now) ==> entries == old(entries)
      ensures Live(old(entries), key, now) && secs <= 0 ==> entries == old(entries) - {key}
      ensures Live(old(entries), key, now) && secs > 0 ==>
                entries == old(entries)[key := Entry(old(entries)[key].count, Some(now + secs))]
    {
      if Live(entries, key, now) {
        if secs <= 0 {
          entries := entries - {key};
        } else {
          entries := entries[key := Entry(entries[key].count, Some(now + secs))];
        }
      }
    }

    /** TTL: reads the remaining time to live without changing anything. */
    method Ttl(key: string, now: int) returns (ttl: int)
      ensures ttl == TtlOf(entries, key, now)
    {
      ttl := TtlOf(entries, key, now);
    }
  }
}
