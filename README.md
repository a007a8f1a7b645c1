# Fixed-window request counter of actix-limiter, in Dafny

This project models the core of the `actix-limiter` rate limiter. That core
is the fixed-window counter in `src/lib.rs`. It has three parts:

- the counting script that the shared store (Redis) runs as one indivisible
  `EVAL` step. On each call it increments the key's counter, sets an expiry
  of `win` seconds only when the call created the counter, reads the TTL
  back (a negative TTL becomes `win`), and replies
  `{limited, remaining, now + ttl}`;
- the client-side decoding in `Limiter::count`, which turns the three
  integers into `(bool, usize, usize)`;
- the defaults that `Limiter::builder` starts from: a limit of 5000
  requests, a period of 3600 seconds, the cookie name `"sid"`, and, when the
  session feature is on, the session key `"rate-api-id"` (`DEFAULT_*`
  constants, src/lib.rs:33-43).

Files:

- `keyspace.dfy`, module `KeySpace`: the part of the store that the script
  uses. The class `Store` holds a map from key to `Entry(count, expiresAt)`.
  Its methods `Incr`, `Expire` and `Ttl` are the three commands the script
  issues; `Incr` and `Expire` change the map in place, `Ttl` only reads it.
  Time is an explicit integer number of seconds. An entry whose expiry is not after `now` behaves
  exactly as an absent key. `EXPIRE` with a non-positive time deletes the
  key, as the store does, and `TTL` then reports -2.
- `ratelimit.dfy`, module `RateLimit`: the script as the method
  `RunScript`, which mirrors it line by line on a `Store`. It is proved
  against the functions `ScriptTable` (the new table) and `ScriptReply` (the
  reply), whose contracts state each step's meaning in closed form. Also
  here: `LimitedFlag` and `Remaining` (lines 27-28), the reply decoding
  (`AsUsize`, `Decode`), `Count` (one `Limiter::count` call on a store) and
  `DefaultBuilder`.
- `window.dfy`, module `Window`: sequences of calls on one key (`Decisions`,
  `TableAfter`), and lemmas about windows. These cover a fresh window, a
  window joined part-way, how many calls are admitted, what happens after
  expiry, the stability of the reset time, when the TTL fallback can fire,
  a zero-second period, and a counter whose expiry was removed.

The invariant the script keeps (`RateLimit.WellFormed`) is that every
counter holds at least 1 and has an expiry. Counts in the table are any
integer, so a key edited outside the limiter (for example set to 0, or
stripped of its expiry) is modelled too. The lemmas that need the
invariant require it.

## Model

| member | source | states |
|---|---|---|
| `KeySpace.TtlOf` | src/lib.rs:24 | TTL is -2 exactly for a missing or expired key and -1 exactly for a live key without expiry. For a live key with an expiry it is `expiresAt - now`, which is positive. |
| `KeySpace.Store.Incr` | src/lib.rs:19 | INCR returns the live count plus one (1 for a missing or expired key). The entry is rewritten with that count. A live key keeps its expiry and a recreated key has none. No other key changes. |
| `KeySpace.Store.Expire` | src/lib.rs:20-22 | EXPIRE sets the expiry of a live key to `now + secs` and keeps its count. With `secs <= 0` it deletes the key. A missing key is left alone. |
| `KeySpace.Store.Ttl` | src/lib.rs:24 | TTL returns `TtlOf` of the current table and changes nothing. |
| `RateLimit.DefaultBuilder` | src/lib.rs:78-88 | A fresh builder has limit 5000, period exactly 3600 s, no key function and cookie name "sid". With the session feature its session key is "rate-api-id"; without it there is none. |
| `RateLimit.LimitedFlag` | src/lib.rs:27 | `limited` is 0 or 1, and it is 1 exactly when the count exceeds the limit. |
| `RateLimit.Remaining` | src/lib.rs:28 | `remaining` is 0 when limited, and equals max(0, limit - cnt) in every case. For cnt >= 1 and limit >= 1 it lies between 0 and limit - 1. With limit 0 and cnt >= 0 it is 0. |
| `RateLimit.ScriptTable` | src/lib.rs:19-22 | The counter rises by exactly one, past the limit too. The expiry becomes `now + win` only when the new count is 1, and otherwise stays the live entry's own. The key is absent afterwards exactly when the count was new and `win == 0`, because that EXPIRE deletes it. Other keys are unchanged. The invariant is preserved. |
| `RateLimit.ScriptReply` | src/lib.rs:19-29 | The reply has three values. `limited` is 1 exactly when the new count exceeds the limit. `remaining` is 0 or limit - count. `reset` equals the window end (the recorded expiry of the live counter, or `now + win`), is never before `now`, and is after `now` when `win > 0`. |
| `RateLimit.RunScript` | src/lib.rs:13-30 | The step-by-step script (INCR, conditional EXPIRE, TTL with fallback, reply) leaves the store at `ScriptTable` and returns `ScriptReply`. |
| `RateLimit.AsUsize` | src/lib.rs:108-109 | `as usize` passes a non-negative value through unchanged and wraps a negative i64 by 2^64. |
| `RateLimit.Decode` | src/lib.rs:107-110 | `limited` holds exactly when `res[0] == 1`. `remaining` and `reset` pass through unchanged when they are within range. |
| `RateLimit.Outcome` | src/lib.rs:91-111 | A call's decision is limited exactly when the new count exceeds the limit. Limited means 0 remaining. Otherwise remaining is limit - count whenever that fits in a `usize` (always, for counts of 0 or more). The reset is the window end whenever that fits in a `usize`. |
| `RateLimit.Count` | src/lib.rs:91-111 | `count` leaves the store at `ScriptTable` and returns `Outcome` for window `period.as_secs()`. |
| `Window.TableAfter` | src/lib.rs:19-22 | A run of calls on one key touches no other key and keeps the invariant. With a positive period, the key is present after at least one call. |
| `Window.WithinWindow` | src/lib.rs:19-29 | On a live counter at `c >= 1` with expiry `e`, call i sees count c+i+1. It is `(false, limit-(c+i+1), e)` while that count is within the limit, and `(true, 0, e)` after. The counter ends at c + calls, and the expiry stays `e`. |
| `Window.FreshWindow` | src/lib.rs:19-29 | On a fresh key with calls inside one window, call i+1 is `(false, limit-(i+1), start+period)` for i < limit. Every later call is `(true, 0, start+period)`. The counter ends at the number of calls. |
| `Window.AdmittedInFreshWindow` | src/lib.rs:19-29 | Of n calls in one window on a fresh key, exactly min(n, limit) are admitted. |
| `Window.ExpiredStartsFresh` | src/lib.rs:19-22 | A missing or expired key behaves exactly like a never-seen key. The call gets count 1 and expiry `now + period` (with a 0-second period the key is left deleted), and its decision is that of call 1 with reset `now + period`. |
| `Window.ResetStable` | src/lib.rs:20-29 | On a well-formed table, the next call that still finds the counter live reports the same reset as the call before it. |
| `Window.FallbackOnlyForZeroWindow` | src/lib.rs:24-25 | On a well-formed table, the TTL read is negative (so the fallback fires) exactly when the call starts a new window with a 0-second period. |
| `Window.ZeroPeriodNeverAccumulates` | src/lib.rs:20-25 | With a period under one second (`as_secs() == 0`), the EXPIRE deletes each new counter. So every call, at any times in any order, decides as on an empty store, and it is limited only when the limit is 0. The key is left absent. |
| `Window.StrippedExpiryNeverResets` | src/lib.rs:19-29 | A live counter whose expiry was removed outside the limiter is never reset. Each call adds one and keeps it without expiry, and reports reset `now + period`. From the call that passes the limit on, every call is limited. |

## Left out

- The Redis connection pool and the async `pool.get()` / `query_async` round trip (src/lib.rs:96-105) are I/O against an external service. The script runs as a direct method on the `Store` object, so the `Err` results of `count` are not modelled.
- The clock read `SystemTime::now()` (src/lib.rs:93) is not modelled: `now` is a parameter.
- The store's clock is taken to be the caller's `now`. In the source, EXPIRE and TTL run on the Redis server's clock, while `now` is each process's own `SystemTime` reading, used only for `now + ttl`. Clock skew between processes and the server, or a clock that moves backwards, is not modelled. The lemmas about one reset time per window rely on this single clock.
- Concurrency is left out. Each script run is one sequential atomic step, as `EVAL` guarantees, and interleaving across processes is the store's concern.
- The `GetKeyFn` closure type, its `Debug` impl and the `ServiceRequest` glue (src/lib.rs:45-61) are left out: they are opaque user callbacks and framework code. The builder only records whether a key function was given.
- The `builder`, `errors`, `middleware` and `status` modules are not part of this model. So is how a `Limiter` is built from a `Builder`, and any validation of limit or period.
- RateLimit.Count: the casts `limit as i64`, `win as i64` and `now as i64` (src/lib.rs:101-103) are taken as exact. Values at or above 2^63 would wrap in the source, and values above 2^53 lose precision in the script's Lua numbers.
- RateLimit.Decode: it requires at least three reply values, because the source indexes `res[0..2]` and would panic on a shorter reply. The script always sends three.
- The window lemmas assume that the reset time and the limit fit in a `usize` (reset below 2^64). Outside that range `AsUsize` models the wrap.
- Redis `INCR` on a non-integer value, and its overflow past the i64 maximum, are left out: entries hold unbounded integers.
- Redis reports TTL in whole seconds rounded from milliseconds. Here expiries are whole seconds, so TTL is exact.
