/** The fixed-window limiter: the counting script the store runs as one
    indivisible step, the client-side decoding of its three-integer reply,
    and the default policy a new builder starts from. */
module RateLimit {
  import opened KeySpace

  const USIZE_MODULUS: int := 0x1_0000_0000_0000_0000

  /** Rust's `usize` on a 64-bit target (also the range of `u64`). */
  newtype usize = x: int | 0 <= x < 0x1_0000_0000_0000_0000

  const DEFAULT_REQUEST_LIMIT: usize := 5000
  const DEFAULT_PERIOD_SECS: usize := 3600
  const DEFAULT_COOKIE_NAME: string := "sid"
  const DEFAULT_SESSION_KEY: string := "rate-api-id"

  /** The sub-second part of a `Duration`, below one second. */
  type Nanos = n: nat | n < 1_000_000_000

  /** A `std::time::Duration`: whole seconds plus a sub-second part. */
  datatype Duration = Duration(secs: usize, subsecNanos: Nanos)

  /** The builder state `Limiter::builder` starts from. The store handle is
      not modelled; the optional key function is reduced to whether one was
      given; the session key exists only when the session feature is on. */
  datatype Builder = Builder(
    limit: usize,
    period: Duration,
    hasGetKeyFn: bool,
    cookieName: string,
    sessionKey: Option<string>)

  /** The policy a limiter counts with (its store handle and key function are
      not modelled). */
  datatype Limiter = Limiter(limit: usize, period: Duration)

  /** What `count` hands back: `(limited, remaining, reset)`. */
  datatype Decision = Decision(limited: bool, remaining: usize, reset: usize)

  /** The window length in whole seconds, as `period.as_secs()` truncates it. */
  function WindowSecs(lim: Limiter): nat
  {
    lim.period.secs as nat
  }

  /** `Limiter::builder`: a fresh builder carries the default limit of 5000
      requests, a period of exactly 3600 seconds, no key function, the cookie
      name "sid" and, with the session feature, the session key "rate-api-id". */
  function DefaultBuilder(sessionFeature: bool): (b: Builder)
    ensures b.limit == 5000 && b.period.secs == 3600 && b.period.subsecNanos == 0
    ensures !b.hasGetKeyFn && b.cookieName == "sid"
    ensures sessionFeature ==> b.sessionKey == Some("rate-api-id")
    ensures !sessionFeature ==> b.sessionKey.None?
  {
    Builder(
      DEFAULT_REQUEST_LIMIT,
      Duration(DEFAULT_PERIOD_SECS, 0),
      false,
      DEFAULT_COOKIE_NAME,
      if sessionFeature then Some(DEFAULT_SESSION_KEY) else None)
  }

  // ---------------------------------------------------------------------
  // The counting script

  /** The invariant the script keeps on every counter it creates: a count of
      at least one and an expiry. */
  predicate WellFormed(t: Table)
  {
    forall k :: k in t ==> t[k].count >= 1 && t[k].expiresAt.Some?
  }

  /** The script's `limited` flag: 1 exactly when the count is over the limit. */
  function LimitedFlag(cnt: int, limit: int): (f: int)
    ensures f == 0 || f == 1
    ensures f == 1 <==> cnt > limit
  {
    if cnt > limit then 1 else 0
  }

  /** The script's `remaining`: nothing once limited, otherwise what is left
      of the limit; for a count of at least one that is max(0, limit - cnt),
      which stays below the limit. */
  function Remaining(limited: int, cnt: int, limit: int): (r: int)
    requires limited == LimitedFlag(cnt, limit)
    ensures limited == 1 ==> r == 0
    ensures r == if limit - cnt > 0 then limit - cnt else 0
    ensures cnt >= 1 ==> 0 <= r && (limit >= 1 ==> r <= limit - 1)
  {
    if limited == 1 then 0 else limit - cnt
  }

  /** The table after one run of the script on `key` at time `now`: the
      INCR produces the live count plus one, past the limit too, and that is
      the stored count; the expiry is set to `now + win` only when the
      increment produced 1 (with `win == 0` that EXPIRE deletes the key), and
      is the stored one otherwise; no other key changes; the invariant is
      kept. */
  function ScriptTable(t: Table, key: string, win: nat, now: int): (t': Table)
    ensures key !in t' <==> CountOf(t, key, now) == 0 && win == 0
    ensures key in t' ==> t'[key].count == CountOf(t, key, now) + 1
    ensures key in t' && t'[key].count == 1 ==> t'[key].expiresAt == Some(now + win)
    ensures key in t' && t'[key].count != 1 ==> Live(t, key, now) && t'[key].expiresAt == t[key].expiresAt
    ensures OthersUnchanged(t, t', key)
    ensures WellFormed(t) ==> WellFormed(t')
  {
    var cnt := CountOf(t, key, now) + 1;
    if cnt != 1 then t[key := Entry(cnt, t[key].expiresAt)]
    else if win == 0 then t - {key}
    else t[key := Entry(1, Some(now + win))]
  }

  /** The absolute time a call's window ends: the expiry already recorded
      for the live counter it joins, or `now + win` for a call that starts
      a new window (or finds no expiry recorded). */
  function WindowEnd(t: Table, key: string, win: nat, now: int): int
  {
    if Live(t, key, now) && t[key].count != 0 && t[key].expiresAt.Some?
    then t[key].expiresAt.value
    else now + win
  }

  /** The script's reply `{limited, remaining, now + ttl}`, computed as the
      script does it, from the TTL read back after the increment (a negative
      TTL replaced by `win`). Admission depends only on the new count, and
      the reset time is the end of the window, never before `now`. */
  function ScriptReply(t: Table, key: string, limit: nat, win: nat, now: int): (r: seq<int>)
    ensures |r| == 3
    ensures r[0] == 0 || r[0] == 1
    ensures r[0] == 1 <==> CountOf(t, key, now) + 1 > limit
    ensures r[1] == if r[0] == 1 then 0 else limit - (CountOf(t, key, now) + 1)
    ensures r[2] == WindowEnd(t, key, win, now)
    ensures r[2] >= now && (win > 0 ==> r[2] > now)
  {
    var cnt := CountOf(t, key, now) + 1;
    var ttl := TtlOf(ScriptTable(t, key, win, now), key, now);
    var limited := LimitedFlag(cnt, limit);
    [limited, Remaining(limited, cnt, limit), now + (if ttl < 0 then win else ttl)]
  }

  /** The script, one indivisible step over the store: INCR, EXPIRE only on
      the call that produced 1, TTL with the fallback to `win`, and the
      three-integer reply. */
  method RunScript(store: Store, key: string, limit: nat, win: nat, now: int) returns (res: seq<int>)
    modifies store
    ensures store.entries == ScriptTable(old(store.entries), key, win, now)
    ensures res == ScriptReply(old(store.entries), key, limit, win, now)
  {
    var cnt := store.Incr(key, now);
    if cnt == 1 {
      store.Expire(key, win, now);
    }
    var ttl := store.Ttl(key, now);
    if ttl < 0 {
      ttl := win;
    }
    var limited := LimitedFlag(cnt, limit);
    var remaining := Remaining(limited, cnt, limit);
    res := [limited, remaining, now + ttl];
  }

  // ---------------------------------------------------------------------
  // Client-side decoding

  /** Rust's `i64 as usize` on a 64-bit target: the same bits read unsigned,
      so a non-negative value passes through and a negative one wraps. */
  function AsUsize(x: int): (u: usize)
    ensures 0 <= x < USIZE_MODULUS ==> u as int == x
    ensures -USIZE_MODULUS <= x < 0 ==> u as int == x + USIZE_MODULUS
  {
    (x % USIZE_MODULUS) as usize
  }

  /** The decoding in `count`: `limited` is exactly `res[0] == 1`, and
      `remaining` and `reset` pass through unchanged when they are in range. */
  function Decode(res: seq<int>): (d: Decision)
    requires |res| >= 3
    ensures d.limited <==> res[0] == 1
    ensures 0 <= res[1] < USIZE_MODULUS ==> d.remaining as int == res[1]
    ensures 0 <= res[2] < USIZE_MODULUS ==> d.reset as int == res[2]
  {
    Decision(res[0] == 1, AsUsize(res[1]), AsUsize(res[2]))
  }

  /** What one `count` call at time `now` returns against table `t`. */
  function Outcome(lim: Limiter, t: Table, key: string, now: nat): (d: Decision)
    ensures d.limited <==> CountOf(t, key, now) + 1 > lim.limit as int
    ensures d.limited ==> d.remaining == 0
    ensures !d.limited && lim.limit as int - (CountOf(t, key, now) + 1) < USIZE_MODULUS ==>
              d.remaining as int == lim.limit as int - (CountOf(t, key, now) + 1)
    ensures WindowEnd(t, key, WindowSecs(lim), now) < USIZE_MODULUS ==>
              d.reset as int == WindowEnd(t, key, WindowSecs(lim), now)
  {
    Decode(ScriptReply(t, key, lim.limit as nat, WindowSecs(lim), now))
  }

  /** `Limiter::count`: consumes one unit for `key` at the caller's clock
      reading `now` and reports the decision. */
  method Count(lim: Limiter, store: Store, key: string, now: usize) returns (d: Decision)
    modifies store
    ensures store.entries == ScriptTable(old(store.entries), key, WindowSecs(lim), now as int)
    ensures d == Outcome(lim, old(store.entries), key, now as nat)
  {
    var win := lim.period.secs;
    var res := RunScript(store, key, lim.limit as nat, win as nat, now as int);
    d := Decode(res);
  }
}
