/** What a sequence of `count` calls on one key does: the replay of the
    calls as functions, and the lemmas about one fixed window (the first
    `limit` calls admitted with a quota falling by one each, every later
    call denied, one reset time for the whole window), about a window that
    has expired, and about the fallback for a missing TTL. */
module Window {
  import opened KeySpace
  import opened RateLimit

  /** The decisions of successive `count` calls on `key` at the given times,
      starting from table `t`. */
  function Decisions(lim: Limiter, t: Table, key: string, times: seq<nat>): (ds: seq<Decision>)
    ensures |ds| == |times|
    decreases |times|
  {
    if times == [] then []
    else [Outcome(lim, t, key, times[0])]
         + Decisions(lim, ScriptTable(t, key, WindowSecs(lim), times[0]), key, times[1..])
  }

  /** The table after those calls: no other key is touched, and the
      invariant the script keeps still holds. */
  function TableAfter(lim: Limiter, t: Table, key: string, times: seq<nat>): (t': Table)
    ensures OthersUnchanged(t, t', key)
    ensures times != [] && WindowSecs(lim) > 0 ==> key in t'
    ensures WellFormed(t) ==> WellFormed(t')
    decreases |times|
  {
    if times == [] then t
    else TableAfter(lim, ScriptTable(t, key, WindowSecs(lim), times[0]), key, times[1..])
  }

  /** How many of the decisions admitted their request. */
  function Admitted(ds: seq<Decision>): (n: nat)
    ensures n <= |ds|
  {
    if ds == [] then 0 else (if ds[0].limited then 0 else 1) + Admitted(ds[1..])
  }

  /** Calls that join a live counter holding `c >= 1` with expiry `e`: call
      `i` sees the count `c + i + 1`, is admitted with what is left of the
      limit while that count is within it and denied with nothing left after,
      and every call reports the same reset `e`. Each call adds one to the
      counter, the denied ones too, and the expiry is never touched. */
  lemma {:induction false} WithinWindow(lim: Limiter, t: Table, key: string, times: seq<nat>, c: int, e: usize)
    requires c >= 1
    requires key in t && t[key] == Entry(c, Some(e as int))
    requires forall i :: 0 <= i < |times| ==> times[i] < e as int
    ensures forall i :: 0 <= i < |times| && c + i + 1 <= lim.limit as int ==>
              Decisions(lim, t, key, times)[i] == Decision(false, (lim.limit as int - (c + i + 1)) as usize, e)
    ensures forall i :: 0 <= i < |times| && c + i + 1 > lim.limit as int ==>
              Decisions(lim, t, key, times)[i] == Decision(true, 0, e)
    ensures TableAfter(lim, t, key, times) == t[key := Entry(c + |times|, Some(e as int))]
    decreases |times|
  {
    if times != [] {
      var win := WindowSecs(lim);
      var t1 := ScriptTable(t, key, win, times[0]);
      assert t1 == t[key := Entry(c + 1, Some(e as int))];
      var rest := times[1..];
      WithinWindow(lim, t1, key, rest, c + 1, e);
      assert t1[key := Entry(c + 1 + |rest|, Some(e as int))] == t[key := Entry(c + |times|, Some(e as int))];
      var ds := Decisions(lim, t, key, times);
      assert ds == [Outcome(lim, t, key, times[0])] + Decisions(lim, t1, key, rest);
      forall i | 0 <= i < |times| && i > 0
        ensures ds[i] == Decisions(lim, t1, key, rest)[i - 1]
      {
      }
    }
  }

  /** A fresh window: for a key that is missing or expired at the first call,
      with a positive period and every call before the window closes, call
      `i + 1` is admitted with `limit - (i + 1)` left while `i < limit` and
      denied with 0 left from call `limit + 1` on; all report the reset
      `times[0] + period`, and the counter ends at the number of calls. */
  lemma FreshWindow(lim: Limiter, t: Table, key: string, times: seq<nat>)
    requires |times| > 0 && WindowSecs(lim) > 0
    requires !Live(t, key, times[0])
    requires times[0] + WindowSecs(lim) < USIZE_MODULUS
    requires forall i :: 0 <= i < |times| ==> times[i] < times[0] + WindowSecs(lim)
    ensures forall i :: 0 <= i < |times| && i < lim.limit as int ==>
              Decisions(lim, t, key, times)[i]
                == Decision(false, (lim.limit as int - (i + 1)) as usize, (times[0] + WindowSecs(lim)) as usize)
    ensures forall i :: lim.limit as int <= i < |times| ==>
              Decisions(lim, t, key, times)[i] == Decision(true, 0, (times[0] + WindowSecs(lim)) as usize)
    ensures TableAfter(lim, t, key, times) == t[key := Entry(|times|, Some(times[0] + WindowSecs(lim)))]
  {
    var e := (times[0] + WindowSecs(lim)) as usize;
    var t1 := ScriptTable(t, key, WindowSecs(lim), times[0]);
    assert t1 == t[key := Entry(1, Some(e as int))];
    var rest := times[1..];
    WithinWindow(lim, t1, key, rest, 1, e);
    assert t1[key := Entry(1 + |rest|, Some(e as int))] == t[key := Entry(|times|, Some(e as int))];
    var ds := Decisions(lim, t, key, times);
    assert ds[0] == Outcome(lim, t, key, times[0]);
    forall i | 0 < i < |times|
      ensures ds[i] == Decisions(lim, t1, key, rest)[i - 1]
    {
    }
  }

  /** Decisions that are denied exactly from position `k` on admit
      `k` of them, clamped to the length. */
  lemma {:induction false} AdmittedPrefix(ds: seq<Decision>, k: int)
    requires forall i :: 0 <= i < |ds| ==> (ds[i].limited <==> i >= k)
    ensures Admitted(ds) == if k <= 0 then 0 else if k >= |ds| then |ds| else k
  {
    if ds != [] {
      forall i | 0 <= i < |ds| - 1
        ensures ds[1..][i].limited <==> i >= k - 1
      {
        assert ds[1..][i] == ds[i + 1];
      }
      AdmittedPrefix(ds[1..], k - 1);
    }
  }

  /** However many calls arrive in one window on a fresh key, exactly
      min(calls, limit) of them are admitted: never more, never fewer.
      The bound on `times[0] + period` is there only because the proof goes
      through `FreshWindow`; the count itself does not depend on the reset. */
  lemma AdmittedInFreshWindow(lim: Limiter, t: Table, key: string, times: seq<nat>)
    requires |times| > 0 && WindowSecs(lim) > 0
    requires !Live(t, key, times[0])
    requires times[0] + WindowSecs(lim) < USIZE_MODULUS
    requires forall i :: 0 <= i < |times| ==> times[i] < times[0] + WindowSecs(lim)
    ensures Admitted(Decisions(lim, t, key, times))
              == if |times| <= lim.limit as int then |times| else lim.limit as int
  {
    FreshWindow(lim, t, key, times);
    var ds := Decisions(lim, t, key, times);
    AdmittedPrefix(ds, lim.limit as int);
  }

  /** A key that is missing or whose expiry has passed is treated exactly as
      a never-seen key: the call sees count 1, starts a new expiry at
      `now + period`, and decides as the first call of a window. */
  lemma ExpiredStartsFresh(lim: Limiter, t: Table, key: string, now: nat)
    requires !Live(t, key, now)
    ensures ScriptTable(t, key, WindowSecs(lim), now) == ScriptTable(t - {key}, key, WindowSecs(lim), now)
    ensures Outcome(lim, t, key, now) == Outcome(lim, t - {key}, key, now)
    ensures WindowSecs(lim) > 0 ==>
              key in ScriptTable(t, key, WindowSecs(lim), now)
              && ScriptTable(t, key, WindowSecs(lim), now)[key] == Entry(1, Some(now + WindowSecs(lim)))
    ensures WindowSecs(lim) == 0 ==> key !in ScriptTable(t, key, WindowSecs(lim), now)
    ensures now + WindowSecs(lim) < USIZE_MODULUS ==>
              Outcome(lim, t, key, now)
                == Decision(lim.limit == 0, if lim.limit == 0 then 0 else lim.limit - 1, (now + WindowSecs(lim)) as usize)
  {
  }

  /** The expiry is set once per window: a later call that still finds the
      counter live reports the same reset as the call before it. */
  lemma ResetStable(lim: Limiter, t: Table, key: string, now1: nat, now2: nat)
    requires WellFormed(t)
    requires Live(ScriptTable(t, key, WindowSecs(lim), now1), key, now2)
    ensures Outcome(lim, ScriptTable(t, key, WindowSecs(lim), now1), key, now2).reset
              == Outcome(lim, t, key, now1).reset
  {
  }

  /** The script's fallback for a negative TTL is reached, on a table the
      script itself built, only when a new window starts with a period of
      zero seconds; otherwise the TTL read back is always positive. */
  lemma FallbackOnlyForZeroWindow(t: Table, key: string, win: nat, now: int)
    requires WellFormed(t)
    ensures TtlOf(ScriptTable(t, key, win, now), key, now) < 0 <==> !Live(t, key, now) && win == 0
  {
  }

  /** With a period of zero seconds the EXPIRE on a new counter deletes it
      at once, so every call, in any time order, is the first of its window:
      a limiter is then never limited unless its limit is 0, and the key is
      left absent. */
  lemma {:induction false} ZeroPeriodNeverAccumulates(lim: Limiter, t: Table, key: string, times: seq<nat>)
    requires WindowSecs(lim) == 0
    requires |times| > 0 ==> !Live(t, key, times[0])
    ensures forall i :: 0 <= i < |times| ==>
              Decisions(lim, t, key, times)[i] == Outcome(lim, map[], key, times[i])
    ensures forall i :: 0 <= i < |times| ==>
              (Decisions(lim, t, key, times)[i].limited <==> lim.limit == 0)
    ensures times != [] ==> key !in TableAfter(lim, t, key, times)
    decreases |times|
  {
    if times != [] {
      var t1 := ScriptTable(t, key, 0, times[0]);
      var rest := times[1..];
      assert key !in t1;
      ZeroPeriodNeverAccumulates(lim, t1, key, rest);
      ExpiredStartsFresh(lim, t, key, times[0]);
      assert !Live(map[], key, times[0]);
      var ds := Decisions(lim, t, key, times);
      forall i | 0 < i < |times|
        ensures ds[i] == Decisions(lim, t1, key, rest)[i - 1]
      {
      }
    }
  }

  /** A live counter whose expiry was removed outside the limiter (the
      store's PERSIST, say) is never reset: INCR keeps it without expiry,
      the EXPIRE never runs again because the count is past 1, and every
      call reports the reset `now + period` while the count keeps rising,
      so once it passes the limit the key stays limited for good. */
  lemma {:induction false} StrippedExpiryNeverResets(lim: Limiter, t: Table, key: string, times: seq<nat>, c: int)
    requires c >= 1
    requires key in t && t[key] == Entry(c, None)
    requires forall i :: 0 <= i < |times| ==> times[i] + WindowSecs(lim) < USIZE_MODULUS
    ensures forall i :: 0 <= i < |times| ==>
              (Decisions(lim, t, key, times)[i].limited <==> c + i + 1 > lim.limit as int)
    ensures forall i :: 0 <= i < |times| ==>
              Decisions(lim, t, key, times)[i].reset as int == times[i] + WindowSecs(lim)
    ensures TableAfter(lim, t, key, times) == t[key := Entry(c + |times|, None)]
    decreases |times|
  {
    if times != [] {
      var t1 := ScriptTable(t, key, WindowSecs(lim), times[0]);
      assert t1 == t[key := Entry(c + 1, None)];
      var rest := times[1..];
      forall i | 0 <= i < |rest|
        ensures rest[i] + WindowSecs(lim) < USIZE_MODULUS
      {
        assert rest[i] == times[i + 1];
      }
      StrippedExpiryNeverResets(lim, t1, key, rest, c + 1);
      assert t1[key := Entry(c + 1 + |rest|, None)] == t[key := Entry(c + |times|, None)];
      var ds := Decisions(lim, t, key, times);
      assert ds[0] == Outcome(lim, t, key, times[0]);
      forall i | 0 < i < |times|
        ensures ds[i] == Decisions(lim, t1, key, rest)[i - 1]
      {
      }
    }
  }
}
