/**
 * The sliding-window check of `rateLimitCheck`, as a function of the stored
 * timestamp list; the store applies it to the list kept per action name.
 */
module RateLimit {

  /** `attempts.filter(time => now - time < timeWindow)`. */
  function Recent(ts: seq<int>, now: int, window: int): (r: seq<int>)
    ensures |r| <= |ts|
    ensures forall i :: 0 <= i < |r| ==> now - r[i] < window
    ensures forall i :: 0 <= i < |ts| && now - ts[i] < window ==> ts[i] in r
    ensures forall t :: t in r ==> t in ts
    decreases |ts|
  {
    if ts == [] then []
    else
      var rest := Recent(ts[1..], now, window);
      if now - ts[0] < window then [ts[0]] + rest else rest
  }

  /** Filtering distributes over concatenation. */
  lemma {:induction false} RecentAppend(a: seq<int>, b: seq<int>, now: int, window: int)
    ensures Recent(a + b, now, window) == Recent(a, now, window) + Recent(b, now, window)
    decreases |a|
  {
    if a == [] {
      assert a + b == b;
    } else {
      assert (a + b)[1..] == a[1..] + b;
      RecentAppend(a[1..], b, now, window);
    }
  }

  /** A list already inside the window is kept as it is. */
  lemma {:induction false} RecentAllFresh(ts: seq<int>, now: int, window: int)
    requires forall i :: 0 <= i < |ts| ==> now - ts[i] < window
    ensures Recent(ts, now, window) == ts
    decreases |ts|
  {
    if ts != [] {
      RecentAllFresh(ts[1..], now, window);
    }
  }

  /** A list wholly outside the window is dropped. */
  lemma {:induction false} RecentAllStale(ts: seq<int>, now: int, window: int)
    requires forall i :: 0 <= i < |ts| ==> now - ts[i] >= window
    ensures Recent(ts, now, window) == []
    decreases |ts|
  {
    if ts != [] {
      RecentAllStale(ts[1..], now, window);
    }
  }

  /** The outcome of one check: whether it was allowed, and the list stored afterwards. */
  datatype Decision = Decision(allowed: bool, stored: seq<int>)

  /** One call of `rateLimitCheck` on the stored list `ts`. */
  function Check(ts: seq<int>, limit: int, window: int, now: int): (d: Decision)
    ensures d.allowed <==> |Recent(ts, now, window)| < limit
    ensures !d.allowed ==> d.stored == ts
    ensures d.allowed ==> d.stored == Recent(ts, now, window) + [now]
  {
    var recent := Recent(ts, now, window);
    if |recent| >= limit then Decision(false, ts) else Decision(true, recent + [now])
  }

  /**
   * After an allowed check, every stored time lies inside the window and
   * there are at most `limit` of them.
   */
  lemma AllowedIsBounded(ts: seq<int>, limit: int, window: int, now: int)
    requires window > 0
    requires Check(ts, limit, window, now).allowed
    ensures var s := Check(ts, limit, window, now).stored;
      |s| <= limit && (forall i :: 0 <= i < |s| ==> now - s[i] < window) && s[|s| - 1] == now
  {
  }

  /** A denial does not consume a slot: retrying at the same moment is denied again. */
  lemma DenialIsStable(ts: seq<int>, limit: int, window: int, now: int)
    requires !Check(ts, limit, window, now).allowed
    ensures Check(Check(ts, limit, window, now).stored, limit, window, now) == Check(ts, limit, window, now)
  {
  }

  /** A check against a list inside the window: allowed exactly when the list is shorter than the limit. */
  lemma CheckFresh(ts: seq<int>, limit: int, window: int, now: int)
    requires forall i :: 0 <= i < |ts| ==> now - ts[i] < window
    ensures Check(ts, limit, window, now) ==
      if |ts| < limit then Decision(true, ts + [now]) else Decision(false, ts)
  {
    RecentAllFresh(ts, now, window);
  }

  /** A check against a list wholly outside the window is allowed and stores `[now]` alone. */
  lemma CheckStale(ts: seq<int>, limit: int, window: int, now: int)
    requires forall i :: 0 <= i < |ts| ==> now - ts[i] >= window
    requires limit > 0
    ensures Check(ts, limit, window, now) == Decision(true, [now])
  {
    RecentAllStale(ts, now, window);
  }

  /**
   * With a limit of three, three calls inside one window are allowed and a
   * fourth inside the same window is denied (times never decrease); once the
   * window has passed since the third call, a fifth call is allowed again.
   */
  lemma ThreePerWindow(ts: seq<int>, window: int, t1: int, t2: int, t3: int, t4: int, t5: int)
    requires window > 0
    requires forall i :: 0 <= i < |ts| ==> ts[i] <= t1 - window
    requires t1 <= t2 <= t3 <= t4 && t4 - t1 < window && t5 >= t3 + window
    ensures Check(ts, 3, window, t1) == Decision(true, [t1])
    ensures Check([t1], 3, window, t2) == Decision(true, [t1, t2])
    ensures Check([t1, t2], 3, window, t3) == Decision(true, [t1, t2, t3])
    ensures Check([t1, t2, t3], 3, window, t4) == Decision(false, [t1, t2, t3])
    ensures Check([t1, t2, t3], 3, window, t5) == Decision(true, [t5])
  {
    CheckStale(ts, 3, window, t1);
    CheckFresh([t1], 3, window, t2);
    CheckFresh([t1, t2], 3, window, t3);
    CheckFresh([t1, t2, t3], 3, window, t4);
    CheckStale([t1, t2, t3], 3, window, t5);
  }
}
