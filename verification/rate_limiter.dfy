/**
 * The per-user sliding-window rate limiter. Each user (keyed by the decimal
 * text of the numeric id) has the list of the instants of the requests it was
 * allowed; a request is allowed while fewer than `maxRequests` of them lie
 * within the last minute.
 *
 * Instants are integers in microseconds; the clock is the parameter `now`.
 */
module RateLimiter {
  import opened Wrappers
  import opened Text
  import opened Errors

  /** One minute, the limiter's window. */
  const Window: int := 60 * 1_000_000
  const DefaultMaxRequests: int := 30

  datatype Limiter = Limiter(requests: map<string, seq<int>>, maxRequests: int)

  /** A limiter that has seen no request. */
  function Fresh(maxRequests: int): Limiter {
    Limiter(map[], maxRequests)
  }

  /** The user key: `str(user_id)`. */
  function Key(user: int): string {
    IntToString(user)
  }

  /** The instants recorded for a user; none when the user is unknown. */
  function Stamps(lim: Limiter, user: int): seq<int> {
    if Key(user) in lim.requests then lim.requests[Key(user)] else []
  }

  /** Distinct users have distinct keys, so their histories never mix. */
  lemma KeysDistinct(u: int, v: int)
    requires u != v
    ensures Key(u) != Key(v)
  {
    if Key(u) == Key(v) {
      IntToStringInjective(u, v);
    }
  }

  // ---------------------------------------------------------------------------
  // Pruning
  // ---------------------------------------------------------------------------

  /** The instants strictly after `windowStart`, in their original order. */
  function Prune(stamps: seq<int>, windowStart: int): (kept: seq<int>)
    ensures |kept| <= |stamps|
    ensures forall i | 0 <= i < |kept| :: kept[i] > windowStart
    ensures forall t :: multiset(kept)[t] == if t > windowStart then multiset(stamps)[t] else 0
    decreases |stamps|
  {
    if stamps == [] then []
    else
      var rest := Prune(stamps[1..], windowStart);
      assert stamps == [stamps[0]] + stamps[1..];
      if stamps[0] > windowStart then [stamps[0]] + rest else rest
  }

  /** Pruning keeps everything when every instant is inside the window. */
  lemma {:induction false} PruneKeepsRecent(stamps: seq<int>, windowStart: int)
    requires forall i | 0 <= i < |stamps| :: stamps[i] > windowStart
    ensures Prune(stamps, windowStart) == stamps
    decreases |stamps|
  {
    if stamps != [] {
      PruneKeepsRecent(stamps[1..], windowStart);
    }
  }

  /** Pruning drops everything when every instant is outside the window. */
  lemma {:induction false} PruneDropsStale(stamps: seq<int>, windowStart: int)
    requires forall i | 0 <= i < |stamps| :: stamps[i] <= windowStart
    ensures Prune(stamps, windowStart) == []
    decreases |stamps|
  {
    if stamps != [] {
      PruneDropsStale(stamps[1..], windowStart);
    }
  }

  predicate Ascending(stamps: seq<int>) {
    forall i, j | 0 <= i < j < |stamps| :: stamps[i] <= stamps[j]
  }

  /** On an ascending history, pruning removes a prefix. */
  lemma {:induction false} PruneAscendingIsSuffix(stamps: seq<int>, windowStart: int) returns (k: nat)
    requires Ascending(stamps)
    ensures k <= |stamps|
    ensures Prune(stamps, windowStart) == stamps[k..]
    decreases |stamps|
  {
    if stamps == [] {
      k := 0;
    } else if stamps[0] > windowStart {
      PruneKeepsRecent(stamps, windowStart);
      k := 0;
    } else {
      var k' := PruneAscendingIsSuffix(stamps[1..], windowStart);
      k := k' + 1;
      assert stamps[1..][k'..] == stamps[k..];
    }
  }

  // ---------------------------------------------------------------------------
  // Deciding one request
  // ---------------------------------------------------------------------------

  datatype Decision = Decision(limiter: Limiter, allowed: bool)

  /**
   * `is_allowed`: prune the user's history to the last minute and store the
   * pruned list; deny when it already holds `maxRequests` instants, and
   * otherwise record `now` and allow.
   */
  function IsAllowed(lim: Limiter, user: int, now: int): (d: Decision)
    ensures d.limiter.maxRequests == lim.maxRequests
    ensures Key(user) in d.limiter.requests
    ensures d.allowed <==> |Prune(Stamps(lim, user), now - Window)| < lim.maxRequests
    ensures Stamps(d.limiter, user) == Prune(Stamps(lim, user), now - Window) + (if d.allowed then [now] else [])
    ensures forall k | k != Key(user) :: (k in d.limiter.requests <==> k in lim.requests)
    ensures forall k | k != Key(user) && k in lim.requests :: d.limiter.requests[k] == lim.requests[k]
  {
    var recent := Prune(Stamps(lim, user), now - Window);
    if |recent| >= lim.maxRequests then
      Decision(lim.(requests := lim.requests[Key(user) := recent]), false)
    else
      Decision(lim.(requests := lim.requests[Key(user) := recent + [now]]), true)
  }

  /** After a request, the user's history is exactly the instants of the last minute, plus `now` when allowed. */
  lemma IsAllowedHistory(lim: Limiter, user: int, now: int)
    ensures var d := IsAllowed(lim, user, now);
      var h := Stamps(d.limiter, user);
      (forall i | 0 <= i < |h| :: now - Window < h[i])
      && (forall t | t != now :: multiset(h)[t] == if t > now - Window then multiset(Stamps(lim, user))[t] else 0)
      && multiset(h)[now] == multiset(Stamps(lim, user))[now] + (if d.allowed then 1 else 0)
  {
  }

  /**
   * With a clock that never runs backwards the stored history stays in
   * ascending order, so every later pruning drops a prefix of it.
   */
  lemma {:induction false} IsAllowedKeepsAscending(lim: Limiter, user: int, now: int)
    requires Ascending(Stamps(lim, user))
    requires forall i | 0 <= i < |Stamps(lim, user)| :: Stamps(lim, user)[i] <= now
    ensures Ascending(Stamps(IsAllowed(lim, user, now).limiter, user))
  {
    var h := Stamps(lim, user);
    var k := PruneAscendingIsSuffix(h, now - Window);
    var p := h[k..];
    assert forall i | 0 <= i < |p| :: p[i] == h[k + i];
    var d := IsAllowed(lim, user, now);
    var h' := Stamps(d.limiter, user);
    assert h' == p + (if d.allowed then [now] else []);
    forall i, j | 0 <= i < j < |h'|
      ensures h'[i] <= h'[j]
    {
      if j < |p| {
        assert h'[i] == h[k + i] && h'[j] == h[k + j];
      } else {
        assert h'[i] == h[k + i];
      }
    }
  }

  /** A request for one user leaves every other user's history as it was. */
  lemma OtherUsersUnaffected(lim: Limiter, user: int, other: int, now: int)
    requires user != other
    ensures Stamps(IsAllowed(lim, user, now).limiter, other) == Stamps(lim, other)
  {
    KeysDistinct(user, other);
  }

  /** Every stored history holds at most `maxRequests` instants. */
  predicate Bounded(lim: Limiter) {
    forall k | k in lim.requests :: |lim.requests[k]| <= lim.maxRequests
  }

  /** With a non-negative limit, no request can push a history over the limit. */
  lemma IsAllowedKeepsBound(lim: Limiter, user: int, now: int)
    requires lim.maxRequests >= 0
    requires Bounded(lim)
    ensures Bounded(IsAllowed(lim, user, now).limiter)
  {
  }

  // ---------------------------------------------------------------------------
  // Sequences of requests
  // ---------------------------------------------------------------------------

  datatype Run = Run(limiter: Limiter, outcomes: seq<bool>)

  /** One user's requests at the given instants, in order. */
  function RunRequests(lim: Limiter, user: int, times: seq<int>): (r: Run)
    ensures |r.outcomes| == |times|
    ensures r.limiter.maxRequests == lim.maxRequests
    decreases |times|
  {
    if times == [] then Run(lim, [])
    else
      var d := IsAllowed(lim, user, times[0]);
      var rest := RunRequests(d.limiter, user, times[1..]);
      Run(rest.limiter, [d.allowed] + rest.outcomes)
  }

  /**
   * A burst: when every request and every recorded instant lies within one
   * window ending at `last`, request `j` is allowed exactly when the `c`
   * recorded instants plus the `j` earlier requests stay below the limit.
   */
  lemma {:induction false} Burst(lim: Limiter, user: int, times: seq<int>, last: int)
    requires forall j | 0 <= j < |times| :: last - Window < times[j] <= last
    requires forall i | 0 <= i < |Stamps(lim, user)| :: Stamps(lim, user)[i] > last - Window
    ensures forall j | 0 <= j < |times| ::
      RunRequests(lim, user, times).outcomes[j] == (|Stamps(lim, user)| + j < lim.maxRequests)
    decreases |times|
  {
    if times != [] {
      var h := Stamps(lim, user);
      PruneKeepsRecent(h, times[0] - Window);
      var d := IsAllowed(lim, user, times[0]);
      var h' := Stamps(d.limiter, user);
      assert h' == if d.allowed then h + [times[0]] else h;
      assert forall j | 0 <= j < |times[1..]| :: times[1..][j] == times[j + 1];
      Burst(d.limiter, user, times[1..], last);
      var r := RunRequests(lim, user, times);
      var rest := RunRequests(d.limiter, user, times[1..]);
      assert forall j | 0 <= j < |times[1..]| :: rest.outcomes[j] == (|h'| + j < lim.maxRequests);
      assert r.outcomes == [d.allowed] + rest.outcomes;
      forall j | 0 <= j < |times|
        ensures r.outcomes[j] == (|h| + j < lim.maxRequests)
      {
        assert d.allowed == (|h| < lim.maxRequests);
        if j > 0 {
          assert r.outcomes[j] == rest.outcomes[j - 1];
          assert rest.outcomes[j - 1] == (|h'| + (j - 1) < lim.maxRequests);
        }
      }
    }
  }

  /**
   * The limit in action: for a new user with the default limit of 30, thirty
   * requests at one instant are allowed and the thirty-first is denied.
   */
  lemma ThirtyAllowedThenDenied(user: int, now: int)
    ensures var r := RunRequests(Fresh(DefaultMaxRequests), user, seq(31, _ => now));
      (forall j | 0 <= j < 30 :: r.outcomes[j]) && !r.outcomes[30]
  {
    Burst(Fresh(DefaultMaxRequests), user, seq(31, _ => now), now);
  }

  /** Once a full window has passed since the user's last recorded instant, a request is allowed again. */
  lemma QuietWindowAllows(lim: Limiter, user: int, now: int)
    requires lim.maxRequests >= 1
    requires forall i | 0 <= i < |Stamps(lim, user)| :: Stamps(lim, user)[i] <= now - Window
    ensures IsAllowed(lim, user, now).allowed
  {
    PruneDropsStale(Stamps(lim, user), now - Window);
  }

  // ---------------------------------------------------------------------------
  // Remaining quota and the raising check
  // ---------------------------------------------------------------------------

  /**
   * `get_remaining`: the limit minus the stored history's length, never
   * negative. The stored history is not pruned here.
   */
  function GetRemaining(lim: Limiter, user: int): (n: nat)
    ensures n <= if lim.maxRequests < 0 then 0 else lim.maxRequests
    ensures n == 0 <==> |Stamps(lim, user)| >= lim.maxRequests
    ensures n > 0 ==> n == lim.maxRequests - |Stamps(lim, user)|
  {
    if lim.maxRequests - |Stamps(lim, user)| > 0 then lim.maxRequests - |Stamps(lim, user)| else 0
  }

  /** A positive remaining quota guarantees the next request is allowed, at any instant. */
  lemma RemainingMeansAllowed(lim: Limiter, user: int, now: int)
    requires GetRemaining(lim, user) > 0
    ensures IsAllowed(lim, user, now).allowed
  {
  }

  /** The converse fails: a quota of zero counts stale instants, and the request is still allowed. */
  lemma ZeroRemainingYetAllowed(user: int, now: int)
    ensures var lim := Limiter(map[Key(user) := [now - Window]], 1);
      GetRemaining(lim, user) == 0 && IsAllowed(lim, user, now).allowed
  {
    var lim := Limiter(map[Key(user) := [now - Window]], 1);
    PruneDropsStale(Stamps(lim, user), now - Window);
  }

  /** Python's `int(m / 60 * 30) or 1`, with the division taken as exact: half of `m` truncated toward zero, or 1 when that is 0. */
  function RetrySeconds(m: int): (s: int)
    ensures s != 0
    ensures m >= 2 ==> 2 * s <= m < 2 * s + 2
    ensures -1 <= m <= 1 ==> s == 1
    ensures m <= -2 ==> 2 * s >= m > 2 * s - 2
  {
    var half := if m >= 0 then m / 2 else -((-m) / 2);
    if half == 0 then 1 else half
  }

  function RateLimitMessage(m: int): string {
    "Too many requests. Try again in " + IntToString(RetrySeconds(m)) + " seconds."
  }

  datatype Check = Check(limiter: Limiter, error: Option<BotError>)

  /** `check_rate_limit`: a denied request becomes a `RateLimitError`. */
  function CheckRateLimit(lim: Limiter, user: int, now: int): (c: Check)
    ensures c.limiter == IsAllowed(lim, user, now).limiter
    ensures c.error.None? <==> IsAllowed(lim, user, now).allowed
    ensures c.error.Some? ==>
      c.error.value == RateLimitError("Too many requests. Try again in " + IntToString(RetrySeconds(lim.maxRequests)) + " seconds.")
  {
    var d := IsAllowed(lim, user, now);
    if d.allowed then Check(d.limiter, None)
    else Check(d.limiter, Some(RateLimitError(RateLimitMessage(lim.maxRequests))))
  }

  /** With the default limit a denied user is told to wait 15 seconds. */
  lemma DefaultRetryMessage()
    ensures RateLimitMessage(DefaultMaxRequests) == "Too many requests. Try again in 15 seconds."
  {
    assert RetrySeconds(DefaultMaxRequests) == 15;
    assert NatToString(15) == NatToString(1) + [DigitChar(5)];
  }
}
