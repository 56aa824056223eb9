/** The free-search quota of utils/rate_limiter.py: one optional counter in
    the user's session, a limit read from the environment (default 3) and a
    URL token that, when it equals the configured evaluator token, lifts the
    limit. The environment and the URL query string are parameters: `None`
    stands for a variable or query key that is not set. */
module RateLimiter {
  import opened Wrappers

  /** `RATE_LIMIT_MAX` when it is not set. */
  const DefaultLimit: int := 3

  /** The second half of `check_rate_limit`'s answer: `"∞"` for an evaluator,
      otherwise the (unclamped) number of searches left. */
  datatype Quota = Unlimited | Remaining(n: int)

  /** Evaluator mode: a non-empty URL token that equals `EVAL_TOKEN`
      character for character, so an empty or unset `EVAL_TOKEN` admits
      nobody. */
  function IsEvaluator(token: string, evalToken: string): (r: bool)
    ensures r ==> evalToken != ""
    ensures token != evalToken ==> !r
  {
    token != "" && token == evalToken
  }

  /** The answer of `check_rate_limit` for a session whose counter is
      `count` (`None` before the first check). */
  function CheckOutcome(count: Option<nat>, token: string, evalToken: string, limit: int): (r: (bool, Quota))
    ensures r.1.Unlimited? <==> IsEvaluator(token, evalToken)
    ensures r.1.Unlimited? ==> r.0
    ensures r.1.Remaining? ==> r.1.n == limit - count.GetOr(0) && (r.0 <==> r.1.n > 0)
  {
    if IsEvaluator(token, evalToken) then (true, Unlimited)
    else
      var remaining := limit - count.GetOr(0);
      (remaining > 0, Remaining(remaining))
  }

  /** The counter after `check_rate_limit`: created at 0 in standard mode,
      left alone (even left absent) in evaluator mode. */
  function CountAfterCheck(count: Option<nat>, token: string, evalToken: string): (r: Option<nat>)
    ensures IsEvaluator(token, evalToken) ==> r == count
    ensures !IsEvaluator(token, evalToken) ==> r.Some? && r.value == count.GetOr(0)
  {
    if IsEvaluator(token, evalToken) then count else Some(count.GetOr(0))
  }

  /** The counter after `increment_usage`. */
  function CountAfterIncrement(count: Option<nat>): (r: Option<nat>)
    ensures r.Some? && r.value == count.GetOr(0) + 1
  {
    Some(count.GetOr(0) + 1)
  }

  /** One run of the app script: check the quota, stop when it is used up,
      otherwise search, and count the search only when it `succeeded`. */
  function CountAfterVisit(count: Option<nat>, token: string, evalToken: string, limit: int, succeeded: bool): (r: Option<nat>)
    ensures r.None? <==> count.None? && IsEvaluator(token, evalToken) && !succeeded
    ensures r.Some? ==>
      r.value == count.GetOr(0) + (if CheckOutcome(count, token, evalToken, limit).0 && succeeded then 1 else 0)
  {
    var checked := CountAfterCheck(count, token, evalToken);
    if CheckOutcome(count, token, evalToken, limit).0 && succeeded then CountAfterIncrement(checked)
    else checked
  }

  /** A sequence of runs in one session, each succeeding or not. */
  function CountAfterVisits(count: Option<nat>, token: string, evalToken: string, limit: int, runs: seq<bool>): (r: Option<nat>)
    ensures count.Some? ==> r.Some?
    ensures r.Some? ==> count.GetOr(0) <= r.value <= count.GetOr(0) + Successes(runs)
    decreases |runs|
  {
    if runs == [] then count
    else CountAfterVisits(CountAfterVisit(count, token, evalToken, limit, runs[0]), token, evalToken, limit, runs[1..])
  }

  /** How many of `runs` succeeded. */
  function Successes(runs: seq<bool>): nat {
    if runs == [] then 0 else (if runs[0] then 1 else 0) + Successes(runs[1..])
  }

  function Min(a: int, b: int): int {
    if a <= b then a else b
  }

  /** The session state that `check_rate_limit` and `increment_usage` read
      and write (`st.session_state.usage_count`). */
  class Session {
    var usageCount: Option<nat>

    /** A new session has no counter yet. */
    constructor()
      ensures usageCount == None
    {
      usageCount := None;
    }

    /** `check_rate_limit(device_id)`: `token` is the `token` query
        parameter, `evalToken` the `EVAL_TOKEN` variable and `rateLimitMax`
        the already converted `RATE_LIMIT_MAX`. The device id is not read. */
    method CheckRateLimit(deviceId: string, token: Option<string>, evalToken: Option<string>, rateLimitMax: Option<int>)
      returns (allowed: bool, quota: Quota)
      modifies this
      ensures (allowed, quota) == CheckOutcome(old(usageCount), token.GetOr(""), evalToken.GetOr(""), rateLimitMax.GetOr(DefaultLimit))
      ensures usageCount == CountAfterCheck(old(usageCount), token.GetOr(""), evalToken.GetOr(""))
    {
      var t := token.GetOr("");
      var e := evalToken.GetOr("");
      if t != "" && t == e {
        return true, Unlimited;
      }
      if usageCount.None? {
        usageCount := Some(0);
      }
      var maxLimit := rateLimitMax.GetOr(DefaultLimit);
      var remaining := maxLimit - usageCount.value;
      allowed := remaining > 0;
      quota := Remaining(remaining);
    }

    /** `increment_usage()`. */
    method IncrementUsage()
      modifies this
      ensures usageCount == CountAfterIncrement(old(usageCount))
    {
      if usageCount.None? {
        usageCount := Some(0);
      }
      usageCount := Some(usageCount.value + 1);
    }

    /** One run of the app script around the two calls: the check at the
        top, the stop when the quota is used up, and the single increment
        after a successful search. Returns whether a search was made. */
    method Visit(deviceId: string, token: Option<string>, evalToken: Option<string>, rateLimitMax: Option<int>, succeeded: bool)
      returns (searched: bool)
      modifies this
      ensures searched == CheckOutcome(old(usageCount), token.GetOr(""), evalToken.GetOr(""), rateLimitMax.GetOr(DefaultLimit)).0
      ensures usageCount == CountAfterVisit(old(usageCount), token.GetOr(""), evalToken.GetOr(""), rateLimitMax.GetOr(DefaultLimit), succeeded)
    {
      var allowed, quota := CheckRateLimit(deviceId, token, evalToken, rateLimitMax);
      searched := allowed;
      if !allowed {
        return;
      }
      if succeeded {
        IncrementUsage();
      }
    }
  }

  // ---------------------------------------------------------------- properties

  /** An evaluator is always let through with `"∞"`, whatever the counter
      and the limit, and the counter is neither read nor created. */
  lemma {:induction false} EvaluatorIsUnlimited(count: Option<nat>, token: string, limit: int)
    requires token != ""
    ensures CheckOutcome(count, token, token, limit) == (true, Unlimited)
    ensures CountAfterCheck(count, token, token) == count
  {
  }

  /** An empty token never enters evaluator mode, even when `EVAL_TOKEN` is
      empty or unset. */
  lemma {:induction false} EmptyTokenIsNotEvaluator(count: Option<nat>, evalToken: string, limit: int)
    ensures CheckOutcome(count, "", evalToken, limit) == (limit - count.GetOr(0) > 0, Remaining(limit - count.GetOr(0)))
  {
  }

  /** The comparison is exact: a token differing only in case is a normal
      user, who is stopped at the limit. */
  lemma {:induction false} EvaluatorTokenIsCaseSensitive()
    ensures CheckOutcome(Some(3), "eval2024", "EVAL2024", DefaultLimit) == (false, Remaining(0))
  {
    assert "eval2024"[0] != "EVAL2024"[0];
  }

  /** The remaining count is not clamped at zero: for a normal user, a
      counter past the limit gives a negative number and a refusal. */
  lemma {:induction false} RemainingIsNotClamped(count: nat, token: string, evalToken: string, limit: int)
    requires !IsEvaluator(token, evalToken) && count > limit
    ensures CheckOutcome(Some(count), token, evalToken, limit) == (false, Remaining(limit - count))
    ensures limit - count < 0
  {
  }

  /** Checking is idempotent: a second check with no increment in between
      changes nothing and gives the same answer. */
  lemma {:induction false} RepeatedCheckIsStable(count: Option<nat>, token: string, evalToken: string, limit: int)
    ensures var c := CountAfterCheck(count, token, evalToken);
      CountAfterCheck(c, token, evalToken) == c &&
      CheckOutcome(c, token, evalToken, limit) == CheckOutcome(count, token, evalToken, limit)
  {
  }

  /** The counter never goes down and two increments add two. */
  lemma {:induction false} IncrementIsNotIdempotent(count: Option<nat>)
    ensures CountAfterIncrement(count).value > count.GetOr(0)
    ensures CountAfterIncrement(CountAfterIncrement(count)).value == count.GetOr(0) + 2
  {
  }

  /** A fresh session with the default limit allows exactly three searches:
      after three successful runs the fourth check stops the user. */
  lemma {:induction false} ThreeFreeSearches()
    ensures CountAfterVisits(None, "", "", DefaultLimit, [true, true, true]) == Some(3)
    ensures CheckOutcome(Some(3), "", "", DefaultLimit) == (false, Remaining(0))
  {
    var runs := [true, true, true];
    assert runs[1..] == [true, true] && runs[1..][1..] == [true];
    assert Successes(runs) == 3;
    StandardVisitsStayWithinLimit(None, "", "", DefaultLimit, runs);
  }

  /** Under the app's discipline (check, stop when used up, one increment
      per successful search) a normal user's counter never passes the limit:
      it ends at the limit or at the start value plus the successes,
      whichever is smaller. */
  lemma {:induction false} StandardVisitsStayWithinLimit(
    count: Option<nat>, token: string, evalToken: string, limit: int, runs: seq<bool>)
    requires !IsEvaluator(token, evalToken)
    requires runs != [] || count.Some?
    requires count.GetOr(0) <= limit
    ensures var r := CountAfterVisits(count, token, evalToken, limit, runs);
      r.Some? && r.value == Min(limit, count.GetOr(0) + Successes(runs)) && r.value <= limit
    decreases |runs|
  {
    if runs != [] {
      var next := CountAfterVisit(count, token, evalToken, limit, runs[0]);
      assert next.Some? && next.value == Min(limit, count.GetOr(0) + (if runs[0] then 1 else 0));
      if runs[1..] != [] {
        StandardVisitsStayWithinLimit(next, token, evalToken, limit, runs[1..]);
      }
    }
  }

  /** The evaluator's searches are counted too (the increment after a
      search does not look at the token), so a session that later loses its
      token can be past the limit. */
  lemma {:induction false} EvaluatorSearchesAreCounted()
    ensures CountAfterVisits(None, "EVAL2024", "EVAL2024", DefaultLimit, [true, true, true, true]) == Some(4)
    ensures CheckOutcome(Some(4), "", "EVAL2024", DefaultLimit) == (false, Remaining(-1))
  {
    var runs := [true, true, true, true];
    assert runs[1..] == [true, true, true];
    assert runs[1..][1..] == [true, true];
    assert runs[1..][1..][1..] == [true];
  }
}
