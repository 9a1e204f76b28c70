/** `route_inference`: the providers of the cascade are tried in turn, each up to three times. */
module Cascade {
  import opened Router

  datatype Reply<R> = Ok(value: R) | Err(error: string)

  /** What the world answers: the reply to attempt `attempt` at provider `i` of the cascade, and the clock's
      nanoseconds when the jitter of the pause after it is computed. */
  datatype World<!R> = World(call: (nat, nat) -> Reply<R>, nanos: (nat, nat) -> nat)

  const MAX_RETRIES: nat := 2
  const BASE_DELAY: nat := 500

  predicate Contains(s: string, part: string) {
    exists i :: 0 <= i <= |s| && part <= s[i..]
  }

  predicate IsRetryable(error: string) {
    forall code :: code in ["HTTP 400:", "HTTP 401:", "HTTP 403:", "HTTP 404:", "HTTP 422:"] ==> !Contains(error, code)
  }

  /** A success or an error not worth repeating. */
  predicate Final<R>(reply: Reply<R>) {
    reply.Ok? || !IsRetryable(reply.error)
  }

  function JitterFactor(nanos: nat): (f: real)
    ensures 0.5 <= f <= 0.9995
  {
    0.5 + (nanos % 1000) as real / 2000.0
  }

  function Pow2(n: nat): nat {
    if n == 0 then 1 else 2 * Pow2(n - 1)
  }

  /** The pause after a failed attempt, in whole milliseconds. */
  function Pause(attempt: nat, nanos: nat): nat {
    ((BASE_DELAY * Pow2(attempt)) as real * JitterFactor(nanos)).Floor
  }

  /** In whole numbers: between half the delay and just under all of it, by the clock's last three digits. */
  lemma PauseInWholeNumbers(attempt: nat, nanos: nat)
    ensures Pause(attempt, nanos) == BASE_DELAY * Pow2(attempt) * (1000 + nanos % 1000) / 2000
  {
    var delay, d := BASE_DELAY * Pow2(attempt), nanos % 1000;
    var x := delay * (1000 + d);
    assert delay as real * (0.5 + d as real / 2000.0) == x as real / 2000.0 by {
      assert 0.5 + d as real / 2000.0 == (1000 + d) as real / 2000.0;
    }
    FloorIsDivision(x);
  }

  lemma FloorIsDivision(x: nat)
    ensures (x as real / 2000.0).Floor == x / 2000
  {
    assert x == 2000 * (x / 2000) + x % 2000;
    assert x as real / 2000.0 == (x / 2000) as real + (x % 2000) as real / 2000.0;
  }

  lemma PauseIsBounded(attempt: nat, nanos: nat)
    requires attempt < MAX_RETRIES
    ensures attempt == 0 ==> 250 <= Pause(attempt, nanos) <= 499 == Pause(attempt, 999)
    ensures attempt == 1 ==> 500 <= Pause(attempt, nanos) <= 999 == Pause(attempt, 999)
  {
    assert Pow2(0) == 1 && Pow2(1) == 2;
    PauseInWholeNumbers(attempt, nanos);
    PauseInWholeNumbers(attempt, 999);
  }

  /** An error is final exactly when one of the five codes occurs in it. */
  lemma FinalErrorsCarryACode(error: string)
    ensures !IsRetryable(error) <==>
            exists a, b: string :: error == a + "HTTP 400:" + b || error == a + "HTTP 401:" + b
              || error == a + "HTTP 403:" + b || error == a + "HTTP 404:" + b || error == a + "HTTP 422:" + b
  {
    ContainsSplits(error, "HTTP 400:");
    ContainsSplits(error, "HTTP 401:");
    ContainsSplits(error, "HTTP 403:");
    ContainsSplits(error, "HTTP 404:");
    ContainsSplits(error, "HTTP 422:");
  }

  lemma ContainsSplits(s: string, part: string)
    ensures Contains(s, part) <==> exists a, b: string :: s == a + part + b
  {
    if i :| 0 <= i <= |s| && part <= s[i..] {
      assert s == s[..i] + part + s[i + |part|..];
    }
    if a, b: string :| s == a + part + b {
      assert part <= s[|a|..];
    }
  }

  // ----- What one provider costs -------------------------------------------------------------------------------

  /** Attempts at provider `i`: up to the first final reply, at most three. */
  function Attempts<R>(w: World<R>, i: nat): (n: nat)
    ensures 1 <= n <= MAX_RETRIES + 1
  {
    if Final(w.call(i, 0)) then 1 else if Final(w.call(i, 1)) then 2 else 3
  }

  function Outcome<R>(w: World<R>, i: nat): Reply<R> {
    w.call(i, Attempts(w, i) - 1)
  }

  function CallsTo<R>(w: World<R>, i: nat): seq<(nat, nat)> {
    seq(Attempts(w, i), a requires 0 <= a => (i, a))
  }

  /** Every call to the first `n` providers. */
  function CallsUpTo<R>(w: World<R>, n: nat): seq<(nat, nat)> {
    if n == 0 then [] else CallsUpTo(w, n - 1) + CallsTo(w, n - 1)
  }

  function PausesUpTo<R>(w: World<R>, i: nat, attempts: nat): nat {
    if attempts == 0 then 0 else PausesUpTo(w, i, attempts - 1) + Pause(attempts - 1, w.nanos(i, attempts - 1))
  }

  /** Pauses come between attempts. */
  function SleptUpTo<R>(w: World<R>, n: nat): nat {
    if n == 0 then 0 else SleptUpTo(w, n - 1) + PausesUpTo(w, n - 1, Attempts(w, n - 1) - 1)
  }

  /** The body of the inner loop, up to a success or the end of this provider's attempts. */
  ghost predicate Tried<R>(w: World<R>, i: nat, attempt: nat) {
    attempt <= MAX_RETRIES && (attempt > 0 ==> !Final(w.call(i, 0))) && (attempt > 1 ==> !Final(w.call(i, 1)))
  }

  /** The inner loop. */
  method TryProvider<R>(w: World<R>, i: nat) returns (reply: Reply<R>, calls: seq<(nat, nat)>, slept: nat)
    ensures reply == Outcome(w, i) && calls == CallsTo(w, i) && slept == PausesUpTo(w, i, Attempts(w, i) - 1)
  {
    var attempt: nat := 0;
    calls, slept := [], 0;
    while true
      invariant Tried(w, i, attempt) && slept == PausesUpTo(w, i, attempt)
      invariant calls == seq(attempt, a requires 0 <= a => (i, a))
      decreases MAX_RETRIES - attempt
    {
      calls := calls + [(i, attempt)];
      reply := w.call(i, attempt);
      if reply.Ok? || !IsRetryable(reply.error) || attempt >= MAX_RETRIES {
        return;
      }
      slept := slept + Pause(attempt, w.nanos(i, attempt));
      attempt := attempt + 1;
    }
  }

  /** The first `n` providers were called and all failed, the last one with this error. */
  ghost predicate FailedSoFar<R>(w: World<R>, n: nat, lastErr: string, calls: seq<(nat, nat)>, slept: nat) {
    && (forall k :: 0 <= k < n ==> Outcome(w, k).Err?) && (n > 0 ==> Outcome(w, n - 1) == Err(lastErr))
    && calls == CallsUpTo(w, n) && slept == SleptUpTo(w, n)
  }

  /** The first provider that ends in a success answers, and everything before it has been tried to its end;
      without one, the last provider's last error comes back. */
  ghost predicate IsRouted<R>(w: World<R>, n: nat, result: Reply<R>, calls: seq<(nat, nat)>, slept: nat) {
    && n > 0
    && if exists i :: 0 <= i < n && Outcome(w, i).Ok? then exists i: nat :: IsWinner(w, n, i, result, calls, slept)
       else result == Outcome(w, n - 1) && calls == CallsUpTo(w, n) && slept == SleptUpTo(w, n)
  }

  ghost predicate IsWinner<R>(w: World<R>, n: nat, i: nat, result: Reply<R>, calls: seq<(nat, nat)>, slept: nat) {
    && i < n && Outcome(w, i).Ok? && (forall k :: 0 <= k < i ==> Outcome(w, k).Err?)
    && result == Outcome(w, i) && calls == CallsUpTo(w, i + 1) && slept == SleptUpTo(w, i + 1)
  }

  lemma OneMoreFailed<R>(w: World<R>, n: nat, lastErr: string, error: string, calls: seq<(nat, nat)>, slept: nat)
    requires FailedSoFar(w, n, lastErr, calls, slept) && Outcome(w, n) == Err(error)
    ensures FailedSoFar(w, n + 1, error, calls + CallsTo(w, n), slept + PausesUpTo(w, n, Attempts(w, n) - 1))
  {
  }

  lemma WinnerIsRouted<R>(w: World<R>, n: nat, i: nat, lastErr: string, calls: seq<(nat, nat)>, slept: nat)
    requires i < n && FailedSoFar(w, i, lastErr, calls, slept) && Outcome(w, i).Ok?
    ensures IsRouted(w, n, Outcome(w, i), calls + CallsTo(w, i), slept + PausesUpTo(w, i, Attempts(w, i) - 1))
  {
    OneMoreCalled(w, i);
    IsRoutedByWinner(w, n, i);
  }

  lemma OneMoreCalled<R>(w: World<R>, i: nat)
    ensures CallsUpTo(w, i + 1) == CallsUpTo(w, i) + CallsTo(w, i)
    ensures SleptUpTo(w, i + 1) == SleptUpTo(w, i) + PausesUpTo(w, i, Attempts(w, i) - 1)
  {
  }

  lemma IsRoutedByWinner<R>(w: World<R>, n: nat, i: nat)
    requires i < n && Outcome(w, i).Ok? && forall k :: 0 <= k < i ==> Outcome(w, k).Err?
    ensures IsRouted(w, n, Outcome(w, i), CallsUpTo(w, i + 1), SleptUpTo(w, i + 1))
  {
    assert IsWinner(w, n, i, Outcome(w, i), CallsUpTo(w, i + 1), SleptUpTo(w, i + 1));
  }

  lemma ExhaustedIsRouted<R>(w: World<R>, n: nat, lastErr: string, calls: seq<(nat, nat)>, slept: nat)
    requires n > 0 && FailedSoFar(w, n, lastErr, calls, slept)
    ensures IsRouted(w, n, Err(lastErr), calls, slept)
  {
  }

  /** The outer loop, over the `n` providers of a cascade. */
  method TryProviders<R>(w: World<R>, n: nat)
    returns (result: Reply<R>, retryCount: nat, calls: seq<(nat, nat)>, slept: nat)
    requires n > 0
    ensures retryCount == |calls| && IsRouted(w, n, result, calls, slept)
  {
    retryCount, calls, slept := 0, [], 0;
    var lastErr := "";
    for i := 0 to n
      invariant retryCount == |calls| && FailedSoFar(w, i, lastErr, calls, slept)
    {
      ghost var called, paused := calls, slept;
      var reply, made, pause := TryProvider(w, i);
      retryCount := retryCount + |made|;
      calls := calls + made;
      slept := slept + pause;
      if reply.Ok? {
        WinnerIsRouted(w, n, i, lastErr, called, paused);
        return reply, retryCount, calls, slept;
      }
      OneMoreFailed(w, i, lastErr, reply.error, called, paused);
      lastErr := reply.error;
    }
    ExhaustedIsRouted(w, n, lastErr, calls, slept);
    result := Err(lastErr);
  }

  method RouteInference<R>(config: KernelConfig, model: string, w: World<R>)
    returns (result: Reply<R>, retryCount: nat, calls: seq<(nat, nat)>, slept: nat)
    requires config.Valid()
    ensures retryCount == |calls|
    ensures config.providers == [] ==> result.Err? && calls == [] && slept == 0
    ensures config.providers != [] ==>
              ResolveProvider(model, config).Some?
              && IsRouted(w, |CascadeOf(ResolveProvider(model, config).value, config.providers)|, result, calls, slept)
  {
    ResolutionIsTheScan(model, config);
    var primary := ResolveProvider(model, config);
    if primary.None? {
      return Err("no provider for model: " + model), 0, [], 0;
    }
    var cascade := BuildCascade(primary.value, config.providers);
    result, retryCount, calls, slept := TryProviders(w, |cascade|);
  }

  // ----- Bounds and exhaustion -----------------------------------------------------------------------------------

  lemma {:induction false} CostOfProviders<R>(w: World<R>, n: nat)
    ensures n <= |CallsUpTo(w, n)| <= 3 * n
    ensures SleptUpTo(w, n) <= 1498 * n
  {
    if n > 0 {
      CostOfProviders(w, n - 1);
      var i: nat := n - 1;
      PauseIsBounded(0, w.nanos(i, 0));
      PauseIsBounded(1, w.nanos(i, 1));
      assert PausesUpTo(w, i, 0) == 0;
      assert PausesUpTo(w, i, 1) == Pause(0, w.nanos(i, 0));
      assert PausesUpTo(w, i, 2) == PausesUpTo(w, i, 1) + Pause(1, w.nanos(i, 1));
    }
  }

  /** For every result: at most three calls and 1498 milliseconds of pauses per provider name, and never fewer
      calls than providers passed over. */
  lemma RoutingIsBounded<R>(w: World<R>, n: nat, result: Reply<R>, calls: seq<(nat, nat)>, slept: nat)
    requires IsRouted(w, n, result, calls, slept)
    ensures 1 <= |calls| <= 3 * n && slept <= 1498 * n
    ensures result.Err? ==> |calls| >= n
  {
    if exists i :: 0 <= i < n && Outcome(w, i).Ok? {
      var i: nat :| IsWinner(w, n, i, result, calls, slept);
      CostOfProviders(w, i + 1);
    } else {
      CostOfProviders(w, n);
    }
  }

  /** A provider is given up only after a non-retryable error or three retryable ones. */
  ghost predicate Exhausted<R>(w: World<R>, i: nat) {
    || (w.call(i, 0).Err? && !IsRetryable(w.call(i, 0).error))
    || (Retried(w, i, 0) && w.call(i, 1).Err? && !IsRetryable(w.call(i, 1).error))
    || (Retried(w, i, 0) && Retried(w, i, 1) && w.call(i, 2).Err?)
  }

  ghost predicate Retried<R>(w: World<R>, i: nat, attempt: nat) {
    w.call(i, attempt).Err? && IsRetryable(w.call(i, attempt).error)
  }

  /** Routing fails exactly when every provider is exhausted. */
  lemma FailsIffAllExhausted<R>(w: World<R>, n: nat, result: Reply<R>, calls: seq<(nat, nat)>, slept: nat)
    requires IsRouted(w, n, result, calls, slept)
    ensures result.Err? <==> forall i :: 0 <= i < n ==> Exhausted(w, i)
  {
    forall i: nat ensures Exhausted(w, i) <==> Outcome(w, i).Err? {}
    if exists i :: 0 <= i < n && Outcome(w, i).Ok? {
      var i: nat :| IsWinner(w, n, i, result, calls, slept);
      assert !Exhausted(w, i);
    }
  }

  /** Calls are made provider by provider and attempt by attempt, each at most once, and a call is repeated at
      the same provider only after a retryable error. */
  lemma {:induction false} CallsAreInOrder<R>(w: World<R>, n: nat)
    ensures forall x :: 0 <= x < |CallsUpTo(w, n)| ==> CallsUpTo(w, n)[x].0 < n
    ensures forall x, y :: 0 <= x < y < |CallsUpTo(w, n)| ==> Before(CallsUpTo(w, n)[x], CallsUpTo(w, n)[y])
    ensures forall x :: 0 <= x < |CallsUpTo(w, n)| && CallsUpTo(w, n)[x].1 > 0 ==>
              Retried(w, CallsUpTo(w, n)[x].0, CallsUpTo(w, n)[x].1 - 1)
  {
    if n > 0 {
      CallsAreInOrder(w, n - 1);
    }
  }

  predicate Before(a: (nat, nat), b: (nat, nat)) {
    a.0 < b.0 || (a.0 == b.0 && a.1 < b.1)
  }
}
