/** Retrying a request: the inner loop of the client, which drives the breaker, and the
    loop of the agent runtime around it. The network is an oracle: `wire(i)` is what the
    i-th request sent meets and when its outcome is recorded. */
module Retries {
  import opened Wrappers
  import opened BreakerSpec
  import opened Breakers

  datatype Policy = Policy(maxAttempts: nat, baseDelay: real, maxDelay: real, growth: real, jitter: bool)

  /** The bounds that the policy model enforces. */
  predicate ValidPolicy(p: Policy) {
    p.maxAttempts >= 1 && p.baseDelay >= 0.0 && p.maxDelay >= 0.0 && p.growth >= 1.0
  }

  function Pow(b: real, n: nat): real {
    if n == 0 then 1.0 else b * Pow(b, n - 1)
  }

  function Capped(p: Policy, attempt: nat): real {
    var d := p.baseDelay * Pow(p.growth, attempt);
    if d < p.maxDelay then d else p.maxDelay
  }

  function Backoff(p: Policy, attempt: nat, factor: real): real {
    if p.jitter then Capped(p, attempt) * factor else Capped(p, attempt)
  }

  /** What a request meets: a parsed answer, a server error, a 404, another client error, a
      body that does not parse, a timeout, a network error, or an exception no handler is
      written for. */
  datatype Outcome = Answer | ServerError | Missing | ClientError | BadBody | TimedOut | NetworkDown | Unlisted

  datatype Reply = Reply(outcome: Outcome, at: real)

  predicate Transport(o: Outcome) {
    o.ServerError? || o.TimedOut? || o.NetworkDown?
  }

  datatype Result = Answered | BreakerOpen | TransportFailed | Refused(why: Outcome)

  function ResultOf(o: Outcome): Result {
    if o.Answer? then Answered else if Transport(o) then TransportFailed else Refused(o)
  }

  function Record(b: Breaker, r: Reply): Breaker {
    match r.outcome
    case Answer => RecordSuccess(b)
    case Unlisted => b
    case _ => RecordFailure(b, r.at)
  }

  function RecordAll(b: Breaker, wire: nat -> Reply, from: nat, n: nat): Breaker {
    if n == 0 then b else Record(RecordAll(b, wire, from, n - 1), wire(from + n - 1))
  }

  /** The number of requests one admitted call sends. */
  function Attempts(wire: nat -> Reply, from: nat, limit: nat): (n: nat)
    ensures n >= 1
    decreases limit
  {
    if limit <= 1 || !Transport(wire(from).outcome) then 1 else 1 + Attempts(wire, from + 1, limit - 1)
  }

  /** It stops with the first reply that is not a transport failure, or at the limit. */
  lemma {:induction false} AttemptsIs(wire: nat -> Reply, from: nat, limit: nat, n: nat)
    requires limit >= 1
    ensures n == Attempts(wire, from, limit)
       <==> && 1 <= n <= limit
            && (forall i | from <= i < from + n - 1 :: Transport(wire(i).outcome))
            && (n == limit || !Transport(wire(from + n - 1).outcome))
    decreases limit
  {
    if limit > 1 && Transport(wire(from).outcome) {
      if n >= 1 {
        AttemptsIs(wire, from + 1, limit - 1, n - 1);
      }
      AttemptsIs(wire, from + 1, limit - 1, Attempts(wire, from + 1, limit - 1));
    }
  }

  datatype Sent = Sent(breaker: Breaker, result: Result, requests: nat)

  /** One call of the client: the breaker is asked once, before the first request. */
  function Request(b: Breaker, limit: nat, now: real, wire: nat -> Reply, from: nat): (s: Sent)
    ensures s.result == BreakerOpen <==> s.requests == 0
  {
    var (asked, admitted) := CanExecute(b, now);
    if !admitted then Sent(asked, BreakerOpen, 0)
    else
      var n := Attempts(wire, from, limit);
      Sent(RecordAll(asked, wire, from, n), ResultOf(wire(from + n - 1).outcome), n)
  }

  function CappedSum(p: Policy, n: nat): real {
    if n == 0 then 0.0 else CappedSum(p, n - 1) + Capped(p, n - 1)
  }

  lemma {:induction false} PowPositive(b: real, n: nat)
    requires b >= 1.0
    ensures Pow(b, n) >= 1.0
  {
    if n > 0 {
      PowPositive(b, n - 1);
    }
  }

  lemma Scaled(c: real, factor: real)
    requires c >= 0.0 && 0.5 <= factor < 1.5
    ensures 0.5 * c <= c * factor <= 1.5 * c
  {
  }

  lemma CappedBounds(p: Policy, attempt: nat)
    requires ValidPolicy(p)
    ensures 0.0 <= Capped(p, attempt) <= p.maxDelay
  {
    PowPositive(p.growth, attempt);
    var g := Pow(p.growth, attempt);
    assert p.baseDelay * g >= 0.0;
  }

  /** The delay before jitter is the exponential one up to the maximum, and that beyond it. */
  lemma CappedIsMinimum(p: Policy, attempt: nat)
    ensures Capped(p, attempt) <= p.maxDelay && Capped(p, attempt) <= p.baseDelay * Pow(p.growth, attempt)
    ensures Capped(p, attempt) == p.maxDelay || Capped(p, attempt) == p.baseDelay * Pow(p.growth, attempt)
  {
  }

  /** Powers multiply as exponents add. */
  lemma {:induction false} PowAdds(b: real, m: nat, n: nat)
    ensures Pow(b, m + n) == Pow(b, m) * Pow(b, n)
    ensures Pow(b, 0) == 1.0 && Pow(b, 1) == b
  {
    assert Pow(b, 1) == b * Pow(b, 0);
    if m > 0 {
      PowAdds(b, m - 1, n);
      Associate(b, Pow(b, m - 1), Pow(b, n));
    }
  }

  lemma Associate(x: real, y: real, z: real)
    ensures x * (y * z) == (x * y) * z
  {
  }

  lemma CappedIs(p: Policy, attempt: nat)
    ensures p.baseDelay * Pow(p.growth, attempt) <= p.maxDelay
        ==> Capped(p, attempt) == p.baseDelay * Pow(p.growth, attempt)
    ensures p.baseDelay * Pow(p.growth, attempt) >= p.maxDelay ==> Capped(p, attempt) == p.maxDelay
  {
  }

  /** Where the cap is not reached the delays of n retries are a geometric sum. */
  lemma {:induction false} UncappedSum(p: Policy, n: nat)
    requires forall k: nat | k < n :: p.baseDelay * Pow(p.growth, k) <= p.maxDelay
    ensures CappedSum(p, n) * (p.growth - 1.0) == p.baseDelay * (Pow(p.growth, n) - 1.0)
  {
    hide Capped, CappedSum, Pow;
    SumStart(p);
    if n > 0 {
      SumStep(p, n - 1);
      CappedIs(p, n - 1);
      UncappedSum(p, n - 1);
      GeometricStep(CappedSum(p, n - 1), Capped(p, n - 1), p.baseDelay, p.growth, Pow(p.growth, n - 1),
                    CappedSum(p, n), Pow(p.growth, n));
    }
  }

  /** Where even the first is at the cap they are n times the cap. */
  lemma {:induction false} FullyCappedSum(p: Policy, n: nat)
    requires forall k: nat | k < n :: p.baseDelay * Pow(p.growth, k) >= p.maxDelay
    ensures CappedSum(p, n) == n as real * p.maxDelay
  {
    hide Capped, CappedSum, Pow;
    SumStart(p);
    if n > 0 {
      SumStep(p, n - 1);
      CappedIs(p, n - 1);
      FullyCappedSum(p, n - 1);
      TimesMore(n - 1, p.maxDelay);
    }
  }

  lemma SumStart(p: Policy)
    ensures CappedSum(p, 0) == 0.0 && Pow(p.growth, 0) == 1.0
  {
  }

  lemma SumStep(p: Policy, n: nat)
    ensures CappedSum(p, n + 1) == CappedSum(p, n) + Capped(p, n)
    ensures Pow(p.growth, n + 1) == p.growth * Pow(p.growth, n)
  {
    hide Capped;
  }

  lemma TimesMore(n: nat, x: real)
    ensures n as real * x + x == (n + 1) as real * x
  {
  }

  lemma GeometricStep(sum: real, delay: real, base: real, g: real, power: real, sum': real, power': real)
    requires sum * (g - 1.0) == base * (power - 1.0)
    requires delay == base * power && sum' == sum + delay && power' == g * power
    ensures sum' * (g - 1.0) == base * (power' - 1.0)
  {
    assert sum' * (g - 1.0) == sum * (g - 1.0) + delay * (g - 1.0);
    assert delay * (g - 1.0) == base * power' - base * power;
  }

  /** One delay is never negative, never above half again the cap, and the jitter keeps it
      within half of the undisturbed delay. */
  lemma BackoffBounds(p: Policy, attempt: nat, factor: real)
    requires ValidPolicy(p) && 0.5 <= factor < 1.5
    ensures 0.0 <= 0.5 * Capped(p, attempt) <= Backoff(p, attempt, factor) <= 1.5 * Capped(p, attempt)
    ensures Capped(p, attempt) <= p.maxDelay
    ensures p.jitter ==> Backoff(p, attempt, factor) == factor * Capped(p, attempt)
  {
    hide Capped;
    CappedBounds(p, attempt);
    var c := Capped(p, attempt);
    Scaled(c, factor);
    assert Backoff(p, attempt, factor) == if p.jitter then c * factor else c;
  }

  lemma NoJitter(p: Policy, attempt: nat, factor: real)
    ensures !p.jitter ==> Backoff(p, attempt, factor) == Capped(p, attempt)
  {
  }

  /** A total sleep that is within half again of the capped exponential delays, and exactly
      those without jitter. */
  ghost predicate SleptWithin(p: Policy, retries: nat, slept: real) {
    && 0.0 <= slept <= 1.5 * CappedSum(p, retries)
    && (!p.jitter ==> slept == CappedSum(p, retries))
  }

  lemma SleepMore(p: Policy, retries: nat, slept: real, factor: real)
    requires ValidPolicy(p) && 0.5 <= factor < 1.5 && SleptWithin(p, retries, slept)
    ensures SleptWithin(p, retries + 1, slept + Backoff(p, retries, factor))
  {
    BackoffBounds(p, retries, factor);
    NoJitter(p, retries, factor);
    hide Backoff, Capped;
  }

  /** The handlers of the loop tell the breaker what the request met. */
  method RecordReply(breaker: CircuitBreaker, reply: Reply)
    modifies breaker
    ensures breaker.View() == Record(old(breaker.View()), reply)
  {
    match reply.outcome
    case Answer =>
      breaker.RecordSuccess();
    case Unlisted =>
    case _ =>
      breaker.RecordFailure(reply.at);
  }

  /** What the i-th request meets, and the i-th jitter factor. */
  function Met(wire: nat -> Reply, i: nat): Reply {
    wire(i)
  }

  function Jitter(factor: nat -> real, i: nat): (f: real)
    requires Jittered(factor)
    ensures 0.5 <= f < 1.5
  {
    factor(i)
  }

  ghost predicate Jittered(factor: nat -> real) {
    forall i :: 0.5 <= factor(i) < 1.5
  }

  lemma RecordNext(b: Breaker, wire: nat -> Reply, from: nat, n: nat)
    ensures RecordAll(b, wire, from, 0) == b
    ensures RecordAll(b, wire, from, n + 1) == Record(RecordAll(b, wire, from, n), Met(wire, from + n))
  {
    hide Record;
  }

  /** The first n requests from `from` on are transport failures. */
  ghost predicate Down(wire: nat -> Reply, from: nat, n: nat) {
    forall i | from <= i < from + n :: Transport(wire(i).outcome)
  }

  lemma DownMore(wire: nat -> Reply, from: nat, n: nat)
    ensures Down(wire, from, 0)
    ensures Down(wire, from, n) && Transport(Met(wire, from + n).outcome) ==> Down(wire, from, n + 1)
  {
    hide Transport;
  }

  /** The attempts of an admitted call are over after n requests, with this result. */
  ghost predicate Ended(asked: Breaker, b: Breaker, r: Result, limit: nat, wire: nat -> Reply, from: nat, n: nat) {
    && 1 <= n <= limit && Down(wire, from, n - 1)
    && (n == limit || !Transport(Met(wire, from + n - 1).outcome))
    && b == RecordAll(asked, wire, from, n) && r == ResultOf(Met(wire, from + n - 1).outcome)
  }

  lemma RequestEnds(b: Breaker, limit: nat, now: real, wire: nat -> Reply, from: nat, after: Breaker, r: Result, n: nat)
    requires CanExecute(b, now).1 && Ended(CanExecute(b, now).0, after, r, limit, wire, from, n)
    ensures Request(b, limit, now, wire, from) == Sent(after, r, n)
  {
    hide CanExecute, RecordAll, Transport;
    AttemptsIs(wire, from, limit, n);
  }

  lemma EndsHere(asked: Breaker, limit: nat, wire: nat -> Reply, from: nat, n: nat)
    requires n < limit && Down(wire, from, n)
    requires n == limit - 1 || !Transport(Met(wire, from + n).outcome)
    ensures Ended(asked, Record(RecordAll(asked, wire, from, n), Met(wire, from + n)),
                  ResultOf(Met(wire, from + n).outcome), limit, wire, from, n + 1)
  {
    RecordNext(asked, wire, from, n);
  }

  /** The attempts of an admitted call. */
  method SendAttempts(breaker: CircuitBreaker, p: Policy, wire: nat -> Reply, from: nat, factor: nat -> real)
    returns (r: Result, requests: nat, slept: real)
    requires ValidPolicy(p)
    requires Jittered(factor)
    modifies breaker
    ensures Ended(old(breaker.View()), breaker.View(), r, p.maxAttempts, wire, from, requests)
    ensures requests >= 1 && SleptWithin(p, requests - 1, slept)
  {
    assert SleptWithin(p, 0, 0.0);
    requests, slept := 0, 0.0;
    ghost var asked := breaker.View();
    RecordNext(asked, wire, from, 0);
    DownMore(wire, from, 0);
    assert p.maxAttempts >= 1;
    hide *;
    for attempt := 0 to p.maxAttempts
      invariant attempt > 0 ==> attempt < p.maxAttempts
      invariant breaker.View() == RecordAll(asked, wire, from, attempt)
      invariant Down(wire, from, attempt)
      invariant SleptWithin(p, attempt, slept)
    {
      var reply := Met(wire, from + attempt);
      RecordReply(breaker, reply);
      if !Transport(reply.outcome) || attempt >= p.maxAttempts - 1 {
        EndsHere(asked, p.maxAttempts, wire, from, attempt);
        return ResultOf(reply.outcome), attempt + 1, slept;
      }
      RecordNext(asked, wire, from, attempt);
      DownMore(wire, from, attempt);
      SleepMore(p, attempt, slept, Jitter(factor, attempt));
      slept := slept + Backoff(p, attempt, Jitter(factor, attempt));
    }
    assert false;
  }

  /** The client's call. The breaker is asked before the first attempt only, every attempt
      records one outcome, and the sleep between them is within its bounds. */
  method RequestWithRetry(breaker: CircuitBreaker, p: Policy, now: real, wire: nat -> Reply, from: nat,
                          factor: nat -> real)
    returns (r: Result, requests: nat, slept: real)
    requires ValidPolicy(p)
    requires Jittered(factor)
    modifies breaker
    ensures Sent(breaker.View(), r, requests) == Request(old(breaker.View()), p.maxAttempts, now, wire, from)
    ensures SleptWithin(p, if requests == 0 then 0 else requests - 1, slept)
  {
    hide Attempts, Ended, Jittered, BreakerSpec.CanExecute;
    ghost var before := breaker.View();
    var admitted := breaker.CanExecute(now);
    if !admitted {
      return BreakerOpen, 0, 0.0;
    }
    r, requests, slept := SendAttempts(breaker, p, wire, from, factor);
    RequestEnds(before, p.maxAttempts, now, wire, from, breaker.View(), r, requests);
  }

  // ---- the outer loop ----------------------------------------------------------------

  /** The pause after round k: the runtime's own delay plus whatever lag the host adds. */
  function Pause(base: real, lag: nat -> real, k: nat): real {
    base * Pow(2.0, k) + lag(k)
  }

  /** Rounds k, k + 1, ... of the outer loop; a round is one call of the client. */
  function Rounds(b: Breaker, limit: nat, rounds: nat, k: nat, now: real, wire: nat -> Reply, from: nat,
                  base: real, lag: nat -> real): Sent
    requires k < rounds
    decreases rounds - k
  {
    var s := Request(b, limit, now, wire, from);
    if s.result == TransportFailed && k + 1 < rounds then
      var resume := wire(from + s.requests - 1).at + Pause(base, lag, k);
      var rest := Rounds(s.breaker, limit, rounds, k + 1, resume, wire, from + s.requests, base, lag);
      rest.(requests := s.requests + rest.requests)
    else s
  }

  method CallWithRetry(breaker: CircuitBreaker, p: Policy, rounds: nat, start: real, wire: nat -> Reply,
                       base: real, lag: nat -> real, factor: nat -> real)
    returns (r: Result, requests: nat)
    requires ValidPolicy(p) && rounds >= 1
    requires Jittered(factor)
    modifies breaker
    ensures Sent(breaker.View(), r, requests)
         == Rounds(old(breaker.View()), p.maxAttempts, rounds, 0, start, wire, 0, base, lag)
  {
    hide Request;
    requests := 0;
    var now := start;
    ghost var whole := Rounds(breaker.View(), p.maxAttempts, rounds, 0, start, wire, 0, base, lag);
    for round := 0 to rounds
      invariant round > 0 ==> round < rounds
      invariant round < rounds ==>
        var rest := Rounds(breaker.View(), p.maxAttempts, rounds, round, now, wire, requests, base, lag);
        whole == rest.(requests := requests + rest.requests)
    {
      var n, slept;
      r, n, slept := RequestWithRetry(breaker, p, now, wire, requests, factor);
      requests := requests + n;
      if r != TransportFailed || round >= rounds - 1 {
        return;
      }
      now := wire(requests - 1).at + Pause(base, lag, round);
    }
    assert false;
  }

  /** A run of n transport failures on a closed breaker. */
  lemma {:induction false} FailuresInARow(b: Breaker, wire: nat -> Reply, from: nat, n: nat)
    requires b.state == Closed && b.failures < b.failureThreshold
    requires forall i | from <= i < from + n :: Transport(wire(i).outcome)
    ensures var t := RecordAll(b, wire, from, n);
            && t.failureThreshold == b.failureThreshold && t.timeout == b.timeout
            && (b.failures + n < b.failureThreshold ==> t.state == Closed && t.failures == b.failures + n)
            && (b.failures + n >= b.failureThreshold ==>
                  n > 0 && t.state == Open && t.lastFailure == Some(wire(from + n - 1).at))
    decreases n
  {
    if n > 0 {
      FailuresInARow(b, wire, from, n - 1);
    }
  }

  /** a / b rounded up: the least number of portions of b that cover a. */
  function CeilDiv(a: nat, b: nat): (c: nat)
    requires b >= 1
    decreases a
  {
    if a == 0 then 0 else if a <= b then 1 else 1 + CeilDiv(a - b, b)
  }

  lemma {:induction false} CeilDivCovers(a: nat, b: nat)
    requires b >= 1
    ensures b * CeilDiv(a, b) >= a
    ensures a > 0 ==> CeilDiv(a, b) >= 1 && b * (CeilDiv(a, b) - 1) < a
    decreases a
  {
    if a > b {
      CeilDivCovers(a - b, b);
      var c := CeilDiv(a - b, b);
      assert b * (1 + c) == b + b * c;
      assert b * c == b + b * (c - 1);
    }
  }

  function Min(a: nat, b: nat): nat {
    if a < b then a else b
  }

  /** If every request is a transport failure and every pause is shorter than the breaker's
      timeout, a closed breaker with f failures lets exactly
      M * min(R, ceil((F - f) / M)) requests out, and the caller learns that the breaker is
      open just when that leaves rounds unused. */
  lemma {:induction false} NestedBound(b: Breaker, limit: nat, rounds: nat, k: nat, now: real, wire: nat -> Reply,
                                       from: nat, base: real, lag: nat -> real)
    requires limit >= 1 && k < rounds
    requires b.state == Closed && b.failures < b.failureThreshold
    requires forall i | i >= from :: Transport(wire(i).outcome)
    requires forall j | k <= j < rounds - 1 :: Pause(base, lag, j) < b.timeout
    ensures var s := Rounds(b, limit, rounds, k, now, wire, from, base, lag);
            var needed := CeilDiv(b.failureThreshold - b.failures, limit);
            && s.requests == limit * Min(rounds - k, needed)
            && s.result == (if needed < rounds - k then BreakerOpen else TransportFailed)
    decreases rounds - k
  {
    hide Request, Pause;
    DownRound(b, limit, now, wire, from);
    var s := Request(b, limit, now, wire, from);
    var missing := b.failureThreshold - b.failures;
    if k + 1 < rounds {
      var resume := wire(from + limit - 1).at + Pause(base, lag, k);
      if missing > limit {
        NestedBound(s.breaker, limit, rounds, k + 1, resume, wire, from + limit, base, lag);
        OneMore(limit, Min(rounds - k - 1, CeilDiv(missing - limit, limit)));
      } else {
        OpenRound(s.breaker, limit, resume, wire, from + limit);
      }
    }
  }

  lemma OneMore(a: nat, m: nat)
    ensures a + a * m == a * (1 + m)
  {
  }

  /** One round against a network that is down: every try is used, whatever the breaker
      makes of them meanwhile. */
  lemma DownRound(b: Breaker, limit: nat, now: real, wire: nat -> Reply, from: nat)
    requires limit >= 1 && b.state == Closed && b.failures < b.failureThreshold
    requires forall i | from <= i < from + limit :: Transport(wire(i).outcome)
    ensures var s := Request(b, limit, now, wire, from);
            && s.requests == limit && s.result == TransportFailed
            && s.breaker.failureThreshold == b.failureThreshold && s.breaker.timeout == b.timeout
            && (b.failures + limit < b.failureThreshold ==>
                  s.breaker.state == Closed && s.breaker.failures == b.failures + limit)
            && (b.failures + limit >= b.failureThreshold ==>
                  s.breaker.state == Open && s.breaker.lastFailure == Some(wire(from + limit - 1).at))
  {
    hide RecordAll;
    AttemptsIs(wire, from, limit, limit);
    FailuresInARow(b, wire, from, limit);
  }

  lemma OpenRound(b: Breaker, limit: nat, now: real, wire: nat -> Reply, from: nat)
    requires b.state == Open && b.lastFailure.Some? && now - b.lastFailure.value < b.timeout
    ensures Request(b, limit, now, wire, from) == Sent(b, BreakerOpen, 0)
  {
  }

  /** With the constants of the repository, three by three tries against a breaker that opens
      after five failures, six requests go out rather than nine. */
  lemma SixRequestsNotNine(wire: nat -> Reply, lag: nat -> real, now: real)
    requires forall i :: Transport(wire(i).outcome)
    requires lag(0) < 59.0 && lag(1) < 58.0
    ensures var s := Rounds(New(5, 1, 60.0), 3, 3, 0, now, wire, 0, 1.0, lag);
            s.requests == 6 && s.result == BreakerOpen
  {
    assert Pow(2.0, 0) == 1.0;
    assert Pow(2.0, 1) == 2.0 * Pow(2.0, 0);
    assert Pause(1.0, lag, 0) < 60.0 && Pause(1.0, lag, 1) < 60.0;
    NestedBound(New(5, 1, 60.0), 3, 3, 0, now, wire, 0, 1.0, lag);
  }

  // ---- what a run of rounds was ----------------------------------------------------------

  ghost predicate Failing(wire: nat -> Reply, i: nat) {
    wire(i).outcome in {ServerError, TimedOut, NetworkDown}
  }

  /** Every request before the last met a server error, a timeout or a network failure; so did
      the last one if the caller is told of such a failure, or of a breaker that refused after
      it; and otherwise the caller is told what the last one met. */
  ghost predicate ToldRight(s: Sent, wire: nat -> Reply, from: nat) {
    if s.requests == 0 then s.result == BreakerOpen
    else
      var last := from + s.requests - 1;
      && (forall i | from <= i < last :: Failing(wire, i))
      && match s.result
         case BreakerOpen => Failing(wire, last)
         case TransportFailed => Failing(wire, last)
         case Answered => wire(last).outcome == Answer
         case Refused(why) => why == wire(last).outcome && why in {Missing, ClientError, BadBody, Unlisted}
  }

  /** Whatever the network does, the rounds go on after transport failures only and the caller
      is told right; of a transport failure only when every attempt of every round is used up. */
  lemma {:induction false} RoundsStop(b: Breaker, limit: nat, rounds: nat, k: nat, now: real, wire: nat -> Reply,
                                      from: nat, base: real, lag: nat -> real)
    requires limit >= 1 && k < rounds
    ensures var s := Rounds(b, limit, rounds, k, now, wire, from, base, lag);
            ToldRight(s, wire, from) && (s.result == TransportFailed ==> s.requests == limit * (rounds - k))
    decreases rounds - k
  {
    hide Request, Pause, ToldRight;
    var s := Request(b, limit, now, wire, from);
    RequestStops(b, limit, now, wire, from);
    if s.result == TransportFailed && k + 1 < rounds {
      var resume := wire(from + s.requests - 1).at + Pause(base, lag, k);
      var rest := Rounds(s.breaker, limit, rounds, k + 1, resume, wire, from + s.requests, base, lag);
      RoundsStop(s.breaker, limit, rounds, k + 1, resume, wire, from + s.requests, base, lag);
      ToldOn(s, rest, wire, from);
      OneMore(limit, rounds - k - 1);
    } else {
      TimesOne(limit);
    }
  }

  /** A call that met transport failures only, and what came after it. */
  lemma ToldOn(s: Sent, rest: Sent, wire: nat -> Reply, from: nat)
    requires ToldRight(s, wire, from) && s.result == TransportFailed && s.requests > 0
    requires ToldRight(rest, wire, from + s.requests)
    ensures ToldRight(rest.(requests := s.requests + rest.requests), wire, from)
  {
    hide Failing;
  }

  lemma TimesOne(a: nat)
    ensures a * 1 == a
  {
  }

  lemma RequestStops(b: Breaker, limit: nat, now: real, wire: nat -> Reply, from: nat)
    requires limit >= 1
    ensures var s := Request(b, limit, now, wire, from);
            && ToldRight(s, wire, from)
            && (s.result == TransportFailed ==> s.requests == limit)
  {
    hide CanExecute, RecordAll, Attempts;
    AttemptsIs(wire, from, limit, Attempts(wire, from, limit));
  }

  ghost function Failures(wire: nat -> Reply, from: nat, n: nat): seq<Call> {
    if n == 0 then [] else Failures(wire, from, n - 1) + [Failure(wire(from + n - 1).at)]
  }

  /** What the attempts of one admitted call tell the breaker: a failure each, at its time,
      and the last one a success if it was answered and nothing if nobody handled it. */
  ghost function Told(wire: nat -> Reply, from: nat, n: nat): seq<Call>
    requires n >= 1
  {
    var last := wire(from + n - 1);
    Failures(wire, from, n - 1)
    + match last.outcome
      case Answer => [Success]
      case Unlisted => []
      case _ => [Failure(last.at)]
  }

  lemma AfterOneMore(b: Breaker, calls: seq<Call>, c: Call)
    ensures BreakerSpec.After(b, calls + [c]) == Apply(BreakerSpec.After(b, calls), c)
    ensures calls + [] == calls
  {
    assert (calls + [c])[..|calls|] == calls;
  }

  lemma {:induction false} FailuresTold(b: Breaker, wire: nat -> Reply, from: nat, n: nat)
    requires forall i | from <= i < from + n :: Transport(wire(i).outcome)
    ensures RecordAll(b, wire, from, n) == BreakerSpec.After(b, Failures(wire, from, n))
    decreases n
  {
    hide RecordFailure, RecordSuccess;
    if n > 0 {
      FailuresTold(b, wire, from, n - 1);
      AfterOneMore(b, Failures(wire, from, n - 1), Failure(wire(from + n - 1).at));
    }
  }

  /** The breaker after an admitted call has had exactly that history since it was asked. */
  lemma RequestTells(b: Breaker, limit: nat, now: real, wire: nat -> Reply, from: nat)
    requires limit >= 1 && CanExecute(b, now).1
    ensures var s := Request(b, limit, now, wire, from);
            s.requests >= 1 &&
            s.breaker == BreakerSpec.After(CanExecute(b, now).0, Told(wire, from, s.requests))
  {
    hide CanExecute, Attempts, Told, RecordAll;
    var n := Attempts(wire, from, limit);
    AttemptsIs(wire, from, limit, n);
    LastTold(CanExecute(b, now).0, wire, from, n);
  }

  lemma LastTold(b: Breaker, wire: nat -> Reply, from: nat, n: nat)
    requires n >= 1 && forall i | from <= i < from + n - 1 :: Transport(wire(i).outcome)
    ensures RecordAll(b, wire, from, n) == BreakerSpec.After(b, Told(wire, from, n))
  {
    hide RecordFailure, RecordSuccess, BreakerSpec.After, Transport;
    FailuresTold(b, wire, from, n - 1);
    AfterOneMore(b, Failures(wire, from, n - 1), Success);
    AfterOneMore(b, Failures(wire, from, n - 1), Failure(wire(from + n - 1).at));
  }

  /** If every pause is at least the breaker's timeout, the breaker never gets in the way of an
      admitted start: against a dead network every attempt of every round is sent. */
  lemma {:induction false} LongPausesSendAll(b: Breaker, limit: nat, rounds: nat, k: nat, now: real,
                                             wire: nat -> Reply, from: nat, base: real, lag: nat -> real)
    requires limit >= 1 && k < rounds && CanExecute(b, now).1
    requires forall i | i >= from :: Transport(wire(i).outcome)
    requires forall j | k <= j < rounds - 1 :: Pause(base, lag, j) >= b.timeout
    ensures var s := Rounds(b, limit, rounds, k, now, wire, from, base, lag);
            s.requests == limit * (rounds - k) && s.result == TransportFailed
    decreases rounds - k
  {
    hide Pause, Request, CanExecute, Transport;
    DeadRound(b, limit, now, wire, from);
    var s := Request(b, limit, now, wire, from);
    if k + 1 < rounds {
      var resume := wire(from + limit - 1).at + Pause(base, lag, k);
      AdmittedLate(s.breaker, resume);
      LongPausesSendAll(s.breaker, limit, rounds, k + 1, resume, wire, from + limit, base, lag);
      OneMore(limit, rounds - k - 1);
    } else {
      TimesOne(limit);
    }
  }

  lemma AdmittedLate(b: Breaker, now: real)
    requires b.lastFailure.Some? && now >= b.lastFailure.value + b.timeout
    ensures CanExecute(b, now).1
  {
  }

  lemma DeadRound(b: Breaker, limit: nat, now: real, wire: nat -> Reply, from: nat)
    requires limit >= 1 && CanExecute(b, now).1
    requires forall i | from <= i < from + limit :: Transport(wire(i).outcome)
    ensures var s := Request(b, limit, now, wire, from);
            && s.requests == limit && s.result == TransportFailed && s.breaker.timeout == b.timeout
            && s.breaker.lastFailure == Some(wire(from + limit - 1).at)
  {
    hide RecordAll;
    AttemptsIs(wire, from, limit, limit);
    LastIsRecorded(CanExecute(b, now).0, wire, from, limit);
  }

  lemma {:induction false} LastIsRecorded(b: Breaker, wire: nat -> Reply, from: nat, n: nat)
    requires forall i | from <= i < from + n :: Transport(wire(i).outcome)
    ensures var t := RecordAll(b, wire, from, n);
            t.timeout == b.timeout && (n > 0 ==> t.lastFailure == Some(wire(from + n - 1).at))
    decreases n
  {
    if n > 0 {
      LastIsRecorded(b, wire, from, n - 1);
    }
  }

  /** With the repository's constants and pauses stretched to the timeout, all nine go out. */
  lemma NineRequests(wire: nat -> Reply, lag: nat -> real, now: real)
    requires forall i :: Transport(wire(i).outcome)
    requires lag(0) >= 59.0 && lag(1) >= 58.0
    ensures var s := Rounds(New(5, 1, 60.0), 3, 3, 0, now, wire, 0, 1.0, lag);
            s.requests == 9 && s.result == TransportFailed
  {
    assert Pow(2.0, 0) == 1.0;
    assert Pow(2.0, 1) == 2.0 * Pow(2.0, 0);
    assert Pause(1.0, lag, 0) >= 60.0 && Pause(1.0, lag, 1) >= 60.0;
    LongPausesSendAll(New(5, 1, 60.0), 3, 3, 0, now, wire, 0, 1.0, lag);
  }
}
