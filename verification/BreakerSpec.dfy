/** What one call on the circuit breaker does, on values, and what follows for any history
    of calls (app/agent/circuit_breaker.py). Times are in seconds, in exact arithmetic. */
module BreakerSpec {
  import opened Wrappers

  datatype State = Closed | Open | HalfOpen

  datatype Breaker = Breaker(
    state: State,
    failures: nat,
    successes: nat,
    lastFailure: Option<real>,
    failureThreshold: nat,
    successThreshold: nat,
    timeout: real
  )

  /** The bounds that the configuration model enforces. */
  predicate Configured(b: Breaker) {
    b.failureThreshold >= 1 && b.successThreshold >= 1 && b.timeout >= 0.0
  }

  function New(failureThreshold: nat, successThreshold: nat, timeout: real): Breaker {
    Breaker(Closed, 0, 0, None, failureThreshold, successThreshold, timeout)
  }

  predicate Waited(b: Breaker, now: real) {
    b.lastFailure.None? || now - b.lastFailure.value >= b.timeout
  }

  function CanExecute(b: Breaker, now: real): (Breaker, bool) {
    match b.state
    case Closed => (b, true)
    case Open => if Waited(b, now) then (b.(state := HalfOpen, successes := 0), true) else (b, false)
    case HalfOpen => (b, true)
  }

  function RecordSuccess(b: Breaker): Breaker {
    match b.state
    case Closed => b.(failures := 0)
    case HalfOpen =>
      if b.successes + 1 >= b.successThreshold
      then b.(state := Closed, failures := 0, successes := 0)
      else b.(successes := b.successes + 1)
    case Open => b
  }

  function RecordFailure(b: Breaker, now: real): Breaker {
    var t := b.(lastFailure := Some(now));
    match b.state
    case Closed =>
      if b.failures + 1 >= b.failureThreshold
      then t.(state := Open, failures := b.failures + 1, successes := 0)
      else t.(failures := b.failures + 1)
    case HalfOpen => t.(state := Open, successes := 0)
    case Open => t
  }

  function Reset(b: Breaker): Breaker {
    New(b.failureThreshold, b.successThreshold, b.timeout)
  }

  function ForceOpen(b: Breaker, now: real): Breaker {
    b.(state := Open, lastFailure := Some(now))
  }

  // ---- histories -------------------------------------------------------------------

  datatype Call = Ask(at: real) | Success | Failure(at: real) | Clear | Force(at: real)

  function Apply(b: Breaker, c: Call): Breaker {
    match c
    case Ask(at) => CanExecute(b, at).0
    case Success => RecordSuccess(b)
    case Failure(at) => RecordFailure(b, at)
    case Clear => Reset(b)
    case Force(at) => ForceOpen(b, at)
  }

  function After(b: Breaker, calls: seq<Call>): Breaker {
    if calls == [] then b
    else Apply(After(b, calls[..|calls| - 1]), calls[|calls| - 1])
  }

  /** Failures recorded since the last success or reset, read off the history alone. */
  function Trailing(calls: seq<Call>): nat {
    if calls == [] then 0
    else
      var before := Trailing(calls[..|calls| - 1]);
      match calls[|calls| - 1]
      case Success => 0
      case Clear => 0
      case Failure(_) => before + 1
      case _ => before
  }

  /** Over every history of a new breaker: while closed it counts exactly the trailing
      failures, which are fewer than the threshold; half open it has too few successes to
      close; open it knows when it last failed. */
  lemma {:induction false} History(failureThreshold: nat, successThreshold: nat, timeout: real, calls: seq<Call>)
    requires failureThreshold >= 1 && successThreshold >= 1
    ensures var b := After(New(failureThreshold, successThreshold, timeout), calls);
            && b.failureThreshold == failureThreshold
            && b.successThreshold == successThreshold && b.timeout == timeout
            && (b.state == Closed ==> b.failures == Trailing(calls) < failureThreshold && b.successes == 0)
            && (b.state == HalfOpen ==> b.successes < successThreshold)
            && (b.state == Open ==> b.lastFailure.Some?)
    decreases |calls|
  {
    if calls != [] {
      History(failureThreshold, successThreshold, timeout, calls[..|calls| - 1]);
    }
  }

  /** The threshold of failures in a row never leaves the breaker closed. */
  lemma EnoughFailuresOpen(failureThreshold: nat, successThreshold: nat, timeout: real, calls: seq<Call>)
    requires failureThreshold >= 1 && successThreshold >= 1
    requires Trailing(calls) >= failureThreshold
    ensures After(New(failureThreshold, successThreshold, timeout), calls).state != Closed
  {
    History(failureThreshold, successThreshold, timeout, calls);
  }

  /** The call falls into the window that opened at `since`. */
  predicate InWindow(c: Call, since: real, until: real) {
    match c
    case Ask(at) => at < until
    case Success => true
    case Failure(at) => since <= at < until
    case Force(at) => since <= at < until
    case Clear => false
  }

  /** Once open since `since`, the breaker stays open and refuses every question until the
      timeout has passed, whatever successes, failures and forced openings are recorded. */
  lemma {:induction false} Blocks(b: Breaker, since: real, calls: seq<Call>, now: real)
    requires b.state == Open && b.lastFailure == Some(since)
    requires forall i | 0 <= i < |calls| :: InWindow(calls[i], since, since + b.timeout)
    requires now < since + b.timeout
    ensures var t := After(b, calls);
            && t.state == Open && t.lastFailure.Some? && t.lastFailure.value >= since && t.timeout == b.timeout
            && !CanExecute(t, now).1
    decreases |calls|
  {
    if calls != [] {
      var c := calls[|calls| - 1];
      var at := if c.Ask? then c.at else now;
      Blocks(b, since, calls[..|calls| - 1], at);
    }
  }

  /** The time of the latest failure or forced opening of a history that began with one at
      `first`. */
  function Latest(first: real, calls: seq<Call>): real {
    if calls == [] then first
    else
      match calls[|calls| - 1]
      case Failure(at) => at
      case Force(at) => at
      case _ => Latest(first, calls[..|calls| - 1])
  }

  /** No reset, and every question comes before the timeout has passed since the latest
      failure or forced opening until then. */
  predicate Undisturbed(first: real, timeout: real, calls: seq<Call>) {
    calls == [] ||
    var before, last := calls[..|calls| - 1], calls[|calls| - 1];
    && Undisturbed(first, timeout, before)
    && match last
       case Ask(at) => at < Latest(first, before) + timeout
       case Clear => false
       case _ => true
  }

  /** A failure or forced opening that leaves the breaker open starts the window. After any
      calls inside it, whatever successes and further failures they record, a question is
      admitted exactly if the timeout has passed since the latest failure or forced opening,
      and then as a probe. */
  lemma {:induction false} WindowOpensAndCloses(b: Breaker, c: Call, calls: seq<Call>, now: real)
    requires (c.Failure? || c.Force?) && Apply(b, c).state == Open
    requires Undisturbed(c.at, b.timeout, calls)
    ensures var t := After(Apply(b, c), calls);
            && t.state == Open && t.lastFailure == Some(Latest(c.at, calls)) && t.timeout == b.timeout
            && (CanExecute(t, now).1 <==> now >= Latest(c.at, calls) + b.timeout)
            && (CanExecute(t, now).1 ==> CanExecute(t, now).0.state == HalfOpen)
    decreases |calls|
  {
    if calls != [] {
      var last := calls[|calls| - 1];
      WindowOpensAndCloses(b, c, calls[..|calls| - 1], if last.Ask? then last.at else now);
    }
  }

  // ---- what closes it, and what starts it afresh ---------------------------------------

  function Successes(n: nat): seq<Call> {
    if n == 0 then [] else Successes(n - 1) + [Success]
  }

  /** From half open, successes in a row leave it half open with their count as long as that
      is below the threshold, and closed with no failures from the threshold on. */
  lemma {:induction false} ProbesClose(b: Breaker, n: nat)
    requires b.state == HalfOpen && b.successes < b.successThreshold
    ensures var t := After(b, Successes(n));
            && t.failureThreshold == b.failureThreshold && t.successThreshold == b.successThreshold
            && t.timeout == b.timeout && t.lastFailure == b.lastFailure
            && (b.successes + n < b.successThreshold ==> t.state == HalfOpen && t.successes == b.successes + n)
            && (b.successes + n >= b.successThreshold ==> t.state == Closed && t.failures == 0 && t.successes == 0)
    decreases n
  {
    if n > 0 {
      ProbesClose(b, n - 1);
      assert Successes(n)[..|Successes(n)| - 1] == Successes(n - 1);
    }
  }

  /** A single failure of a probe opens it again, from the time of that failure, and the
      successes so far do not count towards the next closing. */
  lemma FailedProbeOpens(b: Breaker, at: real, now: real, n: nat)
    requires b.state == HalfOpen && now >= at + b.timeout
    ensures Apply(b, Failure(at)).state == Open && Apply(b, Failure(at)).lastFailure == Some(at)
    ensures n < b.successThreshold
        ==> After(Apply(Apply(b, Failure(at)), Ask(now)), Successes(n)).state == HalfOpen
  {
    if n < b.successThreshold {
      ProbesClose(Apply(Apply(b, Failure(at)), Ask(now)), n);
    }
  }

  /** While closed a success forgets the failures, and a failure is counted and opens it at the
      threshold; while open a success changes nothing, and a failure only the time. */
  lemma ClosedAndOpen(b: Breaker, at: real)
    ensures b.state == Closed ==> Apply(b, Success) == b.(failures := 0)
    ensures b.state == Closed ==>
      var t := Apply(b, Failure(at));
      && t.failures == b.failures + 1 && t.lastFailure == Some(at)
      && (t.state == Open <==> b.failures + 1 >= b.failureThreshold)
      && (t.state == Closed <==> b.failures + 1 < b.failureThreshold)
      && t.successes == if t.state == Open then 0 else b.successes
    ensures b.state == Open ==> Apply(b, Success) == b && Apply(b, Failure(at)) == b.(lastFailure := Some(at))
  {
  }

  /** A question is refused exactly if the breaker is open and its last failure less than the
      timeout ago; only the first admitted question of an open breaker changes anything. */
  lemma RefusedIff(b: Breaker, now: real)
    ensures var (t, admitted) := CanExecute(b, now);
            && (!admitted <==> b.state == Open && b.lastFailure.Some? && now < b.lastFailure.value + b.timeout)
            && (b.state != Open || !admitted ==> t == b)
            && (b.state == Open && admitted ==> t == b.(state := HalfOpen, successes := 0))
  {
  }

  /** After a reset the breaker goes on as a new one would, whatever came before. */
  lemma {:induction false} ResetStartsAfresh(b: Breaker, before: seq<Call>, calls: seq<Call>)
    ensures After(b, before + [Clear] + calls)
         == After(New(b.failureThreshold, b.successThreshold, b.timeout), calls)
    decreases |calls|
  {
    var all := before + [Clear] + calls;
    if calls == [] {
      assert all[..|all| - 1] == before;
      SettingsStay(b, before);
    } else {
      ResetStartsAfresh(b, before, calls[..|calls| - 1]);
      assert all[..|all| - 1] == before + [Clear] + calls[..|calls| - 1];
    }
  }

  lemma {:induction false} SettingsStay(b: Breaker, calls: seq<Call>)
    ensures var t := After(b, calls);
            && t.failureThreshold == b.failureThreshold && t.successThreshold == b.successThreshold
            && t.timeout == b.timeout
    decreases |calls|
  {
    if calls != [] {
      SettingsStay(b, calls[..|calls| - 1]);
    }
  }

  /** Forcing it open always opens it, and touches no counter. */
  lemma ForcedIsOpen(b: Breaker, at: real)
    ensures Apply(b, Force(at)).state == Open && Apply(b, Force(at)).lastFailure == Some(at)
    ensures Apply(b, Force(at)).failures == b.failures && Apply(b, Force(at)).successes == b.successes
  {
  }
}
