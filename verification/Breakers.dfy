/** The circuit breaker as the object it is, every method tied to BreakerSpec. */
module Breakers {
  import opened Wrappers
  import opened BreakerSpec

  class CircuitBreaker {
    var state: State
    var failureCount: nat
    var successCount: nat
    var lastFailureTime: Option<real>
    const failureThreshold: nat
    const successThreshold: nat
    const timeoutSec: real

    function View(): Breaker
      reads this
    {
      Breaker(state, failureCount, successCount, lastFailureTime, failureThreshold, successThreshold, timeoutSec)
    }

    constructor (failureThreshold: nat, successThreshold: nat, timeoutSec: real)
      ensures View() == New(failureThreshold, successThreshold, timeoutSec)
    {
      this.failureThreshold, this.successThreshold, this.timeoutSec := failureThreshold, successThreshold, timeoutSec;
      state, failureCount, successCount, lastFailureTime := Closed, 0, 0, None;
    }

    method CanExecute(now: real) returns (admitted: bool)
      modifies this
      ensures (View(), admitted) == BreakerSpec.CanExecute(old(View()), now)
    {
      if state == Closed {
        return true;
      }
      if state == Open {
        if lastFailureTime.None? || now - lastFailureTime.value >= timeoutSec {
          state := HalfOpen;
          successCount := 0;
          return true;
        }
        return false;
      }
      return true;
    }

    method RecordSuccess()
      modifies this
      ensures View() == BreakerSpec.RecordSuccess(old(View()))
    {
      if state == Closed {
        failureCount := 0;
      } else if state == HalfOpen {
        successCount := successCount + 1;
        if successCount >= successThreshold {
          state := Closed;
          failureCount := 0;
          successCount := 0;
        }
      }
    }

    method RecordFailure(now: real)
      modifies this
      ensures View() == BreakerSpec.RecordFailure(old(View()), now)
    {
      lastFailureTime := Some(now);
      if state == Closed {
        failureCount := failureCount + 1;
        if failureCount >= failureThreshold {
          state := Open;
          successCount := 0;
        }
      } else if state == HalfOpen {
        state := Open;
        successCount := 0;
      }
    }

    method Reset()
      modifies this
      ensures View() == BreakerSpec.Reset(old(View()))
    {
      state := Closed;
      failureCount := 0;
      successCount := 0;
      lastFailureTime := None;
    }

    method ForceOpen(now: real)
      modifies this
      ensures View() == BreakerSpec.ForceOpen(old(View()), now)
    {
      state := Open;
      lastFailureTime := Some(now);
    }
  }
}
