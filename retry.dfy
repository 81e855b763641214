// Model of test/infrastructure/docker/utils/retry_util.go.
//
// `Retry(exec, delay, count)` calls `exec` `count` times, sleeps `delay` after
// every failing call, and returns the error of the last call. It does NOT stop
// after a call that succeeded. The callback is modelled by the outcome of each
// of its invocations (`exec(i)` is what the i-th call returns, None for a nil
// error), and the sleeps are recorded instead of taken.
module Retry {

  import opened Wrappers

  /** The indices of the failing calls among the first n, in call order:
      exactly the calls that are followed by a sleep. */
  function Failures<E>(exec: nat -> Option<E>, n: nat): (r: seq<nat>)
    ensures |r| <= n
    ensures forall k :: 0 <= k < |r| ==> r[k] < n && exec(r[k]).Some?
    ensures forall i :: 0 <= i < n && exec(i).Some? ==> i in r
    ensures forall j, k :: 0 <= j < k < |r| ==> r[j] < r[k]
  {
    if n == 0 then []
    else
      var prior := Failures(exec, n - 1);
      if exec(n - 1).Some? then prior + [n - 1] else prior
  }

  method Retry<E>(exec: nat -> Option<E>, delay: nat, count: int)
    returns (err: Option<E>, calls: nat, sleeps: seq<nat>, slept: nat)
    // the callback runs exactly `count` times, and not at all for count <= 0,
    // even when an early call already succeeded
    ensures calls == if count > 0 then count else 0
    // the result is the last call's error, nil when nothing ran
    ensures err == if count > 0 then exec(count - 1) else None
    // a sleep follows each failing call and only those, the last one included
    ensures sleeps == Failures(exec, calls)
    ensures slept == |sleeps| * delay
  {
    err, calls, sleeps, slept := None, 0, [], 0;
    var i := 0;
    while i < count
      invariant 0 <= i <= (if count > 0 then count else 0)
      invariant calls == i
      invariant err == if i > 0 then exec(i - 1) else None
      invariant sleeps == Failures(exec, i)
      invariant slept == |sleeps| * delay
    {
      err := exec(i);
      calls := calls + 1;
      if err.Some? {
        assert (|sleeps| + 1) * delay == |sleeps| * delay + delay;
        sleeps := sleeps + [i];
        slept := slept + delay;
      }
      i := i + 1;
    }
  }

  /** A success does not stop the loop: with a failing last call the result is
      that failure even when every earlier call succeeded. */
  lemma {:induction false} LastCallDecides<E>(exec: nat -> Option<E>, count: nat, e: E)
    requires count > 0
    requires forall i :: 0 <= i < count - 1 ==> exec(i).None?
    requires exec(count - 1) == Some(e)
    ensures Failures(exec, count) == [count - 1]
  {
    NoFailures(exec, count - 1);
  }

  lemma {:induction false} NoFailures<E>(exec: nat -> Option<E>, n: nat)
    requires forall i :: 0 <= i < n ==> exec(i).None?
    ensures Failures(exec, n) == []
  {
    if n > 0 {
      NoFailures(exec, n - 1);
    }
  }
}
