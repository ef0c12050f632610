/** Readiness polling (pkg/graph/executor.go, `waitForReadiness`). Durations are nanoseconds, as in
    Go; the factor 1.5 is exact on every delay that occurs. */
module Polling {
  import opened Common
  import opened GraphTypes

  const SECOND: nat := 1_000_000_000
  const MIN_TIMEOUT: nat := 300 * SECOND
  const MAX_DELAY: nat := 30 * SECOND

  datatype CheckAnswer = NotYet | IsReady | Failed

  datatype WaitResult = BecameReady | CheckFailed | TimedOut

  // ---- the timeout ----

  /** The larger of five minutes and the largest predicate timeout, in nanoseconds. */
  ghost predicate IsTimeout(preds: seq<Predicate>, t: nat) {
    && t >= 300_000_000_000
    && (forall i :: 0 <= i < |preds| ==> preds[i].timeout * 1_000_000_000 <= t)
    && (t == 300_000_000_000 || exists i :: 0 <= i < |preds| && preds[i].timeout * 1_000_000_000 == t)
  }

  method ReadinessTimeout(preds: seq<Predicate>) returns (timeout: nat)
    ensures IsTimeout(preds, timeout)
  {
    timeout := MIN_TIMEOUT;
    for k := 0 to |preds|
      invariant IsTimeout(preds[..k], timeout)
    {
      var p := preds[k];
      assert preds[..k + 1] == preds[..k] + [p];
      if p.timeout > 0 && p.timeout * SECOND > timeout {
        timeout := p.timeout * SECOND;
        assert preds[..k + 1][k].timeout * SECOND == timeout;
      } else if timeout != MIN_TIMEOUT {
        var i :| 0 <= i < k && preds[..k][i].timeout * SECOND == timeout;
        assert preds[..k + 1][i].timeout * SECOND == timeout;
      }
    }
    assert preds[..|preds|] == preds;
  }

  // ---- the delays ----

  function NextDelay(d: nat): nat {
    var grown := d * 3 / 2;
    if grown > MAX_DELAY then MAX_DELAY else grown
  }

  /** The delay before check number `k + 2`. */
  function Delay(k: nat): nat {
    if k == 0 then SECOND else NextDelay(Delay(k - 1))
  }

  /** Total time spent in the first `n` delays. */
  function Waited(n: nat): nat {
    if n == 0 then 0 else Waited(n - 1) + Delay(n - 1)
  }

  lemma {:induction false} DelayInRange(k: nat)
    ensures 1_000_000_000 <= Delay(k) <= 30_000_000_000
    ensures Delay(k) <= Delay(k + 1)
  {
    if k > 0 {
      DelayInRange(k - 1);
    }
  }

  lemma FirstDelays()
    ensures Delay(0) == 1_000_000_000 && Delay(1) == 1_500_000_000 && Delay(2) == 2_250_000_000
    ensures Delay(3) == 3_375_000_000 && Delay(4) == 5_062_500_000 && Delay(5) == 7_593_750_000
    ensures Delay(6) == 11_390_625_000 && Delay(7) == 17_085_937_500
    ensures Delay(8) == 25_628_906_250 && Delay(9) == MAX_DELAY
    ensures Waited(9) == 74_886_718_750
  {
    assert Delay(1) == 1_500_000_000;
    assert Delay(2) == 2_250_000_000;
    assert Delay(3) == 3_375_000_000;
    assert Delay(4) == 5_062_500_000;
    assert Delay(5) == 7_593_750_000;
    assert Delay(6) == 11_390_625_000;
    assert Delay(7) == 17_085_937_500;
    assert Waited(1) == 1_000_000_000;
    assert Waited(2) == 2_500_000_000;
    assert Waited(3) == 4_750_000_000;
    assert Waited(4) == 8_125_000_000;
    assert Waited(5) == 13_187_500_000;
    assert Waited(6) == 20_781_250_000;
    assert Waited(7) == 32_171_875_000;
    assert Waited(8) == 49_257_812_500;
  }

  /** From the tenth delay on every delay is the maximum. */
  lemma {:induction false} LaterDelays(k: nat)
    requires k >= 9
    ensures Delay(k) == MAX_DELAY
    ensures Waited(k) == 74_886_718_750 + (k - 9) * MAX_DELAY
  {
    if k == 9 {
      FirstDelays();
    } else {
      LaterDelays(k - 1);
    }
  }

  /** The delay starts at one second and grows by exactly the factor 1.5, eight times; then it stays at 30
      seconds. */
  lemma DelayGrows(k: nat)
    ensures Delay(0) == 1_000_000_000
    ensures k < 8 ==> 2 * Delay(k + 1) == 3 * Delay(k)
    ensures k >= 9 ==> Delay(k) == 30_000_000_000
  {
    if k >= 9 {
      LaterDelays(k);
    } else if k < 8 {
      FirstDelays();
    }
  }

  /** The bound on the number of checks. */
  predicate FewChecks(checks: nat, timeout: nat) {
    checks <= 10 + timeout / 30_000_000_000 && checks * 30_000_000_000 <= timeout + 226_000_000_000
  }

  /** Completing `n` delays within `timeout` leaves room for at most 6.5 + timeout/30s of them, and so
      for one more check than that. */
  lemma DelaysFit(n: nat, timeout: nat)
    requires Waited(n) <= timeout && timeout >= MIN_TIMEOUT
    ensures n * MAX_DELAY <= timeout + 196 * SECOND
    ensures FewChecks(n + 1, timeout)
  {
    if n >= 9 {
      LaterDelays(n);
    }
  }

  // ---- the loop ----

  /** The time when check `k` returns: all checks up to it and the delays between them. */
  function CheckedAt(takes: nat -> nat, k: nat): nat {
    takes(k) + (if k == 0 then 0 else CheckedAt(takes, k - 1) + Delay(k - 1))
  }

  /** Time spent in the checks up to check `k`. */
  function Checking(takes: nat -> nat, k: nat): nat {
    if k == 0 then takes(0) else Checking(takes, k - 1) + takes(k)
  }

  /** Check `k` returns after all checks up to it and `k` delays. */
  lemma {:induction false} CheckedAtMeaning(takes: nat -> nat, k: nat)
    ensures CheckedAt(takes, k) == Checking(takes, k) + Waited(k)
  {
    if k > 0 {
      CheckedAtMeaning(takes, k - 1);
    }
  }

  /** When the wait is given up: at the timeout or when the parent context ends. */
  function Deadline(timeout: nat, cancelAt: Option<nat>): nat {
    if cancelAt.Some? && cancelAt.value < timeout then cancelAt.value else timeout
  }

  /** After check `k` the wait goes on: "not yet", and the next delay ends before the deadline. When it
      ends exactly then, both branches of the select are ready and either may be taken; `timer` says
      whether it is the timer's. */
  predicate GoesOn(answers: nat -> CheckAnswer, takes: nat -> nat, timer: nat -> bool, deadline: nat, k: nat) {
    answers(k) == NotYet && (if timer(k) then CheckedAt(takes, k) + Delay(k) <= deadline
                             else CheckedAt(takes, k) + Delay(k) < deadline)
  }

  /** The wait goes on after check `k` exactly when the answer was "not yet" and the next delay ends before the
      timeout and before any cancellation; at a tie it may go on or not. */
  lemma GoesOnMeaning(answers: nat -> CheckAnswer, takes: nat -> nat, timer: nat -> bool, timeout: nat,
                      cancelAt: Option<nat>, k: nat)
    ensures var next := Checking(takes, k) + Waited(k + 1);
            GoesOn(answers, takes, timer, Deadline(timeout, cancelAt), k) <==>
              && answers(k) == NotYet
              && next <= timeout && (cancelAt.Some? ==> next <= cancelAt.value)
              && (next == timeout || cancelAt == Some(next) ==> timer(k))
  {
    CheckedAtMeaning(takes, k);
  }

  /** `waitForReadiness`. `answers(k)` is what check `k` returns and `takes(k)` how long it runs;
      `cancelAt` is when the parent context ends, if it does. A delay is interrupted when the
      deadline comes first. Reports the number of checks made. */
  method WaitForReadiness(preds: seq<Predicate>, answers: nat -> CheckAnswer, takes: nat -> nat, timer: nat -> bool,
                          cancelAt: Option<nat>)
    returns (r: WaitResult, checks: nat, timeout: nat)
    ensures IsTimeout(preds, timeout)
    // The last check is the first one after which the wait does not go on.
    ensures checks >= 1 && !GoesOn(answers, takes, timer, Deadline(timeout, cancelAt), checks - 1)
    ensures forall k :: 0 <= k < checks - 1 ==> GoesOn(answers, takes, timer, Deadline(timeout, cancelAt), k)
    ensures r == match answers(checks - 1)
                 case IsReady => BecameReady
                 case Failed => CheckFailed
                 case NotYet => TimedOut
    // Polling is bounded.
    ensures FewChecks(checks, timeout)
  {
    timeout := ReadinessTimeout(preds);
    var deadline := Deadline(timeout, cancelAt);
    var clock, delay := 0, SECOND;
    checks := 0;
    while true
      invariant delay == Delay(checks)
      invariant clock == if checks == 0 then 0 else CheckedAt(takes, checks - 1) + Delay(checks - 1)
      invariant Waited(checks) <= clock && (checks > 0 ==> clock <= deadline)
      invariant forall k :: 0 <= k < checks ==> GoesOn(answers, takes, timer, deadline, k)
      decreases deadline - clock
    {
      DelayInRange(checks);
      DelaysFit(checks, timeout);
      clock := clock + takes(checks);
      assert clock == CheckedAt(takes, checks);
      checks := checks + 1;
      if answers(checks - 1) == Failed {
        return CheckFailed, checks, timeout;
      }
      if answers(checks - 1) == IsReady {
        return BecameReady, checks, timeout;
      }
      if clock + delay > deadline || (clock + delay == deadline && !timer(checks - 1)) {
        return TimedOut, checks, timeout;
      }
      clock := clock + delay;
      delay := NextDelay(delay);
    }
  }
}
