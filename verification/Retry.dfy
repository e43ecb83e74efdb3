/** The retry decorator (utility/retry.py).

    The decorated function is a state transformer that either returns or raises.
    `Run` says what a decorated call does; `RetryLoop` is the decorator's own loop. */
module Retry {
  datatype Outcome<+R, +E> = Returned(value: R) | Raised(error: E)

  /** A finished decorated call: the state it left, how it ended, how often the
      function was called and how many seconds the decorator slept. */
  datatype Finished<S, +R, +E> = Finished(state: S, outcome: Outcome<R, E>, calls: nat, slept: int)

  predicate Caught<R, E>(catches: E -> bool, out: Outcome<R, E>) {
    out.Raised? && catches(out.error)
  }

  function Run<S, R, E>(f: S -> (S, Outcome<R, E>), catches: E -> bool, s: S,
                        tries: int, delay: int, backoff: int): Finished<S, R, E>
    decreases tries
  {
    var (s', out) := f(s);
    if tries > 1 && Caught(catches, out) then
      After(1, delay, Run(f, catches, s', tries - 1, delay * backoff, backoff))
    else
      Finished(s', out, 1, 0)
  }

  function After<S, R, E>(calls: nat, slept: int, rest: Finished<S, R, E>): Finished<S, R, E> {
    rest.(calls := calls + rest.calls, slept := slept + rest.slept)
  }

  method RetryLoop<S, R, E>(f: S -> (S, Outcome<R, E>), catches: E -> bool, s: S,
                            tries: int, delay: int, backoff: int)
    returns (run: Finished<S, R, E>)
    ensures run == Run(f, catches, s, tries, delay, backoff)
  {
    var mtries, mdelay := tries, delay;
    var state, calls, slept := s, 0, 0;
    while mtries > 1
      invariant Run(f, catches, s, tries, delay, backoff)
             == After(calls, slept, Run(f, catches, state, mtries, mdelay, backoff))
    {
      var (state', out) := f(state);
      if !(out.Raised? && catches(out.error)) {
        return Finished(state', out, calls + 1, slept);
      }
      state, calls := state', calls + 1;
      slept := slept + mdelay;
      mtries := mtries - 1;
      mdelay := mdelay * backoff;
    }
    var (state', out) := f(state);
    return Finished(state', out, calls + 1, slept);
  }

  /** The state in which call number `k` (from 0) finds the world. */
  function StateBefore<S, R, E>(f: S -> (S, Outcome<R, E>), s: S, k: nat): S {
    if k == 0 then s else StateBefore(f, f(s).0, k - 1)
  }

  function OutcomeOf<S, R, E>(f: S -> (S, Outcome<R, E>), s: S, k: nat): Outcome<R, E> {
    f(StateBefore(f, s, k)).1
  }

  /** 1 + backoff + ... + backoff^(m-1) */
  function Geometric(backoff: int, m: nat): int {
    if m == 0 then 0 else 1 + backoff * Geometric(backoff, m - 1)
  }

  function MaxCalls(tries: int): nat { if tries > 1 then tries else 1 }

  /** The attempt count, the stopping rule and the backoff, in full. */
  lemma {:induction false} RunCharacterised<S, R, E>(f: S -> (S, Outcome<R, E>), catches: E -> bool, s: S,
                                                     tries: int, delay: int, backoff: int)
    ensures var run := Run(f, catches, s, tries, delay, backoff);
            && 1 <= run.calls <= MaxCalls(tries)
            && run.state == StateBefore(f, s, run.calls)
            && run.outcome == OutcomeOf(f, s, run.calls - 1)
            && (forall k: nat :: k < run.calls - 1 ==> Caught(catches, OutcomeOf(f, s, k)))
            && (run.calls < MaxCalls(tries) ==> !Caught(catches, run.outcome))
            && run.slept == delay * Geometric(backoff, run.calls - 1)
    decreases tries
  {
    var (s', out) := f(s);
    var run := Run(f, catches, s, tries, delay, backoff);
    assert OutcomeOf(f, s, 0) == out;
    if tries > 1 && Caught(catches, out) {
      RunCharacterised(f, catches, s', tries - 1, delay * backoff, backoff);
      var rest := Run(f, catches, s', tries - 1, delay * backoff, backoff);
      assert run.calls == rest.calls + 1;
      assert StateBefore(f, s, run.calls) == StateBefore(f, s', rest.calls);
      forall k: nat | k < run.calls - 1
        ensures Caught(catches, OutcomeOf(f, s, k))
      {
        if k > 0 { assert OutcomeOf(f, s, k) == OutcomeOf(f, s', k - 1); }
      }
      GeometricStep(delay, backoff, rest.calls - 1);
    } else {
      assert StateBefore(f, s, 1) == StateBefore(f, s', 0);
    }
  }

  lemma GeometricStep(delay: int, backoff: int, m: nat)
    ensures delay * Geometric(backoff, m + 1) == delay + delay * backoff * Geometric(backoff, m)
  {
  }

  /** What every call keeps, the decorated call keeps; what every normal return
      establishes, its normal return establishes. */
  lemma {:induction false} RunKeeps<S(!new), R, E>(f: S -> (S, Outcome<R, E>), catches: E -> bool, s: S,
                                                   tries: int, delay: int, backoff: int,
                                                   keeps: S -> bool, post: (S, R) -> bool)
    requires keeps(s)
    requires forall x :: keeps(x) ==> keeps(f(x).0)
    requires forall x :: keeps(x) && f(x).1.Returned? ==> post(f(x).0, f(x).1.value)
    ensures var run := Run(f, catches, s, tries, delay, backoff);
            && keeps(run.state)
            && (run.outcome.Returned? ==> post(run.state, run.outcome.value))
    decreases tries
  {
    var (s', out) := f(s);
    if tries > 1 && Caught(catches, out) {
      RunKeeps(f, catches, s', tries - 1, delay * backoff, backoff, keeps, post);
    }
  }

  /** A call within the tries that returns, or one whose successor does, suffices if no
      earlier call raised something that is not retried. */
  lemma {:induction false} RunReturns<S, R, E>(f: S -> (S, Outcome<R, E>), catches: E -> bool, s: S,
                                               tries: int, delay: int, backoff: int, i: nat)
    requires i == 0 || i < tries
    requires forall k: nat :: k < i && OutcomeOf(f, s, k).Raised? ==> catches(OutcomeOf(f, s, k).error)
    requires || OutcomeOf(f, s, i).Returned?
             || (i + 1 < tries && Caught(catches, OutcomeOf(f, s, i)) && OutcomeOf(f, s, i + 1).Returned?)
    ensures Run(f, catches, s, tries, delay, backoff).outcome.Returned?
    decreases i
  {
    var (s', out) := f(s);
    assert OutcomeOf(f, s, 0) == out;
    assert OutcomeOf(f, s, 1) == f(s').1;
    if i > 0 && out.Raised? {
      forall k: nat | k < i - 1
        ensures OutcomeOf(f, s', k) == OutcomeOf(f, s, k + 1)
      {
      }
      assert OutcomeOf(f, s', i - 1) == OutcomeOf(f, s, i) && OutcomeOf(f, s', i) == OutcomeOf(f, s, i + 1);
      RunReturns(f, catches, s', tries - 1, delay * backoff, backoff, i - 1);
    }
  }

  /** A per-call bound on a counter multiplies by the number of tries. */
  lemma {:induction false} RunCost<S(!new), R, E>(f: S -> (S, Outcome<R, E>), catches: E -> bool, s: S,
                                                  tries: int, delay: int, backoff: int,
                                                  cost: S -> int, perCall: nat)
    requires forall x :: cost(f(x).0) <= cost(x) + perCall
    ensures cost(Run(f, catches, s, tries, delay, backoff).state) <= cost(s) + MaxCalls(tries) * perCall
    decreases tries
  {
    var (s', out) := f(s);
    if tries > 1 && Caught(catches, out) {
      RunCost(f, catches, s', tries - 1, delay * backoff, backoff, cost, perCall);
      assert MaxCalls(tries) == MaxCalls(tries - 1) + 1;
      assert MaxCalls(tries) * perCall == MaxCalls(tries - 1) * perCall + perCall;
    } else {
      assert perCall <= MaxCalls(tries) * perCall;
    }
  }

  /** The setting every DNS method uses: five tries, 60 s, tripling. A loop that is
      exhausted has called its function five times and slept 40 minutes. */
  lemma ExhaustedDnsLoop<S, R, E>(f: S -> (S, Outcome<R, E>), catches: E -> bool, s: S)
    requires Caught(catches, Run(f, catches, s, 5, 60, 3).outcome)
    ensures Run(f, catches, s, 5, 60, 3).calls == 5
    ensures Run(f, catches, s, 5, 60, 3).slept == 2400
  {
    RunCharacterised(f, catches, s, 5, 60, 3);
    assert Geometric(3, 2) == 4;
    assert Geometric(3, 4) == 40;
  }
}
