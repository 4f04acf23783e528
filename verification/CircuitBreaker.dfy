/** The circuit breaker that opens after consecutive failures. */
module CircuitBreaker {

  import opened Common

  datatype Config = Config(threshold: uint64, window: int)

  datatype State = State(failures: uint64, lastFailureTime: int)

  /** What the guarded function does, if it runs. */
  datatype Outcome = Succeeds | Fails | TimesOut

  /** One use of `Call`, with the clock as it reads it: when asked, when resetting, when done. */
  datatype Attempt = Attempt(asked: int, resetAt: int, doneAt: int, outcome: Outcome)

  datatype Verdict = Nil | FunctionError | ErrBreakerTimeout | ErrBreakerOpen

  predicate Expired(c: Config, s: State, now: int) {
    now - s.lastFailureTime > c.window
  }

  predicate Admitted(c: Config, s: State, a: Attempt) {
    Expired(c, s, a.asked) || s.failures < c.threshold
  }

  predicate Failing(a: Attempt) {
    !a.outcome.Succeeds?
  }

  /** The state after `ready`. */
  function AfterReady(c: Config, s: State, a: Attempt): State {
    if Expired(c, s, a.asked) then State(0, a.resetAt) else s
  }

  function Next(c: Config, s: State, a: Attempt): State {
    if !Admitted(c, s, a) then AfterReady(c, s, a)
    else if Failing(a) then State((AfterReady(c, s, a).failures + 1) % WORD64, a.doneAt)
    else State(0, a.doneAt)
  }

  /** The state after the first `n` attempts of a sequential run on a new breaker. */
  function After(c: Config, run: seq<Attempt>, n: nat): State
    requires n <= |run|
  {
    if n == 0 then State(0, 0) else Next(c, After(c, run, n - 1), run[n - 1])
  }

  // ----- Properties of every run

  /** A rejected call changes nothing. */
  lemma RejectedChangesNothing(c: Config, s: State, a: Attempt)
    requires !Admitted(c, s, a)
    ensures Next(c, s, a) == s
  {
  }

  /** The count never passes the threshold, so it never wraps around; a zero threshold still lets one failure in. */
  lemma {:induction false} FailuresBounded(c: Config, run: seq<Attempt>, n: nat)
    requires n <= |run|
    ensures After(c, run, n).failures <= if c.threshold == 0 then 1 else c.threshold
  {
    if n > 0 {
      FailuresBounded(c, run, n - 1);
    }
  }

  /** The bound is the threshold in every run exactly when the threshold is positive. */
  lemma BoundIsThresholdIff(c: Config)
    ensures (forall run: seq<Attempt>, n: nat :: n <= |run| ==> After(c, run, n).failures <= c.threshold)
       <==> c.threshold >= 1
  {
    if c.threshold >= 1 {
      forall run: seq<Attempt>, n: nat | n <= |run| ensures After(c, run, n).failures <= c.threshold {
        FailuresBounded(c, run, n);
      }
    } else {
      var run := [Attempt(c.window + 1, 0, 0, Fails)];
      assert After(c, run, 0) == State(0, 0);
      assert After(c, run, 1).failures == 1;
    }
  }

  /** An open breaker rejects every call within its window and admits the first one after it. */
  lemma {:induction false} StaysOpen(c: Config, run: seq<Attempt>, from: nat, n: nat)
    requires from <= n <= |run| && After(c, run, from).failures >= c.threshold
    requires forall i :: from <= i < n ==> !Expired(c, After(c, run, from), run[i].asked)
    ensures After(c, run, n) == After(c, run, from)
    ensures n < |run| ==> (Admitted(c, After(c, run, n), run[n]) <==> Expired(c, After(c, run, from), run[n].asked))
    decreases n - from
  {
    if from < n {
      StaysOpen(c, run, from, n - 1);
    }
  }

  /** Attempt `i` of the run is executed and fails. */
  ghost predicate FailsAt(c: Config, run: seq<Attempt>, i: nat) {
    i < |run| && Admitted(c, After(c, run, i), run[i]) && Failing(run[i])
  }

  /** `ps` are consecutive failing executions: everything between two of them is rejected. */
  ghost predicate Consecutive(c: Config, run: seq<Attempt>, ps: seq<nat>) {
    && (forall k :: 0 <= k < |ps| ==> FailsAt(c, run, ps[k]))
    && (forall k :: 0 <= k < |ps| - 1 ==> ps[k] < ps[k + 1])
    && (forall k, i :: 0 <= k < |ps| - 1 && ps[k] < i < ps[k + 1] ==> !Admitted(c, After(c, run, i), run[i]))
  }

  lemma {:induction false} RejectedStretch(c: Config, run: seq<Attempt>, from: nat, n: nat)
    requires from <= n <= |run|
    requires forall i :: from <= i < n ==> !Admitted(c, After(c, run, i), run[i])
    ensures After(c, run, n) == After(c, run, from)
    decreases n - from
  {
    if from < n {
      RejectedStretch(c, run, from, n - 1);
    }
  }

  lemma AfterStep(c: Config, run: seq<Attempt>, n: nat)
    requires n < |run|
    ensures After(c, run, n + 1) == Next(c, After(c, run, n), run[n])
  {
  }

  /** Without a long gap, the count rises by one with every one of them. */
  lemma {:induction false} CountRises(c: Config, run: seq<Attempt>, ps: seq<nat>, k: nat)
    requires Consecutive(c, run, ps) && k < |ps| && k < c.threshold
    requires forall j :: 0 <= j < k ==> run[ps[j + 1]].asked - run[ps[j]].doneAt <= c.window
    ensures ps[k] < |run|
    ensures var s := After(c, run, ps[k] + 1); s.failures >= k + 1 && s.lastFailureTime == run[ps[k]].doneAt
  {
    hide After;
    assert FailsAt(c, run, ps[k]);
    FailuresBounded(c, run, ps[k]);
    AfterStep(c, run, ps[k]);
    if k > 0 {
      CountRises(c, run, ps, k - 1);
      RejectedStretch(c, run, ps[k - 1] + 1, ps[k]);
    }
  }

  /** Of any `threshold + 1` consecutive failing executions, two are more than the window apart. */
  lemma LongGap(c: Config, run: seq<Attempt>, ps: seq<nat>)
    requires c.threshold >= 1 && Consecutive(c, run, ps) && |ps| == c.threshold + 1
    ensures exists k :: 0 <= k < c.threshold && run[ps[k + 1]].asked - run[ps[k]].doneAt > c.window
  {
    hide After;
    var t := c.threshold;
    if forall k :: 0 <= k < t ==> run[ps[k + 1]].asked - run[ps[k]].doneAt <= c.window {
      CountRises(c, run, ps, t - 1);
      RejectedStretch(c, run, ps[t - 1] + 1, ps[t]);
    }
  }

  /** And `threshold` of them with short gaps open it: whatever comes within the window is rejected. */
  lemma Opens(c: Config, run: seq<Attempt>, ps: seq<nat>, n: nat)
    requires c.threshold >= 1 && Consecutive(c, run, ps) && |ps| == c.threshold
    requires forall j :: 0 <= j < |ps| - 1 ==> run[ps[j + 1]].asked - run[ps[j]].doneAt <= c.window
    requires var last := ps[c.threshold - 1];
      && last < n < |run|
      && forall i :: last < i <= n ==> run[i].asked - run[last].doneAt <= c.window
    ensures !Admitted(c, After(c, run, n), run[n])
  {
    hide After;
    var last := ps[c.threshold - 1];
    CountRises(c, run, ps, c.threshold - 1);
    StaysOpen(c, run, last + 1, n);
  }

  /** A success closes it: the next call is admitted. */
  lemma SuccessCloses(c: Config, run: seq<Attempt>, i: nat)
    requires c.threshold >= 1 && i + 1 < |run|
    requires Admitted(c, After(c, run, i), run[i]) && !Failing(run[i])
    ensures Admitted(c, After(c, run, i + 1), run[i + 1])
  {
    AfterStep(c, run, i);
  }

  // ----- The code

  class ConsecCircuitBreaker {
    const config: Config
    var lastFailureTime: int
    var failures: uint64

    constructor (config: Config)
      ensures this.config == config && Value() == After(config, [], 0)
    {
      this.config := config;
      lastFailureTime, failures := 0, 0;
    }

    ghost function Value(): State
      reads this
    {
      State(failures, lastFailureTime)
    }

    method Reset(now: int)
      modifies this
      ensures Value() == State(0, now)
    {
      failures := 0;
      lastFailureTime := now;
    }

    method Fail(now: int)
      modifies this
      ensures Value() == State((old(failures) + 1) % WORD64, now)
    {
      failures := (failures + 1) % WORD64;
      lastFailureTime := now;
    }

    method Ready(asked: int, resetAt: int) returns (ready: bool)
      modifies this
      ensures ready == (Expired(config, old(Value()), asked) || old(failures) < config.threshold)
      ensures Value() == if Expired(config, old(Value()), asked) then State(0, resetAt) else old(Value())
    {
      if asked - lastFailureTime > config.window {
        Reset(resetAt);
        return true;
      }
      return failures < config.threshold;
    }

    method Call(a: Attempt) returns (err: Verdict)
      modifies this
      ensures Value() == Next(config, old(Value()), a)
      ensures err == ErrBreakerOpen <==> !Admitted(config, old(Value()), a)
      ensures err == Nil <==> Admitted(config, old(Value()), a) && a.outcome.Succeeds?
      ensures err == FunctionError <==> Admitted(config, old(Value()), a) && a.outcome.Fails?
      ensures err == ErrBreakerTimeout <==> Admitted(config, old(Value()), a) && a.outcome.TimesOut?
      ensures err == ErrBreakerOpen <==>
        a.asked - old(lastFailureTime) <= config.window && old(failures) >= config.threshold
      ensures err == ErrBreakerOpen ==> failures == old(failures) && lastFailureTime == old(lastFailureTime)
      ensures err == Nil ==> failures == 0
      ensures err == FunctionError || err == ErrBreakerTimeout ==>
        failures == ((if a.asked - old(lastFailureTime) > config.window then 0 else old(failures)) + 1) % WORD64
      ensures err != ErrBreakerOpen ==> lastFailureTime == a.doneAt
    {
      var ready := Ready(a.asked, a.resetAt);
      if !ready {
        return ErrBreakerOpen;
      }
      err := match a.outcome case Succeeds => Nil case Fails => FunctionError case TimesOut => ErrBreakerTimeout;
      if err == Nil {
        Reset(a.doneAt);
      } else {
        Fail(a.doneAt);
      }
    }
  }
}
