/** The retry decorator with exponential backoff. Its parameters are checked
    once, when the decorator is made; each call of the wrapped function is
    then retried after every failure of the matching kind, sleeping a delay
    that grows by the factor `backoff` each time and moving the caller to
    the next handle of an API container. Delays are exact reals here. */
module RequestRetry {
  import opened ApiContainers

  /** The value errors raised for bad decorator parameters. */
  datatype SetupError = BackoffNotAboveOne | DelayNotPositive

  /** Accepted decorator parameters. */
  datatype RetrySetup = RetrySetup(delay: real, backoff: real)

  datatype Decoration = Decorated(setup: RetrySetup) | Rejected(error: SetupError)

  /** The checks made before a decorator is returned: the backoff first,
      then the initial delay. */
  function RequestExecutionRetry(delay: real, backoff: real): (r: Decoration)
    ensures r.Decorated? <==> backoff > 1.0 && delay > 0.0
    ensures r.Decorated? ==> r.setup == RetrySetup(delay, backoff)
    ensures r == Rejected(BackoffNotAboveOne) <==> backoff <= 1.0
    ensures r == Rejected(DelayNotPositive) <==> backoff > 1.0 && delay <= 0.0
  {
    if backoff <= 1.0 then Rejected(BackoffNotAboveOne)
    else if delay <= 0.0 then Rejected(DelayNotPositive)
    else Decorated(RetrySetup(delay, backoff))
  }

  /** Parameters that the checks let through. */
  predicate Accepted(s: RetrySetup)
  {
    RequestExecutionRetry(s.delay, s.backoff).Decorated?
  }

  /** The decorator's default parameters: an initial delay of 6 seconds and
      a backoff of 2. */
  const Defaults := RetrySetup(6.0, 2.0)

  /** The defaults pass both checks. */
  lemma DefaultsAccepted()
    ensures Accepted(Defaults)
    ensures RequestExecutionRetry(Defaults.delay, Defaults.backoff) == Decorated(Defaults)
  {
  }

  // ---------------------------------------------------------------------
  // The delay progression
  // ---------------------------------------------------------------------

  function Pow(b: real, k: nat): real
  {
    if k == 0 then 1.0 else b * Pow(b, k - 1)
  }

  /** A backoff of at least one never shrinks the delay. */
  lemma {:induction false} PowAtLeastOne(b: real, k: nat)
    requires b >= 1.0
    ensures Pow(b, k) >= 1.0
  {
    if k > 0 {
      PowAtLeastOne(b, k - 1);
      var p := Pow(b, k - 1);
      assert b * p - p == (b - 1.0) * p;
    }
  }

  /** The sleep before retry `k`, counting from 0: the initial delay after
      `k` multiplications by the backoff. */
  function SleepBefore(s: RetrySetup, k: nat): real
  {
    s.delay * Pow(s.backoff, k)
  }

  /** With accepted parameters every sleep is at least the initial delay,
      which is positive. */
  lemma SleepPositive(s: RetrySetup, k: nat)
    requires Accepted(s)
    ensures SleepBefore(s, k) >= s.delay > 0.0
  {
    PowAtLeastOne(s.backoff, k);
    var p := Pow(s.backoff, k);
    assert s.delay * p - s.delay == s.delay * (p - 1.0);
  }

  /** Each failure multiplies the delay by the backoff: a delay of
      `SleepBefore(s, k)`, multiplied, is the delay before retry `k + 1`. */
  lemma NextSleep(s: RetrySetup, k: nat, d: real)
    requires d == SleepBefore(s, k)
    ensures d * s.backoff == SleepBefore(s, k + 1)
  {
    var p := Pow(s.backoff, k);
    assert Pow(s.backoff, k + 1) == s.backoff * p;
    assert s.delay * (s.backoff * p) == (s.delay * p) * s.backoff;
  }

  lemma ScaleUp(d: real, b: real)
    requires d > 0.0 && b > 1.0
    ensures d * b > d
  {
    assert d * b - d == d * (b - 1.0);
  }

  /** With accepted parameters the sleeps strictly increase. */
  lemma {:induction false} SleepIncreasing(s: RetrySetup, j: nat, k: nat)
    requires Accepted(s)
    requires j < k
    ensures 0.0 < SleepBefore(s, j) < SleepBefore(s, k)
  {
    SleepPositive(s, k - 1);
    NextSleep(s, k - 1, SleepBefore(s, k - 1));
    ScaleUp(SleepBefore(s, k - 1), s.backoff);
    if j < k - 1 {
      SleepIncreasing(s, j, k - 1);
    }
  }

  /** The sleeps before the first `k` retries. */
  function Sleeps(s: RetrySetup, k: nat): (r: seq<real>)
    ensures |r| == k
  {
    if k == 0 then [] else Sleeps(s, k - 1) + [SleepBefore(s, k - 1)]
  }

  /** The `j`-th sleep of a call is the delay before retry `j`:
      `delay * backoff^j`. */
  lemma {:induction false} SleepsAt(s: RetrySetup, k: nat, j: nat)
    requires j < k
    ensures Sleeps(s, k)[j] == s.delay * Pow(s.backoff, j)
  {
    if j < k - 1 {
      SleepsAt(s, k - 1, j);
    }
  }

  function Sum(xs: seq<real>): real
  {
    if xs == [] then 0.0 else Sum(xs[..|xs| - 1]) + xs[|xs| - 1]
  }

  lemma SumSleepsNext(s: RetrySetup, k: nat)
    requires k > 0
    ensures Sum(Sleeps(s, k)) == Sum(Sleeps(s, k - 1)) + s.delay * Pow(s.backoff, k - 1)
  {
    assert Sleeps(s, k)[..k - 1] == Sleeps(s, k - 1);
  }

  lemma PowNext(b: real, k: nat)
    requires k > 0
    ensures Pow(b, k) == b * Pow(b, k - 1)
  {
  }

  /** The algebra of one step of the geometric sum. */
  lemma GeometricStep(sum: real, d: real, p: real, b: real, total: real, pk: real)
    requires sum * (b - 1.0) == d * (p - 1.0)
    requires total == sum + d * p && pk == b * p
    ensures total * (b - 1.0) == d * (pk - 1.0)
  {
    calc {
      total * (b - 1.0);
      sum * (b - 1.0) + d * p * (b - 1.0);
      d * (p - 1.0) + d * p * (b - 1.0);
      d * (b * p - 1.0);
    }
  }

  /** The total time slept over `k` failures is a geometric sum:
      `delay * (backoff^k - 1) / (backoff - 1)`. */
  lemma {:induction false} TotalSleep(s: RetrySetup, k: nat)
    ensures Sum(Sleeps(s, k)) * (s.backoff - 1.0) == s.delay * (Pow(s.backoff, k) - 1.0)
  {
    if k == 0 {
      TotalSleepNone(s);
    } else {
      TotalSleep(s, k - 1);
      TotalSleepNext(s, k);
    }
  }

  /** No failure, no sleep. */
  lemma TotalSleepNone(s: RetrySetup)
    ensures Sum(Sleeps(s, 0)) * (s.backoff - 1.0) == s.delay * (Pow(s.backoff, 0) - 1.0)
  {
    assert Sum(Sleeps(s, 0)) == 0.0 && Pow(s.backoff, 0) - 1.0 == 0.0;
  }

  /** One more failure keeps the geometric-sum identity. */
  lemma TotalSleepNext(s: RetrySetup, k: nat)
    requires k > 0
    requires Sum(Sleeps(s, k - 1)) * (s.backoff - 1.0) == s.delay * (Pow(s.backoff, k - 1) - 1.0)
    ensures Sum(Sleeps(s, k)) * (s.backoff - 1.0) == s.delay * (Pow(s.backoff, k) - 1.0)
  {
    var sum, p := Sum(Sleeps(s, k - 1)), Pow(s.backoff, k - 1);
    var total, pk := Sum(Sleeps(s, k)), Pow(s.backoff, k);
    assert total == sum + s.delay * p by {
      SumSleepsNext(s, k);
    }
    assert pk == s.backoff * p by {
      PowNext(s.backoff, k);
    }
    GeometricStep(sum, s.delay, p, s.backoff, total, pk);
  }

  /** With an initial delay of 0.01 and a backoff of 2, two failures sleep
      0.01 and then 0.02, 0.03 in all. */
  lemma TwoFailures()
    ensures Sleeps(RetrySetup(0.01, 2.0), 2) == [0.01, 0.02]
    ensures Sum(Sleeps(RetrySetup(0.01, 2.0), 2)) == 0.03
  {
    var s := RetrySetup(0.01, 2.0);
    assert Pow(2.0, 1) == 2.0;
    assert Sleeps(s, 2) == [SleepBefore(s, 0), SleepBefore(s, 1)];
    assert Sleeps(s, 2)[..1] == [0.01];
  }

  // ---------------------------------------------------------------------
  // The retry loop
  // ---------------------------------------------------------------------

  /** What one call of the wrapped function does: it returns a value,
      raises an exception of the kind the decorator retries on, or raises
      any other exception. */
  datatype Attempt<R> = Returned(value: R) | RaisedMatching | RaisedOther

  /** What the caller of the wrapped function sees: the first value
      returned, or the first exception of another kind, propagated. */
  datatype CallOutcome<R> = Success(value: R) | Propagated

  /** The attempts stop failing with the retried kind at some point. */
  predicate Settles<R>(attempts: seq<Attempt<R>>)
  {
    exists i :: 0 <= i < |attempts| && !attempts[i].RaisedMatching?
  }

  /** The number of retried failures before the attempt that ends the call. */
  function Failures<R>(attempts: seq<Attempt<R>>): (k: nat)
    requires Settles(attempts)
    ensures k < |attempts| && !attempts[k].RaisedMatching?
    ensures forall j :: 0 <= j < k ==> attempts[j].RaisedMatching?
  {
    if !attempts[0].RaisedMatching? then 0
    else
      var i :| 0 <= i < |attempts| && !attempts[i].RaisedMatching?;
      assert !attempts[1..][i - 1].RaisedMatching?;
      1 + Failures(attempts[1..])
  }

  /** The step taken after each retried failure: the handle in use is set
      aside and the container's current handle takes its place. It never
      meets the container's index error. */
  method Rotate<T(==)>(container: ApiContainer<T>, current: T) returns (next: T)
    modifies container
    ensures Rotated(container.State(), next) == RotateStep(old(container.State()), current)
  {
    ghost var before := container.State();
    container.ToAwaiting(current);
    var fetched := container.GetApi();
    RotateStepFetches(before, current);
    next := fetched.api;
  }

  /** A call of the wrapped function, with the outcomes of its successive
      attempts given up front. After each retried failure it sleeps the
      current delay, multiplies the delay by the backoff, sets the handle in
      use aside in the container and takes the container's current handle.
      `handles` are the handles the attempts ran with, the last one being the
      handle left on the caller's object; `sleeps` are the delays slept. */
  method Wrapper<T(==), R>(setup: RetrySetup, container: ApiContainer<T>, api: T, attempts: seq<Attempt<R>>)
    returns (outcome: CallOutcome<R>, handles: seq<T>, sleeps: seq<real>)
    requires Settles(attempts)
    modifies container
    ensures var k := Failures(attempts);
      sleeps == Sleeps(setup, k) &&
      Trace(container.State(), handles) == Rotations(old(container.State()), api, k) &&
      outcome == if attempts[k].Returned? then Success(attempts[k].value) else Propagated
  {
    ghost var k := Failures(attempts);
    ghost var start := container.State();
    var delay := setup.delay;
    var current := api;
    var i := 0;
    handles, sleeps := [api], [];
    while attempts[i].RaisedMatching?
      invariant i <= k
      invariant delay == SleepBefore(setup, i)
      invariant sleeps == Sleeps(setup, i)
      invariant Trace(container.State(), handles) == Rotations(start, api, i)
      invariant current == handles[i]
      decreases k - i
    {
      sleeps := sleeps + [delay];
      NextSleep(setup, i, delay);
      delay := delay * setup.backoff;
      current := Rotate(container, current);
      handles := handles + [current];
      i := i + 1;
    }
    outcome := if attempts[i].Returned? then Success(attempts[i].value) else Propagated;
  }
}
