/** Retry loops and policies: how often an operation is tried and how long the client sleeps between. */
module Retry {
  import opened Wrappers

  predicate ShouldRetry(err: Error) {
    match err
    case Fault(SessionExpired) => true
    case Fault(SessionMoved) => true
    case Fault(NetError(timeout, temporary)) => timeout || temporary
    case _ => false
  }

  datatype Outcome = Outcome(value: int, err: Option<Error>)

  predicate Retryable(o: Outcome) {
    o.err.Some? && ShouldRetry(o.err.value)
  }

  function Max(a: int, b: int): int {
    if a < b then b else a
  }

  // ---------- policies ----------

  /** Whether a policy allows the `k`-th retry, and how long it sleeps when it is asked. */
  datatype Policy = Policy(allows: nat -> bool, sleep: nat -> int)

  /** At most `limit` attempts; below it the policy sleeps, and refuses when the sleep is interrupted. */
  function SleepingRetry(limit: int, completes: nat -> bool, sleepTime: nat -> int): Policy {
    Policy((k: nat) => k < limit && completes(k), (k: nat) => if k < limit then sleepTime(k) else 0)
  }

  /** Tries that a sleeping policy allowed one after the other: at most its limit. */
  lemma TriesBounded(limit: int, completes: nat -> bool, sleepTime: nat -> int, tries: nat)
    requires forall k: nat :: 1 <= k < tries ==> SleepingRetry(limit, completes, sleepTime).allows(k)
    ensures tries <= Max(1, limit)
  {
    assert tries > 1 ==> SleepingRetry(limit, completes, sleepTime).allows(tries - 1);
  }

  // ---------- the loop ----------

  /** The loop is over after its `i`-th run: the outcome needs no retry or, with a sleeper set, the policy
      refuses one. */
  predicate Stops(outcome: nat -> Outcome, p: Policy, sleeper: bool, i: nat) {
    !Retryable(outcome(i)) || (sleeper && !p.allows(i + 1))
  }

  ghost predicate EndsAt(outcome: nat -> Outcome, p: Policy, sleeper: bool, i: nat) {
    Stops(outcome, p, sleeper, i) && forall j: nat :: j < i ==> !Stops(outcome, p, sleeper, j)
  }

  /** The time slept over the first `n` runs. */
  function Slept(outcome: nat -> Outcome, p: Policy, sleeper: bool, n: nat): int {
    if n == 0 then 0
    else Slept(outcome, p, sleeper, n - 1) + if sleeper && Retryable(outcome(n - 1)) then p.sleep(n) else 0
  }

  class RetryLoop {
    var retryCount: nat
    var slept: int

    constructor ()
      ensures retryCount == 0 && slept == 0
    {
      retryCount, slept := 0, 0;
    }

    /** The loop, watched for any number of rounds: it returns the outcome at which it ends, or nothing when
        it is still going round. The policy is not asked when no sleeper is set. */
    method CallWithRetry(outcome: nat -> Outcome, p: Policy, sleeper: bool, rounds: nat) returns (r: Option<Outcome>)
      requires retryCount == 0 && slept == 0
      modifies this
      ensures r.Some? ==> exists i: nat :: && i < rounds && EndsAt(outcome, p, sleeper, i) && r.value == outcome(i)
                                           && slept == Slept(outcome, p, sleeper, i + 1)
      ensures r.None? ==> slept == Slept(outcome, p, sleeper, rounds) && forall i: nat :: i < rounds ==> !Stops(outcome, p, sleeper, i)
    {
      var n := 0;
      while n < rounds
        invariant n == retryCount <= rounds && slept == Slept(outcome, p, sleeper, n)
        invariant forall i: nat :: i < n ==> !Stops(outcome, p, sleeper, i)
      {
        var o := outcome(n);
        if !Retryable(o) {
          assert EndsAt(outcome, p, sleeper, n);
          return Some(o);
        }
        retryCount := retryCount + 1;
        if sleeper {
          slept := slept + p.sleep(retryCount);
          if !p.allows(retryCount) {
            assert EndsAt(outcome, p, sleeper, n);
            return Some(o);
          }
        }
        n := n + 1;
      }
      r := None;
    }
  }

  lemma {:induction false} FirstStop(outcome: nat -> Outcome, p: Policy, sleeper: bool, k: nat) returns (i: nat)
    requires Stops(outcome, p, sleeper, k)
    ensures i <= k && EndsAt(outcome, p, sleeper, i)
  {
    i := k;
    if j: nat :| j < k && Stops(outcome, p, sleeper, j) {
      i := FirstStop(outcome, p, sleeper, j);
    }
  }

  /** With a sleeper set and a sleeping policy the loop always ends, after at most the limit of runs. */
  lemma RunsBounded(outcome: nat -> Outcome, limit: int, completes: nat -> bool, sleepTime: nat -> int) returns (i: nat)
    ensures i < Max(1, limit) && EndsAt(outcome, SleepingRetry(limit, completes, sleepTime), true, i)
    ensures forall j: nat :: EndsAt(outcome, SleepingRetry(limit, completes, sleepTime), true, j) ==> j == i
  {
    var p := SleepingRetry(limit, completes, sleepTime);
    assert Stops(outcome, p, true, Max(1, limit) - 1);
    i := FirstStop(outcome, p, true, Max(1, limit) - 1);
    forall j: nat | EndsAt(outcome, p, true, j)
      ensures j == i
    {
      assert Stops(outcome, p, true, i) && Stops(outcome, p, true, j);
    }
  }

  /** Exactly where it ends: at the first run that succeeds, fails for good, is the last one the limit admits
      or is followed by an interrupted sleep. */
  lemma EndsExactly(outcome: nat -> Outcome, limit: int, completes: nat -> bool, sleepTime: nat -> int, i: nat)
    ensures EndsAt(outcome, SleepingRetry(limit, completes, sleepTime), true, i) <==>
            && (!Retryable(outcome(i)) || i + 1 >= limit || !completes(i + 1))
            && (forall j: nat :: j < i ==> Retryable(outcome(j)))
            && (i == 0 || i < limit)
            && (forall j: nat :: 0 < j <= i ==> completes(j))
  {
    var p := SleepingRetry(limit, completes, sleepTime);
    if EndsAt(outcome, p, true, i) {
      forall j: nat | j < i
        ensures Retryable(outcome(j)) && j + 1 < limit && completes(j + 1)
      {
        assert !Stops(outcome, p, true, j);
      }
      assert i > 0 ==> !Stops(outcome, p, true, i - 1);
      forall j: nat | 0 < j <= i
        ensures completes(j)
      {
        assert !Stops(outcome, p, true, j - 1);
      }
    }
  }

  /** A limit is used up: if every outcome asks for a retry and every sleep completes, a sleeping policy of
      `limit` gives that many runs, and at least one. */
  lemma LimitReached(outcome: nat -> Outcome, limit: int, completes: nat -> bool, sleepTime: nat -> int)
    requires forall k: nat :: Retryable(outcome(k)) && completes(k)
    ensures EndsAt(outcome, SleepingRetry(limit, completes, sleepTime), true, Max(1, limit) - 1)
  {
    EndsExactly(outcome, limit, completes, sleepTime, Max(1, limit) - 1);
  }

  /** Without a sleeper it is up to the outcomes whether the loop ends at all. */
  lemma EndsWithoutSleeper(outcome: nat -> Outcome, p: Policy)
    ensures (exists i: nat :: EndsAt(outcome, p, false, i)) <==> exists k: nat :: !Retryable(outcome(k))
  {
    if k: nat :| !Retryable(outcome(k)) {
      var i := FirstStop(outcome, p, false, k);
    }
    if i: nat :| EndsAt(outcome, p, false, i) {
      assert !Retryable(outcome(i));
    }
  }

  /** Nor does the limit bind it: the loop stays within it iff one of the first runs needs no retry. */
  lemma LimitWithoutSleeper(outcome: nat -> Outcome, p: Policy, limit: int)
    ensures (exists i: nat :: i < Max(1, limit) && EndsAt(outcome, p, false, i))
            <==> exists k: nat :: k < Max(1, limit) && !Retryable(outcome(k))
  {
    if k: nat :| k < Max(1, limit) && !Retryable(outcome(k)) {
      var i := FirstStop(outcome, p, false, k);
    }
    if i: nat :| i < Max(1, limit) && EndsAt(outcome, p, false, i) {
      assert !Retryable(outcome(i));
    }
  }

  /** A policy of one attempt, five runs, for every cause that is retried; any other cause ends the loop at
      once. */
  lemma LimitIgnored(cause: Cause, sleepTime: nat -> int)
    ensures var outcome := (i: nat) => if i < 4 then Outcome(0, Some(Fault(cause))) else Outcome(1, None);
            var retried := match cause
              case NetError(timeout, temporary) => timeout || temporary
              case OtherCause(_) => false
              case _ => true;
            EndsAt(outcome, SleepingRetry(1, (k: nat) => true, sleepTime), false, if retried then 4 else 0)
  {
  }

  // ---------- exponential backoff ----------

  const MAX_RETRIES_LIMIT := 29
  const MAX_INT64 := 0x7FFF_FFFF_FFFF_FFFF
  const BASE_LIMIT := 0x8_0000_0000

  function Pow2(n: nat): nat {
    if n == 0 then 1 else 2 * Pow2(n - 1)
  }

  /** The low 64 bits, as a signed number. */
  function WrapInt64(x: int): int {
    (x + MAX_INT64 + 1) % (2 * (MAX_INT64 + 1)) - (MAX_INT64 + 1)
  }

  function BackoffLimit(maxRetries: int): int {
    if maxRetries > MAX_RETRIES_LIMIT then MAX_RETRIES_LIMIT else maxRetries
  }

  /** The sleep before a retry, for a random draw below 2^retryCount. */
  function SleepTime(base: int, draw: int, maxSleep: int): int {
    var t := WrapInt64(base * draw);
    if t > maxSleep then maxSleep else t
  }

  lemma {:induction false} Pow2Grows(m: nat, n: nat)
    requires m <= n
    ensures 1 <= Pow2(m) <= Pow2(n)
    decreases n
  {
    if m < n {
      Pow2Grows(m, n - 1);
    } else if n > 0 {
      Pow2Grows(m - 1, n - 1);
    }
  }

  lemma Pow2At28()
    ensures Pow2(28) == 0x1000_0000
  {
    assert Pow2(7) == 128;
    assert Pow2(14) == 0x4000;
    assert Pow2(21) == 0x20_0000;
  }

  /** No draw overflows iff the largest one does not. */
  lemma NoOverflowIff(base: int, retryCount: nat)
    requires base >= 0
    ensures (forall draw :: 0 <= draw < Pow2(retryCount) ==> WrapInt64(base * draw) == base * draw)
            <==> base * (Pow2(retryCount) - 1) <= MAX_INT64
  {
    var top := Pow2(retryCount) - 1;
    Pow2Grows(0, retryCount);
    forall draw | 0 <= draw <= top && base * top <= MAX_INT64
      ensures WrapInt64(base * draw) == base * draw
    {
      MulMonotone(base, draw, top);
      WrapSmall(base * draw);
    }
    if base * top > MAX_INT64 {
      assert WrapInt64(base * top) <= MAX_INT64;
    }
  }

  lemma WrapSmall(x: int)
    requires 0 <= x <= MAX_INT64
    ensures WrapInt64(x) == x
  {
  }

  lemma MulMonotone(base: int, a: int, b: int)
    requires base >= 0 && 0 <= a <= b
    ensures 0 <= base * a <= base * b
  {
  }

  /** For a base up to 2^35 nanoseconds and every retry the limit admits, the sleep is never negative
      and bounded both by the maximum and by the exponential: the draw is slept in full, up to the maximum. */
  lemma SleepBounded(base: int, retryCount: nat, draw: int, maxSleep: int)
    requires 0 <= base <= BASE_LIMIT && retryCount < MAX_RETRIES_LIMIT && maxSleep >= 0
    requires 0 <= draw < Pow2(retryCount)
    ensures WrapInt64(base * draw) == base * draw
    ensures SleepTime(base, draw, maxSleep) == if base * draw < maxSleep then base * draw else maxSleep
    ensures 0 <= SleepTime(base, draw, maxSleep) <= maxSleep
    ensures SleepTime(base, draw, maxSleep) <= base * (Pow2(retryCount) - 1)
  {
    var top := Pow2(retryCount) - 1;
    assert 0 <= base * draw <= base * top <= MAX_INT64 by {
      Pow2Grows(retryCount, 28);
      Pow2At28();
      MulMonotone(base, draw, top);
      MulMonotone(top, base, BASE_LIMIT);
      MulMonotone(BASE_LIMIT, top, 0xFFF_FFFF);
    }
    WrapSmall(base * draw);
  }

  /** The `k`-th random draw is below 2^k. */
  predicate Drawn(draws: nat -> int, k: nat) {
    0 <= draws(k) < Pow2(k)
  }

  /** The time slept before retries 1 to `n` - 1. */
  function TotalSleep(base: int, draws: nat -> int, maxSleep: int, n: nat): int {
    if n <= 1 then 0 else TotalSleep(base, draws, maxSleep, n - 1) + SleepTime(base, draws(n - 1), maxSleep)
  }

  /** A whole run of the loop under a limit of `n` sleeps at most base * (2^n - n - 1). */
  lemma {:induction false} TotalSleepBounded(base: int, draws: nat -> int, maxSleep: int, n: nat)
    requires 0 <= base <= BASE_LIMIT && 1 <= n <= MAX_RETRIES_LIMIT && maxSleep >= 0
    requires forall k: nat :: 1 <= k < n ==> Drawn(draws, k)
    ensures 0 <= TotalSleep(base, draws, maxSleep, n) <= base * (Pow2(n) - n - 1)
  {
    if n == 1 {
      assert Pow2(1) == 2 && base * 0 == 0;
    } else {
      var sleep := SleepTime(base, draws(n - 1), maxSleep);
      assert 0 <= sleep <= base * (Pow2(n - 1) - 1) by {
        assert Drawn(draws, n - 1);
        SleepBounded(base, n - 1, draws(n - 1), maxSleep);
      }
      TotalSleepBounded(base, draws, maxSleep, n - 1);
      OneMoreSleep(TotalSleep(base, draws, maxSleep, n - 1), sleep, base, Pow2(n - 1), n);
    }
  }

  lemma OneMoreSleep(total: int, sleep: int, base: int, p: int, n: int)
    requires 0 <= total <= base * (p - (n - 1) - 1) && 0 <= sleep <= base * (p - 1)
    ensures 0 <= total + sleep <= base * (2 * p - n - 1)
  {
  }

  /** The policy with random, exponentially growing sleeps; the number of attempts is capped. */
  function Backoff(base: int, draws: nat -> int, maxSleep: int, maxRetries: int, completes: nat -> bool): Policy {
    SleepingRetry(BackoffLimit(maxRetries), completes, (k: nat) => SleepTime(base, draws(k), maxSleep))
  }

  lemma {:induction false} SleptWithin(outcome: nat -> Outcome, base: int, draws: nat -> int, maxSleep: int, maxRetries: int,
                                       completes: nat -> bool, runs: nat)
    requires 0 <= base <= BASE_LIMIT && maxSleep >= 0 && maxRetries >= 1
    requires forall k: nat :: 1 <= k < BackoffLimit(maxRetries) ==> Drawn(draws, k)
    ensures var n := BackoffLimit(maxRetries);
            0 <= Slept(outcome, Backoff(base, draws, maxSleep, maxRetries, completes), true, runs)
              <= TotalSleep(base, draws, maxSleep, if runs < n then runs + 1 else n)
  {
    var n := BackoffLimit(maxRetries);
    if runs > 0 {
      SleptWithin(outcome, base, draws, maxSleep, maxRetries, completes, runs - 1);
      if runs < n {
        assert Drawn(draws, runs);
        SleepBounded(base, runs, draws(runs), maxSleep);
      }
    }
  }

  lemma {:induction false} TotalSleepGrows(base: int, draws: nat -> int, maxSleep: int, m: nat, n: nat)
    requires 0 <= base <= BASE_LIMIT && maxSleep >= 0 && 1 <= m <= n <= MAX_RETRIES_LIMIT
    requires forall k: nat :: 1 <= k < n ==> Drawn(draws, k)
    ensures TotalSleep(base, draws, maxSleep, m) <= TotalSleep(base, draws, maxSleep, n)
    decreases n
  {
    if m < n {
      TotalSleepGrows(base, draws, maxSleep, m, n - 1);
      assert Drawn(draws, n - 1);
      SleepBounded(base, n - 1, draws(n - 1), maxSleep);
    }
  }

  /** The loop and the backoff together: whatever the outcomes, wherever a sleep is interrupted and however
      long the loop is watched, what it has slept stays within the bound. */
  lemma BackoffRun(outcome: nat -> Outcome, base: int, draws: nat -> int, maxSleep: int, maxRetries: int,
                   completes: nat -> bool, runs: nat)
    requires 0 <= base <= BASE_LIMIT && maxSleep >= 0 && maxRetries >= 1
    requires forall k: nat :: 1 <= k < BackoffLimit(maxRetries) ==> Drawn(draws, k)
    ensures var n := BackoffLimit(maxRetries);
            0 <= Slept(outcome, Backoff(base, draws, maxSleep, maxRetries, completes), true, runs) <= base * (Pow2(n) - n - 1)
  {
    var n := BackoffLimit(maxRetries);
    var m := if runs < n then runs + 1 else n;
    SleptWithin(outcome, base, draws, maxSleep, maxRetries, completes, runs);
    assert TotalSleep(base, draws, maxSleep, m) <= TotalSleep(base, draws, maxSleep, n) by {
      TotalSleepGrows(base, draws, maxSleep, m, n);
    }
    assert TotalSleep(base, draws, maxSleep, n) <= base * (Pow2(n) - n - 1) by {
      TotalSleepBounded(base, draws, maxSleep, n);
    }
  }

  /** Nor does it sleep less: while the outcomes ask for retries, every draw the limit admits is slept. */
  lemma {:induction false} SleptExactly(outcome: nat -> Outcome, base: int, draws: nat -> int, maxSleep: int, maxRetries: int,
                                        completes: nat -> bool, runs: nat)
    requires forall k: nat :: k < runs ==> Retryable(outcome(k))
    ensures var n := BackoffLimit(maxRetries);
            Slept(outcome, Backoff(base, draws, maxSleep, maxRetries, completes), true, runs)
            == TotalSleep(base, draws, maxSleep, if runs < n then runs + 1 else Max(0, n))
  {
    if runs > 0 {
      SleptExactly(outcome, base, draws, maxSleep, maxRetries, completes, runs - 1);
    }
  }

  /** The backoff gives as many runs as asked for, up to 29. */
  lemma BackoffRuns(outcome: nat -> Outcome, base: int, draws: nat -> int, maxSleep: int, maxRetries: int, completes: nat -> bool)
    requires forall k: nat :: Retryable(outcome(k)) && completes(k)
    ensures EndsAt(outcome, Backoff(base, draws, maxSleep, maxRetries, completes), true,
                   if maxRetries > 29 then 28 else Max(1, maxRetries) - 1)
  {
    LimitReached(outcome, BackoffLimit(maxRetries), completes, (k: nat) => SleepTime(base, draws(k), maxSleep));
  }
}
