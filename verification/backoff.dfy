/** The exponential backoff written out three times in deactivate_users.py:
    after a rate-limited call the script retries up to seven times, sleeping
    2, 4, 8, ... seconds before each retry, doubling after each retry that is
    refused again, and gives up early if the doubled delay exceeds 300.
    The time.sleep calls are not performed: the delays are returned as data.
 */
module Backoff {

  const InitialBackoff: nat := 2
  const MaxRetries: nat := 7
  const BackoffCap: nat := 300

  function Pow2(n: nat): (r: nat)
    ensures r >= 1
  {
    if n == 0 then 1 else 2 * Pow2(n - 1)
  }

  lemma {:induction false} Pow2Monotone(m: nat, n: nat)
    requires m <= n
    ensures Pow2(m) <= Pow2(n)
    decreases n
  {
    if m < n {
      Pow2Monotone(m, n - 1);
    }
  }

  /** How one retry call ended, as seen by the retry loop: it produced the
      answer, it was refused in a way the loop retries, or it raised an
      exception the loop does not catch. */
  datatype Verdict<+T> = Answer(value: T) | Again | Raise

  /** Why the retry loop stopped: with the answer of retry `attempt`, because
      retry `attempt` raised, because all seven retries were refused, or
      because the doubled delay went over the cap. */
  datatype Stop<+T> =
    | Answered(value: T, attempt: nat)
    | Raised(attempt: nat)
    | Exhausted
    | Capped

  /** The sleeps performed, one before each retry call, and how the loop stopped. */
  datatype Burst<+T> = Burst(sleeps: seq<nat>, stop: Stop<T>)

  /** The `for attempt in range(7)` loop from retry `attempt` on, with the
      current delay `backoff`; `verdict(k)` is the fate of retry call `k`. */
  function Retry<T>(verdict: nat -> Verdict<T>, attempt: nat, backoff: nat): (b: Burst<T>)
    requires attempt <= MaxRetries
    requires backoff == Pow2(attempt + 1)
    ensures attempt + |b.sleeps| <= MaxRetries
    ensures forall i :: 0 <= i < |b.sleeps| ==> b.sleeps[i] == Pow2(attempt + i + 1)
    ensures !b.stop.Capped?
    decreases MaxRetries - attempt
  {
    if attempt == MaxRetries then
      Burst([], Exhausted)
    else
      match verdict(attempt)
      case Answer(v) => Burst([backoff], Answered(v, attempt))
      case Raise => Burst([backoff], Raised(attempt))
      case Again =>
        var next := backoff * 2;
        UnderCap(attempt + 1);
        if next > BackoffCap then
          Burst([backoff], Capped)
        else
          var rest := Retry(verdict, attempt + 1, next);
          ScheduleCons(attempt, backoff, rest.sleeps);
          Burst([backoff] + rest.sleeps, rest.stop)
  }

  /** The delay before retry `attempt`, put in front of the delays of the
      retries after it. */
  lemma ScheduleCons(attempt: nat, backoff: nat, rest: seq<nat>)
    requires backoff == Pow2(attempt + 1)
    requires forall i :: 0 <= i < |rest| ==> rest[i] == Pow2(attempt + 1 + i + 1)
    ensures forall i :: 0 <= i < |[backoff] + rest| ==> ([backoff] + rest)[i] == Pow2(attempt + i + 1)
  {
    forall i | 1 <= i < |[backoff] + rest|
      ensures ([backoff] + rest)[i] == Pow2(attempt + i + 1)
    {
      assert ([backoff] + rest)[i] == rest[i - 1];
    }
  }

  lemma Pow2Eight()
    ensures Pow2(MaxRetries + 1) == 256
  {
  }

  /** The delay after a refused retry never exceeds the cap: at most
      2^8 = 256 after the last of the seven retries. */
  lemma UnderCap(attempt: nat)
    requires attempt <= MaxRetries
    ensures 2 * Pow2(attempt) <= 256 < BackoffCap
  {
    Pow2Monotone(attempt + 1, MaxRetries + 1);
    Pow2Eight();
  }

  /** Retries `lo` up to (not including) `hi` were all refused. */
  predicate Refused<T>(verdict: nat -> Verdict<T>, lo: nat, hi: nat)
  {
    forall k :: lo <= k < hi ==> verdict(k).Again?
  }

  /** The loop stops at the first retry that is not refused, and reports that
      retry's answer or exception; only when all of the remaining retries are
      refused does it report exhaustion. */
  lemma {:induction false} RetryStopsAtFirstNonRefusal<T>(verdict: nat -> Verdict<T>, attempt: nat, backoff: nat)
    requires attempt <= MaxRetries
    requires backoff == Pow2(attempt + 1)
    ensures var b := Retry(verdict, attempt, backoff);
      && (b.stop.Exhausted? <==> Refused(verdict, attempt, MaxRetries))
      && (b.stop.Exhausted? ==> attempt + |b.sleeps| == MaxRetries)
      && (!b.stop.Exhausted? ==>
            && |b.sleeps| >= 1
            && Refused(verdict, attempt, attempt + |b.sleeps| - 1)
            && (b.stop.Answered? || b.stop.Raised?)
            && b.stop.attempt == attempt + |b.sleeps| - 1)
      && (b.stop.Answered? ==> verdict(b.stop.attempt) == Answer(b.stop.value))
      && (b.stop.Raised? ==> verdict(b.stop.attempt).Raise?)
    decreases MaxRetries - attempt
  {
    if attempt < MaxRetries && verdict(attempt).Again? {
      UnderCap(attempt + 1);
      RetryStopsAtFirstNonRefusal(verdict, attempt + 1, backoff * 2);
    }
  }

  /** A whole retry burst, entered after the first call was rate-limited. */
  function RetryBurst<T>(verdict: nat -> Verdict<T>): (b: Burst<T>)
    ensures |b.sleeps| <= MaxRetries
    ensures forall i :: 0 <= i < |b.sleeps| ==> b.sleeps[i] == Pow2(i + 1)
    ensures !b.stop.Capped?
  {
    Retry(verdict, 0, InitialBackoff)
  }

  /** Every delay in a burst is 2, 4, ..., 128 in turn: never more than seven
      retries, never a delay at or above the cap, so the early-exit branch
      guarded by the cap cannot be taken. */
  lemma BurstSchedule<T>(verdict: nat -> Verdict<T>)
    ensures var b := RetryBurst(verdict);
      && |b.sleeps| <= MaxRetries
      && (forall i :: 0 <= i < |b.sleeps| ==> b.sleeps[i] == Pow2(i + 1))
      && (forall i :: 0 <= i < |b.sleeps| ==> InitialBackoff <= b.sleeps[i] <= 128 < BackoffCap)
      && !b.stop.Capped?
  {
    var b := RetryBurst(verdict);
    forall i | 0 <= i < |b.sleeps|
      ensures InitialBackoff <= b.sleeps[i] <= 128
    {
      Pow2Monotone(1, i + 1);
      Pow2Monotone(i + 1, MaxRetries);
    }
  }

  /** Seven refusals in a row: the loop sleeps 2, 4, ..., 128 and gives up. */
  lemma AllRefusedExhausts<T>(verdict: nat -> Verdict<T>)
    requires forall k :: 0 <= k < MaxRetries ==> verdict(k).Again?
    ensures RetryBurst(verdict) == Burst([2, 4, 8, 16, 32, 64, 128], Exhausted)
  {
    var b := RetryBurst(verdict);
    assert |b.sleeps| == 7;
    assert b.sleeps == [2, 4, 8, 16, 32, 64, 128];
  }
}
