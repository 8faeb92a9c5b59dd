/** Retry policy and backoff delays. Durations are int64 nanoseconds, as in Go, so every
    arithmetic step below is also shown not to overflow. */
module Backoff {
  import opened Common

  newtype int64 = x: int | -0x8000_0000_0000_0000 <= x < 0x8000_0000_0000_0000

  const MAX_INT64: int64 := 0x7fff_ffff_ffff_ffff
  const FULL_JITTER := "full"

  datatype Policy = Policy(maxAttempts: int, baseDelay: int64, maxDelay: int64, jitter: string)

  predicate Normal(p: Policy) {
    p.maxAttempts >= 1 && 1 <= p.baseDelay <= p.maxDelay && p.jitter != ""
  }

  const DEFAULT_BASE_DELAY: int64 := 100_000_000
  const DEFAULT_MAX_DELAY: int64 := 2_000_000_000

  predicate IsMaximum(m: int64, a: int64, b: int64) {
    m in {a, b} && a <= m && b <= m
  }

  /** normalizeRetryPolicy: a method that may not be repeated gets a single attempt, missing
      settings take their defaults, and the largest delay is never below the base delay. */
  function NormalizeRetryPolicy(cfg: Policy, methodRetryable: bool): (p: Policy)
    ensures Normal(p)
    ensures !methodRetryable ==> p.maxAttempts == 1
    ensures p.maxAttempts > 1 ==> methodRetryable && p.maxAttempts == cfg.maxAttempts
    ensures methodRetryable && cfg.maxAttempts >= 1 ==> p.maxAttempts == cfg.maxAttempts
    ensures p.baseDelay == (if cfg.baseDelay >= 1 then cfg.baseDelay else DEFAULT_BASE_DELAY)
    ensures IsMaximum(p.maxDelay, p.baseDelay, if cfg.maxDelay >= 1 then cfg.maxDelay else DEFAULT_MAX_DELAY)
    ensures p.jitter == (if cfg.jitter == "" then FULL_JITTER else cfg.jitter)
    ensures Normal(cfg) && methodRetryable ==> p == cfg
  {
    var attempts := if cfg.maxAttempts <= 0 || !methodRetryable then 1 else cfg.maxAttempts;
    var base := if cfg.baseDelay <= 0 then DEFAULT_BASE_DELAY else cfg.baseDelay;
    var most := if cfg.maxDelay <= 0 then DEFAULT_MAX_DELAY else cfg.maxDelay;
    Policy(attempts, base, if most < base then base else most, if cfg.jitter == "" then FULL_JITTER else cfg.jitter)
  }

  /** base * 2^k. */
  function Doubled(base: nat, k: nat): nat {
    if k == 0 then base else 2 * Doubled(base, k - 1)
  }

  lemma {:induction false} DoubledGrows(base: nat, j: nat, k: nat)
    requires j <= k
    ensures Doubled(base, j) <= Doubled(base, k)
  {
    if j < k {
      DoubledGrows(base, j, k - 1);
    }
  }

  /** The delay before jitter: min(baseDelay * 2^attempt, maxDelay). */
  function Ceiling(p: Policy, attempt: nat): (d: nat)
    requires Normal(p)
    ensures 1 <= d <= p.maxDelay as int
  {
    DoubledGrows(p.baseDelay as int, 0, attempt);
    var d := Doubled(p.baseDelay as int, attempt);
    if d <= p.maxDelay as int then d else p.maxDelay as int
  }

  /** int64 addition wraps around. */
  function Plus1(x: int64): int64 {
    if x == MAX_INT64 then -0x8000_0000_0000_0000 else x + 1
  }

  /** The doubling loop of nextDelay. */
  method Double(p: Policy, attempt: nat) returns (delay: int64)
    requires Normal(p)
    ensures delay as int == Ceiling(p, attempt)
  {
    delay := p.baseDelay;
    var i := 0;
    while i < attempt
      invariant i <= attempt
      invariant delay <= p.maxDelay && delay as int == Doubled(p.baseDelay as int, i)
    {
      DoubledGrows(p.baseDelay as int, i, attempt);
      DoubledGrows(p.baseDelay as int, i + 1, attempt);
      if delay >= p.maxDelay {
        delay := p.maxDelay;
        return;
      }
      if delay > p.maxDelay / 2 {
        delay := p.maxDelay;
        return;
      }
      delay := delay * 2;
      i := i + 1;
    }
  }

  /** nextDelay. `draw` is the random source; None is the panic of rand.Int63n when its
      argument delay + 1 has wrapped around to a value that is not positive. The delay lies
      between 0 and the ceiling, and the panic happens exactly when full jitter meets a
      ceiling of the largest int64. */
  method NextDelay(p: Policy, attempt: nat, draw: nat) returns (delay: Option<nat>)
    requires Normal(p)
    ensures delay.None? <==> p.jitter == FULL_JITTER && Ceiling(p, attempt) == MAX_INT64 as int
    ensures delay.Some? ==> 0 <= delay.value <= Ceiling(p, attempt)
    ensures delay.Some? && p.jitter != FULL_JITTER ==> delay.value == Ceiling(p, attempt)
    ensures delay.Some? && p.jitter == FULL_JITTER ==> delay.value == draw % (Ceiling(p, attempt) + 1)
  {
    var d := Double(p, attempt);
    if p.jitter != FULL_JITTER {
      return Some(d as int);
    }
    var n := Plus1(d);
    if n <= 0 {
      return None;
    }
    return Some(draw % (n as int));
  }

  /** Such a policy: the longest delays there are, with full jitter, at the first retry. */
  method LongestDelayPanics() returns (delay: Option<nat>)
    ensures delay == None
  {
    var p := NormalizeRetryPolicy(Policy(2, MAX_INT64, MAX_INT64, FULL_JITTER), true);
    delay := NextDelay(p, 0, 0);
  }
}
