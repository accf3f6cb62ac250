/** The wait between lock attempts (RedisStockService.calculateBackoffTime).
    The multiplier and the jitter factor are decimal fractions in the
    source; here they are exact rationals, and each cast to `long` is a
    truncation toward zero. */
module Backoff {
  import opened Common

  const InitialBackoffMs: int := 50
  const MaxBackoffMs: int := 800

  function Max(a: int, b: int): int
  {
    if a >= b then a else b
  }

  function Abs(a: int): nat
  {
    if a < 0 then -a else a
  }

  /** Java's integer cast of a / b: truncation toward zero. */
  function TruncDiv(a: int, b: int): (q: int)
    requires b > 0
    ensures Abs(q) * b <= Abs(a) < (Abs(q) + 1) * b
    ensures a >= 0 ==> q >= 0
    ensures a <= 0 ==> q <= 0
  {
    if a >= 0 then a / b else -((-a) / b)
  }

  /** Java `long` arithmetic: the result taken modulo 2^64 into the signed range. */
  const TwoTo63: int := 0x8000_0000_0000_0000

  function Wrap64(x: int): (w: int)
    ensures -TwoTo63 <= w < TwoTo63
    ensures -TwoTo63 <= x < TwoTo63 ==> w == x
  {
    (x + TwoTo63) % (2 * TwoTo63) - TwoTo63
  }

  /** The final clamp into [INITIAL_BACKOFF_MS, MAX_BACKOFF_MS]. */
  function Clamp(x: int): (c: int)
    ensures InitialBackoffMs <= c <= MaxBackoffMs
    ensures InitialBackoffMs <= x <= MaxBackoffMs ==> c == x
  {
    Max(InitialBackoffMs, Min(x, MaxBackoffMs))
  }

  /** (long)(currentBackoff * (1.5 + min(retryCount, 4) * 0.5)) */
  function Multiplied(retryCount: nat, currentBackoff: int): int
  {
    TruncDiv(currentBackoff * (3 + Min(retryCount, 4)), 2)
  }

  /** min(nextBackoff, MAX_BACKOFF_MS) */
  function Capped(retryCount: nat, currentBackoff: int): int
  {
    Min(Multiplied(retryCount, currentBackoff), MaxBackoffMs)
  }

  /** (long)(cappedBackoff * (0.15 / (1 + retryCount * 0.1))), that is
      cappedBackoff * 3 / (20 + 2 * retryCount) truncated. */
  function JitterRange(retryCount: nat, capped: int): int
  {
    TruncDiv(capped * 3, 20 + 2 * retryCount)
  }

  /** The jitter as written: (random.nextLong() * 2 - 1) * jitterRange in
      64-bit arithmetic, where nextLong() is any 64-bit value. */
  function JitterAsWritten(nextLong: int, range: int): int
  {
    Wrap64(Wrap64(Wrap64(nextLong * 2) - 1) * range)
  }

  function CalculateBackoffTimeAsWritten(retryCount: nat, currentBackoff: int, nextLong: int): (b: int)
    ensures InitialBackoffMs <= b <= MaxBackoffMs
  {
    var capped := Capped(retryCount, currentBackoff);
    Clamp(Wrap64(capped + JitterAsWritten(nextLong, JitterRange(retryCount, capped))))
  }

  /** After the first failed attempt (retry 1, current wait 50) the capped
      wait is 100 and the range is 13, so a wait within 100 +/- 13 is meant;
      the draw nextLong() = 100 gives a jitter of 2587 and a wait of 800. */
  lemma {:induction false} JitterAsWrittenLeavesItsRange()
    ensures Capped(1, 50) == 100 && JitterRange(1, 100) == 13
    ensures JitterAsWritten(100, 13) == 2587
    ensures CalculateBackoffTimeAsWritten(1, 50, 100) == 800
    ensures !(100 - 13 <= CalculateBackoffTimeAsWritten(1, 50, 100) <= 100 + 13)
  {
    assert Multiplied(1, 50) == 100;
    assert TruncDiv(300, 22) == 13;
    assert Wrap64(200) == 200 && Wrap64(199) == 199 && Wrap64(2587) == 2587 && Wrap64(2687) == 2687;
  }

  /** The intended jitter, (long)((random.nextDouble() * 2 - 1) * jitterRange):
      some whole offset no larger than the range, picked by `sample`. */
  function Jitter(range: int, sample: int): (j: int)
    ensures Abs(j) <= Abs(range)
  {
    if range == 0 then 0 else sample % (2 * Abs(range) + 1) - Abs(range)
  }

  /** calculateBackoffTime with the jitter kept inside its range: the wait
      is the capped wait moved by at most the range, then clamped. */
  function CalculateBackoffTime(retryCount: nat, currentBackoff: int, sample: int): (b: int)
    ensures InitialBackoffMs <= b <= MaxBackoffMs
    ensures var capped := Capped(retryCount, currentBackoff);
            var range := JitterRange(retryCount, capped);
            Clamp(capped - Abs(range)) <= b <= Clamp(capped + Abs(range))
  {
    var capped := Capped(retryCount, currentBackoff);
    var range := JitterRange(retryCount, capped);
    ClampMonotone(capped - Abs(range), capped + Jitter(range, sample));
    ClampMonotone(capped + Jitter(range, sample), capped + Abs(range));
    Clamp(capped + Jitter(range, sample))
  }

  lemma ClampMonotone(x: int, y: int)
    requires x <= y
    ensures Clamp(x) <= Clamp(y)
  {
  }

  /** Before the jitter, a wait in range never shrinks: the multiplier is at
      least 1.5 and the cap is the top of the range. */
  lemma {:induction false} CappedNeverShrinks(retryCount: nat, currentBackoff: int)
    requires InitialBackoffMs <= currentBackoff <= MaxBackoffMs
    ensures currentBackoff <= Capped(retryCount, currentBackoff) <= MaxBackoffMs
  {
    var m := currentBackoff * (3 + Min(retryCount, 4));
    assert m >= currentBackoff * 3;
    assert TruncDiv(m, 2) >= currentBackoff;
  }

  /** The jitter never exceeds 15% of the capped wait. */
  lemma {:induction false} JitterRangeAtMostFifteenPercent(retryCount: nat, capped: int)
    requires capped >= 0
    ensures 0 <= JitterRange(retryCount, capped) * 20 <= capped * 3
  {
    var q := JitterRange(retryCount, capped);
    assert q * (20 + 2 * retryCount) <= capped * 3;
    assert q * 20 <= q * (20 + 2 * retryCount);
  }

  /** The wait after the n-th failed attempt of acquireLock, starting from
      INITIAL_BACKOFF_MS, computed as the source computes it; `draws(n)` is
      the random.nextLong() of that attempt. */
  function BackoffAfter(draws: nat -> int, n: nat): int
    decreases n
  {
    if n == 0 then InitialBackoffMs
    else CalculateBackoffTimeAsWritten(n, BackoffAfter(draws, n - 1), draws(n))
  }

  /** The waits of the first n failed attempts, in order. */
  function Backoffs(draws: nat -> int, n: nat): (w: seq<int>)
    ensures |w| == n
    decreases n
  {
    if n == 0 then [] else Backoffs(draws, n - 1) + [BackoffAfter(draws, n)]
  }

  /** Every wait lies in [50, 800], and the i-th is the wait after attempt i + 1. */
  lemma {:induction false} BackoffsInRange(draws: nat -> int, n: nat)
    ensures forall i :: 0 <= i < n ==> Backoffs(draws, n)[i] == BackoffAfter(draws, i + 1)
    ensures forall i :: 0 <= i < n ==> InitialBackoffMs <= Backoffs(draws, n)[i] <= MaxBackoffMs
    decreases n
  {
    if n > 0 {
      BackoffsInRange(draws, n - 1);
    }
  }
}
