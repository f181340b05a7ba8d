/** Check intervals of `internal/health/config.go`: doubling with a saturation guard, on 64-bit durations. */
module HealthBackoff {
  import opened HealthModel
  import opened Remainders

  const MAX_INT64: int := 0x7fff_ffff_ffff_ffff
  const TWO_64: int := 0x1_0000_0000_0000_0000

  /** Two's complement wrap-around of a 64-bit addition. */
  function Wrap64(x: int): (w: int)
    ensures -MAX_INT64 - 1 <= w <= MAX_INT64
    ensures (w - x) % TWO_64 == 0
  {
    var m := x % TWO_64;
    if m > MAX_INT64 then m - TWO_64 else m
  }

  /** `interval` doubled `k` times. */
  function Doubled(interval: int, k: nat): int {
    if k == 0 then interval else 2 * Doubled(interval, k - 1)
  }

  function Pow2(k: nat): int {
    if k == 0 then 1 else 2 * Pow2(k - 1)
  }

  lemma {:induction false} DoubledIsProduct(interval: int, k: nat)
    ensures Doubled(interval, k) == interval * Pow2(k)
  {
    if k > 0 {
      DoubledIsProduct(interval, k - 1);
    }
  }

  lemma {:induction false} DoubledGrows(interval: int, j: nat, k: nat)
    requires 0 < interval && j <= k
    ensures 0 < Doubled(interval, j) <= Doubled(interval, k)
    ensures j < k ==> 2 * Doubled(interval, j) <= Doubled(interval, k)
    decreases k
  {
    if j < k {
      DoubledGrows(interval, j, k - 1);
    } else if j > 0 {
      DoubledGrows(interval, j - 1, j - 1);
    }
  }

  lemma {:induction false} DoubledTwice(interval: int, j: nat, k: nat)
    ensures Doubled(Doubled(interval, j), k) == Doubled(interval, j + k)
  {
    if k > 0 {
      DoubledTwice(interval, j, k - 1);
    }
  }

  lemma ThreeDoublings(interval: int)
    ensures Doubled(interval, 3) == 8 * interval
  {
    assert Doubled(interval, 2) == 2 * Doubled(interval, 1);
  }

  lemma NineDoublings(interval: int)
    ensures Doubled(interval, 9) == 512 * interval
  {
    ThreeDoublings(interval);
    ThreeDoublings(8 * interval);
    ThreeDoublings(64 * interval);
    DoubledTwice(interval, 3, 3);
    DoubledTwice(interval, 6, 3);
  }

  /** Sixty-three doublings leave the 64-bit range, whatever the start. */
  lemma DoubledExceeds63(interval: int)
    requires 0 < interval
    ensures Doubled(interval, 63) > MAX_INT64
  {
    NineDoublings(interval);
    for n := 1 to 7
      invariant Doubled(interval, 9 * n) ==
        [0, 512, 0x4_0000, 0x800_0000, 0x10_0000_0000, 0x2000_0000_0000, 0x40_0000_0000_0000, 0x8000_0000_0000_0000][n] * interval
    {
      NineDoublings(Doubled(interval, 9 * n));
      DoubledTwice(interval, 9 * n, 9);
    }
  }

  /** How often the interval is to be doubled after so many consecutive failures. */
  function Rounds(threshold: int, failures: int): nat {
    if failures < threshold then 0 else failures - threshold + 1
  }

  /** The intended interval: doubled `k` times, never above `max`. */
  function Saturated(interval: int, max: int, k: nat): int {
    var p := Doubled(interval, k);
    if p < max then p else max
  }

  /** What the guard `interval >= max/2` really yields: it jumps to `max` one nanosecond early. */
  function Backoff(interval: int, max: int, k: nat): int {
    var p := Doubled(interval, k);
    if k > 0 && p == max - 1 then max else Saturated(interval, max, k)
  }

  /** The loop of `nextInterval`; `rounds` counts its iterations. Only the final addition can wrap. */
  method NextInterval(settings: RuntimeSettings, jitter: int, failures: int) returns (next: int, ghost rounds: nat)
    requires 0 < settings.interval <= MAX_INT64 && 0 < settings.maxBackoff <= MAX_INT64
    ensures next == Wrap64(Backoff(settings.interval, settings.maxBackoff, Rounds(settings.failureThreshold, failures)) + jitter)
    ensures rounds <= 63
    ensures failures < settings.failureThreshold ==>
      next == Wrap64((if settings.interval < settings.maxBackoff then settings.interval else settings.maxBackoff) + jitter)
    ensures failures >= settings.failureThreshold ==>
      var doubled := settings.interval * Pow2(failures - settings.failureThreshold + 1);
      next == Wrap64((if doubled < settings.maxBackoff - 1 then doubled else settings.maxBackoff) + jitter)
  {
    if failures >= settings.failureThreshold {
      DoubledIsProduct(settings.interval, failures - settings.failureThreshold + 1);
    }
    var interval := settings.interval;
    var max := settings.maxBackoff;
    ghost var k := Rounds(settings.failureThreshold, failures);
    rounds := 0;
    if failures >= settings.failureThreshold {
      var index := 0;
      while index <= failures - settings.failureThreshold
        invariant 0 <= index == rounds <= k
        invariant interval == Doubled(settings.interval, index) <= MAX_INT64
        invariant index > 0 ==> interval < max - 1
        invariant index < 63
      {
        rounds := rounds + 1;
        if interval >= max / 2 {
          interval := max;
          DoubledGrows(settings.interval, index, k);
          break;
        }
        assert interval * 2 <= MAX_INT64;
        interval := interval * 2;
        index := index + 1;
        if index == 63 {
          DoubledExceeds63(settings.interval);
        }
      }
    }
    if interval > max {
      interval := max;
    }
    next := Wrap64(interval + jitter);
  }

  /** The computed interval is the intended one, except exactly when doubling lands one nanosecond under the cap. */
  lemma BackoffIsSaturatedIff(interval: int, max: int, k: nat)
    requires 0 < interval && 0 < max
    ensures Backoff(interval, max, k) == Saturated(interval, max, k) <==> !(k > 0 && Doubled(interval, k) == max - 1)
    ensures Saturated(interval, max, k) <= Backoff(interval, max, k) <= Saturated(interval, max, k) + 1
    ensures max % 2 == 0 ==> Backoff(interval, max, k) == Saturated(interval, max, k)
  {
    if k > 0 {
      assert Doubled(interval, k) == 2 * Doubled(interval, k - 1);
    }
  }

  /** More failures never shorten the interval, and it stays between the configured interval and the cap. */
  lemma BackoffIsMonotone(interval: int, max: int, threshold: int, fewer: int, more: int)
    requires 0 < interval <= max && fewer <= more
    ensures interval <= Backoff(interval, max, Rounds(threshold, fewer))
         <= Backoff(interval, max, Rounds(threshold, more)) <= max
  {
    var j, k := Rounds(threshold, fewer), Rounds(threshold, more);
    DoubledGrows(interval, 0, j);
    DoubledGrows(interval, j, k);
  }

  /** With jitter the timer is set to at least the configured interval exactly when the sum fits 64 bits. */
  lemma JitterFitsIff(interval: int, max: int, jitter: int, k: nat)
    requires 0 < interval <= max <= MAX_INT64 && 0 <= jitter <= MAX_INT64
    ensures Wrap64(Backoff(interval, max, k) + jitter) >= interval <==> Backoff(interval, max, k) + jitter <= MAX_INT64
    ensures Backoff(interval, max, k) + jitter > MAX_INT64 ==> Wrap64(Backoff(interval, max, k) + jitter) < 0
  {
    DoubledGrows(interval, 0, k);
    assert interval <= Backoff(interval, max, k) <= max;
  }

  /** A cap of seven and an interval of three: one doubling reaches six, yet the loop answers seven. */
  lemma BackoffOvershoots()
    ensures Saturated(3, 7, 1) == 6 && Backoff(3, 7, 1) == 7
  {
    assert Doubled(3, 1) == 6;
  }

  /** `jitterFor`, with the FNV hash of the health key as a parameter. */
  function JitterFor(hash: nat, maxJitter: int): (jitter: int)
    ensures maxJitter > 0 ==> 0 <= jitter < maxJitter
    ensures maxJitter <= 0 ==> jitter == 0
  {
    if maxJitter <= 0 then 0 else hash % maxJitter
  }

  /** The jitter differs from the hash by a multiple of the maximum, so equal hashes have equal jitter and all values below
      the maximum occur. */
  lemma JitterIsResidue(hash: nat, maxJitter: int, jitter: int)
    requires maxJitter > 0
    ensures JitterFor(hash, maxJitter) == jitter <==>
      0 <= jitter < maxJitter && exists q: int :: hash == q * maxJitter + jitter
  {
    var q := hash / maxJitter;
    assert hash == q * maxJitter + JitterFor(hash, maxJitter);
    if k: int :| 0 <= jitter < maxJitter && hash == k * maxJitter + jitter {
      RemainderIsUnique(hash, maxJitter, k, jitter);
    }
  }
}
