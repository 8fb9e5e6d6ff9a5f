/**
 * The sampling clock.  `millis()` is a 32-bit unsigned counter of milliseconds
 * since boot that wraps to zero after 2^32 ms (about 49.7 days).  The firmware
 * keeps the time of the last sample in `previousMillis` and takes a new sample
 * when `currentMillis - previousMillis >= interval`, where the subtraction is
 * unsigned 32-bit arithmetic.
 */
module Clock {
  /** 2^32: the period of the `unsigned long` millisecond counter. */
  const Modulus: nat := 0x1_0000_0000

  /** A value of the 32-bit `millis()` counter. */
  type Millis = x: nat | x < Modulus

  /** The sampling interval, 100 ms (10 Hz). */
  const Interval: nat := 100

  /** `now - prev` computed in unsigned 32-bit arithmetic. */
  function Elapsed(now: Millis, prev: Millis): (d: Millis)
    ensures now >= prev ==> d == now - prev
    ensures now < prev ==> d == Modulus - prev + now
    ensures (prev + d) % Modulus == now
  {
    (now - prev) % Modulus
  }

  /** The test that decides whether a loop pass takes a sample. */
  predicate SampleDue(now: Millis, prev: Millis) {
    Elapsed(now, prev) >= Interval
  }

  /**
   * The wrap-around argument.  Let `prevTicks` and `nowTicks` be the true,
   * unbounded number of milliseconds since boot at the last sample and now, and
   * let the counter show them modulo 2^32.  As long as less than one full
   * counter period has gone by, the unsigned difference of the counter values is
   * the true elapsed time, so the sampling test fires exactly when at least one
   * interval has really elapsed, whether or not the counter wrapped in between.
   */
  lemma WrapAroundSafe(prevTicks: nat, nowTicks: nat)
    requires prevTicks <= nowTicks < prevTicks + Modulus
    ensures Elapsed(nowTicks % Modulus, prevTicks % Modulus) == nowTicks - prevTicks
    ensures SampleDue(nowTicks % Modulus, prevTicks % Modulus) <==> nowTicks - prevTicks >= Interval
  {
    var p, n := prevTicks % Modulus, nowTicks % Modulus;
    var q := prevTicks / Modulus;
    assert prevTicks == q * Modulus + p;
    if n >= p {
      assert nowTicks == q * Modulus + n by {
        assert q * Modulus <= nowTicks < (q + 1) * Modulus;
      }
    } else {
      assert nowTicks == (q + 1) * Modulus + n by {
        assert (q + 1) * Modulus <= nowTicks < (q + 2) * Modulus;
      }
    }
  }
}
