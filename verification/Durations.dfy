/** Durations in nanoseconds, as sent in milliseconds. */
module Durations {
  import opened Bytes

  type Duration = x: int | -0x8000_0000_0000_0000 <= x < 0x8000_0000_0000_0000

  const MILLISECOND := 1_000_000

  /** Division of 64-bit integers truncates toward zero. */
  function ToMilliseconds(d: Duration): int {
    var n: int := d;
    if n >= 0 then n / MILLISECOND else -(-n / MILLISECOND)
  }

  /** The 32-bit field of a frame. */
  function Millis(d: Duration): uint32 {
    ToMilliseconds(d) % 0x1_0000_0000
  }

  function FromMillis(n: uint32): Duration {
    MILLISECOND * n
  }

  /** A duration survives, rounded toward zero, exactly when its milliseconds fit in 32 bits unsigned. */
  lemma MillisRoundTrip(d: Duration)
    ensures FromMillis(Millis(d)) == ToMilliseconds(d) * MILLISECOND
       <==> -MILLISECOND < d < 0x1_0000_0000 * MILLISECOND
    ensures 0 <= d < 0x1_0000_0000 * MILLISECOND ==> FromMillis(Millis(d)) <= d < FromMillis(Millis(d)) + MILLISECOND
  {
    var m := ToMilliseconds(d);
    assert m % 0x1_0000_0000 == m <==> 0 <= m < 0x1_0000_0000;
  }

  /** In numbers: a millisecond is a million nanoseconds, and milliseconds are counted toward zero. */
  lemma MillisInNanoseconds(d: Duration, n: uint32)
    ensures FromMillis(n) == 1_000_000 * n as int
    ensures d >= 0 ==> 1_000_000 * ToMilliseconds(d) <= d < 1_000_000 * ToMilliseconds(d) + 1_000_000
    ensures d < 0 ==> 1_000_000 * ToMilliseconds(d) - 1_000_000 < d <= 1_000_000 * ToMilliseconds(d)
  {
  }
}
