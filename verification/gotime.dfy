/** Go's `time` package as the core uses it. An instant is the number of
    nanoseconds since the Unix epoch and a duration is a number of
    nanoseconds, so `t.Sub(u)` is `t - u` and `t.After(u)` is `t > u`.
    The clock itself (`time.Now()`) is always a parameter `now`. */
module GoTime {
  import GoInt

  const Nanosecond: int := 1
  const Second: int := 1_000_000_000
  const Minute: int := 60 * Second
  const Hour: int := 60 * Minute

  /** Go's zero `time.Time` (January 1 of year 1, UTC), reported by `IsZero`. */
  const ZeroTime: int := -62_135_596_800 * Second

  predicate IsZero(t: int) {
    t == ZeroTime
  }

  /** `t.Unix()`: whole seconds since the epoch, rounded down. */
  function Unix(t: int): (secs: int)
    ensures secs * Second <= t < secs * Second + Second
  {
    t / Second
  }

  /** `time.Unix(secs, 0)`. */
  function FromUnix(secs: int): int {
    secs * Second
  }

  /** `int(d.Hours())`: whole hours, truncated toward zero. */
  function WholeHours(d: int): int {
    GoInt.Quo(d, Hour)
  }

  /** `int(d.Minutes())`: whole minutes, truncated toward zero. */
  function WholeMinutes(d: int): int {
    GoInt.Quo(d, Minute)
  }
}
