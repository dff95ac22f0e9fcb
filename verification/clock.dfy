/** Instants, fixed-offset zones and the duration arithmetic of Go's `time`
    package that the elapsed-time computation relies on. All quantities are
    integer nanoseconds. */
module Clock {

  import opened Wrappers

  const Second: int := 1_000_000_000
  const Minute: int := 60 * Second
  const Hour: int := 60 * Minute
  const Day: int := 24 * Hour

  /** Go's `time.Duration` is a signed 64-bit count of nanoseconds. */
  const MinDuration: int := -0x8000_0000_0000_0000
  const MaxDuration: int := 0x7FFF_FFFF_FFFF_FFFF

  /** A zone the viewer's timezone name resolved to, reduced to its UTC offset. */
  datatype Zone = Zone(offset: int)

  /** A time value: the instant, in nanoseconds since Go's zero time
      (January 1, year 1, 00:00:00 UTC), and the UTC offset of the location
      it is displayed in. */
  datatype Stamp = Stamp(instant: int, offset: int)

  /** Go's zero time value, the "not set" timestamp, is the zero instant in
      whatever location. */
  predicate IsZero(t: Stamp) {
    t.instant == 0
  }

  /** The calendar reading (year ... nanosecond) of `t`, as nanoseconds on
      the local clock of its location. */
  function WallClock(t: Stamp): int {
    t.instant + t.offset
  }

  /** `time.Date(t.Year(), ..., t.Nanosecond(), loc)`: the same calendar
      fields read as a time in `z`. The instant moves; nothing is converted. */
  function Reinterpret(t: Stamp, z: Zone): (r: Stamp)
    ensures WallClock(r) == WallClock(t)
    ensures r.offset == z.offset
  {
    Stamp(t.instant + t.offset - z.offset, z.offset)
  }

  /** `now.Sub(t)`: the difference as a `time.Duration`, clamped to the
      64-bit range when it does not fit. */
  function Sub(now: int, t: int): (r: int)
    ensures MinDuration <= r <= MaxDuration
    ensures MinDuration <= now - t <= MaxDuration ==> r == now - t
    ensures now - t > MaxDuration ==> r == MaxDuration
    ensures now - t < MinDuration ==> r == MinDuration
  {
    if now - t > MaxDuration then MaxDuration
    else if now - t < MinDuration then MinDuration
    else now - t
  }
}
