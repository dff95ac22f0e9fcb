# Elapsed-time phrases

A model of the duration package's `ElapsedTime`: given a timestamp, the
viewer's timezone and the current instant, it picks the phrase key ("not
yet", "just now", "1 minute ago", "N minutes ago", ... "N years ago") that
describes how long ago the timestamp was. The translator that turns a key
into text is not modelled; the model returns the key, with its count.

Files:

- `wrappers.dfy` — `Option`.
- `phrase.dfy` — module `Phrases`: the eleven keys (`Phrase`), their bucket
  order (`Rank`) and the "describes no longer an elapsed time" order
  `NotLater` (earlier bucket, or same bucket and count no larger).
- `clock.dfy` — module `Clock`: instants in integer nanoseconds counted from
  Go's zero time, fixed-offset zones, the calendar-field reinterpretation done
  with `time.Date(..., loc)`, and `now.Sub(t)` with Go's saturation to the
  64-bit `time.Duration` range.
- `duration.dfy` — module `Duration`: the bucket switch `Classify`, the guards
  and timezone handling in `ElapsedTime`, and `Describes`, the bucket table
  written as a reference: every row names its full range and fixes the count
  by multiplicative bounds instead of by division.
- `proofs.dfy` — module `DurationProofs`: the switch agrees with the table in
  both directions, buckets are ordered, counts stay in range, the thresholds
  sit exactly where the switch puts them, and the phrase only moves forward as
  `now` grows.

Modelling choices:

- The unset timestamp is Go's zero time value. `t.IsZero()` tests the instant,
  so the model keeps timestamps as plain instants and tests `instant == 0`
  (instants count from January 1, year 1, UTC, which is Go's zero time), rather
  than introducing a separate "absent" constructor.
- The result of looking up the timezone name is an input: `Some(zone)` when it
  resolved, `None` when it failed. On failure the timestamp is compared as it
  is; on success its calendar fields are read again as a time in that zone
  (the instant moves by the difference of the two offsets; its wall-clock
  reading stays).
- `now` is an input instant. The zone `now` is displayed in does not matter:
  only instants are compared and subtracted.
- `diff.Seconds()`, `diff.Minutes()`, `diff.Hours()` and
  `math.Ceil(float64(d)/k)` are exact integer divisions on nanoseconds:
  truncating for minutes, hours and whole days, `(d + k - 1) / k` for weeks,
  months and years.

## Model

| member | source | states |
|---|---|---|
| Duration.ElapsedTime | duration/duration.go:31-80 | an unset timestamp gives `NotYet`; the result is `NotYet` exactly when the timestamp is unset or, read in the resolved zone, lies after `now`; otherwise it is the table row of the saturated difference |
| Duration.Classify | duration/duration.go:53-79 | the phrase chosen for an elapsed time satisfies that time's row of the reference bucket table, count included |
| Duration.ClassifyDays | duration/duration.go:69-78 | past one day, the phrase built from the whole-day count satisfies that difference's day row of the table: yesterday, days, weeks, months or years with the rounded-up count |
| Duration.CeilDiv | duration/duration.go:74-78 | the rounded-up quotient `r` of whole days by `k` satisfies `k*(r-1) < d <= k*r` |
| Clock.Reinterpret | duration/duration.go:43-46 | the reinterpreted time keeps the calendar reading of the original and carries the viewer zone's offset |
| Clock.Sub | duration/duration.go:53 | the difference of two instants is exact when it fits a 64-bit duration and clamps to the nearest bound otherwise |
| DurationProofs.DescribesOrdered | duration/duration.go:58-79 | rows of the bucket table are disjoint and ordered: a longer elapsed time never gets an earlier bucket or a smaller count in the same bucket |
| DurationProofs.ClassifyMatchesTable | duration/duration.go:58-79 | a phrase satisfies the table row of an elapsed time if and only if the first-match switch returns it |
| DurationProofs.ClassifyMonotone | duration/duration.go:58-79 | a longer elapsed time moves the phrase only forward through the buckets |
| DurationProofs.CountsInRange | duration/duration.go:63-78 | minutes are in 2..59, hours in 2..23, days in 2..6, weeks in 1..5, months in 2..13, years at least 1 |
| DurationProofs.ClassifyRange | duration/duration.go:58-79 | a phrase is produced for some elapsed time if and only if it is not `NotYet` and its count lies in its bucket's range, so the ranges are tight |
| DurationProofs.SecondThresholds | duration/duration.go:59-68 | 59 s is "just now", 60 and 119 s "1 minute ago", 120 s two minutes, 3599 s 59 minutes, 3600 and 7199 s "1 hour ago", 7200 s two hours, 86399 s 23 hours |
| DurationProofs.DayThresholds | duration/duration.go:57-78 | in exact arithmetic and at any time of day, 1 day is "yesterday", 6 days six days, 7 days one week, 30 days five weeks, 31 days two months, 364 days thirteen months, 365 days one year, 366 days two years |
| DurationProofs.UnsetIsNotYet | duration/duration.go:32-34 | an unset timestamp gives `NotYet` whatever the zone lookup gave and whatever `now` is |
| DurationProofs.FutureIsNotYet | duration/duration.go:49-51 | a timestamp after `now`, once read in the viewer's zone, gives `NotYet` |
| DurationProofs.ElapsedTimeMonotone | duration/duration.go:36-79 | with the timestamp and zone fixed, a later `now` never moves the phrase back |
| DurationProofs.YearsBounded | duration/duration.go:53-78 | because the difference saturates, the year count never exceeds 293 |
| DurationProofs.ElapsedTimeRange | duration/duration.go:32-79 | for a set timestamp, the phrases obtainable as `now` varies are exactly `NotYet` and the in-range phrases, with at most 293 years |
| DurationProofs.SaturatedYears | duration/duration.go:53-78 | every elapsed time at or beyond the largest duration reads "293 years ago" |
| DurationProofs.FallbackKeepsInstant | duration/duration.go:37-39 | when the zone name does not resolve, the timestamp is compared as it is |
| DurationProofs.ReinterpretShift | duration/duration.go:43-46 | reading the fields in the viewer's zone is not a conversion: the instant is unchanged exactly when the timestamp already carries the viewer zone's offset |

## Left out

- The translator (`translator.Get`, the `locale` package, `%d` substitution):
  the model returns the phrase key and its count.
- The package-level text variables: callers can reassign them in Go; the model
  has a fixed set of keys instead.
- `time.Now()`: the current instant is a parameter.
- `time.LoadLocation`: the timezone database is not modelled; its result is a
  parameter. Zones are fixed UTC offsets, so daylight-saving transitions and
  the normalisation `time.Date` applies to wall-clock times that fall into a
  gap or overlap are not modelled.
- Floating-point arithmetic in `diff.Seconds()`, `diff.Minutes()`,
  `diff.Hours()` and `math.Ceil`: replaced by exact integer arithmetic. This
  differs from the source at one edge. From 2^24 seconds (about 194 days) on,
  the spacing of `float64` values exceeds two nanoseconds. In the last
  nanoseconds before a whole-day boundary, `s` then rounds up to the boundary,
  and `d = int(s / 86400)` is one day more than the exact count. The window
  grows to about a microsecond near the 64-bit limit. It changes the phrase
  where the rounded-up day count starts a new bucket or count, for example
  211 days minus 1 ns (`Months(8)` in the source, `Months(7)` here) and 365
  days minus 1 ns (`Years(1)` in the source, `Months(13)` here).
- Duration.ClassifyDays: counts whole days exactly, so in the rounding window
  above its count can be one day lower than the source's.
- DurationProofs.DayThresholds: holds in exact arithmetic; at 364 and 365 days
  with a remainder within the rounding window above, the source already gives
  the next day's phrase.
- `now.Sub(t)` belongs to Go's `time` package, which is not part of this model;
  `Clock.Sub` follows its documented saturation.
- Calling twice with the same inputs and the same clock gives the same phrase:
  every member is a pure function, so this needs no lemma.
