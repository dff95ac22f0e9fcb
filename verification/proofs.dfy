/** Properties of the elapsed-time buckets: the reference table and the
    switch agree, the buckets are ordered, the counts stay in range, and the
    thresholds sit exactly where the switch puts them. */
module DurationProofs {

  import opened Wrappers
  import opened Clock
  import opened Phrases
  import opened Duration

  /** Rows of the reference table never overlap and follow each other in
      bucket order: a longer elapsed time is never described by an earlier
      bucket, nor by a smaller count in the same bucket. */
  lemma DescribesOrdered(a: int, b: int, p: Phrase, q: Phrase)
    requires a <= b
    requires Describes(a, p) && Describes(b, q)
    ensures NotLater(p, q)
  {
  }

  /** The first-match switch and the reference table agree in both
      directions: the table row a phrase satisfies is exactly the one the
      switch picks. */
  lemma ClassifyMatchesTable(diff: int, p: Phrase)
    ensures Describes(diff, p) <==> p == Classify(diff)
  {
    if Describes(diff, p) {
      var q := Classify(diff);
      DescribesOrdered(diff, diff, p, q);
      DescribesOrdered(diff, diff, q, p);
      NotLaterIsTotalOrder(p, q, q);
    }
  }

  /** A longer elapsed time moves the phrase forward through the buckets,
      never back, and never lowers the count within a bucket. */
  lemma ClassifyMonotone(a: int, b: int)
    requires a <= b
    ensures NotLater(Classify(a), Classify(b))
  {
    DescribesOrdered(a, b, Classify(a), Classify(b));
  }

  /** The counts each bucket can carry: minutes 2..59, hours 2..23, days
      2..6, weeks 1..5, months 2..13, years from 1 on. */
  predicate CountInRange(p: Phrase) {
    match p
    case Minutes(n) => 2 <= n <= 59
    case Hours(n) => 2 <= n <= 23
    case Days(n) => 2 <= n <= 6
    case Weeks(n) => 1 <= n <= 5
    case Months(n) => 2 <= n <= 13
    case Years(n) => 1 <= n
    case _ => true
  }

  /** Every count the switch produces lies in its bucket's range. */
  lemma CountsInRange(diff: int)
    ensures CountInRange(Classify(diff))
  {
  }

  /** An elapsed time that the switch maps to `p`. */
  function Witness(p: Phrase): (diff: int)
    requires p != NotYet && CountInRange(p)
    ensures diff >= 0
    ensures Describes(diff, p)
  {
    match p
    case JustNow => 0
    case LastMinute => Minute
    case Minutes(n) =>
      ScaleBy(Minute, 2, n, 60);
      ScaleBy(Minute, n, n, n + 1);
      n * Minute
    case LastHour => Hour
    case Hours(n) =>
      ScaleBy(Hour, 2, n, 24);
      ScaleBy(Hour, n, n, n + 1);
      n * Hour
    case Yesterday => Day
    case Days(n) =>
      ScaleBy(Day, 2, n, 7);
      ScaleBy(Day, n, n, n + 1);
      n * Day
    case Weeks(_) => DayWitness(p) * Day
    case Months(_) => DayWitness(p) * Day
    case Years(_) => DayWitness(p) * Day
  }

  /** Multiplying by a positive unit keeps the order of whole counts. */
  lemma ScaleBy(unit: int, lo: int, n: int, hi: int)
    requires unit > 0 && lo <= n < hi
    ensures lo * unit <= n * unit < hi * unit
  {
  }

  /** A whole-day count the switch turns into the week, month or year
      phrase `p`. */
  function DayWitness(p: Phrase): (d: int)
    requires (p.Weeks? || p.Months? || p.Years?) && CountInRange(p)
    ensures Describes(d * Day, p)
  {
    match p
    case Weeks(n) =>
      var d := if n == 5 then 30 else 7 * n;
      ScaleByDay(7, d, 31, d * Day);
      ScaleByDay(7 * n - 6, d, 7 * n + 1, d * Day);
      d
    case Months(n) =>
      var d := 30 * n - 29;
      ScaleByDay(31, d, 365, d * Day);
      ScaleByDay(30 * n - 29, d, 30 * n + 1, d * Day);
      d
    case Years(n) =>
      var d := 365 * n;
      ScaleByDay(365, d, d + 1, d * Day);
      ScaleByDay(365 * n - 364, d, 365 * n + 1, d * Day);
      d
  }

  /** The switch produces exactly the phrases other than "not yet" whose
      count lies in its bucket's range: the ranges are tight. */
  lemma ClassifyRange(p: Phrase)
    ensures (exists diff :: Classify(diff) == p) <==> p != NotYet && CountInRange(p)
  {
    if p != NotYet && CountInRange(p) {
      var diff := Witness(p);
      ClassifyMatchesTable(diff, p);
    }
    if exists diff :: Classify(diff) == p {
      var diff :| Classify(diff) == p;
      CountsInRange(diff);
    }
  }

  /** The seconds thresholds, on both sides of each. */
  lemma SecondThresholds()
    ensures Classify(0) == JustNow
    ensures Classify(59 * Second) == JustNow
    ensures Classify(Minute - 1) == JustNow
    ensures Classify(60 * Second) == LastMinute
    ensures Classify(119 * Second) == LastMinute
    ensures Classify(120 * Second) == Minutes(2)
    ensures Classify(3599 * Second) == Minutes(59)
    ensures Classify(3600 * Second) == LastHour
    ensures Classify(7199 * Second) == LastHour
    ensures Classify(7200 * Second) == Hours(2)
    ensures Classify(86399 * Second) == Hours(23)
  {
  }

  /** The whole-day thresholds, at any time of day, in exact arithmetic:
      only the number of whole days counts once a day has passed. */
  lemma DayThresholds(rest: int)
    requires 0 <= rest < Day
    ensures Classify(1 * Day + rest) == Yesterday
    ensures Classify(2 * Day + rest) == Days(2)
    ensures Classify(6 * Day + rest) == Days(6)
    ensures Classify(7 * Day + rest) == Weeks(1)
    ensures Classify(8 * Day + rest) == Weeks(2)
    ensures Classify(30 * Day + rest) == Weeks(5)
    ensures Classify(31 * Day + rest) == Months(2)
    ensures Classify(60 * Day + rest) == Months(2)
    ensures Classify(61 * Day + rest) == Months(3)
    ensures Classify(364 * Day + rest) == Months(13)
    ensures Classify(365 * Day + rest) == Years(1)
    ensures Classify(366 * Day + rest) == Years(2)
  {
    ClassifyMatchesTable(1 * Day + rest, Yesterday);
    ClassifyMatchesTable(2 * Day + rest, Days(2));
    ClassifyMatchesTable(6 * Day + rest, Days(6));
    ClassifyMatchesTable(7 * Day + rest, Weeks(1));
    ClassifyMatchesTable(8 * Day + rest, Weeks(2));
    ClassifyMatchesTable(30 * Day + rest, Weeks(5));
    ClassifyMatchesTable(31 * Day + rest, Months(2));
    ClassifyMatchesTable(60 * Day + rest, Months(2));
    ClassifyMatchesTable(61 * Day + rest, Months(3));
    ClassifyMatchesTable(364 * Day + rest, Months(13));
    ClassifyMatchesTable(365 * Day + rest, Years(1));
    ClassifyMatchesTable(366 * Day + rest, Years(2));
  }

  /** An unset timestamp is "not yet", whatever the zone and the clock. */
  lemma UnsetIsNotYet(zone: Option<Zone>, t: Stamp, now: int)
    requires IsZero(t)
    ensures ElapsedTime(zone, t, now) == NotYet
  {
  }

  /** A timestamp after `now`, once read in the viewer's zone, is "not yet". */
  lemma FutureIsNotYet(zone: Option<Zone>, t: Stamp, now: int)
    requires now < Effective(zone, t).instant
    ensures ElapsedTime(zone, t, now) == NotYet
  {
  }

  /** With the timestamp fixed, a later `now` moves the phrase only forward. */
  lemma ElapsedTimeMonotone(zone: Option<Zone>, t: Stamp, now1: int, now2: int)
    requires now1 <= now2
    ensures NotLater(ElapsedTime(zone, t, now1), ElapsedTime(zone, t, now2))
  {
    var u := Effective(zone, t).instant;
    if !IsZero(t) && u <= now1 {
      ClassifyMonotone(Sub(now1, u), Sub(now2, u));
    }
  }

  /** `now.Sub(t)` saturates at the largest duration (about 292 years), so the
      year count never exceeds 293. */
  lemma YearsBounded(zone: Option<Zone>, t: Stamp, now: int)
    ensures ElapsedTime(zone, t, now).Years? ==> ElapsedTime(zone, t, now).count <= 293
  {
  }

  /** Past the saturation point every elapsed time reads the same. */
  lemma SaturatedYears(zone: Option<Zone>, t: Stamp, now: int)
    requires !IsZero(t)
    requires now - Effective(zone, t).instant >= MaxDuration
    ensures ElapsedTime(zone, t, now) == Years(293)
  {
  }

  /** For a set timestamp, the phrases `ElapsedTime` can give as `now`
      varies are exactly "not yet" and the in-range phrases, with at most 293
      years because the difference saturates. */
  lemma ElapsedTimeRange(zone: Option<Zone>, t: Stamp, p: Phrase)
    requires !IsZero(t)
    ensures (exists now :: ElapsedTime(zone, t, now) == p)
        <==> p == NotYet || (CountInRange(p) && (p.Years? ==> p.count <= 293))
  {
    var u := Effective(zone, t).instant;
    if p == NotYet {
      assert ElapsedTime(zone, t, u - 1) == p;
    } else if CountInRange(p) && (p.Years? ==> p.count <= 293) {
      var diff := YearsWitness(p);
      assert Sub(u + diff, u) == diff;
      assert ElapsedTime(zone, t, u + diff) == p;
    }
    if exists now :: ElapsedTime(zone, t, now) == p {
      var now :| ElapsedTime(zone, t, now) == p;
      if p != NotYet {
        CountsInRange(Sub(now, u));
        YearsBounded(zone, t, now);
      }
    }
  }

  /** An elapsed time that fits a 64-bit duration and that the switch maps
      to `p`; 293 years is reached only at the saturation point. */
  function YearsWitness(p: Phrase): (diff: int)
    requires p != NotYet && CountInRange(p) && (p.Years? ==> p.count <= 293)
    ensures 0 <= diff <= MaxDuration
    ensures Classify(diff) == p
  {
    if p == Years(293) then
      MaxDuration
    else if p.Years? then
      ScaleBy(365 * Day, p.count, p.count, 293);
      ClassifyMatchesTable(p.count * (365 * Day), p);
      p.count * (365 * Day)
    else
      ClassifyMatchesTable(Witness(p), p);
      Witness(p)
  }

  /** When the zone name does not resolve the timestamp is compared as it is. */
  lemma FallbackKeepsInstant(t: Stamp, now: int)
    requires !IsZero(t) && t.instant <= now
    ensures ElapsedTime(None, t, now) == Classify(Sub(now, t.instant))
  {
  }

  /** Reading the fields in the viewer's zone is not a conversion: the
      instant stays put exactly when the timestamp already carries the
      viewer's offset, and moves otherwise. */
  lemma ReinterpretShift(t: Stamp, z: Zone)
    ensures Reinterpret(t, z).instant == t.instant <==> t.offset == z.offset
    ensures t.offset == z.offset ==> Reinterpret(t, z) == t
  {
  }
}
