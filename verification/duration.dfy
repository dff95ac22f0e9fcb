/** `ElapsedTime`: the phrase key describing how long ago a timestamp was. */
module Duration {

  import opened Wrappers
  import opened Clock
  import opened Phrases

  /** `math.Ceil(float64(a) / k)` for a whole number of days `a`, in exact
      integer arithmetic. */
  function CeilDiv(a: int, k: int): (r: int)
    requires a >= 0 && k > 0
    ensures k * (r - 1) < a <= k * r
    ensures r >= 0
  {
    (a + k - 1) / k
  }

  /** The bucket table as a reference: each row names its range of elapsed
      time in full (not "first match") and pins the count by bounds instead
      of by a division. */
  predicate Describes(diff: int, p: Phrase) {
    match p
    case NotYet => false
    case JustNow => diff < Minute
    case LastMinute => Minute <= diff < 2 * Minute
    case Minutes(n) => 2 * Minute <= diff < Hour && n * Minute <= diff < (n + 1) * Minute
    case LastHour => Hour <= diff < 2 * Hour
    case Hours(n) => 2 * Hour <= diff < Day && n * Hour <= diff < (n + 1) * Hour
    case Yesterday => Day <= diff < 2 * Day
    case Days(n) => 2 * Day <= diff < 7 * Day && n * Day <= diff < (n + 1) * Day
    case Weeks(n) => 7 * Day <= diff < 31 * Day && (7 * n - 6) * Day <= diff < (7 * n + 1) * Day
    case Months(n) => 31 * Day <= diff < 365 * Day && (30 * n - 29) * Day <= diff < (30 * n + 1) * Day
    case Years(n) => 365 * Day <= diff && (365 * n - 364) * Day <= diff < (365 * n + 1) * Day
  }

  /** The first-match switch over the elapsed duration `diff` (nanoseconds):
      seconds thresholds first, then whole days. Minute and hour counts are
      truncated. */
  function Classify(diff: int): (r: Phrase)
    ensures Describes(diff, r)
  {
    if diff < Minute then JustNow
    else if diff < 2 * Minute then LastMinute
    else if diff < Hour then
      DivBracket(diff, Minute);
      Minutes(diff / Minute)
    else if diff < 2 * Hour then LastHour
    else if diff < Day then
      DivBracket(diff, Hour);
      Hours(diff / Hour)
    else ClassifyDays(diff)
  }

  /** The day cases of the switch, for a difference of at least one day:
      `d` whole days, with week, month and year counts rounded up. */
  function ClassifyDays(diff: int): (r: Phrase)
    requires diff >= Day
    ensures Describes(diff, r)
  {
    var d := diff / Day;
    DivBracket(diff, Day);
    if d == 1 then
      ScaleByDay(1, d, 2, diff);
      Yesterday
    else if d < 7 then
      ScaleByDay(2, d, 7, diff);
      ScaleByDay(d, d, d + 1, diff);
      Days(d)
    else if d < 31 then
      WeeksRow(diff, d);
      Weeks(CeilDiv(d, 7))
    else if d < 365 then
      MonthsRow(diff, d);
      Months(CeilDiv(d, 30))
    else
      YearsRow(diff, d);
      Years(CeilDiv(d, 365))
  }

  /** Rounding whole days up to weeks lands in the weeks row. */
  lemma WeeksRow(diff: int, d: int)
    requires 7 <= d < 31 && Day * d <= diff < Day * d + Day
    ensures Describes(diff, Weeks(CeilDiv(d, 7)))
  {
    var n := CeilDiv(d, 7);
    ScaleByDay(7 * n - 6, d, 7 * n + 1, diff);
    ScaleByDay(7, d, 31, diff);
  }

  /** Rounding whole days up to 30-day months lands in the months row. */
  lemma MonthsRow(diff: int, d: int)
    requires 31 <= d < 365 && Day * d <= diff < Day * d + Day
    ensures Describes(diff, Months(CeilDiv(d, 30)))
  {
    var n := CeilDiv(d, 30);
    ScaleByDay(30 * n - 29, d, 30 * n + 1, diff);
    ScaleByDay(31, d, 365, diff);
  }

  /** Rounding whole days up to 365-day years lands in the years row. */
  lemma YearsRow(diff: int, d: int)
    requires 365 <= d && Day * d <= diff < Day * d + Day
    ensures Describes(diff, Years(CeilDiv(d, 365)))
  {
    var n := CeilDiv(d, 365);
    ScaleByDay(365 * n - 364, d, 365 * n + 1, diff);
    ScaleByDay(365, d, d + 1, diff);
  }

  /** A whole-day count between `lo` and `hi` bounds the duration it was
      taken from by `lo` and `hi` days. */
  lemma ScaleByDay(lo: int, d: int, hi: int, diff: int)
    requires lo <= d < hi
    requires Day * d <= diff < Day * d + Day
    ensures lo * Day <= diff < hi * Day
  {
    assert lo * Day <= d * Day;
    assert (d + 1) * Day <= hi * Day;
  }

  /** Euclidean division by a positive divisor brackets the dividend. */
  lemma DivBracket(x: int, k: int)
    requires k > 0
    ensures k * (x / k) <= x < k * (x / k) + k
  {
  }

  /** The timestamp the comparison uses: read in the viewer's zone when the
      zone name resolved, unchanged when it did not. */
  function Effective(zone: Option<Zone>, t: Stamp): Stamp {
    match zone
    case Some(z) => Reinterpret(t, z)
    case None => t
  }

  /** `ElapsedTime(translator, timezone, t)` with the translation left to the
      caller: `zone` is what looking up the timezone name gave (`None` when
      it failed) and `now` is the current instant. */
  function ElapsedTime(zone: Option<Zone>, t: Stamp, now: int): (r: Phrase)
    ensures r == NotYet <==> IsZero(t) || now < Effective(zone, t).instant
    ensures r != NotYet ==> Describes(Sub(now, Effective(zone, t).instant), r)
  {
    if IsZero(t) then NotYet
    else
      var u := Effective(zone, t);
      if now < u.instant then NotYet
      else Classify(Sub(now, u.instant))
  }
}
