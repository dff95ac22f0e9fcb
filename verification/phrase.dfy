/** The eleven phrase keys an elapsed time is rendered with (the translatable
    texts of the duration package), and the order of the buckets they name. */
module Phrases {

  /** One phrase key; the keys whose text has a `%d` placeholder carry its count. */
  datatype Phrase =
    | NotYet
    | JustNow
    | LastMinute
    | Minutes(count: int)
    | LastHour
    | Hours(count: int)
    | Yesterday
    | Days(count: int)
    | Weeks(count: int)
    | Months(count: int)
    | Years(count: int)

  /** True for the keys whose template takes an integer argument. */
  predicate HasCount(p: Phrase) {
    p.Minutes? || p.Hours? || p.Days? || p.Weeks? || p.Months? || p.Years?
  }

  /** Position of the key's bucket, "not yet" first and "years" last. */
  function Rank(p: Phrase): (r: nat)
    ensures r <= 10
    ensures r == 0 <==> p == NotYet
  {
    match p
    case NotYet => 0
    case JustNow => 1
    case LastMinute => 2
    case Minutes(_) => 3
    case LastHour => 4
    case Hours(_) => 5
    case Yesterday => 6
    case Days(_) => 7
    case Weeks(_) => 8
    case Months(_) => 9
    case Years(_) => 10
  }

  /** `p` describes an elapsed time no longer than `q` does: an earlier bucket,
      or the same bucket with a count no larger. */
  predicate NotLater(p: Phrase, q: Phrase) {
    Rank(p) < Rank(q) || (Rank(p) == Rank(q) && (HasCount(p) ==> p.count <= q.count))
  }

  lemma NotLaterIsTotalOrder(p: Phrase, q: Phrase, o: Phrase)
    ensures NotLater(p, p)
    ensures NotLater(p, q) || NotLater(q, p)
    ensures NotLater(p, q) && NotLater(q, o) ==> NotLater(p, o)
    ensures NotLater(p, q) && NotLater(q, p) ==> p == q
  {
  }
}
