/** `formatDate`: the relative-age label of a note card. Instants are integer
    milliseconds since the epoch; the current time is a parameter. */
module Dates {

  /** Milliseconds in a day: `1000 * 60 * 60 * 24`. */
  const DayMs: nat := 1000 * 60 * 60 * 24

  /** The label a card shows. `AbsoluteDate` stands for the locale-formatted
      `toLocaleDateString()` text of the instant it carries. */
  datatype Label = Today | Yesterday | DaysAgo(n: int) | AbsoluteDate(t: int)

  function Abs(x: int): (a: nat)
    ensures a == x || a == -x
  {
    if x < 0 then -x else x
  }

  /** `Math.ceil(diff / DayMs)` for a non-negative millisecond difference:
      the number of started days. */
  function ElapsedDays(diff: nat): (d: nat)
    ensures diff == 0 <==> d == 0
    ensures diff > 0 ==> (d - 1) * DayMs < diff <= d * DayMs
  {
    (diff + DayMs - 1) / DayMs
  }

  /** `formatDate(t)` read at instant `now`. Started day 1 is "Today", day 2
      "Yesterday", any other count up to 7 reads "(count - 1) days ago" (the
      zero difference included, which gives -1), and older or newer instants
      show the absolute date. */
  function FormatDate(t: int, now: int): (r: Label)
    ensures var e := Abs(now - t);
      && (r == Today <==> 0 < e <= DayMs)
      && (r == Yesterday <==> DayMs < e <= 2 * DayMs)
      && (r.DaysAgo? <==> e == 0 || 2 * DayMs < e <= 7 * DayMs)
      && (r.DaysAgo? ==> (r.n == -1 <==> e == 0))
      && (r.DaysAgo? && e > 0 ==> 2 <= r.n <= 6 && r.n * DayMs < e <= (r.n + 1) * DayMs)
      && (r.AbsoluteDate? <==> 7 * DayMs < e)
      && (r.AbsoluteDate? ==> r.t == t)
  {
    var d := ElapsedDays(Abs(now - t));
    if d == 1 then Today
    else if d == 2 then Yesterday
    else if d <= 7 then DaysAgo(d - 1)
    else AbsoluteDate(t)
  }

  /** The label depends on the distance between the two instants only, so an
      instant in the future reads like one equally far in the past. */
  lemma LabelDependsOnDistance(t1: int, now1: int, t2: int, now2: int)
    requires Abs(now1 - t1) == Abs(now2 - t2)
    ensures FormatDate(t1, now1).AbsoluteDate? <==> FormatDate(t2, now2).AbsoluteDate?
    ensures !FormatDate(t1, now1).AbsoluteDate? ==> FormatDate(t1, now1) == FormatDate(t2, now2)
  {
  }

  /** A note read in the very millisecond it was saved shows "-1 days ago". */
  lemma SameInstantReadsMinusOneDaysAgo(t: int)
    ensures FormatDate(t, t) == DaysAgo(-1)
  {
  }

  /** Worked cases of the bucket edges: exactly 24 hours is still "Today",
      25 hours is "Yesterday", 4 days is "3 days ago", 10 days is a date. */
  lemma BucketExamples(now: int)
    ensures FormatDate(now - DayMs, now) == Today
    ensures FormatDate(now - 25 * 3600000, now) == Yesterday
    ensures FormatDate(now - 4 * DayMs, now) == DaysAgo(3)
    ensures FormatDate(now - 10 * DayMs, now) == AbsoluteDate(now - 10 * DayMs)
  {
  }
}
