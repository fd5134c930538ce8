/** Instants are milliseconds since the epoch, and days are counted from it. */
module Instants {
  const MS_PER_DAY := 86_400_000

  function DayOf(instant: int): int {
    instant / MS_PER_DAY
  }

  /** A day is the 86,400,000 milliseconds from its midnight. */
  lemma DayMeans(instant: int, day: int)
    ensures DayOf(instant) == day <==> 86_400_000 * day <= instant < 86_400_000 * day + 86_400_000
  {
  }
}
