/** Calendar days as abstract integer keys. */
module Calendar {

  const MsPerDay: int := 86_400_000

  /**
   * The day a millisecond timestamp falls on, counted from the epoch. It
   * stands for both `startOfDay` and the date strings derived from it.
   */
  function DayKey(timestamp: int): int {
    timestamp / MsPerDay
  }
}
