/** Instants in nanoseconds and dates as day numbers, in a timezone that is a
    fixed offset ahead of UTC. */
module LocalTime {
  const MINUTE: int := 60_000_000_000
  const DAY: int := 86_400_000_000_000

  /** The date at an instant. */
  function DateAt(at: int, offset: int): int {
    (at + offset) / DAY
  }

  /** The first instant of a date. */
  function Midnight(date: int, offset: int): int {
    date * DAY - offset
  }
}
