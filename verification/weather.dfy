/** The reading every client produces and the service returns. */
module Weather {
  import opened Outcomes

  /** Seconds in the 24 hours LocalDateTime.plusHours(24) adds. */
  const DaySeconds: int := 24 * 3600

  /** The instant every client aims at: `now.plusHours(24)`, in seconds. */
  function Target(now: int): int {
    now + DaySeconds
  }

  /**
   * A BestWeather object. `temp` and `humidity` are primitive doubles that
   * default to 0; `timestamp` and `origin` are strings that default to null.
   * The timestamp is kept as the instant the string was printed from.
   */
  datatype BestWeather = BestWeather(
    temp: real,
    humidity: real,
    timestamp: Option<int>,
    origin: Option<string>)

  /** `new BestWeather()` with no setter called. */
  const Unset: BestWeather := BestWeather(0.0, 0.0, None, None)
}
