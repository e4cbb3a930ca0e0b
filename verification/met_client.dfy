/**
 * MetClient.getMetData: picks the forecast entry nearest to 24 hours from
 * now and copies the instant air temperature and relative humidity.
 */
module MetClient {
  import opened Outcomes
  import opened Weather
  import Nearest

  /** `data.instant.details` of an entry. */
  datatype Details = Details(airTemperature: real, relativeHumidity: real)

  /** One forecast entry: its ISO zoned time and its instant details. */
  datatype Timeseries = Timeseries(time: string, details: Details)

  /** The Met Norway payload; `timeseries` is `properties.timeseries`. */
  datatype Met = Met(timeseries: seq<Timeseries>)

  /** The times of the entries, in list order. */
  function Times(series: seq<Timeseries>): seq<string> {
    seq(|series|, i requires 0 <= i < |series| => series[i].time)
  }

  /**
   * getMetData, given what `mono.block()` produced, the clock reading and
   * the ISO zoned date-time parser.
   */
  function GetMetData(fetched: Outcome<Option<Met>>, now: int, parse: string -> Option<int>)
      : (r: Outcome<Option<BestWeather>>)
    ensures fetched.Threw? ==> r == Threw(fetched.ex)
    ensures fetched == Returned(None) ==> r == Returned(None)
    ensures r.Returned? && r.value.Some? ==> r.value.value.origin == Some("Met Norway") && r.value.value.timestamp.Some?
    ensures r.Threw? ==> fetched.Threw?
    ensures fetched.Returned? && fetched.value.Some? ==>
              var series := fetched.value.value.timeseries;
              var times := Times(series);
              var target := now + 24 * 3600;
              && (r == Returned(None) <==> Nearest.NoneEligible(times, parse, target))
              && forall k :: Nearest.IsNearest(times, parse, target, k) ==>
                   r == Returned(Some(BestWeather(
                          series[k].details.airTemperature,
                          series[k].details.relativeHumidity,
                          parse(series[k].time),
                          Some("Met Norway"))))
  {
    match fetched
    case Threw(e) => Threw(e)
    case Returned(None) => Returned(None)
    case Returned(Some(met)) =>
      var times := Times(met.timeseries);
      Nearest.ClosestIsNearest(times, parse, Target(now));
      match Nearest.Closest(times, parse, Target(now))
      case None => Returned(None)
      case Some(k) =>
        var entry := met.timeseries[k];
        Returned(Some(BestWeather(entry.details.airTemperature, entry.details.relativeHumidity,
                                  parse(entry.time), Some("Met Norway"))))
  }

  /** A body whose entries all have unparsable times (or none at all) gives no reading. */
  lemma NoParsableTimeNoReading(series: seq<Timeseries>, now: int, parse: string -> Option<int>)
    requires forall i :: 0 <= i < |series| ==> parse(series[i].time).None?
    ensures GetMetData(Returned(Some(Met(series))), now, parse) == Returned(None)
  {
  }
}
