/**
 * SmhiClient.getSmhiData: picks the forecast entry nearest to 24 hours from
 * now and reads its "t" (air temperature) and "r" (relative humidity)
 * parameters.
 */
module SmhiClient {
  import opened Outcomes
  import opened Weather
  import Nearest

  /** A named parameter with its list of values. */
  datatype Parameter = Parameter(name: string, values: seq<real>)

  /** One forecast entry: its ISO zoned time and its parameters. */
  datatype TimeSeries = TimeSeries(validTime: string, parameters: seq<Parameter>)

  /** The SMHI point-forecast payload. */
  datatype Smhi = Smhi(timeSeries: seq<TimeSeries>)

  /** The valid times of the entries, in list order. */
  function ValidTimes(series: seq<TimeSeries>): seq<string> {
    seq(|series|, i requires 0 <= i < |series| => series[i].validTime)
  }

  /** The two locals the parameter loop fills in. */
  datatype Measured = Measured(temp: real, humidity: real)

  /** The parameter loop reads `values.get(0)` of this parameter. */
  predicate IsRead(p: Parameter) {
    p.name == "t" || p.name == "r"
  }

  /** `j` is the last parameter called `name`. */
  ghost predicate IsLastNamed(ps: seq<Parameter>, name: string, j: int) {
    && 0 <= j < |ps|
    && ps[j].name == name
    && forall k :: j < k < |ps| ==> ps[k].name != name
  }

  /**
   * `v` is what the loop leaves in the local for `name`: 0 when no
   * parameter has that name, else the first value of the last one that does.
   */
  ghost predicate HoldsLast(ps: seq<Parameter>, name: string, v: real) {
    && ((forall j :: 0 <= j < |ps| ==> ps[j].name != name) ==> v == 0.0)
    && forall j :: IsLastNamed(ps, name, j) && |ps[j].values| > 0 ==> v == ps[j].values[0]
  }

  /** Visiting one more parameter updates the local for `name` as the loop does. */
  lemma HoldsLastStep(ps: seq<Parameter>, name: string, v: real)
    requires |ps| > 0 && HoldsLast(ps[..|ps| - 1], name, v)
    ensures var p := ps[|ps| - 1];
            p.name != name ==> HoldsLast(ps, name, v)
    ensures var p := ps[|ps| - 1];
            p.name == name && |p.values| > 0 ==> HoldsLast(ps, name, p.values[0])
  {
  }

  /**
   * The state of the parameter loop after visiting `ps`; it throws as soon
   * as a "t" or "r" parameter has no values.
   */
  function ReadParameters(ps: seq<Parameter>): (r: Outcome<Measured>)
    ensures r.Threw? <==> exists j :: 0 <= j < |ps| && IsRead(ps[j]) && |ps[j].values| == 0
    ensures r.Threw? ==> r.ex == IndexOutOfBounds
    ensures r.Returned? ==> HoldsLast(ps, "t", r.value.temp) && HoldsLast(ps, "r", r.value.humidity)
    decreases |ps|
  {
    if |ps| == 0 then Returned(Measured(0.0, 0.0))
    else
      var front := ps[..|ps| - 1];
      var p := ps[|ps| - 1];
      assert forall j :: 0 <= j < |front| ==> front[j] == ps[j];
      match ReadParameters(front)
      case Threw(e) => Threw(e)
      case Returned(m) =>
        HoldsLastStep(ps, "t", m.temp);
        HoldsLastStep(ps, "r", m.humidity);
        if p.name == "t" then
          if |p.values| == 0 then Threw(IndexOutOfBounds) else Returned(m.(temp := p.values[0]))
        else if p.name == "r" then
          if |p.values| == 0 then Threw(IndexOutOfBounds) else Returned(m.(humidity := p.values[0]))
        else Returned(m)
  }

  /**
   * getSmhiData, given what `mono.block()` produced, the clock reading and
   * the ISO zoned date-time parser.
   */
  function GetSmhiData(fetched: Outcome<Option<Smhi>>, now: int, parse: string -> Option<int>)
      : (r: Outcome<Option<BestWeather>>)
    ensures fetched.Threw? ==> r == Threw(fetched.ex)
    ensures fetched == Returned(None) ==> r == Returned(None)
    ensures r.Returned? && r.value.Some? ==> r.value.value.origin == Some("Smhi") && r.value.value.timestamp.Some?
    ensures r.Threw? ==> fetched.Threw? || r.ex == IndexOutOfBounds
    ensures fetched.Returned? && fetched.value.Some? ==>
              var series := fetched.value.value.timeSeries;
              var times := ValidTimes(series);
              var target := now + 24 * 3600;
              && (r == Returned(None) <==> Nearest.NoneEligible(times, parse, target))
              && forall k :: Nearest.IsNearest(times, parse, target, k) ==>
                   match ReadParameters(series[k].parameters)
                   case Threw(e) => r == Threw(e)
                   case Returned(m) =>
                     r == Returned(Some(BestWeather(m.temp, m.humidity, parse(series[k].validTime), Some("Smhi"))))
  {
    match fetched
    case Threw(e) => Threw(e)
    case Returned(None) => Returned(None)
    case Returned(Some(smhi)) =>
      var times := ValidTimes(smhi.timeSeries);
      Nearest.ClosestIsNearest(times, parse, Target(now));
      match Nearest.Closest(times, parse, Target(now))
      case None => Returned(None)
      case Some(k) =>
        var entry := smhi.timeSeries[k];
        match ReadParameters(entry.parameters)
        case Threw(e) => Threw(e)
        case Returned(m) => Returned(Some(BestWeather(m.temp, m.humidity, parse(entry.validTime), Some("Smhi"))))
  }

  /** A body whose entries all have unparsable times (or none at all) gives no reading. */
  lemma NoParsableTimeNoReading(series: seq<TimeSeries>, now: int, parse: string -> Option<int>)
    requires forall i :: 0 <= i < |series| ==> parse(series[i].validTime).None?
    ensures GetSmhiData(Returned(Some(Smhi(series))), now, parse) == Returned(None)
  {
  }
}
