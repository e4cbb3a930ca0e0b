/**
 * BestWeatherService.getBestWeather: calls the three clients, keeps the
 * warmest reading, and turns every exception into WeatherClientException.
 */
module BestWeatherService {
  import opened Outcomes
  import opened Weather
  import SmhiClient
  import MetClient
  import MeteoClient

  /** A client call that returned a non-null reading. */
  predicate Present(call: Outcome<Option<BestWeather>>) {
    call.Returned? && call.value.Some?
  }

  /**
   * `BinaryOperator.maxBy(comparingDouble(BestWeather::getTemp))`:
   * keeps `a` unless `b` is strictly warmer.
   */
  function Warmer(a: BestWeather, b: BestWeather): BestWeather {
    if a.temp >= b.temp then a else b
  }

  /**
   * `stream().max(...)` on a list: the JDK reduces it from left to right
   * with `Warmer`; the empty list gives an empty Optional.
   */
  function MaxByTemp(xs: seq<BestWeather>): (r: Option<BestWeather>)
    ensures r.None? <==> |xs| == 0
    ensures r.Some? ==> r.value in xs
    ensures r.Some? ==> forall j :: 0 <= j < |xs| ==> xs[j].temp <= r.value.temp
    decreases |xs|
  {
    if |xs| == 0 then None
    else
      var front := xs[..|xs| - 1];
      assert forall j :: 0 <= j < |front| ==> front[j] == xs[j];
      match MaxByTemp(front)
      case None => Some(xs[|xs| - 1])
      case Some(m) => Some(Warmer(m, xs[|xs| - 1]))
  }

  /**
   * On ties the reduction keeps the earliest warmest element. This is the
   * JDK's reduction order; Stream.max itself documents only maximality.
   */
  lemma {:induction false} MaxByTempKeepsFirst(xs: seq<BestWeather>, k: int)
    requires 0 <= k < |xs|
    requires forall j :: 0 <= j < |xs| ==> xs[j].temp <= xs[k].temp
    requires forall j :: 0 <= j < k ==> xs[j].temp < xs[k].temp
    ensures MaxByTemp(xs) == Some(xs[k])
    decreases |xs|
  {
    var front := xs[..|xs| - 1];
    assert forall j :: 0 <= j < |front| ==> front[j] == xs[j];
    if k < |xs| - 1 {
      MaxByTempKeepsFirst(front, k);
    }
  }

  /**
   * The `try` block: `List.of` evaluates the three calls in order and
   * rejects a null element; then the stream's maximum, or
   * NoWeatherDataException when there is none.
   */
  function TryBlock(smhi: Outcome<Option<BestWeather>>, met: Outcome<Option<BestWeather>>,
                    meteo: Outcome<Option<BestWeather>>): Outcome<BestWeather>
  {
    match smhi
    case Threw(e) => Threw(e)
    case Returned(s) =>
      match met
      case Threw(e) => Threw(e)
      case Returned(m) =>
        match meteo
        case Threw(e) => Threw(e)
        case Returned(o) =>
          if s.None? || m.None? || o.None? then Threw(NullPointer)
          else
            match MaxByTemp([s.value, m.value, o.value])
            case None => Threw(NoWeatherData)
            case Some(best) => Returned(best)
  }

  /**
   * `orElseThrow` never fires: the three-element list always has a
   * maximum, so the block only throws what a client threw or the
   * NullPointerException of `List.of`.
   */
  lemma TryBlockNeverLacksData(smhi: Outcome<Option<BestWeather>>, met: Outcome<Option<BestWeather>>,
                               meteo: Outcome<Option<BestWeather>>)
    ensures var r := TryBlock(smhi, met, meteo);
            r.Threw? ==>
              || r.ex == NullPointer
              || (smhi.Threw? && r.ex == smhi.ex)
              || (met.Threw? && r.ex == met.ex)
              || (meteo.Threw? && r.ex == meteo.ex)
  {
  }

  /** getBestWeather, given the outcomes of the three client calls. */
  function GetBestWeather(smhi: Outcome<Option<BestWeather>>, met: Outcome<Option<BestWeather>>,
                          meteo: Outcome<Option<BestWeather>>): (r: Outcome<BestWeather>)
    ensures r.Threw? ==> r.ex == WeatherClient
    ensures r.Returned? <==> Present(smhi) && Present(met) && Present(meteo)
    ensures r.Returned? ==>
              r.value == smhi.value.value || r.value == met.value.value || r.value == meteo.value.value
    ensures r.Returned? ==>
              && smhi.value.value.temp <= r.value.temp
              && met.value.value.temp <= r.value.temp
              && meteo.value.value.temp <= r.value.temp
  {
    match TryBlock(smhi, met, meteo)
    case Returned(best) =>
      var candidates := [smhi.value.value, met.value.value, meteo.value.value];
      assert candidates[0] == smhi.value.value && candidates[1] == met.value.value;
      assert candidates[2] == meteo.value.value;
      Returned(best)
    case Threw(_) => Threw(WeatherClient)
  }

  /**
   * getBestWeather wired to its three clients: each reads its own fetch
   * and its own clock; SMHI and Met Norway parse zoned times, Open-Meteo
   * local ones.
   */
  function GetBestWeatherFrom(
      smhiFetch: Outcome<Option<SmhiClient.Smhi>>, smhiNow: int,
      metFetch: Outcome<Option<MetClient.Met>>, metNow: int,
      meteoFetch: Outcome<Option<MeteoClient.Meteo>>, meteoNow: int,
      parseZoned: string -> Option<int>, parseLocal: string -> Option<int>): (r: Outcome<BestWeather>)
    ensures r.Threw? ==> r.ex == WeatherClient
    ensures smhiFetch.Threw? || metFetch.Threw? || meteoFetch.Threw? ==> r == Threw(WeatherClient)
    ensures smhiFetch == Returned(None) || metFetch == Returned(None) || meteoFetch == Returned(None) ==>
              r == Threw(WeatherClient)
  {
    GetBestWeather(SmhiClient.GetSmhiData(smhiFetch, smhiNow, parseZoned),
                   MetClient.GetMetData(metFetch, metNow, parseZoned),
                   MeteoClient.GetMeteoData(meteoFetch, meteoNow, parseLocal))
  }

  /** One absent reading sinks the call, whatever the other two providers returned. */
  lemma AbsentReadingFailsCall(smhi: Outcome<Option<BestWeather>>, met: Outcome<Option<BestWeather>>,
                               meteo: Outcome<Option<BestWeather>>)
    requires smhi == Returned(None) || met == Returned(None) || meteo == Returned(None)
    ensures smhi.Returned? && met.Returned? && meteo.Returned? ==> TryBlock(smhi, met, meteo) == Threw(NullPointer)
    ensures GetBestWeather(smhi, met, meteo) == Threw(WeatherClient)
  {
  }

  /** SMHI absent, Met Norway and Open-Meteo present: no fallback to the two readings. */
  lemma NoFallbackExample(met: BestWeather, meteo: BestWeather)
    ensures GetBestWeather(Returned(None), Returned(Some(met)), Returned(Some(meteo))) == Threw(WeatherClient)
  {
  }

  /** Three readings of 5, 9 and 7 degrees: the 9-degree one comes back unchanged. */
  lemma WarmestReturnedUnchanged(a: BestWeather, b: BestWeather, c: BestWeather)
    requires a.temp == 5.0 && b.temp == 9.0 && c.temp == 7.0
    ensures GetBestWeather(Returned(Some(a)), Returned(Some(b)), Returned(Some(c))) == Returned(b)
  {
  }

  /** Equal temperatures: the earlier provider in the order SMHI, Met Norway, Open-Meteo wins. */
  lemma TieGoesToEarlierProvider(a: BestWeather, b: BestWeather, c: BestWeather)
    requires a.temp >= b.temp && a.temp >= c.temp
    ensures GetBestWeather(Returned(Some(a)), Returned(Some(b)), Returned(Some(c))) == Returned(a)
  {
    MaxByTempKeepsFirst([a, b, c], 0);
  }

  /**
   * When Open-Meteo has no slot at or after the target it still returns
   * the unset placeholder, and below-zero readings from the other two
   * lose to its default 0 degrees: the result has no origin and no time.
   */
  lemma PlaceholderCanWin(smhi: BestWeather, met: BestWeather, meteo: MeteoClient.Meteo,
                          now: int, parse: string -> Option<int>)
    requires smhi.temp < 0.0 && met.temp < 0.0
    requires !MeteoClient.HasSeries(meteo)
    ensures GetBestWeather(Returned(Some(smhi)), Returned(Some(met)),
                           MeteoClient.GetMeteoData(Returned(Some(meteo)), now, parse)) == Returned(Unset)
  {
  }

  /** `filter(Objects::nonNull)`: the non-null readings, in order. */
  function Readings(calls: seq<Option<BestWeather>>): (r: seq<BestWeather>)
    ensures forall x :: x in r <==> Some(x) in calls
    decreases |calls|
  {
    if |calls| == 0 then []
    else
      assert calls == [calls[0]] + calls[1..];
      (if calls[0].Some? then [calls[0].value] else []) + Readings(calls[1..])
  }

  /**
   * getBestWeather as its documentation and NoWeatherDataException
   * describe it: absent readings are left out of the maximum, and
   * NoWeatherDataException reaches the caller when all three are absent.
   */
  function GetBestWeatherIntended(smhi: Outcome<Option<BestWeather>>, met: Outcome<Option<BestWeather>>,
                                  meteo: Outcome<Option<BestWeather>>): (r: Outcome<BestWeather>)
    ensures r.Threw? ==> r.ex == WeatherClient || r.ex == NoWeatherData
    ensures smhi.Threw? || met.Threw? || meteo.Threw? ==> r == Threw(WeatherClient)
    ensures r == Threw(NoWeatherData) <==>
              smhi == Returned(None) && met == Returned(None) && meteo == Returned(None)
    ensures r.Returned? ==>
              || (Present(smhi) && r.value == smhi.value.value)
              || (Present(met) && r.value == met.value.value)
              || (Present(meteo) && r.value == meteo.value.value)
    ensures r.Returned? ==>
              && (Present(smhi) ==> smhi.value.value.temp <= r.value.temp)
              && (Present(met) ==> met.value.value.temp <= r.value.temp)
              && (Present(meteo) ==> meteo.value.value.temp <= r.value.temp)
  {
    if smhi.Threw? || met.Threw? || meteo.Threw? then Threw(WeatherClient)
    else
      var calls := [smhi.value, met.value, meteo.value];
      var candidates := Readings(calls);
      assert Present(smhi) ==> Some(smhi.value.value) in calls;
      assert Present(met) ==> Some(met.value.value) in calls;
      assert Present(meteo) ==> Some(meteo.value.value) in calls;
      match MaxByTemp(candidates)
      case None => Threw(NoWeatherData)
      case Some(best) =>
        assert Some(best) in calls;
        Returned(best)
  }

  /** The intended service wired to the intended Open-Meteo client. */
  function GetBestWeatherIntendedFrom(
      smhiFetch: Outcome<Option<SmhiClient.Smhi>>, smhiNow: int,
      metFetch: Outcome<Option<MetClient.Met>>, metNow: int,
      meteoFetch: Outcome<Option<MeteoClient.Meteo>>, meteoNow: int,
      parseZoned: string -> Option<int>, parseLocal: string -> Option<int>): (r: Outcome<BestWeather>)
    ensures r.Returned? ==> r.value.origin in {Some("Smhi"), Some("Met Norway"), Some("Meteo")}
    ensures r.Returned? ==> r.value.timestamp.Some?
  {
    GetBestWeatherIntended(SmhiClient.GetSmhiData(smhiFetch, smhiNow, parseZoned),
                           MetClient.GetMetData(metFetch, metNow, parseZoned),
                           MeteoClient.GetMeteoDataIntended(meteoFetch, meteoNow, parseLocal))
  }

  /**
   * All three clients absent: the code reports a client failure, where its
   * documentation promises NoWeatherDataException.
   */
  lemma AllAbsentIsClientError()
    ensures GetBestWeather(Returned(None), Returned(None), Returned(None)) == Threw(WeatherClient)
    ensures GetBestWeatherIntended(Returned(None), Returned(None), Returned(None)) == Threw(NoWeatherData)
  {
  }

  /**
   * The corrected service keeps the order SMHI, Met Norway, Open-Meteo:
   * a present SMHI reading at least as warm as every other present one wins.
   */
  lemma IntendedTieGoesToEarlierProvider(a: BestWeather, met: Option<BestWeather>, meteo: Option<BestWeather>)
    requires met.Some? ==> met.value.temp <= a.temp
    requires meteo.Some? ==> meteo.value.temp <= a.temp
    ensures GetBestWeatherIntended(Returned(Some(a)), Returned(met), Returned(meteo)) == Returned(a)
  {
    var calls := [Some(a), met, meteo];
    assert calls[1..] == [met, meteo];
    var candidates := Readings(calls);
    assert candidates == [a] + Readings(calls[1..]);
    forall j | 0 <= j < |candidates|
      ensures candidates[j].temp <= a.temp
    {
      assert candidates[j] in candidates;
    }
    MaxByTempKeepsFirst(candidates, 0);
  }

  /** Only SMHI and Open-Meteo have readings: the warmer of the two, Met Norway ignored. */
  lemma IntendedSkipsAbsent(a: BestWeather, c: BestWeather)
    ensures GetBestWeatherIntended(Returned(Some(a)), Returned(None), Returned(Some(c))) ==
            Returned(if a.temp >= c.temp then a else c)
  {
    var calls: seq<Option<BestWeather>> := [Some(a), None, Some(c)];
    assert calls[1..] == [None, Some(c)] && calls[1..][1..] == [Some(c)] && calls[1..][1..][1..] == [];
    assert Readings(calls[1..][1..][1..]) == [];
    assert Readings(calls[1..][1..]) == [c];
    assert Readings(calls[1..]) == [c];
    assert Readings(calls) == [a, c];
  }
}
