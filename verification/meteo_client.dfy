/**
 * MeteoClient.getMeteoData: scans the hourly grid forward for the first
 * slot not before 24 hours from now and reads temperature and humidity
 * at the same index.
 */
module MeteoClient {
  import opened Outcomes
  import opened Weather

  /** The `hourly` block: three parallel lists, each possibly null. */
  datatype Hourly = Hourly(
    time: Option<seq<string>>,
    temperature2m: Option<seq<int>>,
    relativeHumidity2m: Option<seq<int>>)

  /** The Open-Meteo payload. */
  datatype Meteo = Meteo(hourly: Option<Hourly>)

  /** The guards on lines 62 and 68: `hourly` and its three lists are non-null and non-empty. */
  predicate HasSeries(meteo: Meteo) {
    && meteo.hourly.Some?
    && meteo.hourly.value.time.Some? && |meteo.hourly.value.time.value| > 0
    && meteo.hourly.value.temperature2m.Some? && |meteo.hourly.value.temperature2m.value| > 0
    && meteo.hourly.value.relativeHumidity2m.Some? && |meteo.hourly.value.relativeHumidity2m.value| > 0
  }

  /** Slot `j` parses and `time.isBefore(target)`. */
  ghost predicate IsBefore(times: seq<string>, parse: string -> Option<int>, target: int, j: int)
    requires 0 <= j < |times|
  {
    parse(times[j]).Some? && parse(times[j]).value < target
  }

  /** Every slot from `from` up to (not including) `j` is before the target. */
  ghost predicate AllBefore(times: seq<string>, parse: string -> Option<int>, target: int, from: int, j: int)
    requires 0 <= from && j <= |times|
  {
    forall k :: from <= k < j ==> IsBefore(times, parse, target, k)
  }

  /** Slot `m` is the first from `from` on whose time is not before the target. */
  ghost predicate IsFirstNotBefore(times: seq<string>, parse: string -> Option<int>, target: int, from: int, m: int) {
    && 0 <= from <= m < |times|
    && parse(times[m]).Some? && !IsBefore(times, parse, target, m)
    && AllBefore(times, parse, target, from, m)
  }

  /** Slot `m` does not parse and is reached: every slot from `from` before it is before the target. */
  ghost predicate FailsFirstAt(times: seq<string>, parse: string -> Option<int>, target: int, from: int, m: int) {
    && 0 <= from <= m < |times|
    && parse(times[m]).None? && !IsBefore(times, parse, target, m)
    && AllBefore(times, parse, target, from, m)
  }

  /**
   * The `for` loop from slot `i` on: the first slot not before the target,
   * None when the loop runs out, or the DateTimeParseException of the
   * first unparsable slot it reaches.
   */
  function FirstNotBefore(times: seq<string>, parse: string -> Option<int>, target: int, i: nat)
      : (r: Outcome<Option<nat>>)
    requires i <= |times|
    ensures r.Threw? ==> r.ex == DateTimeParse
    ensures r == Returned(None) <==> AllBefore(times, parse, target, i, |times|)
    ensures forall m :: r == Returned(Some(m)) <==> IsFirstNotBefore(times, parse, target, i, m)
    ensures forall m :: FailsFirstAt(times, parse, target, i, m) ==> r == Threw(DateTimeParse)
    ensures r.Threw? ==> exists m :: FailsFirstAt(times, parse, target, i, m)
    decreases |times| - i
  {
    if i == |times| then Returned(None)
    else match parse(times[i])
      case None =>
        assert FailsFirstAt(times, parse, target, i, i) && !IsBefore(times, parse, target, i);
        Threw(DateTimeParse)
      case Some(time) =>
        if time >= target then
          assert IsFirstNotBefore(times, parse, target, i, i) && !IsBefore(times, parse, target, i);
          Returned(Some(i))
        else
          assert IsBefore(times, parse, target, i);
          var next := i + 1;
          assert forall m :: FailsFirstAt(times, parse, target, i, m) <==> FailsFirstAt(times, parse, target, next, m);
          FirstNotBefore(times, parse, target, next)
  }

  /** The `for` loop with its `break`, statement by statement. */
  method ScanHourly(times: seq<string>, parse: string -> Option<int>, target: int)
      returns (r: Outcome<Option<nat>>)
    ensures r.Threw? ==> r.ex == DateTimeParse
    ensures r == Returned(None) <==> AllBefore(times, parse, target, 0, |times|)
    ensures forall m :: r == Returned(Some(m)) <==> IsFirstNotBefore(times, parse, target, 0, m)
    ensures r == FirstNotBefore(times, parse, target, 0)
  {
    var i := 0;
    while i < |times|
      invariant 0 <= i <= |times|
      invariant AllBefore(times, parse, target, 0, i)
    {
      var time := parse(times[i]);
      if time.None? {
        assert FailsFirstAt(times, parse, target, 0, i) && !IsBefore(times, parse, target, i);
        return Threw(DateTimeParse);
      }
      if time.value >= target {
        assert IsFirstNotBefore(times, parse, target, 0, i) && !IsBefore(times, parse, target, i);
        return Returned(Some(i));
      }
      i := i + 1;
    }
    r := Returned(None);
  }

  /**
   * getMeteoData, given what `mono.block()` produced, the clock reading and
   * the ISO local date-time parser.
   */
  function GetMeteoData(fetched: Outcome<Option<Meteo>>, now: int, parse: string -> Option<int>)
      : (r: Outcome<Option<BestWeather>>)
    ensures fetched.Threw? ==> r == Threw(fetched.ex)
    ensures fetched == Returned(None) ==> r == Returned(None)
    ensures fetched.Returned? && fetched.value.Some? && r.Returned? ==> r.value.Some?
    ensures r.Threw? ==> fetched.Threw? || r.ex == DateTimeParse || r.ex == IndexOutOfBounds
    ensures r.Returned? && r.value.Some? ==> r.value.value == Unset || r.value.value.origin == Some("Meteo")
    ensures fetched.Returned? && fetched.value.Some? && !HasSeries(fetched.value.value) ==>
              r == Returned(Some(Unset))
    ensures fetched.Returned? && fetched.value.Some? && HasSeries(fetched.value.value) ==>
              var hourly := fetched.value.value.hourly.value;
              var times := hourly.time.value;
              var temperatures := hourly.temperature2m.value;
              var humidities := hourly.relativeHumidity2m.value;
              var target := now + 24 * 3600;
              && (AllBefore(times, parse, target, 0, |times|) ==> r == Returned(Some(Unset)))
              && (forall m :: FailsFirstAt(times, parse, target, 0, m) ==> r == Threw(DateTimeParse))
              && (forall m :: IsFirstNotBefore(times, parse, target, 0, m) ==>
                    if m < |temperatures| && m < |humidities| then
                      r == Returned(Some(BestWeather(temperatures[m] as real, humidities[m] as real,
                                                     Some(target), Some("Meteo"))))
                    else
                      r == Threw(IndexOutOfBounds))
  {
    match fetched
    case Threw(e) => Threw(e)
    case Returned(None) => Returned(None)
    case Returned(Some(meteo)) =>
      if !HasSeries(meteo) then Returned(Some(Unset))
      else
        var hourly := meteo.hourly.value;
        var temperatures := hourly.temperature2m.value;
        var humidities := hourly.relativeHumidity2m.value;
        match FirstNotBefore(hourly.time.value, parse, Target(now), 0)
        case Threw(e) => Threw(e)
        case Returned(None) => Returned(Some(Unset))
        case Returned(Some(m)) =>
          if m < |temperatures| && m < |humidities| then
            Returned(Some(BestWeather(temperatures[m] as real, humidities[m] as real,
                                      Some(Target(now)), Some("Meteo"))))
          else Threw(IndexOutOfBounds)
  }

  /** A slot exactly at the target matches (`!isBefore`), whatever follows it. */
  lemma ExactTargetMatches(times: seq<string>, parse: string -> Option<int>, target: int, m: int)
    requires 0 <= m < |times| && parse(times[m]) == Some(target)
    requires forall k :: 0 <= k < m ==> parse(times[k]).Some? && parse(times[k]).value < target
    ensures FirstNotBefore(times, parse, target, 0) == Returned(Some(m))
  {
  }

  /**
   * getMeteoData returning null, as the other two clients do, when it has
   * no reading instead of the unset placeholder.
   */
  function GetMeteoDataIntended(fetched: Outcome<Option<Meteo>>, now: int, parse: string -> Option<int>)
      : (r: Outcome<Option<BestWeather>>)
    ensures r.Returned? && r.value.Some? ==>
              r.value.value.origin == Some("Meteo") && r.value.value.timestamp == Some(now + 24 * 3600)
    ensures GetMeteoData(fetched, now, parse) == Returned(Some(Unset)) ==> r == Returned(None)
    ensures GetMeteoData(fetched, now, parse) != Returned(Some(Unset)) ==> r == GetMeteoData(fetched, now, parse)
  {
    match GetMeteoData(fetched, now, parse)
    case Returned(Some(reading)) => if reading == Unset then Returned(None) else Returned(Some(reading))
    case other => other
  }

  /** Without an hourly block the client returns a reading with no origin and no time. */
  lemma PlaceholderInsteadOfAbsence(now: int, parse: string -> Option<int>)
    ensures GetMeteoData(Returned(Some(Meteo(None))), now, parse) == Returned(Some(Unset))
    ensures Unset.origin.None? && Unset.timestamp.None?
    ensures GetMeteoDataIntended(Returned(Some(Meteo(None))), now, parse) == Returned(None)
  {
  }
}
