# best_weather in Dafny

A model of the selection logic of best_weather, a Spring service that asks
three public forecast providers (SMHI, Met Norway and Open-Meteo) for the
weather about 24 hours from now and returns the warmest reading.

Each client is a pure function of what `Mono.block()` produced, the clock
reading it takes, and an abstract timestamp parser:

- `SmhiClient.GetSmhiData` and `MetClient.GetMetData` run the same
  nearest-timestamp loop (module `Nearest`). Entries whose time does not
  parse are skipped. The rest are ranked by `|time - (now + 24h)|`, and the
  running minimum moves only on a strictly smaller distance, so the first
  of several equally near entries is kept. The loop is given twice: as the
  recursive fold `Nearest.Closest` and as the method `Nearest.FindClosest`,
  which mirrors the Java `for`. Both are proved to pick exactly the entry
  described by the independent predicate `Nearest.IsNearest`.
- `MeteoClient.GetMeteoData` scans the hourly grid forward. It takes the
  first slot not before the target, and reads temperature and humidity at
  that same index of the parallel lists. The scan is the recursive
  `MeteoClient.FirstNotBefore` and the method `MeteoClient.ScanHourly`.
  Both are characterised by `IsFirstNotBefore` / `FailsFirstAt`.
- `BestWeatherService.GetBestWeather` models the `try` block
  (`List.of`, then `stream().max`) and its `catch (Exception)`.

Java values map to Dafny as follows:

- null becomes `Option.None`.
- A thrown exception becomes `Outcome.Threw` with a tag per exception class
  (`Outcomes.Exception`).
- `BestWeather` becomes a datatype. Its `timestamp` is kept as the instant,
  in seconds, that the string was printed from.
- `new BestWeather()` with no setter called is `Weather.Unset`.

The source documents more than the code does. The javadoc of
`getBestWeather` says it retrieves the best weather "from the available
clients" (BestWeatherService.java:42) and throws NoWeatherDataException
"if no weather data is available" (line 45). The Open-Meteo client logs
"No current weather data available." (MeteoClient.java:83 and :86). The
model follows the code: a null from any client makes the whole call fail,
NoWeatherDataException never reaches the caller, and Open-Meteo returns an
unset placeholder that competes in the maximum. All three behaviours are
proved below, and corrected versions are under "## Findings".

## Model

| member | source | states |
|---|---|---|
| `Nearest.FindClosest` | src/main/java/se/norrland/best_weather/clients/smhi/SmhiClient.java:60-74 | The Java loop (also MetClient.java lines 64-78) selects an entry with minimal absolute distance to the target among the entries whose time parses, and the first such entry on ties. It selects nothing exactly when no entry is eligible. It agrees with the functional `Closest`. |
| `Nearest.ClosestIsNearest` | src/main/java/se/norrland/best_weather/clients/smhi/SmhiClient.java:60-74 | For every k, the loop's selection is k if and only if k is the first entry of minimal distance. The selection is null if and only if no entry parses (or every entry is at least Long.MAX_VALUE away). |
| `Nearest.ScanFindsNearest` | src/main/java/se/norrland/best_weather/clients/met/MetClient.java:64-78 | From any state that satisfies the loop invariant, the rest of the loop ends at the nearest entry, or at null when there is none. |
| `Nearest.StepKeepsState` | src/main/java/se/norrland/best_weather/clients/met/MetClient.java:68-77 | One iteration keeps the invariant. An unparsable time leaves the state alone. A strictly smaller distance replaces `closestTimeSeries` and `minDifference`. |
| `Nearest.NearestIsUnique` | src/main/java/se/norrland/best_weather/clients/smhi/SmhiClient.java:67-70 | At most one entry is nearest: the strict `<` makes the first one of equal distance the only candidate. |
| `Nearest.NearerEntryWins` | src/main/java/se/norrland/best_weather/clients/smhi/SmhiClient.java:66-70 | With entries one hour before and half an hour after the target, the later entry is chosen. |
| `Nearest.TieKeepsFirst` | src/main/java/se/norrland/best_weather/clients/smhi/SmhiClient.java:67-70 | With two entries equally far on either side of the target, the first in list order is kept. |
| `Nearest.UnparsableSkipped` | src/main/java/se/norrland/best_weather/clients/smhi/SmhiClient.java:71-73 | An entry whose time fails to parse is never selected, and the scan goes on to the next one. |
| `SmhiClient.ReadParameters` | src/main/java/se/norrland/best_weather/clients/smhi/SmhiClient.java:81-90 | `temp` and `humidity` hold `values[0]` of the last parameter named "t" and "r", or 0 when no such parameter exists. The call throws IndexOutOfBounds if and only if some "t" or "r" parameter has no values. |
| `SmhiClient.HoldsLastStep` | src/main/java/se/norrland/best_weather/clients/smhi/SmhiClient.java:84-90 | Visiting one more parameter overwrites the local only for a parameter of that name. |
| `SmhiClient.GetSmhiData` | src/main/java/se/norrland/best_weather/clients/smhi/SmhiClient.java:51-102 | A thrown fetch propagates and a null body gives null. Otherwise the target is now + 24h. The result is null exactly when no entry is eligible. For the nearest entry k, the result is built from k's parameters, with k's own parsed time and origin "Smhi". |
| `SmhiClient.NoParsableTimeNoReading` | src/main/java/se/norrland/best_weather/clients/smhi/SmhiClient.java:76-79 | A series that is empty, or whose times all fail to parse, gives null. |
| `MetClient.GetMetData` | src/main/java/se/norrland/best_weather/clients/met/MetClient.java:55-98 | A thrown fetch propagates and a null body gives null. Otherwise the result is null exactly when no entry is eligible. For the nearest entry k, temperature and humidity are copied unchanged from k's instant details, with k's own parsed time and origin "Met Norway". Nothing else throws. |
| `MetClient.NoParsableTimeNoReading` | src/main/java/se/norrland/best_weather/clients/met/MetClient.java:80-83 | A timeseries that is empty, or whose times all fail to parse, gives null. |
| `MeteoClient.FirstNotBefore` | src/main/java/se/norrland/best_weather/clients/meteo/MeteoClient.java:70-81 | The scan returns m if and only if m is the first slot whose time is not before the target. It returns none if and only if every slot is before it. It throws DateTimeParse if and only if an unparsable slot is reached first. |
| `MeteoClient.ScanHourly` | src/main/java/se/norrland/best_weather/clients/meteo/MeteoClient.java:70-81 | The `for` loop with `break` has the same first-match characterisation and agrees with `FirstNotBefore`. |
| `MeteoClient.ExactTargetMatches` | src/main/java/se/norrland/best_weather/clients/meteo/MeteoClient.java:73 | A slot exactly at the target matches, because the test is `!isBefore`. |
| `MeteoClient.GetMeteoData` | src/main/java/se/norrland/best_weather/clients/meteo/MeteoClient.java:50-90 | A thrown fetch propagates and a null body gives null. Any other body never gives null. A missing `hourly`, or a null or empty list, gives the unset placeholder, and so does having no slot at or after the target. For the first matching slot m, the result is temperature and humidity at index m, the target as timestamp and origin "Meteo", or IndexOutOfBounds when m is past the end of either value list. An unparsable slot reached first throws DateTimeParse. |
| `MeteoClient.PlaceholderInsteadOfAbsence` | src/main/java/se/norrland/best_weather/clients/meteo/MeteoClient.java:60-90 | A body without `hourly` gives a non-null reading with no origin and no timestamp, where the corrected client gives null. |
| `MeteoClient.GetMeteoDataIntended` | src/main/java/se/norrland/best_weather/clients/meteo/MeteoClient.java:82-90 | Corrected client: the placeholder becomes null, every other outcome is unchanged, and any reading it returns has origin "Meteo" and the target as its timestamp. |
| `BestWeatherService.MaxByTemp` | src/main/java/se/norrland/best_weather/service/BestWeatherService.java:55-56 | The stream maximum is empty exactly for an empty list. Otherwise it is an element of the list, and no element is warmer. |
| `BestWeatherService.MaxByTempKeepsFirst` | src/main/java/se/norrland/best_weather/service/BestWeatherService.java:55-56 | The left-to-right `maxBy` reduction returns the earliest of the warmest elements. |
| `BestWeatherService.TryBlockNeverLacksData` | src/main/java/se/norrland/best_weather/service/BestWeatherService.java:49-60 | `orElseThrow` never fires on the three-element list. The block only throws a client's exception or the NullPointerException from `List.of`. |
| `BestWeatherService.GetBestWeather` | src/main/java/se/norrland/best_weather/service/BestWeatherService.java:47-68 | Every failure surfaces as WeatherClient, never NoWeatherData. The call succeeds if and only if all three clients returned a non-null reading. It then returns one of those three readings unchanged, and that reading is at least as warm as each of them. |
| `BestWeatherService.GetBestWeatherFrom` | src/main/java/se/norrland/best_weather/service/BestWeatherService.java:48-53 | With the clients wired in, a fetch that throws or returns a null body makes the whole call fail with WeatherClient. |
| `BestWeatherService.AbsentReadingFailsCall` | src/main/java/se/norrland/best_weather/service/BestWeatherService.java:49-53 | One null client result makes `List.of` throw NullPointerException, and the call ends in WeatherClient whatever the other providers returned. |
| `BestWeatherService.NoFallbackExample` | src/main/java/se/norrland/best_weather/service/BestWeatherService.java:49-66 | SMHI null with two other readings present still gives WeatherClient. |
| `BestWeatherService.WarmestReturnedUnchanged` | src/main/java/se/norrland/best_weather/service/BestWeatherService.java:55-63 | Readings of 5, 9 and 7 degrees: the 9-degree reading comes back with every field unchanged. |
| `BestWeatherService.TieGoesToEarlierProvider` | src/main/java/se/norrland/best_weather/service/BestWeatherService.java:49-56 | When SMHI is at least as warm as the others, SMHI's reading is returned, because candidates are in the order SMHI, Met Norway, Open-Meteo. |
| `BestWeatherService.PlaceholderCanWin` | src/main/java/se/norrland/best_weather/service/BestWeatherService.java:55-56 | Open-Meteo's unset placeholder competes at 0 degrees. Against two below-zero readings it is returned, with no origin and no timestamp. |
| `BestWeatherService.AllAbsentIsClientError` | src/main/java/se/norrland/best_weather/service/BestWeatherService.java:57-66 | With all three clients null, the call ends in WeatherClient, where the corrected service ends in NoWeatherData. |
| `BestWeatherService.Readings` | src/main/java/se/norrland/best_weather/service/BestWeatherService.java:49-53 | The corrected candidate list holds exactly the non-null client results. |
| `BestWeatherService.GetBestWeatherIntended` | src/main/java/se/norrland/best_weather/service/BestWeatherService.java:41-68 | Corrected service: a client exception gives WeatherClient. NoWeatherData occurs exactly when all three are null. Otherwise the result is a present reading, no present reading is warmer, and absent readings are not compared. |
| `BestWeatherService.GetBestWeatherIntendedFrom` | src/main/java/se/norrland/best_weather/service/BestWeatherService.java:47-63 | Corrected service with the corrected Open-Meteo client: every reading it returns has a provider origin and a timestamp. |
| `BestWeatherService.IntendedTieGoesToEarlierProvider` | src/main/java/se/norrland/best_weather/service/BestWeatherService.java:49-56 | The corrected service keeps the candidates in the order SMHI, Met Norway, Open-Meteo: a present SMHI reading at least as warm as every other present reading is returned, whichever of the others are null. |
| `BestWeatherService.IntendedSkipsAbsent` | src/main/java/se/norrland/best_weather/service/BestWeatherService.java:49-56 | With Met Norway null, the corrected service returns the warmer of SMHI and Open-Meteo. |

## Left out

- HTTP and Spring: WebClient construction, the GET request, `Mono.block()` and dependency injection are not modelled. What `block()` produced is a parameter: it either threw, returned null, or returned a body.
- JSON DTOs: the payload classes are not part of this model. They are mirrored as datatypes holding only the fields the clients read. Nested SMHI and Met Norway fields are assumed non-null; a null `getTimeSeries()`, `getParameters()` or `getData()` would throw NullPointerException, which the service rewraps like any other exception. Open-Meteo list elements are assumed non-null: the temperatures and humidities are integers, and the `time` strings are non-null (a null one would make `LocalDateTime.parse` throw NullPointerException, not DateTimeParseException, at MeteoClient.java:71).
- The BestWeather class is not part of this model. It is assumed to have primitive double `temp` and `humidity` fields (default 0) and String `timestamp` and `origin` fields (default null). The placeholder's 0 degrees rests on that assumption.
- java.time: ISO_ZONED_DATE_TIME and ISO_LOCAL_DATE_TIME parsing is an abstract `parse: string -> Option<int>` to seconds, one parser per format. The calendar is not modelled. Neither is the dropped zone offset, the sub-second truncation of `until(..., SECONDS)`, or the DateTimeException that `plusHours(24)` raises at LocalDateTime's maximum. `LocalDateTime.now()` is a parameter, read separately by each client.
- The clock's fraction of a second: `now` is whole seconds, while `LocalDateTime.now()` carries a fraction. Two consequences follow. First, an Open-Meteo slot at the target's whole second matches in the model, while Java skips it whenever the fraction is non-zero (the `isBefore` test at MeteoClient.java:73). Second, the Open-Meteo timestamp (MeteoClient.java:75) loses the fraction.
- Long arithmetic: distances are unbounded integers. `until` and `Math.abs` cannot overflow for LocalDateTime values, so this loses nothing. The Long.MAX_VALUE start of `minDifference` is kept.
- Timestamp strings: `LocalDateTime.toString()` formatting is not modelled. A timestamp is the instant it prints.
- Floating point: temperatures and humidities are `real`. The NaN and -0.0 ordering of `Double.compare` is not modelled. Open-Meteo's int-to-double cast is exact.
- Logging: it does not affect control flow.
- GlobalExceptionHandler and the HTTP status mapping: not modelled. The two exception classes are the tags `NoWeatherData` and `WeatherClient`.
- BestWeatherService.MaxByTempKeepsFirst: Stream.max documents only maximality. The tie rule is the JDK's left-to-right `BinaryOperator.maxBy` reduction, which the model follows.

## Findings

| source | as written | input that shows it | evidently intended | confidence | as-written member | corrected member |
|---|---|---|---|---|---|---|
| src/main/java/se/norrland/best_weather/service/BestWeatherService.java:49-53 | `List.of` rejects a null client result, so one provider without data makes the whole call fail with WeatherClientException | SMHI returns null (no entry parses) while Met Norway and Open-Meteo return readings | leave null results out and return the warmest of the rest | not executed; medium | `BestWeatherService.NoFallbackExample` | `BestWeatherService.GetBestWeatherIntended` |
| src/main/java/se/norrland/best_weather/service/BestWeatherService.java:55-66 | the NoWeatherDataException branch, documented on line 45, can never fire on a three-element list, and `catch (Exception)` would rewrap it as WeatherClientException anyway | all three clients return null | NoWeatherDataException reaches the caller when no provider has data | not executed; medium | `BestWeatherService.AllAbsentIsClientError` | `BestWeatherService.GetBestWeatherIntended` |
| src/main/java/se/norrland/best_weather/clients/meteo/MeteoClient.java:60-90 | with no usable data the client logs "No current weather data available." yet returns a `new BestWeather()` with no field set, and that placeholder competes at 0 degrees | a body without `hourly`, with SMHI and Met Norway below zero | return null, as the SMHI and Met Norway clients do | not executed; medium | `BestWeatherService.PlaceholderCanWin` | `MeteoClient.GetMeteoDataIntended` |
