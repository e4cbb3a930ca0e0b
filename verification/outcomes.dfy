/**
 * Failure-carrying values shared by the weather clients and the service:
 * Java's null becomes `None`, and a thrown exception becomes `Threw`.
 */
module Outcomes {

  /** A reference that may be null. */
  datatype Option<+T> = None | Some(value: T)

  /** The Java exceptions the model tells apart, one tag per class. */
  datatype Exception =
    | Transport          // an error rethrown by Mono.block() (HTTP status, decoding)
    | NullPointer        // List.of given a null element
    | IndexOutOfBounds   // List.get past the end of a list
    | DateTimeParse      // a timestamp LocalDateTime.parse rejects, left uncaught
    | NoWeatherData      // NoWeatherDataException
    | WeatherClient      // WeatherClientException

  /** The result of a Java call: either it returned a value or it threw. */
  datatype Outcome<+T> = Returned(value: T) | Threw(ex: Exception)
}
