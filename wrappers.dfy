/** Option and Result types, and the error kinds the schedule server raises. */
module Wrappers {

  datatype Option<+T> = None | Some(value: T)

  /** The three kinds of failure the model distinguishes (the source raises ValueError for each); a failed crontab write is not modelled. */
  datatype Error =
    | InvalidExpression   // neither a five-field cron string nor a known phrase
    | InvalidLine         // a crontab line with fewer than six tokens
    | InvalidArgument     // a delete request with neither a command nor a comment filter

  datatype Result<+T> = Ok(value: T) | Err(error: Error)

  /** Python truthiness of an optional string filter: None and "" both count as absent. */
  function Given(o: Option<string>): (b: bool)
    ensures !b <==> o == None || o == Some("")
  {
    o.Some? && o.value != ""
  }
}
