/** The HTTP vocabulary both services share: the outcome of an outbound request
    and the action results a controller returns. */
module Http {
  import opened Common

  /** What an outbound request produced: a response with a status code, or no
      response at all (`HttpRequestException`: connection refused, DNS failure, ...). */
  datatype HttpOutcome = Responded(status: int) | NoResponse

  /** `HttpResponseMessage.IsSuccessStatusCode`: the status is in 200..299. */
  predicate IsSuccessStatusCode(status: int)
  {
    200 <= status <= 299
  }

  /** `EnsureSuccessStatusCode()` does not throw. */
  predicate Succeeded(o: HttpOutcome)
  {
    o.Responded? && IsSuccessStatusCode(o.status)
  }

  /** The `IActionResult`s the two controllers build, with a body of type `T`. */
  datatype ActionResult<T> =
    | Ok(value: T)                                                // OkObjectResult
    | NotFound                                                    // NotFoundResult
    | NoContent                                                   // NoContentResult
    | CreatedAtAction(actionName: string, routeId: Id, value: T)  // CreatedAtActionResult
    | StatusCode(code: int, value: T)                             // ObjectResult with an explicit status

  /** The HTTP status code the client sees for an action result. */
  function StatusOf<T>(r: ActionResult<T>): int
  {
    match r
    case Ok(_) => 200
    case NotFound => 404
    case NoContent => 204
    case CreatedAtAction(_, _, _) => 201
    case StatusCode(code, _) => code
  }
}
