/** The `POST` handler of the tasks endpoint: the gate decides between a
    skip and extraction, and anything the service throws inside the `try`
    becomes a 400. Reading the JSON body, the logger itself and the Notion
    synchronisation that the accepted task is handed to are outside this model. */
module Route {
  import opened Wrappers
  import opened Consts
  import opened BacklogService

  /** The answers: an exception that escapes the handler, `400 Bad Request`,
      `Skipped`, and `OK` together with the record handed on for synchronisation. */
  datatype Response = Unhandled | BadRequest | Skipped | Accepted(task: Task)

  /** The handler on an already decoded body (`None` for a JSON `null`).
      Logging `reqBody.content` happens before the `try`, so a `null` body
      throws there and is not turned into a 400. */
  function Respond(body: Option<Webhook>, now: int, parse: string -> Option<int>): (r: Response)
    ensures r.Unhandled? <==> body.None?
    ensures r.BadRequest? <==> body.Some? && Validate(body).Err?
    ensures r.Skipped? <==> Validate(body) == Ok(false)
    ensures r.Accepted? <==> Validate(body) == Ok(true)
    ensures r.Accepted? ==> ExtractTaskInfo(body.value, now, parse) == Ok(r.task)
  {
    if body.None? then Unhandled
    else
      match Validate(body)
      case Err(_) => BadRequest
      case Ok(inScope) =>
        if !inScope then Skipped
        else
          match ExtractTaskInfo(body.value, now, parse)
          case Err(_) => BadRequest
          case Ok(task) => Accepted(task)
  }
}
