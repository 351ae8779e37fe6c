/**
 * The entities both import handlers work on: the incoming request, the
 * payloads the remote project-management service answers with, the
 * outcome of one remote call, and the handler's reply.
 */
module Domain {
  import opened Js

  /** The identifier-bearing fields of one JSON object in a payload. */
  datatype Fields = Fields(ganttId: JsVal, id: JsVal, projectId: JsVal)

  const NoFields := Fields(Undefined, Undefined, Undefined)

  /** A parsed response body, reduced to the fields the handlers read:
      `data.*`, `item.*` and the top-level `projectId`, `id`, `ganttId`.
      A `data` or `item` that is absent or not an object is `None`. */
  datatype Json =
    | JNull
    | JObject(data: Option<Fields>, item: Option<Fields>, top: Fields)

  function Sub(o: Option<Fields>): Fields {
    if o.Some? then o.value else NoFields
  }

  /** `j?.data?.<f>`: every field reads as `undefined` when a link is missing. */
  function DataOf(j: Json): Fields {
    if j.JObject? then Sub(j.data) else NoFields
  }

  /** `j?.item?.<f>` */
  function ItemOf(j: Json): Fields {
    if j.JObject? then Sub(j.item) else NoFields
  }

  /** `j?.<f>` for the top-level fields */
  function TopOf(j: Json): Fields {
    if j.JObject? then j.top else NoFields
  }

  /** The outcome of one remote call: either the call (or reading its body)
      threw, or a response arrived with an HTTP status and a parsed body. */
  datatype Outcome = Fault | Response(status: int, body: Json) {
    /** `response.ok` of the Fetch standard: a status in 200..299. */
    predicate Ok() {
      Response? && 200 <= status <= 299
    }
  }

  /** One task of the work breakdown. `parentSection` is "" when the field
      is absent or empty (both are falsy). `isSection` is the truthiness of
      the field. */
  datatype Task = Task(name: string, hours: real, isSection: bool, parentSection: string)

  /** The request body. `tasks` is `None` when the field is absent or is
      not an array. */
  datatype Request = Request(projectName: JsVal, tasks: Option<seq<Task>>)

  /** What the handler answers. */
  datatype Reply =
    | BadRequest                        // 400, checked before any remote call
    | ProjectRejected(status: int)      // the remote status of a refused project
    | NoProjectId                       // 500, no identifier in the project payload
    | ServerError                       // 500, an exception reached the outer catch
    | Imported(projectId: JsVal, tasksCreated: nat)   // 200, success: true
}
