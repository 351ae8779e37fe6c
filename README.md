# GanttPro task-hierarchy import, modelled in Dafny

The repository receives a project name and an ordered list of tasks from a
cost calculator. It creates a project in GanttPro and then creates the
tasks one by one. Some tasks are sections (grouping tasks) and the rest are
leaf work items with an hour estimate. A leaf may name an earlier section as
its parent. The handler keeps a table from section name to the remote
identifier of each section created so far, so that later tasks can be
linked to it.

The logic exists in two diverging handlers, and each is modelled on its own:

- `ApiGanttPro` models `api/ganttpro.js`. It skips zero-hour leaves and
  sends `duration = max(1, hours)`, or 0 for a section. Only leaves get a
  parent. It reads identifiers through long `||` chains. A task whose call
  throws is logged and the loop goes on. Every other task is counted,
  whatever its HTTP status.
- `GanttPro` models `ganttpro.js`. It submits every task with
  `estimation = hours * 60`, marks sections `type: 'project'` and links
  sections as well as leaves. It counts only ok responses. It has no
  per-task `try`, so an exception on any task ends the import with a 500.

Shared modules:

- `Js` holds JavaScript truthiness, `||` (`Or`) and the first-truthy
  reading of an `||` chain (`FirstTruthy`).
- `Domain` holds the request, the payload fields the handlers read, the
  outcome of a remote call and the handler's reply.
- `SectionRegistry` holds the name → id table and proves that its updates
  are last-write-wins.

The remote service is an oracle. `projectReply` is the outcome of the
create-project call. `reply(i)` is the outcome of the create-task call for
the task at position i. An outcome is `Fault` when the call or the reading
of its body threw; otherwise it is `Response(status, body)`, and it is ok
when the status is in 200..299. Each `Import` method returns three things:
the reply, the name sent to create the project (`None` when no remote call
is made), and the create-task requests it issued.

Each loop is a `method` whose invariants tie the running table, counter and
request list to specification functions defined from the task history.
`RegistryBefore` replays the table writes of the tasks before a position.
`RequestFor` gives the request built for one task. `CreatedCount` and
`AcceptedCount` count tasks. `FirstAbort` finds the first aborting task.
The properties are proved about these functions.

Policies the code fixes, and the model with it:

- A later section with the same name overwrites the earlier entry of the
  table (api/ganttpro.js:106, ganttpro.js:89).
- Durations and estimates are not rounded. `api/ganttpro.js` sends `max(1, hours)`
  as `duration`, in hours rather than minutes.
- `ganttpro.js` accepts an empty task list and answers 200 with a count of 0.
- `api/ganttpro.js` does not look at the HTTP status of the project call or
  of the task calls.

## Model

| member | source | states |
|---|---|---|
| `Js.Or` | api/ganttpro.js:47-54 | JavaScript's or-operator is truthy exactly when one operand is, and yields one of its operands |
| `Js.FirstTruthy` | api/ganttpro.js:47-54 | a chain of or-operators yields the first truthy operand, so no later operand is consulted; with none truthy it yields the last operand (`undefined` for none) |
| `Js.FirstTruthySnoc` | api/ganttpro.js:47-54 | appending an operand to a left-nested or-chain is one more `Or` on the first-truthy value |
| `ApiGanttPro.ProjectIdPrecedence` | api/ganttpro.js:47-54 | the project id is the first truthy of `data.ganttId`, `data.id`, `item.projectId`, `item.id`, `projectId`, `id`, `ganttId`, in that order |
| `ApiGanttPro.SectionIdPrecedence` | api/ganttpro.js:99-103 | a section's id is the first truthy of `data.id`, `data.ganttId`, `item.id`, `id`, in that order |
| `ApiGanttPro.RequestFor` | api/ganttpro.js:70-83 | no request exactly for a zero-hour leaf; sections are never skipped; a section's duration is 0 and it has no parent; a leaf's duration is exactly the larger of 1 and its hours |
| `ApiGanttPro.CreatedCount` | api/ganttpro.js:68-115 | the counter never exceeds the number of tasks walked |
| `ApiGanttPro.Import` | api/ganttpro.js:26-122 | a falsy name or a missing or empty task list gives 400 with no remote call; a thrown project call gives 500; no truthy project id gives 500 with no task request; otherwise 200 with the chosen id, one entry per task equal to `RequestFor`, and a count of non-skipped tasks whose call did not throw, at most the task count |
| `ApiGanttPro.ParentFromEarlierSection` | api/ganttpro.js:81-82 | a leaf with a non-empty `parentSection` gets a parent exactly when an earlier section of that name registered an id; the parent is the truthy id of the last such section; sections never get a parent |
| `ApiGanttPro.ForwardReferenceNotLinked` | api/ganttpro.js:81-82 | a task naming a section that only appears later in the list gets no parent |
| `ApiGanttPro.LeafOutcomeIsolated` | api/ganttpro.js:73-114 | whatever happens to one leaf's call, every request issued for the other tasks is unchanged (continue-on-error) |
| `ApiGanttPro.CountIgnoresStatus` | api/ganttpro.js:94-110 | two runs whose calls throw at the same positions count the same, whatever the HTTP statuses |
| `ApiGanttPro.CountWithoutFaults` | api/ganttpro.js:70-115 | when no call throws, the count is the number of tasks minus the skipped zero-hour leaves |
| `ApiGanttPro.SiteLaunchExample` | api/ganttpro.js:67-115 | worked run: "Design" registered, "Wireframe" linked to it with duration 4, "Dev" registered, "API" skipped, 3 tasks counted |
| `SectionRegistry.ReplayIsLastWrite` | api/ganttpro.js:98-107 | a name is registered exactly when some task wrote it, and it maps to what the last such task wrote (a later section of the same name overwrites) |
| `SectionRegistry.RegisteredIdsTruthy` | api/ganttpro.js:81 | when only truthy ids are written, the truthiness test on `table[name]` is exactly a membership test |
| `GanttPro.ProjectIdPrecedence` | ganttpro.js:47 | the project id is `item.projectId` if truthy, else the top-level `projectId` |
| `GanttPro.RequestFor` | ganttpro.js:58-72 | the request for a task carries its name and the project id, the estimate is the hours in minutes, and `type: 'project'` is set exactly for sections |
| `GanttPro.FirstAbort` | ganttpro.js:74-92 | the first position whose call throws, or whose ok response parses to `null`, with no earlier such position |
| `GanttPro.AcceptedCount` | ganttpro.js:83-85 | `createdTasks.length` never exceeds the number of tasks walked |
| `GanttPro.CreateTasks` | ganttpro.js:54-101 | requests are issued for every task up to and including the first aborting one; an abort yields 500, otherwise 200 with the count of ok responses, at most the task count |
| `GanttPro.Import` | ganttpro.js:22-105 | a falsy name or a non-array task list gives 400 with no remote call; a thrown project call gives 500; a non-ok project status is passed back with no task request; a null project body or no truthy project id gives 500 with no task request; otherwise the task loop's outcome |
| `GanttPro.ParentFromEarlierSection` | ganttpro.js:65-67 | any task, section or leaf, with a non-empty `parentSection` gets a parent exactly when an earlier section of that name got an ok response with a truthy `item.id`; the parent is the id of the last such section |
| `GanttPro.ForwardReferenceNotLinked` | ganttpro.js:65-67 | a task naming a section that only appears later in the list gets no parent |
| `GanttPro.RejectedTaskTolerated` | ganttpro.js:83-93 | turning one accepted task's response into a non-ok one stops nothing and lowers the count by exactly one |
| `GanttPro.AcceptedPrefix` | ganttpro.js:83-85 | `createdTasks.length` after k tasks depends only on the responses to those k tasks |

## Left out

- HTTP method gating (OPTIONS, 405), CORS headers and reading
  `GANTTPRO_API_KEY` from the environment are transport and configuration
  plumbing. They are not modelled.
- `fetch`, the URLs, the headers, and JSON serialisation and parsing are
  replaced by the outcome oracle. `async`/`await` become sequential steps.
- `console.log`/`console.error` and the human-readable `message`, `error`,
  `details` and `raw` texts of the replies are not modelled. A reply
  carries only its kind, the project id and the count.
- Numbers are exact: `hours` is a `real` and ids are integers or strings.
  IEEE-754 rounding of `hours * 60`, NaN for an absent `hours` and
  non-integer numeric ids are not modelled. `hours` is assumed present.
- Payloads keep only the fields the handlers read. A `data` or `item` that
  is not an object reads every field as `undefined`.
- A task's `name` is assumed to be a string. `parentSection` is a string,
  with "" standing for absent or empty.
- The registry is a map with no inherited keys. The JavaScript object `{}`
  that holds it also answers prototype names such as `constructor`, and
  that is not modelled.
- `ApiGanttPro.Import`: a `tasks` value that is not an array but has a
  truthy `length` (a string, an array-like object) is not modelled. Nor is
  a missing request body, which throws outside the handler's `try`.
- `ApiGanttPro.Import`: a `null` element of `tasks` throws at
  api/ganttpro.js:71, before the per-task `try`. The outer `catch` answers
  500 and the later tasks are not attempted. A task is always an object in
  the model, so this path is not modelled.
- `GanttPro.Import`: a `null` element of `tasks` throws at ganttpro.js:60
  when the request body is built. The handler then answers 500 and the
  later tasks are not attempted. This is not modelled, for the same reason.
- `GanttPro.Import`: a missing request body throws inside the handler's
  `try` at ganttpro.js:22, which answers 500. The model's request always
  has a body, so this path is not modelled.
- `GanttPro.CreateTasks`: `createdTasks` holds the whole parsed body of
  each accepted response. The source pushes `taskData.item || taskData`.
  Only the array's length is ever read.
