/**
 * The import handler of ganttpro.js: validate the request, create the
 * project (a non-ok status is passed back to the caller), then submit
 * every task in order with its estimate in minutes, linking any task to a
 * section created earlier. A non-ok task response is logged and skipped
 * over, but there is no per-task `try`: an exception while creating any
 * task ends the whole import with a 500.
 *
 * As in ApiGanttPro, `projectReply` is the outcome of the create-project
 * call and `reply(i)` the outcome of the call for the task at position i.
 */
module GanttPro {
  import opened Js
  import opened Domain
  import opened SectionRegistry

  /** `projectData.item?.projectId || projectData.projectId` */
  function ProjectId(j: Json): JsVal {
    Or(ItemOf(j).projectId, TopOf(j).projectId)
  }

  lemma ProjectIdPrecedence(j: Json)
    ensures ProjectId(j) == FirstTruthy([ItemOf(j).projectId, TopOf(j).projectId])
  {
    var p := [ItemOf(j).projectId, TopOf(j).projectId];
    FirstTruthySnoc(p[..1], p[1]);
    assert p[..1] + [p[1]] == p;
  }

  /** `!projectName || !tasks || !Array.isArray(tasks)`: an empty array is
      accepted. */
  predicate Rejects(req: Request) {
    !Truthy(req.projectName) || req.tasks.None?
  }

  /** The body of a create-task request: `projectId`, `name`,
      `estimation`, the optional `parent`, and `type: 'project'` when
      `isGroup` holds. */
  datatype TaskBody = TaskBody(projectId: JsVal, name: string, estimation: real,
                               parent: Option<JsVal>, isGroup: bool)

  /** The request body built for a task, given the registry at that point.
      Sections are linked to their parent as well as leaves. */
  function BodyFor(t: Task, pid: JsVal, reg: Registry): TaskBody {
    var parent := if t.parentSection != "" && Truthy(Lookup(reg, t.parentSection))
                  then Some(Lookup(reg, t.parentSection)) else None;
    TaskBody(pid, t.name, t.hours * 60.0, parent, t.isSection)
  }

  /** An outcome that throws out of the task loop: the call itself failed,
      or an ok response parsed to `null`, on which `taskData.item` throws. */
  predicate Aborts(o: Outcome) {
    o.Fault? || (o.Ok() && o.body.JNull?)
  }

  /** An outcome that pushes onto `createdTasks`. */
  predicate Accepted(o: Outcome) {
    o.Ok() && o.body.JObject?
  }

  /** What a task stores in the registry: only a section whose response is
      ok and carries a truthy `item.id`. */
  function Written(t: Task, o: Outcome): Option<JsVal> {
    if t.isSection && o.Ok() && Truthy(ItemOf(o.body).id)
    then Some(ItemOf(o.body).id) else None
  }

  function RegistryBefore(tasks: seq<Task>, reply: nat -> Outcome, k: nat): Registry
    requires k <= |tasks|
  {
    Replay(Entries(tasks, reply, Written)[..k])
  }

  /** The request issued for the task at position i, if the loop gets there. */
  function RequestFor(tasks: seq<Task>, pid: JsVal, reply: nat -> Outcome, i: nat): (b: TaskBody)
    requires i < |tasks|
    ensures b.name == tasks[i].name && b.projectId == pid
    ensures b.estimation / 60.0 == tasks[i].hours
    ensures b.isGroup <==> tasks[i].isSection
    ensures b.parent.Some? ==> tasks[i].parentSection != ""
  {
    BodyFor(tasks[i], pid, RegistryBefore(tasks, reply, i))
  }

  /** The requests issued for the first k tasks, one per task, in order. */
  function RequestsUpTo(tasks: seq<Task>, pid: JsVal, reply: nat -> Outcome, k: nat): (rs: seq<TaskBody>)
    requires k <= |tasks|
    ensures |rs| == k
  {
    if k == 0 then [] else RequestsUpTo(tasks, pid, reply, k - 1) + [RequestFor(tasks, pid, reply, k - 1)]
  }

  /** The position of the first task whose call aborts the import, among
      the first k. */
  function FirstAbort(reply: nat -> Outcome, k: nat): (r: Option<nat>)
    ensures r.Some? ==> r.value < k && Aborts(reply(r.value)) &&
                        forall j :: 0 <= j < r.value ==> !Aborts(reply(j))
    ensures r.None? ==> forall j :: 0 <= j < k ==> !Aborts(reply(j))
  {
    if k == 0 then None
    else if FirstAbort(reply, k - 1).Some? then FirstAbort(reply, k - 1)
    else if Aborts(reply(k - 1)) then Some(k - 1)
    else None
  }

  /** The first aborting position is the same however far one looks past it. */
  lemma FirstAbortAt(reply: nat -> Outcome, i: nat, n: nat)
    requires i < n && FirstAbort(reply, i).None? && Aborts(reply(i))
    ensures FirstAbort(reply, n) == Some(i)
  {
  }

  /** `createdTasks.length` after the first k tasks (when none aborted). */
  function AcceptedCount(reply: nat -> Outcome, k: nat): (n: nat)
    ensures n <= k
  {
    if k == 0 then 0
    else AcceptedCount(reply, k - 1) + (if Accepted(reply(k - 1)) then 1 else 0)
  }

  /** The outcome of the task loop: the requests issued up to and including
      the first aborting task (all of them when none aborts), and either a
      500 or the count of accepted tasks. */
  predicate TaskLoopRan(tasks: seq<Task>, pid: JsVal, reply: nat -> Outcome,
                        r: Reply, requests: seq<TaskBody>)
  {
    var stop := FirstAbort(reply, |tasks|);
    && |requests| == (if stop.Some? then stop.value + 1 else |tasks|)
    && requests == RequestsUpTo(tasks, pid, reply, |requests|)
    && r == (if stop.Some? then ServerError else Imported(pid, AcceptedCount(reply, |tasks|)))
  }

  /** A loop that stops at the first aborting task has run as specified. */
  lemma AbortEndsLoop(tasks: seq<Task>, pid: JsVal, reply: nat -> Outcome, i: nat, requests: seq<TaskBody>)
    requires i < |tasks| && FirstAbort(reply, i).None? && Aborts(reply(i))
    requires requests == RequestsUpTo(tasks, pid, reply, i + 1)
    ensures TaskLoopRan(tasks, pid, reply, ServerError, requests)
  {
    FirstAbortAt(reply, i, |tasks|);
  }

  /** Step 2 of the handler: the task loop, for a project already created
      with identifier `pid`. */
  method CreateTasks(tasks: seq<Task>, pid: JsVal, reply: nat -> Outcome)
    returns (r: Reply, requests: seq<TaskBody>)
    ensures TaskLoopRan(tasks, pid, reply, r, requests)
    ensures r.Imported? ==> r.tasksCreated <= |requests| == |tasks|
  {
    requests := [];
    var createdTasks: seq<Json> := [];
    var parentMap: Registry := map[];
    var i := 0;
    while i < |tasks|
      invariant 0 <= i <= |tasks|
      invariant FirstAbort(reply, i).None?
      invariant parentMap == RegistryBefore(tasks, reply, i)
      invariant |createdTasks| == AcceptedCount(reply, i)
      invariant requests == RequestsUpTo(tasks, pid, reply, i)
    {
      var task := tasks[i];
      ReplayStep(Entries(tasks, reply, Written), i);
      var taskBody := BodyFor(task, pid, parentMap);
      requests := requests + [taskBody];
      var taskResponse := reply(i);
      if taskResponse.Fault? {
        AbortEndsLoop(tasks, pid, reply, i, requests);
        return ServerError, requests;
      }
      if taskResponse.Ok() {
        var taskData := taskResponse.body;
        if taskData.JNull? {
          AbortEndsLoop(tasks, pid, reply, i, requests);
          return ServerError, requests;
        }
        createdTasks := createdTasks + [taskData];
        if task.isSection && Truthy(ItemOf(taskData).id) {
          parentMap := parentMap[task.name := ItemOf(taskData).id];
        }
      }
      i := i + 1;
    }
    return Imported(pid, |createdTasks|), requests;
  }

  /** The handler. `projectCall` is the name sent to create the project
      (`None` when no remote call is made); `requests` are the create-task
      requests in the order they were issued. */
  method Import(req: Request, projectReply: Outcome, reply: nat -> Outcome)
    returns (r: Reply, projectCall: Option<JsVal>, requests: seq<TaskBody>)
    ensures r == BadRequest <==> Rejects(req)
    ensures projectCall == (if Rejects(req) then None else Some(req.projectName))
    ensures !Rejects(req) && projectReply.Fault? ==> r == ServerError && requests == []
    ensures !Rejects(req) && projectReply.Response? && !projectReply.Ok() ==>
              r == ProjectRejected(projectReply.status) && requests == []
    ensures !Rejects(req) && projectReply.Ok() && projectReply.body.JNull? ==>
              r == ServerError && requests == []
    ensures !Rejects(req) && projectReply.Ok() && projectReply.body.JObject? ==>
              (!Truthy(ProjectId(projectReply.body)) <==> r == NoProjectId) &&
              (r == NoProjectId ==> requests == [])
    ensures r.ProjectRejected? ==> !(200 <= r.status <= 299)
    ensures r.Imported? || (r == ServerError && requests != []) ==>
              && !Rejects(req) && projectReply.Ok()
              && Truthy(ProjectId(projectReply.body))
              && TaskLoopRan(req.tasks.value, ProjectId(projectReply.body), reply, r, requests)
    ensures !Rejects(req) && projectReply.Ok() && projectReply.body.JObject? &&
            Truthy(ProjectId(projectReply.body)) ==>
              TaskLoopRan(req.tasks.value, ProjectId(projectReply.body), reply, r, requests)
    ensures r.Imported? ==> r.tasksCreated <= |requests| == |req.tasks.value|
  {
    requests := [];
    if !Truthy(req.projectName) || req.tasks.None? {
      return BadRequest, None, [];
    }
    projectCall := Some(req.projectName);
    if projectReply.Fault? {
      return ServerError, projectCall, [];
    }
    if !projectReply.Ok() {
      return ProjectRejected(projectReply.status), projectCall, [];
    }
    if projectReply.body.JNull? {
      return ServerError, projectCall, [];
    }
    var projectId := ProjectId(projectReply.body);
    if !Truthy(projectId) {
      return NoProjectId, projectCall, [];
    }

    r, requests := CreateTasks(req.tasks.value, projectId, reply);
  }

  /** Parent links (both directions): a task, section or leaf, with a
      non-empty `parentSection` gets a parent exactly when a section of
      that name was accepted with a truthy `item.id` EARLIER in the list,
      and the parent is the identifier of the last such section. */
  lemma {:induction false} ParentFromEarlierSection(tasks: seq<Task>, pid: JsVal, reply: nat -> Outcome, i: nat)
    requires i < |tasks|
    ensures var b := RequestFor(tasks, pid, reply, i);
            b.parent.Some? <==>
              && tasks[i].parentSection != ""
              && exists j :: 0 <= j < i && tasks[j].name == tasks[i].parentSection &&
                               Written(tasks[j], reply(j)).Some?
    ensures var b := RequestFor(tasks, pid, reply, i);
            b.parent.Some? ==>
              exists j :: 0 <= j < i && tasks[j].isSection &&
                          tasks[j].name == tasks[i].parentSection &&
                          reply(j).Ok() &&
                          b.parent.value == ItemOf(reply(j).body).id &&
                          Truthy(b.parent.value) &&
                          (forall k :: j < k < i && tasks[k].name == tasks[i].parentSection ==>
                                         Written(tasks[k], reply(k)).None?)
  {
    var es := Entries(tasks, reply, Written)[..i];
    var ps := tasks[i].parentSection;
    assert forall j :: 0 <= j < i ==> es[j] == Entry(tasks[j].name, Written(tasks[j], reply(j)));
    ReplayIsLastWrite(es, ps);
    RegisteredIdsTruthy(es, ps);
    if ps in Replay(es) {
      var j :| 0 <= j < i && Writes(es[j], ps) && Replay(es)[ps] == es[j].write.value &&
               (forall k :: j < k < i ==> !Writes(es[k], ps));
      assert tasks[j].name == ps && Written(tasks[j], reply(j)).Some?;
    } else {
      forall j | 0 <= j < i && tasks[j].name == ps
        ensures Written(tasks[j], reply(j)).None?
      {
        assert !Writes(es[j], ps);
      }
    }
  }

  /** A section that only appears later in the list is never a parent. */
  lemma ForwardReferenceNotLinked(tasks: seq<Task>, pid: JsVal, reply: nat -> Outcome, i: nat)
    requires i < |tasks|
    requires forall j :: 0 <= j < i ==> !(tasks[j].isSection && tasks[j].name == tasks[i].parentSection)
    ensures RequestFor(tasks, pid, reply, i).parent.None?
  {
    ParentFromEarlierSection(tasks, pid, reply, i);
  }

  /** A non-ok task response is tolerated: when no call throws, every task
      is submitted and exactly the ok responses are counted, so a rejected
      task lowers the count by one and stops nothing. */
  lemma {:induction false} RejectedTaskTolerated(reply: nat -> Outcome, reply': nat -> Outcome, k: nat, n: nat)
    requires k < n
    requires forall j: nat :: j != k ==> reply(j) == reply'(j)
    requires reply(k).Ok() && reply(k).body.JObject?
    requires reply'(k).Response? && !reply'(k).Ok()
    ensures FirstAbort(reply, n) == FirstAbort(reply', n)
    ensures AcceptedCount(reply', n) + 1 == AcceptedCount(reply, n)
  {
    if n > k + 1 {
      RejectedTaskTolerated(reply, reply', k, n - 1);
    } else {
      assert forall j: nat :: j < k ==> reply(j) == reply'(j);
      AcceptedPrefix(reply, reply', k);
      FirstAbortPrefix(reply, reply', k);
    }
  }

  /** The count depends only on the outcomes before position k. */
  lemma {:induction false} AcceptedPrefix(reply: nat -> Outcome, reply': nat -> Outcome, k: nat)
    requires forall j: nat :: j < k ==> reply(j) == reply'(j)
    ensures AcceptedCount(reply, k) == AcceptedCount(reply', k)
  {
    if k > 0 {
      AcceptedPrefix(reply, reply', k - 1);
    }
  }

  /** The first abort depends only on the outcomes before it; the contract
      of FirstAbort alone determines it. */
  lemma FirstAbortPrefix(reply: nat -> Outcome, reply': nat -> Outcome, k: nat)
    requires forall j: nat :: j < k ==> reply(j) == reply'(j)
    ensures FirstAbort(reply, k) == FirstAbort(reply', k)
  {
  }
}
