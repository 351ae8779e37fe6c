/**
 * The import handler of api/ganttpro.js: validate the request, create
 * the project, then walk the tasks once, skipping zero-hour leaves,
 * linking leaves to sections created earlier, tolerating a failure of any
 * single task and counting every task whose call did not throw.
 *
 * The remote service is an oracle: `projectReply` is the outcome of the
 * create-project call and `reply(i)` the outcome of the create-task call
 * made for the task at position i (a skipped task makes no call).
 */
module ApiGanttPro {
  import opened Js
  import opened Domain
  import opened SectionRegistry

  /** The `||` chain that picks the project identifier, as written. */
  function ProjectId(j: Json): JsVal {
    Or(Or(Or(Or(Or(Or(DataOf(j).ganttId, DataOf(j).id), ItemOf(j).projectId),
                ItemOf(j).id), TopOf(j).projectId), TopOf(j).id), TopOf(j).ganttId)
  }

  /** The field paths for the project identifier, in order of precedence. */
  function ProjectIdPaths(j: Json): seq<JsVal> {
    [DataOf(j).ganttId, DataOf(j).id, ItemOf(j).projectId, ItemOf(j).id,
     TopOf(j).projectId, TopOf(j).id, TopOf(j).ganttId]
  }

  lemma ProjectIdPrecedence(j: Json)
    ensures ProjectId(j) == FirstTruthy(ProjectIdPaths(j))
  {
    var p := ProjectIdPaths(j);
    FirstTruthySnoc(p[..1], p[1]);
    assert p[..1] + [p[1]] == p[..2];
    FirstTruthySnoc(p[..2], p[2]);
    assert p[..2] + [p[2]] == p[..3];
    FirstTruthySnoc(p[..3], p[3]);
    assert p[..3] + [p[3]] == p[..4];
    FirstTruthySnoc(p[..4], p[4]);
    assert p[..4] + [p[4]] == p[..5];
    FirstTruthySnoc(p[..5], p[5]);
    assert p[..5] + [p[5]] == p[..6];
    FirstTruthySnoc(p[..6], p[6]);
    assert p[..6] + [p[6]] == p;
  }

  /** The `||` chain that picks a created section's identifier. */
  function SectionId(j: Json): JsVal {
    Or(Or(Or(DataOf(j).id, DataOf(j).ganttId), ItemOf(j).id), TopOf(j).id)
  }

  function SectionIdPaths(j: Json): seq<JsVal> {
    [DataOf(j).id, DataOf(j).ganttId, ItemOf(j).id, TopOf(j).id]
  }

  lemma SectionIdPrecedence(j: Json)
    ensures SectionId(j) == FirstTruthy(SectionIdPaths(j))
  {
    var p := SectionIdPaths(j);
    FirstTruthySnoc(p[..1], p[1]);
    assert p[..1] + [p[1]] == p[..2];
    FirstTruthySnoc(p[..2], p[2]);
    assert p[..2] + [p[2]] == p[..3];
    FirstTruthySnoc(p[..3], p[3]);
    assert p[..3] + [p[3]] == p;
  }

  /** `!projectName || !tasks || !tasks.length` */
  predicate Rejects(req: Request) {
    !Truthy(req.projectName) || req.tasks.None? || |req.tasks.value| == 0
  }

  /** `task.hours === 0 && !task.isSection` */
  predicate Skipped(t: Task) {
    t.hours == 0.0 && !t.isSection
  }

  /** The body of a create-task request: `name`, `project_id`, `duration`
      and, when set, `parent_id`. */
  datatype TaskBody = TaskBody(name: string, projectId: JsVal, duration: real, parentId: Option<JsVal>)

  function Max(a: real, b: real): real {
    if a < b then b else a
  }

  /** The request body built for a task, given the registry at that point. */
  function BodyFor(t: Task, pid: JsVal, reg: Registry): TaskBody {
    var parent := if !t.isSection && t.parentSection != "" && Truthy(Lookup(reg, t.parentSection))
                  then Some(Lookup(reg, t.parentSection)) else None;
    TaskBody(t.name, pid, if t.isSection then 0.0 else Max(1.0, t.hours), parent)
  }

  /** What a task stores in the registry once its call returned: only a
      section whose response carries a truthy identifier stores anything,
      whatever the HTTP status. */
  function Written(t: Task, o: Outcome): Option<JsVal> {
    if t.isSection && o.Response? && Truthy(SectionId(o.body))
    then Some(SectionId(o.body)) else None
  }

  /** The registry as it stands when the task at position k is reached,
      defined from the history of the tasks before it. */
  function RegistryBefore(tasks: seq<Task>, reply: nat -> Outcome, k: nat): Registry
    requires k <= |tasks|
  {
    Replay(Entries(tasks, reply, Written)[..k])
  }

  /** The request issued for the task at position i, `None` when it is
      skipped. */
  function RequestFor(tasks: seq<Task>, pid: JsVal, reply: nat -> Outcome, i: nat): (r: Option<TaskBody>)
    requires i < |tasks|
    ensures r.None? <==> tasks[i].hours == 0.0 && !tasks[i].isSection
    ensures r.Some? ==> r.value.name == tasks[i].name && r.value.projectId == pid
    ensures r.Some? && tasks[i].isSection ==> r.value.duration == 0.0 && r.value.parentId.None?
    ensures r.Some? && !tasks[i].isSection ==>
              && r.value.duration >= 1.0 && r.value.duration >= tasks[i].hours
              && (r.value.duration == 1.0 || r.value.duration == tasks[i].hours)
  {
    if Skipped(tasks[i]) then None
    else Some(BodyFor(tasks[i], pid, RegistryBefore(tasks, reply, i)))
  }

  /** A task is counted when it was not skipped and its call did not throw. */
  predicate Counted(t: Task, o: Outcome) {
    !Skipped(t) && o.Response?
  }

  /** The number of counted tasks among the first k. */
  function CreatedCount(tasks: seq<Task>, reply: nat -> Outcome, k: nat): (n: nat)
    requires k <= |tasks|
    ensures n <= k
  {
    if k == 0 then 0
    else CreatedCount(tasks, reply, k - 1) + (if Counted(tasks[k - 1], reply(k - 1)) then 1 else 0)
  }

  /** The handler. `projectCall` is the name sent to create the project
      (`None` when no remote call is made at all); `requests[i]` is the
      create-task request issued for task i, in order. */
  method Import(req: Request, projectReply: Outcome, reply: nat -> Outcome)
    returns (r: Reply, projectCall: Option<JsVal>, requests: seq<Option<TaskBody>>)
    ensures r == BadRequest <==> Rejects(req)
    ensures projectCall == (if Rejects(req) then None else Some(req.projectName))
    ensures !r.Imported? ==> requests == []
    ensures !Rejects(req) && projectReply.Fault? ==> r == ServerError
    ensures !Rejects(req) && projectReply.Response? ==>
              (r == NoProjectId <==> !Truthy(ProjectId(projectReply.body)))
    ensures !Rejects(req) && projectReply.Response? && Truthy(ProjectId(projectReply.body)) ==>
              r.Imported?
    ensures r.Imported? ==>
              && !Rejects(req) && projectReply.Response?
              && r.projectId == ProjectId(projectReply.body) && Truthy(r.projectId)
              && |requests| == |req.tasks.value|
              && (forall i :: 0 <= i < |requests| ==>
                    requests[i] == RequestFor(req.tasks.value, r.projectId, reply, i))
              && r.tasksCreated == CreatedCount(req.tasks.value, reply, |req.tasks.value|)
              && r.tasksCreated <= |requests|
  {
    requests := [];
    if !Truthy(req.projectName) || req.tasks.None? || |req.tasks.value| == 0 {
      return BadRequest, None, [];
    }
    projectCall := Some(req.projectName);
    if projectReply.Fault? {
      return ServerError, projectCall, [];
    }
    var projectId := ProjectId(projectReply.body);
    if !Truthy(projectId) {
      return NoProjectId, projectCall, [];
    }

    var tasks := req.tasks.value;
    var sectionIds: Registry := map[];
    var tasksCreated: nat := 0;
    var i := 0;
    while i < |tasks|
      invariant 0 <= i <= |tasks|
      invariant sectionIds == RegistryBefore(tasks, reply, i)
      invariant tasksCreated == CreatedCount(tasks, reply, i)
      invariant |requests| == i
      invariant forall k :: 0 <= k < i ==> requests[k] == RequestFor(tasks, projectId, reply, k)
    {
      var task := tasks[i];
      ReplayStep(Entries(tasks, reply, Written), i);
      if task.hours == 0.0 && !task.isSection {
        requests := requests + [None];
      } else {
        var taskBody := BodyFor(task, projectId, sectionIds);
        requests := requests + [Some(taskBody)];
        var outcome := reply(i);
        if outcome.Response? {
          if task.isSection {
            var taskId := SectionId(outcome.body);
            if Truthy(taskId) {
              sectionIds := sectionIds[task.name := taskId];
            }
          }
          tasksCreated := tasksCreated + 1;
        }
      }
      i := i + 1;
    }
    return Imported(projectId, tasksCreated), projectCall, requests;
  }

  /** Parent links (both directions): a leaf with a non-empty
      `parentSection` gets a parent exactly when a section of that name
      registered an identifier EARLIER in the list, and the parent is the
      identifier of the last such section before it. */
  lemma {:induction false} ParentFromEarlierSection(tasks: seq<Task>, pid: JsVal, reply: nat -> Outcome, i: nat)
    requires i < |tasks| && !Skipped(tasks[i])
    ensures var b := RequestFor(tasks, pid, reply, i).value;
            b.parentId.Some? <==>
              && !tasks[i].isSection && tasks[i].parentSection != ""
              && exists j :: 0 <= j < i && tasks[j].name == tasks[i].parentSection &&
                               Written(tasks[j], reply(j)).Some?
    ensures var b := RequestFor(tasks, pid, reply, i).value;
            b.parentId.Some? ==>
              exists j :: 0 <= j < i && tasks[j].isSection &&
                          tasks[j].name == tasks[i].parentSection &&
                          reply(j).Response? &&
                          b.parentId.value == SectionId(reply(j).body) &&
                          Truthy(b.parentId.value) &&
                          (forall k :: j < k < i && tasks[k].name == tasks[i].parentSection ==>
                                         Written(tasks[k], reply(k)).None?)
  {
    var es := Entries(tasks, reply, Written)[..i];
    var ps := tasks[i].parentSection;
    assert forall j :: 0 <= j < i ==> es[j] == Entry(tasks[j].name, Written(tasks[j], reply(j)));
    ReplayIsLastWrite(es, ps);
    RegisteredIdsTruthy(es, ps);
    if ps in Replay(es) {
      var j :| 0 <= j < i && Writes(es[j], ps) && Replay(es)[ps] == es[j].write.value &&
               (forall k :: j < k < i ==> !Writes(es[k], ps));
      assert tasks[j].name == ps && Written(tasks[j], reply(j)).Some?;
    } else {
      forall j | 0 <= j < i && tasks[j].name == ps
        ensures Written(tasks[j], reply(j)).None?
      {
        assert !Writes(es[j], ps);
      }
    }
  }

  /** A section that only appears later in the list is never a parent:
      a forward reference leaves the task at the top level. */
  lemma ForwardReferenceNotLinked(tasks: seq<Task>, pid: JsVal, reply: nat -> Outcome, i: nat)
    requires i < |tasks| && !Skipped(tasks[i])
    requires forall j :: 0 <= j < i ==> !(tasks[j].isSection && tasks[j].name == tasks[i].parentSection)
    ensures RequestFor(tasks, pid, reply, i).value.parentId.None?
  {
    ParentFromEarlierSection(tasks, pid, reply, i);
  }

  /** Continue-on-error: whatever happens to the call of a leaf task at
      position k, every request issued for the other tasks is the same. */
  lemma LeafOutcomeIsolated(tasks: seq<Task>, pid: JsVal, reply: nat -> Outcome, reply': nat -> Outcome, k: nat)
    requires k < |tasks| && !tasks[k].isSection
    requires forall j: nat :: j != k ==> reply(j) == reply'(j)
    ensures forall i :: 0 <= i < |tasks| ==>
              RequestFor(tasks, pid, reply, i) == RequestFor(tasks, pid, reply', i)
  {
    var es, es' := Entries(tasks, reply, Written), Entries(tasks, reply', Written);
    forall j | 0 <= j < |tasks|
      ensures es[j] == es'[j]
    {
      if j != k {
        assert reply(j) == reply'(j);
      }
    }
    assert es == es';
  }

  /** The counter ignores the HTTP status: two runs whose calls throw at the
      same positions count the same number of tasks. */
  lemma {:induction false} CountIgnoresStatus(tasks: seq<Task>, reply: nat -> Outcome, reply': nat -> Outcome, k: nat)
    requires k <= |tasks|
    requires forall j: nat :: j < k ==> (reply(j).Fault? <==> reply'(j).Fault?)
    ensures CreatedCount(tasks, reply, k) == CreatedCount(tasks, reply', k)
  {
    if k > 0 {
      CountIgnoresStatus(tasks, reply, reply', k - 1);
    }
  }

  /** The count is the number of tasks that are neither skipped nor failed:
      with no call throwing, every non-skipped task is counted. */
  lemma {:induction false} CountWithoutFaults(tasks: seq<Task>, reply: nat -> Outcome, k: nat)
    requires k <= |tasks|
    requires forall j: nat :: j < k ==> reply(j).Response?
    ensures CreatedCount(tasks, reply, k) == k - |set j | 0 <= j < k && Skipped(tasks[j])|
  {
    if k > 0 {
      CountWithoutFaults(tasks, reply, k - 1);
      var s := set j | 0 <= j < k - 1 && Skipped(tasks[j]);
      var s' := set j | 0 <= j < k && Skipped(tasks[j]);
      if Skipped(tasks[k - 1]) {
        assert s' == s + {k - 1};
      } else {
        assert s' == s;
      }
    }
  }
  /** A worked import: a section, a leaf under it, a second section and a
      zero-hour leaf, with every call answered 200 and `data.id` = 100 + i. */
  lemma SiteLaunchExample()
    ensures var tasks := [Task("Design", 0.0, true, ""), Task("Wireframe", 4.0, false, "Design"),
                          Task("Dev", 0.0, true, ""), Task("API", 0.0, false, "")];
            var reply := (i: nat) => Response(200, JObject(Some(Fields(Undefined, Num(100 + i), Undefined)), None, NoFields));
            && RequestFor(tasks, Num(7), reply, 0) == Some(TaskBody("Design", Num(7), 0.0, None))
            && RequestFor(tasks, Num(7), reply, 1) == Some(TaskBody("Wireframe", Num(7), 4.0, Some(Num(100))))
            && RequestFor(tasks, Num(7), reply, 3) == None
            && RegistryBefore(tasks, reply, 4) == map["Design" := Num(100), "Dev" := Num(102)]
            && CreatedCount(tasks, reply, 4) == 3
  {
    var tasks := [Task("Design", 0.0, true, ""), Task("Wireframe", 4.0, false, "Design"),
                  Task("Dev", 0.0, true, ""), Task("API", 0.0, false, "")];
    var reply := (i: nat) => Response(200, JObject(Some(Fields(Undefined, Num(100 + i), Undefined)), None, NoFields));
    var es := Entries(tasks, reply, Written);
    assert es[0] == Entry("Design", Some(Num(100)));
    assert es[1] == Entry("Wireframe", None);
    assert reply(2) == Response(200, JObject(Some(Fields(Undefined, Num(102), Undefined)), None, NoFields));
    assert es[2] == Entry("Dev", Some(Num(102)));
    assert es[3] == Entry("API", None);
    assert es[..0] == [];
    ReplayStep(es, 0);
    assert Replay(es[..1]) == map["Design" := Num(100)];
    ReplayStep(es, 1);
    ReplayStep(es, 2);
    assert Replay(es[..3]) == map["Design" := Num(100), "Dev" := Num(102)];
    ReplayStep(es, 3);
  }
}
