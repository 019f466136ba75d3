/** The task controller over a store of tasks: creation inside a group, the creator/assignee
    rules of an update, the creator-only delete, and the listing of a group's tasks. */
module TaskController {
  import opened Base
  import opened GroupModel
  import opened GroupController

  const DefaultPriority: string := "medium"
  const DefaultDifficulty: string := "easy"
  const DefaultStatus: string := "not started"

  const TaskNotFound: string := "Task not found"
  const StatusOnlyMessage: string := "You are only allowed to update the status of this task"
  const NotAuthorizedMessage: string := "You are not authorized to update this task"
  const CreatorOnlyMessage: string := "Only the task creator can delete this task"

  /** A stored task. The fields `Task.create` receives are kept as given; the three with a
      default in the handler are always present. */
  datatype Task = Task(groupId: GroupId, assignedTo: UserId, createdBy: UserId,
                       title: Option<string>, description: Option<string>, dueDate: Option<string>,
                       priority: string, difficulty: string, status: string)

  /** The body of `createTask`; `None` is a field the client left out. */
  datatype TaskBody = TaskBody(groupId: Option<GroupId>, assignedTo: Option<UserId>,
                               title: Option<string>, description: Option<string>,
                               dueDate: Option<string>, priority: Option<string>,
                               difficulty: Option<string>, status: Option<string>)

  /** A value in an update body: a reference to a stored record, or text. */
  datatype Value = Ref(id: nat) | Str(text: string)

  /** The body of `updateTask`, keyed by the names the client sent. */
  type Patch = map<string, Value>

  type Tasks = map<TaskId, Task>

  /** The tasks after a handler and its reply. */
  datatype TaskChange = TaskChange(tasks: Tasks, reply: Response)

  /** A destructuring default: it applies only when the field is absent. */
  function OrDefault(s: Option<string>, default: string): (r: string)
    ensures s.Some? ==> r == s.value
    ensures s.None? ==> r == default
  {
    if s.Some? then s.value else default
  }

  /** The record `createTask` passes to `Task.create`. */
  function NewTask(groupId: GroupId, assignedTo: UserId, requester: UserId, body: TaskBody): Task {
    Task(groupId, assignedTo, requester, body.title, body.description, body.dueDate,
         OrDefault(body.priority, DefaultPriority), OrDefault(body.difficulty, DefaultDifficulty),
         OrDefault(body.status, DefaultStatus))
  }

  /** `group.members.some(m => m.userId == assignedTo)`: a missing assignee is no member. */
  predicate AssigneeIsMember(groups: Groups, groupId: GroupId, assignedTo: Option<UserId>)
    requires groupId in groups
  {
    assignedTo.Some? && HasMember(groups[groupId].members, assignedTo.value)
  }

  /** `createTask`: the group must exist and list the assignee; the requester becomes the
      creator. */
  function CreateTaskOutcome(tasks: Tasks, nextId: TaskId, groups: Groups, requester: UserId,
                             body: TaskBody): (TaskChange, TaskId)
  {
    if body.groupId.None? || body.groupId.value !in groups then
      (TaskChange(tasks, Response(404, "Group not found")), nextId)
    else if !AssigneeIsMember(groups, body.groupId.value, body.assignedTo) then
      (TaskChange(tasks, Response(403, "User is not a member of the group")), nextId)
    else
      (TaskChange(tasks[nextId := NewTask(body.groupId.value, body.assignedTo.value, requester, body)],
                  Response(201, "")), nextId + 1)
  }

  const IdPaths: set<string> := {"groupId", "assignedTo", "createdBy"}
  const TextPaths: set<string> := {"title", "description", "dueDate", "priority", "difficulty", "status"}

  /** Every value sent for a path of the task has the path's kind; a value of the other kind
      fails the cast when the task is saved. Keys that are not paths are ignored. */
  predicate Castable(p: Patch) {
    forall k | k in p :: (k in IdPaths ==> p[k].Ref?) && (k in TextPaths ==> p[k].Str?)
  }

  function IdAt(p: Patch, k: string, current: nat): nat {
    if k in p && p[k].Ref? then p[k].id else current
  }

  function TextAt(p: Patch, k: string, current: string): string {
    if k in p && p[k].Str? then p[k].text else current
  }

  function OptionalTextAt(p: Patch, k: string, current: Option<string>): Option<string> {
    if k in p && p[k].Str? then Some(p[k].text) else current
  }

  /** `Object.assign(task, updates)` followed by the cast of `save`: `None` when the save fails. */
  function Assign(t: Task, p: Patch): Option<Task> {
    if !Castable(p) then None
    else Some(Task(IdAt(p, "groupId", t.groupId), IdAt(p, "assignedTo", t.assignedTo),
                   IdAt(p, "createdBy", t.createdBy),
                   OptionalTextAt(p, "title", t.title), OptionalTextAt(p, "description", t.description),
                   OptionalTextAt(p, "dueDate", t.dueDate),
                   TextAt(p, "priority", t.priority), TextAt(p, "difficulty", t.difficulty),
                   TextAt(p, "status", t.status)))
  }

  /** `updateTask`. The creator may send anything; an assignee who is not the creator may send
      the status and nothing else; anyone else is refused. */
  function UpdateTaskOutcome(tasks: Tasks, requester: UserId, taskId: TaskId, p: Patch): TaskChange {
    if taskId !in tasks then TaskChange(tasks, Response(404, TaskNotFound))
    else
      var t := tasks[taskId];
      if t.createdBy != requester && t.assignedTo != requester then
        TaskChange(tasks, Response(403, NotAuthorizedMessage))
      else if t.createdBy != requester && p.Keys != {"status"} then
        TaskChange(tasks, Response(403, StatusOnlyMessage))
      else
        var updated := Assign(t, p);
        if updated.None? then TaskChange(tasks, Response(500, "Task validation failed"))
        else TaskChange(tasks[taskId := updated.value], Response(200, ""))
  }

  /** `deleteTask`: only the creator may delete. */
  function DeleteTaskOutcome(tasks: Tasks, requester: UserId, taskId: TaskId): TaskChange {
    if taskId !in tasks then TaskChange(tasks, Response(404, TaskNotFound))
    else if tasks[taskId].createdBy != requester then TaskChange(tasks, Response(403, CreatorOnlyMessage))
    else TaskChange(tasks - {taskId}, Response(200, "Task deleted successfully"))
  }

  /** `getGroupTasks`: `Task.find({ groupId })`, for any authenticated requester. */
  function GroupTasks(tasks: Tasks, groupId: GroupId): (s: set<TaskId>)
    ensures forall k :: k in s <==> k in tasks && tasks[k].groupId == groupId
  {
    set k | k in tasks && tasks[k].groupId == groupId
  }

  class TaskStore {
    var tasks: Tasks
    var nextId: TaskId

    ghost predicate Valid()
      reads this
    {
      forall k | k in tasks :: k < nextId
    }

    constructor ()
      ensures Valid() && tasks == map[] && nextId == 0
    {
      tasks := map[];
      nextId := 0;
    }

    method CreateTask(groups: Groups, requester: UserId, body: TaskBody) returns (reply: Response)
      requires Valid()
      modifies this
      ensures (TaskChange(tasks, reply), nextId) == CreateTaskOutcome(old(tasks), old(nextId), groups, requester, body)
      ensures Valid()
    {
      var priority := if body.priority.Some? then body.priority.value else DefaultPriority;
      var difficulty := if body.difficulty.Some? then body.difficulty.value else DefaultDifficulty;
      var status := if body.status.Some? then body.status.value else DefaultStatus;
      if body.groupId.None? || body.groupId.value !in groups {
        return Response(404, "Group not found");
      }
      var group := groups[body.groupId.value];
      if body.assignedTo.None? || FindMember(group.members, body.assignedTo.value).None? {
        return Response(403, "User is not a member of the group");
      }
      var task := Task(body.groupId.value, body.assignedTo.value, requester, body.title,
                       body.description, body.dueDate, priority, difficulty, status);
      tasks := tasks[nextId := task];
      nextId := nextId + 1;
      reply := Response(201, "");
    }

    method UpdateTask(requester: UserId, taskId: TaskId, p: Patch) returns (reply: Response)
      requires Valid()
      modifies this
      ensures TaskChange(tasks, reply) == UpdateTaskOutcome(old(tasks), requester, taskId, p)
      ensures nextId == old(nextId) && Valid()
    {
      if taskId !in tasks {
        return Response(404, TaskNotFound);
      }
      var task := tasks[taskId];
      var isCreator := task.createdBy == requester;
      var isAssignedUser := task.assignedTo == requester;
      var updated: Option<Task>;
      if isCreator {
        updated := Assign(task, p);
      } else if isAssignedUser {
        if "status" in p && |p.Keys| == 1 {
          OnlyKey(p.Keys, "status");
          updated := if p["status"].Str? then Some(task.(status := p["status"].text)) else None;
          assert updated == Assign(task, p);
        } else {
          return Response(403, StatusOnlyMessage);
        }
      } else {
        return Response(403, NotAuthorizedMessage);
      }
      if updated.None? {
        return Response(500, "Task validation failed");
      }
      tasks := tasks[taskId := updated.value];
      reply := Response(200, "");
    }

    method DeleteTask(requester: UserId, taskId: TaskId) returns (reply: Response)
      requires Valid()
      modifies this
      ensures TaskChange(tasks, reply) == DeleteTaskOutcome(old(tasks), requester, taskId)
      ensures nextId == old(nextId) && Valid()
    {
      if taskId !in tasks {
        return Response(404, TaskNotFound);
      }
      if tasks[taskId].createdBy != requester {
        return Response(403, CreatorOnlyMessage);
      }
      tasks := tasks - {taskId};
      reply := Response(200, "Task deleted successfully");
    }
  }

  /** `deleteGroup` on a group store next to a task store: the group goes, and the tasks that
      name it stay stored and are still listed under its id. */
  method DeleteGroupKeepsTasks(gs: GroupStore, ts: TaskStore, groupId: GroupId)
    returns (reply: Response, listed: set<TaskId>)
    requires gs.Valid()
    modifies gs
    ensures Change(gs.groups, reply) == DeleteOutcome(old(gs.groups), groupId) && gs.Valid()
    ensures ts.tasks == old(ts.tasks) && listed == GroupTasks(old(ts.tasks), groupId)
  {
    reply := gs.Delete(groupId);
    listed := GroupTasks(ts.tasks, groupId);
  }

  /** `Object.keys(updates).length === 1` together with `'status' in updates`. */
  lemma OnlyKey(keys: set<string>, k: string)
    requires k in keys && |keys| == 1
    ensures keys == {k}
  {
    var rest := keys - {k};
    assert |rest| == 0;
  }

  // ----- Properties -----

  /** Fields the client leaves out take the handler's defaults; given ones are kept. */
  lemma NewTaskDefaults(groupId: GroupId, assignedTo: UserId, requester: UserId, body: TaskBody)
    ensures var t := NewTask(groupId, assignedTo, requester, body);
            (body.priority.None? ==> t.priority == "medium")
            && (body.difficulty.None? ==> t.difficulty == "easy")
            && (body.status.None? ==> t.status == "not started")
            && (body.priority.Some? ==> t.priority == body.priority.value)
            && (body.difficulty.Some? ==> t.difficulty == body.difficulty.value)
            && (body.status.Some? ==> t.status == body.status.value)
  {
  }

  /** Creation fails with 404 without a stored group and with 403 when the group does not
      list the assignee; both leave the store unchanged. */
  lemma CreateTaskErrors(tasks: Tasks, nextId: TaskId, groups: Groups, requester: UserId, body: TaskBody)
    ensures (body.groupId.None? || body.groupId.value !in groups) ==>
      CreateTaskOutcome(tasks, nextId, groups, requester, body)
        == (TaskChange(tasks, Response(404, "Group not found")), nextId)
    ensures body.groupId.Some? && body.groupId.value in groups
            && (body.assignedTo.None? || !HasMember(groups[body.groupId.value].members, body.assignedTo.value)) ==>
      CreateTaskOutcome(tasks, nextId, groups, requester, body)
        == (TaskChange(tasks, Response(403, "User is not a member of the group")), nextId)
  {
  }

  /** With a stored group that lists the assignee, creation succeeds whoever the requester is,
      member of the group or not, and the requester is recorded as creator. */
  lemma CreateTaskSuccess(tasks: Tasks, nextId: TaskId, groups: Groups, requester: UserId, body: TaskBody)
    requires forall k | k in tasks :: k < nextId
    requires body.groupId.Some? && body.groupId.value in groups
    requires body.assignedTo.Some? && HasMember(groups[body.groupId.value].members, body.assignedTo.value)
    ensures var (c, next) := CreateTaskOutcome(tasks, nextId, groups, requester, body);
            c.reply.status == 201 && next == nextId + 1 && nextId !in tasks
            && c.tasks.Keys == tasks.Keys + {nextId}
            && (forall k | k in tasks :: c.tasks[k] == tasks[k])
            && c.tasks[nextId].createdBy == requester
            && c.tasks[nextId].groupId == body.groupId.value
            && c.tasks[nextId].assignedTo == body.assignedTo.value
  {
  }

  /** There is no duplicate check: the same body sent twice makes two equal tasks. */
  lemma CreateTaskTwice(tasks: Tasks, nextId: TaskId, groups: Groups, requester: UserId, body: TaskBody)
    requires forall k | k in tasks :: k < nextId
    requires body.groupId.Some? && body.groupId.value in groups
    requires body.assignedTo.Some? && HasMember(groups[body.groupId.value].members, body.assignedTo.value)
    ensures var (c1, n1) := CreateTaskOutcome(tasks, nextId, groups, requester, body);
            var (c2, n2) := CreateTaskOutcome(c1.tasks, n1, groups, requester, body);
            c2.reply.status == 201 && nextId in c2.tasks && n1 in c2.tasks && nextId != n1
            && c2.tasks[nextId] == c2.tasks[n1]
  {
    CreateTaskSuccess(tasks, nextId, groups, requester, body);
    var (c1, n1) := CreateTaskOutcome(tasks, nextId, groups, requester, body);
    CreateTaskSuccess(c1.tasks, n1, groups, requester, body);
  }

  /** `Assign` succeeds exactly for castable bodies, and then each path takes the sent value
      or keeps its old one. */
  lemma AssignFields(t: Task, p: Patch)
    ensures Assign(t, p).Some? <==> Castable(p)
    ensures Assign(t, p).Some? ==>
      var r := Assign(t, p).value;
      r.groupId == (if "groupId" in p then p["groupId"].id else t.groupId)
      && r.assignedTo == (if "assignedTo" in p then p["assignedTo"].id else t.assignedTo)
      && r.createdBy == (if "createdBy" in p then p["createdBy"].id else t.createdBy)
      && r.title == (if "title" in p then Some(p["title"].text) else t.title)
      && r.description == (if "description" in p then Some(p["description"].text) else t.description)
      && r.dueDate == (if "dueDate" in p then Some(p["dueDate"].text) else t.dueDate)
      && r.priority == (if "priority" in p then p["priority"].text else t.priority)
      && r.difficulty == (if "difficulty" in p then p["difficulty"].text else t.difficulty)
      && r.status == (if "status" in p then p["status"].text else t.status)
  {
    if Castable(p) {
      assert "groupId" in IdPaths && "assignedTo" in IdPaths && "createdBy" in IdPaths;
      assert "title" in TextPaths && "description" in TextPaths && "dueDate" in TextPaths;
      assert "priority" in TextPaths && "difficulty" in TextPaths && "status" in TextPaths;
    }
  }

  /** An empty body changes nothing. */
  lemma AssignNothing(t: Task)
    ensures Assign(t, map[]) == Some(t)
  {
  }

  /** The creator's update is `Object.assign` whoever the assignee is, the creator included. */
  lemma UpdateByCreator(tasks: Tasks, requester: UserId, taskId: TaskId, p: Patch)
    requires taskId in tasks && tasks[taskId].createdBy == requester && Castable(p)
    ensures UpdateTaskOutcome(tasks, requester, taskId, p)
         == TaskChange(tasks[taskId := Assign(tasks[taskId], p).value], Response(200, ""))
  {
    AssignFields(tasks[taskId], p);
  }

  /** An assignee who is not the creator changes the status and only the status, and only
      with a body whose sole key is `status`; any other body is refused with the task as it
      was. */
  lemma UpdateByAssignee(tasks: Tasks, requester: UserId, taskId: TaskId, p: Patch)
    requires taskId in tasks && tasks[taskId].createdBy != requester && tasks[taskId].assignedTo == requester
    ensures p.Keys != {"status"} ==>
      UpdateTaskOutcome(tasks, requester, taskId, p) == TaskChange(tasks, Response(403, StatusOnlyMessage))
    ensures p.Keys == {"status"} && p["status"].Str? ==>
      UpdateTaskOutcome(tasks, requester, taskId, p)
        == TaskChange(tasks[taskId := tasks[taskId].(status := p["status"].text)], Response(200, ""))
  {
    if p.Keys == {"status"} && p["status"].Str? {
      AssignFields(tasks[taskId], p);
    }
  }

  /** Someone who neither created nor was assigned the task is refused, with the task as it was. */
  lemma UpdateByOthers(tasks: Tasks, requester: UserId, taskId: TaskId, p: Patch)
    requires taskId in tasks && tasks[taskId].createdBy != requester && tasks[taskId].assignedTo != requester
    ensures UpdateTaskOutcome(tasks, requester, taskId, p) == TaskChange(tasks, Response(403, NotAuthorizedMessage))
  {
  }

  /** An update touches at most the named task, and a refused one touches nothing. */
  lemma UpdateChangesOnlyThatTask(tasks: Tasks, requester: UserId, taskId: TaskId, p: Patch)
    ensures var c := UpdateTaskOutcome(tasks, requester, taskId, p);
            c.tasks.Keys == tasks.Keys
            && (forall k | k in tasks && k != taskId :: c.tasks[k] == tasks[k])
            && (c.reply.status != 200 ==> c.tasks == tasks)
  {
  }

  /** A task id that is not stored is reported as 404 "Task not found" by the update and the
      delete handlers, and nothing changes. */
  lemma MissingTaskNotFound(tasks: Tasks, requester: UserId, taskId: TaskId, p: Patch)
    requires taskId !in tasks
    ensures UpdateTaskOutcome(tasks, requester, taskId, p) == TaskChange(tasks, Response(404, TaskNotFound))
    ensures DeleteTaskOutcome(tasks, requester, taskId) == TaskChange(tasks, Response(404, TaskNotFound))
  {
  }

  /** Only the creator deletes: anyone else, an admin of the task's group included, gets 403;
      the creator removes exactly that task. */
  lemma DeleteOnlyByCreator(tasks: Tasks, requester: UserId, taskId: TaskId, groups: Groups)
    requires taskId in tasks
    ensures tasks[taskId].createdBy != requester ==>
      DeleteTaskOutcome(tasks, requester, taskId) == TaskChange(tasks, Response(403, CreatorOnlyMessage))
    ensures tasks[taskId].groupId in groups && IsAdmin(groups[tasks[taskId].groupId].members, requester)
            && tasks[taskId].createdBy != requester ==>
      DeleteTaskOutcome(tasks, requester, taskId).reply.status == 403
    ensures tasks[taskId].createdBy == requester ==>
      var c := DeleteTaskOutcome(tasks, requester, taskId);
      c.tasks.Keys == tasks.Keys - {taskId} && (forall k | k in c.tasks :: c.tasks[k] == tasks[k])
  {
  }

  /** Once a group is deleted, no new task can be created in it. */
  lemma CreateTaskInDeletedGroupRefused(tasks: Tasks, nextId: TaskId, groups: Groups, groupId: GroupId,
                                        requester: UserId, body: TaskBody)
    requires body.groupId == Some(groupId)
    ensures var after := DeleteOutcome(groups, groupId).groups;
            CreateTaskOutcome(tasks, nextId, after, requester, body)
              == (TaskChange(tasks, Response(404, "Group not found")), nextId)
  {
  }

  /** The lists of two different groups never share a task. */
  lemma GroupTasksDisjoint(tasks: Tasks, g1: GroupId, g2: GroupId)
    requires g1 != g2
    ensures GroupTasks(tasks, g1) * GroupTasks(tasks, g2) == {}
  {
  }
}
