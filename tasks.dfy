/** The task routes: list (members only, newest first), create with defaults, update and delete by id. */
module Tasks {
  import opened Wrappers
  import opened Collections
  import opened Store

  /** The request body of POST and PUT; an absent field is left out of the write. */
  datatype TaskInput = TaskInput(title: Option<string>, description: Option<string>, status: Option<string>, priority: Option<string>)

  const DefaultStatus := "todo"
  const DefaultPriority := "medium"

  function WorkspaceTasks(tasks: seq<Task>, workspaceId: Id): (r: seq<Task>)
    ensures forall x :: x in r <==> x in tasks && x.workspaceId == workspaceId
  {
    Filter(tasks, (t: Task) => t.workspaceId == workspaceId)
  }

  /** Sort key for `orderBy: { createdAt: 'desc' }`. */
  function NewestFirst(t: Task): int { -t.createdAt }

  /** GET /workspaces/:workspaceId/tasks. A member gets all of the workspace's tasks, newest first;
      anyone else gets an empty list. */
  function ListTasks(tasks: seq<Task>, memberships: seq<Membership>, workspaceId: Id, userId: Id): (r: seq<Task>)
    ensures !IsMember(memberships, workspaceId, userId) ==> r == []
    ensures IsMember(memberships, workspaceId, userId) ==> multiset(r) == multiset(WorkspaceTasks(tasks, workspaceId))
    ensures forall t :: t in r <==> IsMember(memberships, workspaceId, userId) && t in tasks && t.workspaceId == workspaceId
    ensures forall i, j :: 0 <= i < j < |r| ==> r[i].createdAt >= r[j].createdAt
  {
    if !IsMember(memberships, workspaceId, userId) then []
    else
      var r := SortBy(WorkspaceTasks(tasks, workspaceId), NewestFirst);
      assert forall t :: t in r <==> t in multiset(r);
      r
  }

  /** The row a PUT leaves: supplied fields replaced, the rest, the id, workspace and creation time kept. */
  function PatchTask(t: Task, input: TaskInput): (r: Task)
    ensures r.id == t.id && r.workspaceId == t.workspaceId && r.createdAt == t.createdAt
    ensures input.title.Some? ==> r.title == input.title.value
    ensures input.title.None? ==> r.title == t.title
    ensures input.description.Some? ==> r.description == input.description
    ensures input.description.None? ==> r.description == t.description
    ensures input.status.Some? ==> r.status == input.status.value
    ensures input.status.None? ==> r.status == t.status
    ensures input.priority.Some? ==> r.priority == input.priority.value
    ensures input.priority.None? ==> r.priority == t.priority
    ensures input == TaskInput(None, None, None, None) ==> r == t
  {
    Task(t.id, t.workspaceId, input.title.GetOr(t.title), if input.description.Some? then input.description else t.description,
         input.status.GetOr(t.status), input.priority.GetOr(t.priority), t.createdAt)
  }

  /** POST /workspaces/:workspaceId/tasks. A missing or empty title is refused (400) and nothing is
      written; otherwise one task is added under the route's workspace, with status `todo` and priority
      `medium` unless given (201). */
  method CreateTask(db: Db, workspaceId: Id, input: TaskInput, now: int) returns (status: int, created: Option<Task>)
    requires db.Valid()
    modifies db`tasks, db`nextId
    ensures db.Valid()
    ensures status == 400 <==> !Truthy(input.title)
    ensures status == 400 ==> created == None && db.tasks == old(db.tasks) && db.nextId == old(db.nextId)
    ensures status != 400 ==> (
      status == 201 && created.Some? &&
      created.value == Task(old(db.nextId), workspaceId, input.title.value, input.description,
                            OrElse(input.status, DefaultStatus), OrElse(input.priority, DefaultPriority), now) &&
      db.tasks == old(db.tasks) + [created.value] && db.nextId == old(db.nextId) + 1)
  {
    if !Truthy(input.title) {
      return 400, None;
    }
    var t := Task(db.nextId, workspaceId, input.title.value, input.description,
                  OrElse(input.status, DefaultStatus), OrElse(input.priority, DefaultPriority), now);
    db.RaiseKeepsBelow();
    AppendFresh(db.tasks, TaskId, db.nextId, t);
    db.tasks, db.nextId := db.tasks + [t], db.nextId + 1;
    return 201, Some(t);
  }

  /** PUT /tasks/:taskId. No membership check. A missing task makes the store fail (500) and nothing
      changes; otherwise exactly that task is patched (200). */
  method UpdateTask(db: Db, taskId: Id, input: TaskInput) returns (status: int, updated: Option<Task>)
    requires db.Valid()
    modifies db`tasks
    ensures db.Valid()
    ensures status == 500 <==> FindByKey(old(db.tasks), TaskId, taskId).None?
    ensures status == 500 ==> updated == None && db.tasks == old(db.tasks)
    ensures status != 500 ==> (
      status == 200 &&
      updated == Some(PatchTask(FindByKey(old(db.tasks), TaskId, taskId).value, input)) &&
      FindByKey(db.tasks, TaskId, taskId) == updated)
    ensures |db.tasks| == |old(db.tasks)|
    ensures forall i :: 0 <= i < |db.tasks| ==>
      db.tasks[i] == if old(db.tasks)[i].id == taskId then PatchTask(old(db.tasks)[i], input) else old(db.tasks)[i]
  {
    var k := IndexOfKey(db.tasks, TaskId, taskId);
    if k.None? {
      return 500, None;
    }
    var t := PatchTask(db.tasks[k.value], input);
    FindByKeyDistinct(db.tasks, TaskId, db.tasks[k.value]);
    ReplaceKeyed(db.tasks, TaskId, k.value, t);
    FindByKeyReplace(db.tasks, TaskId, k.value, t, taskId);
    db.tasks := db.tasks[k.value := t];
    return 200, Some(t);
  }

  /** DELETE /tasks/:taskId. No membership check. A missing task makes the store fail (500);
      otherwise exactly that task is removed (204). */
  method DeleteTask(db: Db, taskId: Id) returns (status: int)
    requires db.Valid()
    modifies db`tasks
    ensures db.Valid()
    ensures status == 500 <==> FindByKey(old(db.tasks), TaskId, taskId).None?
    ensures status == 500 ==> db.tasks == old(db.tasks)
    ensures status != 500 ==> (
      status == 204 && |db.tasks| == |old(db.tasks)| - 1 &&
      forall t :: t in db.tasks <==> t in old(db.tasks) && t.id != taskId)
  {
    var k := IndexOfKey(db.tasks, TaskId, taskId);
    if k.None? {
      return 500;
    }
    RemoveKeyed(db.tasks, TaskId, k.value);
    BelowRemoveAt(db.tasks, TaskId, db.nextId, k.value);
    db.tasks := RemoveAt(db.tasks, k.value);
    return 204;
  }
}
