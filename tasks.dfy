/** /api/tasks: create a task on a project, list a project's tasks, change a
    task's status, update a task. */
module TaskRoutes {
  import opened Collections
  import opened Schema
  import opened Http
  import opened Database

  /** The body of POST /projects/:projectId/tasks; None is a field the
      request leaves out. */
  datatype NewTask = NewTask(
    title: Option<string>,
    description: Option<string>,
    assignedTo: Option<Id>,
    priority: Option<string>,
    dueDate: Option<string>)

  /** The status column's default: the INSERT leaves the status out. */
  const DefaultTaskStatus := "todo"

  /** The row the INSERT adds: the caller's tenant, the priority 'medium'
      unless the request names one, and the default status. */
  function Drafted(id: Id, projectId: Id, tenantId: Id, req: NewTask): (t: Task)
    ensures t.id == id && t.projectId == projectId && t.tenantId == tenantId
    ensures t.title == req.title && t.description == req.description
    ensures t.assignedTo == req.assignedTo && t.dueDate == req.dueDate
    ensures Truthy(req.priority) ==> t.priority == req.priority.value
    ensures !Truthy(req.priority) ==> t.priority == "medium"
    ensures t.status == Some(DefaultTaskStatus)
  {
    Task(id, projectId, tenantId, req.title, req.description, req.assignedTo,
         if Truthy(req.priority) then req.priority.value else "medium",
         Some(DefaultTaskStatus), req.dueDate)
  }

  /** A task added under an existing project, with that project's tenant
      and a never-drawn id, keeps the table well formed. */
  lemma NewTaskKeepsScope(projects: seq<Project>, tasks: seq<Task>, q: Project, t: Task, nextId: nat)
    requires Increasing(projects, ProjectKey) && Below(projects, ProjectKey, nextId)
    requires Increasing(tasks, TaskKey) && Below(tasks, TaskKey, nextId)
    requires forall x :: x in tasks ==> x.projectId < nextId
    requires TasksFollowProjects(projects, tasks)
    requires q in projects && t.projectId == q.id && t.tenantId == q.tenantId && t.id == nextId
    ensures Increasing(tasks + [t], TaskKey) && Below(tasks + [t], TaskKey, nextId + 1)
    ensures forall x :: x in tasks + [t] ==> x.projectId < nextId + 1
    ensures TasksFollowProjects(projects, tasks + [t])
  {
  }

  /** The user `userId` exists and belongs to the caller's tenant. */
  predicate MemberOf(users: seq<User>, userId: Id, callerTenant: Option<Id>) {
    exists u :: u in users && u.id == userId && SameTenant(u.tenantId, callerTenant)
  }

  /** SELECT id FROM users WHERE id = $1 AND tenant_id = <caller's tenant>:
      a row comes back exactly when the user is a member of that tenant, and
      none does for a caller without a tenant. */
  function AssigneeCheck(users: seq<User>, userId: Id, callerTenant: Option<Id>): (r: Option<User>)
    ensures r.Some? ==> r.value in users && r.value.id == userId && SameTenant(r.value.tenantId, callerTenant)
    ensures r.None? <==> !MemberOf(users, userId, callerTenant)
    ensures callerTenant.None? ==> r.None?
  {
    Find(users, (u: User) => u.id == userId && SameTenant(u.tenantId, callerTenant))
  }

  /** POST /projects/:projectId/tasks, any authenticated caller. The project
      must be one of the caller's tenant (403 otherwise); an assignee must be
      a user of the caller's tenant (400 otherwise). The new task carries the
      caller's tenant, which is its project's, and the insert is logged. */
  method CreateTask(db: Store, caller: Principal, projectId: Id, req: NewTask) returns (r: Response)
    requires db.Valid()
    modifies db
    ensures db.Valid()
    ensures db.tenants == old(db.tenants) && db.users == old(db.users) && db.projects == old(db.projects)
    ensures r.status != StatusCreated ==>
      db.tasks == old(db.tasks) && db.audit == old(db.audit) && db.nextId == old(db.nextId)
    ensures r.status == StatusCreated ==> db.nextId == old(db.nextId) + 1
    ensures (forall q :: q in old(db.projects) ==> !(q.id == projectId && caller.tenantId == Some(q.tenantId))) ==>
      r == Response(StatusForbidden, Failure("Project access denied"))
    ensures (exists q :: q in old(db.projects) && q.id == projectId && caller.tenantId == Some(q.tenantId)) ==>
      && (req.assignedTo.Some? && !MemberOf(old(db.users), req.assignedTo.value, caller.tenantId) ==>
            r == Response(StatusBadRequest, Failure("Assigned user must belong to your tenant")))
      && (req.assignedTo.None? || MemberOf(old(db.users), req.assignedTo.value, caller.tenantId) ==>
            var task := Drafted(old(db.nextId), projectId, caller.tenantId.value, req);
            && r == Response(StatusCreated, TaskCreated(task))
            && db.tasks == old(db.tasks) + [task]
            && db.audit == old(db.audit)
                 + [AuditEntry(caller.tenantId, caller.id, "CREATE_TASK", "task", old(db.nextId))])
    ensures r.status == StatusCreated ==>
      && r.body.TaskCreated?
      && (exists q :: q in db.projects && q.id == r.body.task.projectId && q.tenantId == r.body.task.tenantId)
      && caller.tenantId == Some(r.body.task.tenantId)
      && (r.body.task.assignedTo.Some? ==> MemberOf(db.users, r.body.task.assignedTo.value, caller.tenantId))
  {
    var project := Find(db.projects, ProjectIn(projectId, caller.tenantId));
    if project.None? {
      return Response(StatusForbidden, Failure("Project access denied"));
    }
    if req.assignedTo.Some? && AssigneeCheck(db.users, req.assignedTo.value, caller.tenantId).None? {
      return Response(StatusBadRequest, Failure("Assigned user must belong to your tenant"));
    }
    var tenantId := caller.tenantId.value;
    var id := db.FreshId();
    var task := Drafted(id, projectId, tenantId, req);
    NewTaskKeepsScope(db.projects, db.tasks, project.value, task, id);
    db.tasks := db.tasks + [task];
    db.Log(caller.tenantId, caller.id, "CREATE_TASK", "task", id);
    r := Response(StatusCreated, TaskCreated(task));
  }

  /** The LEFT JOIN on the assignee: their name, or NULL when the task has
      no assignee or the assignee's row is gone. */
  function AssigneeName(users: seq<User>, assignedTo: Option<Id>): (name: Option<string>)
    ensures name.Some? <==> assignedTo.Some? && exists u :: u in users && u.id == assignedTo.value
    ensures name.Some? ==> exists u :: u in users && u.id == assignedTo.value && u.fullName == name.value
  {
    if assignedTo.None? then None
    else match UserById(users, assignedTo.value)
      case Some(u) => Some(u.fullName)
      case None => None
  }

  function OnProject(projectId: Id, callerTenant: Option<Id>): Task -> bool {
    (t: Task) => t.projectId == projectId && SameTenant(Some(t.tenantId), callerTenant)
  }

  /** One listing row per task, with the assignee's name. */
  function TaskRows(shown: seq<Task>, users: seq<User>): (rows: seq<TaskRow>)
    ensures |rows| == |shown|
    ensures forall k :: 0 <= k < |shown| ==>
      rows[k] == TaskRow(shown[k], AssigneeName(users, shown[k].assignedTo))
  {
    seq(|shown|, k requires 0 <= k < |shown| => TaskRow(shown[k], AssigneeName(users, shown[k].assignedTo)))
  }

  lemma TaskRowsCover(shown: seq<Task>, users: seq<User>)
    ensures forall row :: row in TaskRows(shown, users) ==>
      row.task in shown && row.assigneeName == AssigneeName(users, row.task.assignedTo)
    ensures forall t :: t in shown ==> exists row :: row in TaskRows(shown, users) && row.task == t
  {
    var rows := TaskRows(shown, users);
    forall t | t in shown ensures exists row :: row in rows && row.task == t {
      var k :| 0 <= k < |shown| && shown[k] == t;
      assert rows[k] in rows;
    }
  }

  /** Without an ORDER BY the rows come in table order, which is id order. */
  lemma TableOrder(tasks: seq<Task>, projectId: Id, callerTenant: Option<Id>)
    ensures Increasing(tasks, TaskKey) ==> Increasing(Filter(tasks, OnProject(projectId, callerTenant)), TaskKey)
  {
    if Increasing(tasks, TaskKey) {
      FilterIncreasing(tasks, OnProject(projectId, callerTenant), TaskKey);
    }
  }

  /** GET /projects/:projectId/tasks. Exactly the tasks of that project that
      also carry the caller's tenant, each with its assignee's name. */
  function ListTasks(tasks: seq<Task>, users: seq<User>, caller: Principal, projectId: Id): (r: Response)
    ensures r.status == StatusOk && r.body.TaskList?
    ensures forall row :: row in r.body.tasks ==>
      && row.task in tasks && row.task.projectId == projectId
      && caller.tenantId == Some(row.task.tenantId)
      && row.assigneeName == AssigneeName(users, row.task.assignedTo)
    ensures forall t :: t in tasks && t.projectId == projectId && caller.tenantId == Some(t.tenantId) ==>
      exists row :: row in r.body.tasks && row.task == t
    ensures Increasing(tasks, TaskKey) ==>
      forall i, j :: 0 <= i < j < |r.body.tasks| ==> r.body.tasks[i].task.id < r.body.tasks[j].task.id
  {
    var shown := Filter(tasks, OnProject(projectId, caller.tenantId));
    TaskRowsCover(shown, users);
    TableOrder(tasks, projectId, caller.tenantId);
    Response(StatusOk, TaskList(TaskRows(shown, users)))
  }

  /** An update that keeps a task's id, project and tenant keeps the store
      well formed. */
  lemma EditKeepsScope(tenants: seq<Tenant>, users: seq<User>, projects: seq<Project>, tasks: seq<Task>,
                       nextId: nat, hit: Task -> bool, edit: Task -> Task)
    requires forall x :: edit(x).id == x.id && edit(x).projectId == x.projectId && edit(x).tenantId == x.tenantId
    requires WellFormed(tenants, users, projects, tasks, nextId)
    ensures WellFormed(tenants, users, projects, UpdateWhere(tasks, hit, edit), nextId)
  {
    UpdateKeepsKeys(tasks, hit, edit, TaskKey, nextId);
  }

  /** What RETURNING * yields after an update that keeps ids and tenants:
      the edited row, if the id names a task of the caller's tenant. */
  lemma MatchedRow(tasks: seq<Task>, taskId: Id, callerTenant: Option<Id>, edit: Task -> Task)
    requires Increasing(tasks, TaskKey)
    requires forall x :: edit(x).id == x.id && edit(x).tenantId == x.tenantId
    ensures var row := Find(UpdateWhere(tasks, TaskIn(taskId, callerTenant), edit), TaskIn(taskId, callerTenant));
      && (row.None? <==> forall t :: t in tasks ==> !TaskIn(taskId, callerTenant)(t))
      && forall t :: t in tasks && TaskIn(taskId, callerTenant)(t) ==> row == Some(edit(t))
  {
    var hit := TaskIn(taskId, callerTenant);
    var after := UpdateWhere(tasks, hit, edit);
    var row := Find(after, hit);
    if row.Some? {
      var j :| 0 <= j < |after| && after[j] == row.value;
      assert hit(tasks[j]);
      forall t | t in tasks && hit(t) ensures row == Some(edit(t)) {
        KeyIdentifies(tasks, TaskKey, t, tasks[j]);
      }
    } else {
      forall t | t in tasks ensures !hit(t) {
        var i :| 0 <= i < |tasks| && tasks[i] == t;
        assert after[i] in after;
      }
    }
  }

  function WithStatus(status: Option<string>): Task -> Task {
    (t: Task) => t.(status := status)
  }

  /** The tasks table after UPDATE tasks SET status = $1 WHERE id = $2 AND
      tenant_id = <caller's tenant>. */
  function StatusRows(tasks: seq<Task>, taskId: Id, callerTenant: Option<Id>, status: Option<string>)
    : (r: seq<Task>)
    ensures |r| == |tasks|
    ensures forall i :: 0 <= i < |r| ==>
      r[i] == if tasks[i].id == taskId && callerTenant == Some(tasks[i].tenantId)
              then tasks[i].(status := status)
              else tasks[i]
  {
    UpdateWhere(tasks, TaskIn(taskId, callerTenant), WithStatus(status))
  }

  /** PATCH's UPDATE keeps the store well formed, and RETURNING * yields
      the matched task with its new status, or nothing. */
  lemma StatusUpdate(tenants: seq<Tenant>, users: seq<User>, projects: seq<Project>, tasks: seq<Task>,
                     nextId: nat, taskId: Id, callerTenant: Option<Id>, status: Option<string>)
    requires WellFormed(tenants, users, projects, tasks, nextId)
    ensures WellFormed(tenants, users, projects, StatusRows(tasks, taskId, callerTenant, status), nextId)
    ensures var row := Find(StatusRows(tasks, taskId, callerTenant, status), TaskIn(taskId, callerTenant));
      && (row.None? <==> forall t :: t in tasks ==> !(t.id == taskId && callerTenant == Some(t.tenantId)))
      && forall t :: t in tasks && t.id == taskId && callerTenant == Some(t.tenantId) ==>
           row == Some(t.(status := status))
  {
    MatchedRow(tasks, taskId, callerTenant, WithStatus(status));
    EditKeepsScope(tenants, users, projects, tasks, nextId, TaskIn(taskId, callerTenant), WithStatus(status));
  }

  /** An UPDATE whose WHERE matches no task leaves the table as it was. */
  lemma StatusRowsUnmatched(tasks: seq<Task>, taskId: Id, callerTenant: Option<Id>, status: Option<string>)
    requires forall t :: t in tasks ==> !(t.id == taskId && callerTenant == Some(t.tenantId))
    ensures StatusRows(tasks, taskId, callerTenant, status) == tasks
  {
    var after := StatusRows(tasks, taskId, callerTenant, status);
    forall i | 0 <= i < |tasks| ensures after[i] == tasks[i] {
      assert tasks[i] in tasks;
    }
  }

  /** PATCH /:taskId/status. The UPDATE reaches only the task with that id
      in the caller's tenant and sets its status alone; no such task is a
      404 and changes nothing. Nothing is logged. */
  method UpdateTaskStatus(db: Store, caller: Principal, taskId: Id, status: Option<string>)
    returns (r: Response)
    requires db.Valid()
    modifies db
    ensures db.Valid()
    ensures db.tenants == old(db.tenants) && db.users == old(db.users) && db.projects == old(db.projects)
    ensures db.audit == old(db.audit) && db.nextId == old(db.nextId)
    ensures (forall t :: t in old(db.tasks) ==> !(t.id == taskId && caller.tenantId == Some(t.tenantId))) ==>
      r == Response(StatusNotFound, Failure("Task not found")) && db.tasks == old(db.tasks)
    ensures forall t :: t in old(db.tasks) && t.id == taskId && caller.tenantId == Some(t.tenantId) ==>
      r == Response(StatusOk, TaskUpdated(Some(t.(status := status))))
    ensures |db.tasks| == |old(db.tasks)|
    ensures forall i :: 0 <= i < |db.tasks| ==>
      db.tasks[i] == if old(db.tasks)[i].id == taskId && caller.tenantId == Some(old(db.tasks)[i].tenantId)
                     then old(db.tasks)[i].(status := status)
                     else old(db.tasks)[i]
  {
    StatusUpdate(db.tenants, db.users, db.projects, db.tasks, db.nextId, taskId, caller.tenantId, status);
    ghost var before := db.tasks;
    db.tasks := StatusRows(db.tasks, taskId, caller.tenantId, status);
    var row := Find(db.tasks, TaskIn(taskId, caller.tenantId));
    if row.None? {
      // rowCount is 0: the UPDATE changed no row.
      StatusRowsUnmatched(before, taskId, caller.tenantId, status);
      return Response(StatusNotFound, Failure("Task not found"));
    }
    r := Response(StatusOk, TaskUpdated(row));
  }

  /** The body of PUT /:taskId; None is a field the request leaves out. */
  datatype TaskChanges = TaskChanges(
    title: Option<string>,
    description: Option<string>,
    priority: Option<string>,
    assignedTo: Option<Id>,
    dueDate: Option<string>,
    status: Option<string>)

  /** COALESCE per column: a supplied field replaces the stored one, an
      absent one keeps it. */
  function Amended(t: Task, c: TaskChanges): (e: Task)
    ensures e.id == t.id && e.projectId == t.projectId && e.tenantId == t.tenantId
    ensures e.title == (if c.title.Some? then c.title else t.title)
    ensures e.description == (if c.description.Some? then c.description else t.description)
    ensures (c.priority.Some? ==> e.priority == c.priority.value) && (c.priority.None? ==> e.priority == t.priority)
    ensures e.assignedTo == (if c.assignedTo.Some? then c.assignedTo else t.assignedTo)
    ensures e.dueDate == (if c.dueDate.Some? then c.dueDate else t.dueDate)
    ensures e.status == (if c.status.Some? then c.status else t.status)
  {
    t.(title := if c.title.Some? then c.title else t.title,
       description := if c.description.Some? then c.description else t.description,
       priority := c.priority.GetOr(t.priority),
       assignedTo := if c.assignedTo.Some? then c.assignedTo else t.assignedTo,
       dueDate := if c.dueDate.Some? then c.dueDate else t.dueDate,
       status := if c.status.Some? then c.status else t.status)
  }

  function AmendedBy(c: TaskChanges): Task -> Task {
    (t: Task) => Amended(t, c)
  }

  /** The tasks table after the COALESCE UPDATE ... WHERE id = $7 AND
      tenant_id = <caller's tenant>: only that task changes, so no task of
      another tenant does. */
  function AmendRows(tasks: seq<Task>, taskId: Id, callerTenant: Option<Id>, c: TaskChanges)
    : (r: seq<Task>)
    ensures |r| == |tasks|
    ensures forall i :: 0 <= i < |r| ==>
      r[i] == if tasks[i].id == taskId && callerTenant == Some(tasks[i].tenantId)
              then Amended(tasks[i], c)
              else tasks[i]
    ensures forall i :: 0 <= i < |r| && callerTenant != Some(tasks[i].tenantId) ==> r[i] == tasks[i]
  {
    UpdateWhere(tasks, TaskIn(taskId, callerTenant), AmendedBy(c))
  }

  /** A COALESCE update with nothing supplied leaves a task as it was. */
  lemma AmendNothing(t: Task)
    ensures Amended(t, TaskChanges(None, None, None, None, None, None)) == t
  {
  }

  /** Sending the same PUT twice leaves the task as sending it once. */
  lemma AmendTwice(t: Task, c: TaskChanges)
    ensures Amended(Amended(t, c), c) == Amended(t, c)
  {
  }

  /** PUT's UPDATE keeps the store well formed, and RETURNING * yields the
      matched task as amended, or nothing. */
  lemma AmendUpdate(tenants: seq<Tenant>, users: seq<User>, projects: seq<Project>, tasks: seq<Task>,
                    nextId: nat, taskId: Id, callerTenant: Option<Id>, c: TaskChanges)
    requires WellFormed(tenants, users, projects, tasks, nextId)
    ensures WellFormed(tenants, users, projects, AmendRows(tasks, taskId, callerTenant, c), nextId)
    ensures var row := Find(AmendRows(tasks, taskId, callerTenant, c), TaskIn(taskId, callerTenant));
      && (row.None? <==> forall t :: t in tasks ==> !(t.id == taskId && callerTenant == Some(t.tenantId)))
      && forall t :: t in tasks && t.id == taskId && callerTenant == Some(t.tenantId) ==>
           row == Some(Amended(t, c))
  {
    MatchedRow(tasks, taskId, callerTenant, AmendedBy(c));
    EditKeepsScope(tenants, users, projects, tasks, nextId, TaskIn(taskId, callerTenant), AmendedBy(c));
  }

  /** PUT /:taskId. The UPDATE reaches only the task with that id in the
      caller's tenant; the answer is 200 whether or not a row matched (with
      no row when none did), and the update is logged either way. Unlike
      create, an assignee is not checked against the tenant. */
  method UpdateTask(db: Store, caller: Principal, taskId: Id, changes: TaskChanges) returns (r: Response)
    requires db.Valid()
    modifies db
    ensures db.Valid()
    ensures db.tenants == old(db.tenants) && db.users == old(db.users) && db.projects == old(db.projects)
    ensures db.nextId == old(db.nextId)
    ensures db.audit == old(db.audit) + [AuditEntry(caller.tenantId, caller.id, "UPDATE_TASK", "task", taskId)]
    ensures r.status == StatusOk && r.body.TaskUpdated?
    ensures r.body.updatedTask.None? <==>
      forall t :: t in old(db.tasks) ==> !(t.id == taskId && caller.tenantId == Some(t.tenantId))
    ensures forall t :: t in old(db.tasks) && t.id == taskId && caller.tenantId == Some(t.tenantId) ==>
      r.body.updatedTask == Some(Amended(t, changes))
    ensures |db.tasks| == |old(db.tasks)|
    ensures forall i :: 0 <= i < |db.tasks| ==>
      db.tasks[i] == if old(db.tasks)[i].id == taskId && caller.tenantId == Some(old(db.tasks)[i].tenantId)
                     then Amended(old(db.tasks)[i], changes)
                     else old(db.tasks)[i]
    ensures forall i :: 0 <= i < |db.tasks| && caller.tenantId != Some(old(db.tasks)[i].tenantId) ==>
      db.tasks[i] == old(db.tasks)[i]
  {
    AmendUpdate(db.tenants, db.users, db.projects, db.tasks, db.nextId, taskId, caller.tenantId, changes);
    db.tasks := AmendRows(db.tasks, taskId, caller.tenantId, changes);
    db.Log(caller.tenantId, caller.id, "UPDATE_TASK", "task", taskId);
    r := Response(StatusOk, TaskUpdated(Find(db.tasks, TaskIn(taskId, caller.tenantId))));
  }
}
