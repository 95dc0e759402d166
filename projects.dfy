/** /api/projects: create a project under the caller's tenant, list the
    tenant's projects, delete one. */
module ProjectRoutes {
  import opened Collections
  import opened Schema
  import opened Http
  import opened Database

  /** The body of POST /; None is a field the request leaves out. */
  datatype NewProject = NewProject(name: Option<string>, description: Option<string>, status: Option<string>)

  /** The row the INSERT adds: the caller's tenant and id, and the status
      'active' unless the request names one. */
  function Founded(id: Id, tenantId: Id, creator: Id, req: NewProject): (q: Project)
    requires Truthy(req.name)
    ensures q.id == id && q.tenantId == tenantId && q.createdBy == creator
    ensures q.name == req.name.value && q.description == req.description
    ensures Truthy(req.status) ==> q.status == req.status.value
    ensures !Truthy(req.status) ==> q.status == "active"
  {
    Project(id, tenantId, req.name.value, req.description,
            if Truthy(req.status) then req.status.value else "active", creator)
  }

  lemma CountAfterInsert(projects: seq<Project>, q: Project, tenantId: Id)
    requires q.tenantId == tenantId
    ensures |ProjectsOf(projects + [q], tenantId)| == |ProjectsOf(projects, tenantId)| + 1
  {
  }

  /** A project with a never-drawn id has no tasks yet, so adding it keeps
      every task on its project's tenant. */
  lemma FreshProjectKeepsTasks(projects: seq<Project>, tasks: seq<Task>, q: Project, nextId: nat)
    requires TasksFollowProjects(projects, tasks)
    requires forall t :: t in tasks ==> t.projectId < nextId
    requires q.id == nextId
    ensures TasksFollowProjects(projects + [q], tasks)
  {
  }

  /** POST /, any authenticated caller. The name is required before anything
      is read; the tenant's project count must be below its max_projects. A
      caller without a tenant (or whose tenant is gone) finds no max_projects
      row, and the handler's catch answers 500. */
  method CreateProject(db: Store, caller: Principal, req: NewProject) returns (r: Response)
    requires db.Valid()
    modifies db
    ensures db.Valid()
    ensures db.tenants == old(db.tenants) && db.users == old(db.users)
    ensures db.tasks == old(db.tasks) && db.audit == old(db.audit)
    ensures r.status != StatusCreated ==> db.projects == old(db.projects) && db.nextId == old(db.nextId)
    ensures r.status == StatusCreated ==> db.nextId == old(db.nextId) + 1
    ensures !Truthy(req.name) ==> r == Response(StatusBadRequest, Failure("Project name is required"))
    ensures Truthy(req.name)
            && (caller.tenantId.None? || TenantById(old(db.tenants), caller.tenantId.value).None?) ==>
      r == Response(StatusServerError, Failure("Failed to create project"))
    ensures Truthy(req.name) && caller.tenantId.Some?
            && TenantById(old(db.tenants), caller.tenantId.value).Some? ==>
      var tenantId := caller.tenantId.value;
      var cap := TenantById(old(db.tenants), tenantId).value.maxProjects;
      var before := |ProjectsOf(old(db.projects), tenantId)|;
      && (before >= cap ==>
            r == Response(StatusForbidden, Failure("Subscription limit reached: Maximum projects exceeded")))
      && (before < cap ==>
            && r.status == StatusCreated
            && db.projects == old(db.projects) + [Founded(old(db.nextId), tenantId, caller.id, req)]
            && r.body == ProjectCreated(Founded(old(db.nextId), tenantId, caller.id, req)))
    ensures r.status == StatusCreated ==>
      && caller.tenantId.Some?
      && TenantById(old(db.tenants), caller.tenantId.value).Some?
      && |ProjectsOf(old(db.projects), caller.tenantId.value)|
         < TenantById(old(db.tenants), caller.tenantId.value).value.maxProjects
      && |ProjectsOf(db.projects, caller.tenantId.value)|
         == |ProjectsOf(old(db.projects), caller.tenantId.value)| + 1
      && |ProjectsOf(db.projects, caller.tenantId.value)|
         <= TenantById(old(db.tenants), caller.tenantId.value).value.maxProjects
  {
    if !Truthy(req.name) {
      return Response(StatusBadRequest, Failure("Project name is required"));
    }
    if caller.tenantId.None? || TenantById(db.tenants, caller.tenantId.value).None? {
      return Response(StatusServerError, Failure("Failed to create project"));
    }
    var tenantId := caller.tenantId.value;
    var tenant := TenantById(db.tenants, tenantId).value;
    if |ProjectsOf(db.projects, tenantId)| >= tenant.maxProjects {
      return Response(StatusForbidden, Failure("Subscription limit reached: Maximum projects exceeded"));
    }
    var id := db.FreshId();
    var project := Founded(id, tenantId, caller.id, req);
    AppendFresh(db.projects, project, ProjectKey, id);
    CountAfterInsert(db.projects, project, tenantId);
    FreshProjectKeepsTasks(db.projects, db.tasks, project, id);
    db.projects := db.projects + [project];
    r := Response(StatusCreated, ProjectCreated(project));
  }

  /** The inner JOIN on the creator: a project whose creator row is gone
      drops out of the listing. */
  function HasCreator(users: seq<User>): Project -> bool {
    (q: Project) => UserById(users, q.createdBy).Some?
  }

  function CreatorName(users: seq<User>, creator: Id): (name: string)
    ensures (exists u :: u in users && u.id == creator) ==>
      exists u :: u in users && u.id == creator && u.fullName == name
  {
    match UserById(users, creator)
    case Some(u) => u.fullName
    case None => ""
  }

  /** The projects a listing shows, newest first. */
  function Listed(projects: seq<Project>, users: seq<User>, tenantId: Id): (shown: seq<Project>)
    ensures forall q :: q in shown <==>
      q in projects && q.tenantId == tenantId && exists u :: u in users && u.id == q.createdBy
    ensures Increasing(projects, ProjectKey) ==> Decreasing(shown, ProjectKey)
  {
    var joined := Filter(ProjectsOf(projects, tenantId), HasCreator(users));
    ReverseMembers(joined);
    JoinedOrder(projects, users, tenantId);
    Reverse(joined)
  }

  lemma JoinedOrder(projects: seq<Project>, users: seq<User>, tenantId: Id)
    ensures Increasing(projects, ProjectKey) ==>
      Decreasing(Reverse(Filter(ProjectsOf(projects, tenantId), HasCreator(users))), ProjectKey)
  {
    if Increasing(projects, ProjectKey) {
      FilterIncreasing(projects, ProjectOfTenant(tenantId), ProjectKey);
      FilterIncreasing(ProjectsOf(projects, tenantId), HasCreator(users), ProjectKey);
      ReverseDecreasing(Filter(ProjectsOf(projects, tenantId), HasCreator(users)), ProjectKey);
    }
  }

  /** One listing row per shown project: the project, its creator's name
      and its task count. */
  function Rows(shown: seq<Project>, users: seq<User>, tasks: seq<Task>): (rows: seq<ProjectRow>)
    ensures |rows| == |shown|
    ensures forall k :: 0 <= k < |shown| ==>
      && rows[k].project == shown[k]
      && rows[k].creatorName == CreatorName(users, shown[k].createdBy)
      && rows[k].taskCount == |set i | 0 <= i < |tasks| && tasks[i].projectId == shown[k].id|
  {
    TaskCounts(tasks);
    seq(|shown|, k requires 0 <= k < |shown| =>
          ProjectRow(shown[k], CreatorName(users, shown[k].createdBy),
                     |Filter(tasks, TaskOfProject(shown[k].id))|))
  }

  /** GET /. The caller's tenant's projects, newest first, each with its
      creator's name and the number of tasks on it. A caller without a
      tenant matches no row. */
  function ListProjects(projects: seq<Project>, users: seq<User>, tasks: seq<Task>, caller: Principal)
    : (r: Response)
    ensures r.status == StatusOk && r.body.ProjectList?
    ensures forall row :: row in r.body.projects ==>
      && row.project in projects && caller.tenantId == Some(row.project.tenantId)
      && (exists u :: u in users && u.id == row.project.createdBy && u.fullName == row.creatorName)
      && row.taskCount == |set i | 0 <= i < |tasks| && tasks[i].projectId == row.project.id|
    ensures forall q :: q in projects && caller.tenantId == Some(q.tenantId)
                        && (exists u :: u in users && u.id == q.createdBy) ==>
      exists row :: row in r.body.projects && row.project == q
    ensures Increasing(projects, ProjectKey) ==>
      forall i, j :: 0 <= i < j < |r.body.projects| ==> r.body.projects[i].project.id > r.body.projects[j].project.id
  {
    if caller.tenantId.None? then
      Response(StatusOk, ProjectList([]))
    else
      var shown := Listed(projects, users, caller.tenantId.value);
      var rows := Rows(shown, users, tasks);
      RowsCover(shown, users, tasks);
      Response(StatusOk, ProjectList(rows))
  }

  lemma RowsCover(shown: seq<Project>, users: seq<User>, tasks: seq<Task>)
    ensures forall row :: row in Rows(shown, users, tasks) ==> row.project in shown
    ensures forall q :: q in shown ==> exists row :: row in Rows(shown, users, tasks) && row.project == q
  {
    var rows := Rows(shown, users, tasks);
    forall q | q in shown ensures exists row :: row in rows && row.project == q {
      var k :| 0 <= k < |shown| && shown[k] == q;
      assert rows[k] in rows;
    }
  }

  function ProjectOtherThan(projectId: Id): Project -> bool {
    (q: Project) => q.id != projectId
  }

  /** DELETE /:projectId, any authenticated caller. The project must be one
      of the caller's tenant (otherwise 404, as if absent); the caller must
      be a tenant_admin or the project's creator. The DELETE then removes
      that one project. */
  method DeleteProject(db: Store, caller: Principal, projectId: Id) returns (r: Response)
    requires db.Valid()
    modifies db
    ensures db.Valid()
    ensures db.tenants == old(db.tenants) && db.users == old(db.users)
    ensures db.tasks == old(db.tasks) && db.audit == old(db.audit) && db.nextId == old(db.nextId)
    ensures (forall q :: q in old(db.projects) ==> !(q.id == projectId && caller.tenantId == Some(q.tenantId))) ==>
      r == Response(StatusNotFound, Failure("Project not found")) && db.projects == old(db.projects)
    ensures forall q :: q in old(db.projects) && q.id == projectId && caller.tenantId == Some(q.tenantId) ==>
      && (caller.role != TenantAdmin && q.createdBy != caller.id ==>
            r == Response(StatusForbidden, Failure("Unauthorized to delete this project"))
            && db.projects == old(db.projects))
      && (caller.role == TenantAdmin || q.createdBy == caller.id ==>
            && r == Response(StatusOk, Done("Project deleted successfully"))
            && |db.projects| == |old(db.projects)| - 1
            && forall p :: p in db.projects <==> p in old(db.projects) && p != q)
  {
    var found := Find(db.projects, ProjectIn(projectId, caller.tenantId));
    if found.None? {
      return Response(StatusNotFound, Failure("Project not found"));
    }
    var q := found.value;
    forall p | p in db.projects && p.id == projectId ensures p == q {
      KeyIdentifies(db.projects, ProjectKey, p, q);
    }
    if caller.role != TenantAdmin && q.createdBy != caller.id {
      return Response(StatusForbidden, Failure("Unauthorized to delete this project"));
    }
    var keep := ProjectOtherThan(projectId);
    FilterDropsOne(db.projects, keep, ProjectKey, q);
    FilterIncreasing(db.projects, keep, ProjectKey);
    FilterBelow(db.projects, keep, ProjectKey, db.nextId);
    db.projects := Filter(db.projects, keep);
    r := Response(StatusOk, Done("Project deleted successfully"));
  }
}
