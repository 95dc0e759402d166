/** The rows of the five tables the route handlers read and write, the
    authenticated caller, and the well-formedness the handlers keep. */
module Schema {
  import opened Collections

  /** Row ids. The database draws UUIDs; the model draws them from one
      counter, so a larger id means a later insert. */
  type Id = nat

  /** The three roles; the source spells the last one 'user'. */
  datatype Role = SuperAdmin | TenantAdmin | Member

  /** A stored password hash. bcrypt is modelled as an ideal one-way hash:
      a digest matches exactly the password it was made from, its preimage.
      bcrypt rejects a missing password, so callers hash only a present one. */
  datatype Digest = Digest(preimage: string)

  function Hash(password: string): Digest {
    Digest(password)
  }

  /** bcrypt.compare */
  predicate Verify(password: string, d: Digest) {
    d == Hash(password)
  }

  datatype Tenant = Tenant(
    id: Id,
    name: Option<string>,
    subdomain: string,
    status: string,
    plan: string,
    maxUsers: int,
    maxProjects: int)

  /** `tenantId` is None for a user outside every tenant (a super_admin). */
  datatype User = User(
    id: Id,
    tenantId: Option<Id>,
    email: string,
    passwordHash: Digest,
    fullName: string,
    role: Role)

  datatype Project = Project(
    id: Id,
    tenantId: Id,
    name: string,
    description: Option<string>,
    status: string,
    createdBy: Id)

  datatype Task = Task(
    id: Id,
    projectId: Id,
    tenantId: Id,
    title: Option<string>,
    description: Option<string>,
    assignedTo: Option<Id>,
    priority: string,
    status: Option<string>,
    dueDate: Option<string>)

  datatype AuditEntry = AuditEntry(
    tenantId: Option<Id>,
    userId: Id,
    action: string,
    entityType: string,
    entityId: Id)

  /** The caller as the authentication middleware hands it to a handler:
      the claims of a verified token. */
  datatype Principal = Principal(id: Id, tenantId: Option<Id>, role: Role)

  /** JavaScript truthiness of an optional string body field. */
  predicate Truthy(s: Option<string>) {
    s.Some? && s.value != ""
  }

  /** `tenant_id = $n` where `$n` is the caller's tenant: SQL equality with a
      NULL caller tenant holds for no row. */
  predicate SameTenant(rowTenant: Option<Id>, caller: Option<Id>) {
    caller.Some? && rowTenant == caller
  }

  function TenantKey(t: Tenant): int { t.id }
  function UserKey(u: User): int { u.id }
  function ProjectKey(q: Project): int { q.id }
  function TaskKey(t: Task): int { t.id }

  // WHERE clauses, one per query the handlers issue.

  function TenantWithId(id: Id): Tenant -> bool {
    (t: Tenant) => t.id == id
  }

  function UserOfTenant(tenantId: Id): User -> bool {
    (u: User) => u.tenantId == Some(tenantId)
  }

  function ProjectOfTenant(tenantId: Id): Project -> bool {
    (q: Project) => q.tenantId == tenantId
  }

  function TaskOfProject(projectId: Id): Task -> bool {
    (t: Task) => t.projectId == projectId
  }

  /** WHERE id = $1 AND tenant_id = <caller's tenant>, on projects and on tasks. */
  function ProjectIn(projectId: Id, callerTenant: Option<Id>): Project -> bool {
    (q: Project) => q.id == projectId && SameTenant(Some(q.tenantId), callerTenant)
  }

  function TaskIn(taskId: Id, callerTenant: Option<Id>): Task -> bool {
    (t: Task) => t.id == taskId && SameTenant(Some(t.tenantId), callerTenant)
  }

  /** SELECT ... FROM tenants WHERE id = $1 */
  function TenantById(tenants: seq<Tenant>, id: Id): (r: Option<Tenant>)
    ensures r.Some? ==> r.value in tenants && r.value.id == id
    ensures r.None? <==> forall t :: t in tenants ==> t.id != id
  {
    Find(tenants, TenantWithId(id))
  }

  function UserWithId(id: Id): User -> bool {
    (u: User) => u.id == id
  }

  /** SELECT ... FROM users WHERE id = $1 (ids are unique, so at most one). */
  function UserById(users: seq<User>, id: Id): (r: Option<User>)
    ensures r.Some? ==> r.value in users && r.value.id == id
    ensures r.None? <==> forall u :: u in users ==> u.id != id
  {
    Find(users, UserWithId(id))
  }

  /** SELECT ... FROM users WHERE tenant_id = $1 */
  function UsersOf(users: seq<User>, tenantId: Id): (r: seq<User>)
    ensures forall u :: u in r <==> u in users && u.tenantId == Some(tenantId)
  {
    Filter(users, UserOfTenant(tenantId))
  }

  /** SELECT ... FROM projects WHERE tenant_id = $1 */
  function ProjectsOf(projects: seq<Project>, tenantId: Id): (r: seq<Project>)
    ensures forall q :: q in r <==> q in projects && q.tenantId == tenantId
  {
    Filter(projects, ProjectOfTenant(tenantId))
  }

  /** SELECT COUNT(*) FROM users WHERE tenant_id = $1, as the number of rows
      whose tenant is `tenantId`. */
  lemma UserCount(users: seq<User>, tenantId: Id)
    ensures |UsersOf(users, tenantId)| == |set i | 0 <= i < |users| && users[i].tenantId == Some(tenantId)|
  {
    FilterSize(users, UserOfTenant(tenantId));
    assert Positions(users, UserOfTenant(tenantId))
        == set i | 0 <= i < |users| && users[i].tenantId == Some(tenantId);
  }

  lemma UserCounts(users: seq<User>)
    ensures forall tenantId: Id :: |UsersOf(users, tenantId)|
              == |set i | 0 <= i < |users| && users[i].tenantId == Some(tenantId)|
  {
    forall tenantId: Id {
      UserCount(users, tenantId);
    }
  }

  /** SELECT COUNT(*) FROM projects WHERE tenant_id = $1 */
  lemma ProjectCount(projects: seq<Project>, tenantId: Id)
    ensures |ProjectsOf(projects, tenantId)| == |set i | 0 <= i < |projects| && projects[i].tenantId == tenantId|
  {
    FilterSize(projects, ProjectOfTenant(tenantId));
    assert Positions(projects, ProjectOfTenant(tenantId))
        == set i | 0 <= i < |projects| && projects[i].tenantId == tenantId;
  }

  /** SELECT COUNT(*) FROM tasks WHERE project_id = $1 */
  lemma TaskCount(tasks: seq<Task>, projectId: Id)
    ensures |Filter(tasks, TaskOfProject(projectId))| == |set i | 0 <= i < |tasks| && tasks[i].projectId == projectId|
  {
    FilterSize(tasks, TaskOfProject(projectId));
    assert Positions(tasks, TaskOfProject(projectId))
        == set i | 0 <= i < |tasks| && tasks[i].projectId == projectId;
  }

  lemma TaskCounts(tasks: seq<Task>)
    ensures forall projectId: Id :: |Filter(tasks, TaskOfProject(projectId))|
              == |set i | 0 <= i < |tasks| && tasks[i].projectId == projectId|
  {
    forall projectId: Id {
      TaskCount(tasks, projectId);
    }
  }

  /** The unique index on users (tenant_id, email): a second row with the
      same pair fails with error 23505. */
  predicate EmailTaken(users: seq<User>, tenantId: Option<Id>, email: string) {
    exists u :: u in users && u.tenantId == tenantId && u.email == email
  }

  /** The unique index on tenants.subdomain. */
  predicate SubdomainTaken(tenants: seq<Tenant>, subdomain: string) {
    exists t :: t in tenants && t.subdomain == subdomain
  }

  ghost predicate SubdomainsUnique(tenants: seq<Tenant>) {
    forall i, j :: 0 <= i < j < |tenants| ==> tenants[i].subdomain != tenants[j].subdomain
  }

  /** A task carries its project's tenant (the denormalised copy is right). */
  ghost predicate TasksFollowProjects(projects: seq<Project>, tasks: seq<Task>) {
    forall t, q :: t in tasks && q in projects && q.id == t.projectId ==> t.tenantId == q.tenantId
  }

  /** What every handler keeps: ids are drawn in increasing order from
      `nextId` (so a table lists its rows oldest first), subdomains are
      unique, and a task's tenant is its project's tenant. */
  ghost predicate WellFormed(tenants: seq<Tenant>, users: seq<User>, projects: seq<Project>,
                             tasks: seq<Task>, nextId: nat) {
    && Increasing(tenants, TenantKey) && Below(tenants, TenantKey, nextId)
    && Increasing(users, UserKey) && Below(users, UserKey, nextId)
    && Increasing(projects, ProjectKey) && Below(projects, ProjectKey, nextId)
    && Increasing(tasks, TaskKey) && Below(tasks, TaskKey, nextId)
    && (forall t :: t in tasks ==> t.projectId < nextId)
    && SubdomainsUnique(tenants)
    && TasksFollowProjects(projects, tasks)
  }
}
