/** What a route handler sends back: a status code and a JSON payload. */
module Http {
  import opened Collections
  import opened Schema

  const StatusOk := 200
  const StatusCreated := 201
  const StatusBadRequest := 400
  const StatusUnauthorized := 401
  const StatusForbidden := 403
  const StatusNotFound := 404
  const StatusConflict := 409
  const StatusServerError := 500

  /** A user as responses show it: every column but the password hash. */
  datatype Account = Account(id: Id, tenantId: Option<Id>, email: string, fullName: string, role: Role)

  function View(u: User): Account {
    Account(u.id, u.tenantId, u.email, u.fullName, u.role)
  }

  /** The claims a login signs into its token. */
  datatype Claims = Claims(id: Id, tenantId: Option<Id>, role: Role)

  /** Token lifetime in seconds: jsonwebtoken's '24h'. */
  const TokenLifetime: nat := 24 * 60 * 60

  datatype TenantRow = TenantRow(tenant: Tenant, totalUsers: nat)
  datatype ProjectRow = ProjectRow(project: Project, creatorName: string, taskCount: nat)
  datatype TaskRow = TaskRow(task: Task, assigneeName: Option<string>)

  datatype Body =
    | Failure(message: string)
    | Done(message: string)
    | TenantDetails(tenant: Tenant, totalUsers: nat, totalProjects: nat)
    | TenantUpdated(updatedTenant: Option<Tenant>)
    | TenantPage(tenants: seq<TenantRow>, currentPage: int, totalPages: nat, totalTenants: nat)
    | Registered(tenantId: Id, admin: Account)
    | SignedIn(account: Account, token: Claims, expiresIn: nat)
    | UserCreated(account: Account)
    | UserList(accounts: seq<Account>)
    | ProjectCreated(project: Project)
    | ProjectList(projects: seq<ProjectRow>)
    | TaskCreated(task: Task)
    | TaskList(tasks: seq<TaskRow>)
    | TaskUpdated(updatedTask: Option<Task>)

  datatype Response = Response(status: int, body: Body)
}
