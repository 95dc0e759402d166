/** /api/tenants: tenant details, tenant update, tenant listing. */
module TenantRoutes {
  import opened Collections
  import opened Schema
  import opened Http
  import opened Database

  /** GET /:tenantId. Members of the tenant and super_admins may look; the
      details come with the tenant's user and project counts. */
  function GetTenant(tenants: seq<Tenant>, users: seq<User>, projects: seq<Project>,
                     caller: Principal, tenantId: Id): (r: Response)
    ensures r.status == StatusForbidden
        <==> caller.role != SuperAdmin && caller.tenantId != Some(tenantId)
    ensures r.status == StatusForbidden ==> r.body == Failure("Unauthorized access to this tenant")
    ensures r.status == StatusNotFound
        <==> (caller.role == SuperAdmin || caller.tenantId == Some(tenantId))
             && forall t :: t in tenants ==> t.id != tenantId
    ensures r.status in {StatusOk, StatusForbidden, StatusNotFound}
    ensures r.status == StatusOk ==>
      && r.body.TenantDetails?
      && r.body.tenant in tenants && r.body.tenant.id == tenantId
      && r.body.totalUsers == |set i | 0 <= i < |users| && users[i].tenantId == Some(tenantId)|
      && r.body.totalProjects == |set i | 0 <= i < |projects| && projects[i].tenantId == tenantId|
  {
    if caller.role != SuperAdmin && caller.tenantId != Some(tenantId) then
      Response(StatusForbidden, Failure("Unauthorized access to this tenant"))
    else
      match TenantById(tenants, tenantId)
      case None => Response(StatusNotFound, Failure("Tenant not found"))
      case Some(t) =>
        UserCount(users, tenantId);
        ProjectCount(projects, tenantId);
        Response(StatusOk, TenantDetails(t, |UsersOf(users, tenantId)|, |ProjectsOf(projects, tenantId)|))
  }

  /** The body of PUT /:tenantId; None is a field the request leaves out. */
  datatype TenantChanges = TenantChanges(
    name: Option<string>,
    status: Option<string>,
    plan: Option<string>,
    maxUsers: Option<int>,
    maxProjects: Option<int>)

  /** The row a PUT leaves behind. A super_admin's update is a COALESCE per
      column; a tenant_admin's sets the name alone, to whatever was sent. */
  function Revised(t: Tenant, role: Role, c: TenantChanges): (e: Tenant)
    ensures e.id == t.id && e.subdomain == t.subdomain
    ensures role == SuperAdmin ==>
      && e.name == (if c.name.Some? then c.name else t.name)
      && (c.status.Some? ==> e.status == c.status.value) && (c.status.None? ==> e.status == t.status)
      && (c.plan.Some? ==> e.plan == c.plan.value) && (c.plan.None? ==> e.plan == t.plan)
      && (c.maxUsers.Some? ==> e.maxUsers == c.maxUsers.value) && (c.maxUsers.None? ==> e.maxUsers == t.maxUsers)
      && (c.maxProjects.Some? ==> e.maxProjects == c.maxProjects.value)
      && (c.maxProjects.None? ==> e.maxProjects == t.maxProjects)
    ensures role != SuperAdmin ==>
      && e.name == c.name
      && e.status == t.status && e.plan == t.plan
      && e.maxUsers == t.maxUsers && e.maxProjects == t.maxProjects
  {
    if role == SuperAdmin then
      t.(name := if c.name.Some? then c.name else t.name,
         status := c.status.GetOr(t.status),
         plan := c.plan.GetOr(t.plan),
         maxUsers := c.maxUsers.GetOr(t.maxUsers),
         maxProjects := c.maxProjects.GetOr(t.maxProjects))
    else
      t.(name := c.name)
  }

  /** Sending the same PUT twice leaves the row as sending it once. */
  lemma ReviseTwice(t: Tenant, role: Role, c: TenantChanges)
    ensures Revised(Revised(t, role, c), role, c) == Revised(t, role, c)
  {
  }

  /** The tenants table after the UPDATE: the row with the id is revised,
      every other row stays, in place. */
  function UpdateRows(tenants: seq<Tenant>, tenantId: Id, role: Role, c: TenantChanges)
    : (r: seq<Tenant>)
    requires Increasing(tenants, TenantKey) && SubdomainsUnique(tenants)
    ensures |r| == |tenants|
    ensures forall i :: 0 <= i < |r| ==>
              r[i] == if tenants[i].id == tenantId then Revised(tenants[i], role, c) else tenants[i]
    ensures Increasing(r, TenantKey) && SubdomainsUnique(r)
    ensures forall bound :: Below(tenants, TenantKey, bound) ==> Below(r, TenantKey, bound)
  {
    UpdateWhere(tenants, TenantWithId(tenantId), (t: Tenant) => Revised(t, role, c))
  }

  /** What RETURNING * yields: the revised row, if the id names one. */
  lemma UpdatedRow(tenants: seq<Tenant>, tenantId: Id, role: Role, c: TenantChanges)
    requires Increasing(tenants, TenantKey) && SubdomainsUnique(tenants)
    ensures var row := TenantById(UpdateRows(tenants, tenantId, role, c), tenantId);
      && (row.None? <==> forall t :: t in tenants ==> t.id != tenantId)
      && (row.Some? ==> exists i :: 0 <= i < |tenants| && tenants[i].id == tenantId
                                   && row.value == Revised(tenants[i], role, c))
  {
  }

  /** Revising tenant rows keeps the store well formed. */
  lemma RevisionKeepsStore(tenants: seq<Tenant>, users: seq<User>, projects: seq<Project>, tasks: seq<Task>,
                           nextId: nat, tenantId: Id, role: Role, c: TenantChanges)
    requires WellFormed(tenants, users, projects, tasks, nextId)
    ensures WellFormed(UpdateRows(tenants, tenantId, role, c), users, projects, tasks, nextId)
  {
  }

  /** PUT /:tenantId. The role gate admits tenant_admin and super_admin; a
      tenant_admin may only touch their own tenant. The UPDATE matches on the
      id alone; when no row matches the answer is still 200, without a row. */
  method UpdateTenant(db: Store, caller: Principal, tenantId: Id, changes: TenantChanges)
    returns (r: Response)
    requires db.Valid()
    requires caller.role == TenantAdmin || caller.role == SuperAdmin
    modifies db
    ensures db.Valid()
    ensures db.users == old(db.users) && db.projects == old(db.projects)
    ensures db.tasks == old(db.tasks) && db.audit == old(db.audit) && db.nextId == old(db.nextId)
    ensures caller.role == TenantAdmin && caller.tenantId != Some(tenantId) ==>
      r == Response(StatusForbidden, Failure("Unauthorized")) && db.tenants == old(db.tenants)
    ensures caller.role == SuperAdmin || caller.tenantId == Some(tenantId) ==>
      && r.status == StatusOk && r.body.TenantUpdated?
      && |db.tenants| == |old(db.tenants)|
      && (forall i :: 0 <= i < |db.tenants| ==>
            db.tenants[i] == if old(db.tenants)[i].id == tenantId
                             then Revised(old(db.tenants)[i], caller.role, changes)
                             else old(db.tenants)[i])
      && (r.body.updatedTenant.None? <==> forall t :: t in old(db.tenants) ==> t.id != tenantId)
      && (r.body.updatedTenant.Some? ==>
            exists i :: 0 <= i < |old(db.tenants)| && old(db.tenants)[i].id == tenantId
              && r.body.updatedTenant.value == Revised(old(db.tenants)[i], caller.role, changes))
  {
    if caller.role == TenantAdmin && caller.tenantId != Some(tenantId) {
      return Response(StatusForbidden, Failure("Unauthorized"));
    }
    UpdatedRow(db.tenants, tenantId, caller.role, changes);
    RevisionKeepsStore(db.tenants, db.users, db.projects, db.tasks, db.nextId, tenantId, caller.role, changes);
    db.tenants := UpdateRows(db.tenants, tenantId, caller.role, changes);
    r := Response(StatusOk, TenantUpdated(TenantById(db.tenants, tenantId)));
  }

  /** `parseInt(q) || fallback`: a missing or unparsable parameter (None) and
      zero both give the fallback. */
  function ParamOr(q: Option<int>, fallback: int): (r: int)
    ensures q.None? || q.value == 0 ==> r == fallback
    ensures q.Some? && q.value != 0 ==> r == q.value
    ensures fallback != 0 ==> r != 0
  {
    if q.None? || q.value == 0 then fallback else q.value
  }

  /** The largest PostgreSQL bigint, the type of LIMIT and OFFSET. */
  const BigintMax := 0x7FFF_FFFF_FFFF_FFFF

  /** GET /. super_admin only (a precondition: the role gate is middleware).
      Tenants come newest first, `limit` to a page, each with its user count.
      PostgreSQL refuses a negative LIMIT or OFFSET and one beyond the bigint
      range, which the handler turns into a 500. */
  function ListTenants(tenants: seq<Tenant>, users: seq<User>, caller: Principal,
                       pageParam: Option<int>, limitParam: Option<int>): (r: Response)
    requires caller.role == SuperAdmin
    ensures var page := ParamOr(pageParam, 1);
            var limit := ParamOr(limitParam, 10);
            var offset := (page - 1) * limit;
      && (r.status == StatusOk <==> 0 <= limit <= BigintMax && 0 <= offset <= BigintMax)
      && (r.status != StatusOk ==> r.status == StatusServerError)
      && (r.status == StatusOk ==>
            && r.body.TenantPage?
            && r.body.currentPage == page
            && r.body.totalTenants == |tenants|
            && (r.body.totalPages - 1) * limit < |tenants| <= r.body.totalPages * limit
            && |r.body.tenants| == (if offset >= |tenants| then 0
                                    else if |tenants| - offset < limit then |tenants| - offset
                                    else limit)
            && forall k :: 0 <= k < |r.body.tenants| ==>
                 && r.body.tenants[k].tenant == tenants[|tenants| - 1 - (offset + k)]
                 && r.body.tenants[k].totalUsers
                    == |set i | 0 <= i < |users| && users[i].tenantId == Some(r.body.tenants[k].tenant.id)|)
  {
    var page := ParamOr(pageParam, 1);
    var limit := ParamOr(limitParam, 10);
    var offset := (page - 1) * limit;
    if limit < 0 || offset < 0 || limit > BigintMax || offset > BigintMax then
      Response(StatusServerError, Failure("Server error"))
    else
      var shown := Window(Reverse(tenants), offset, limit);
      var rows := seq(|shown|, k requires 0 <= k < |shown| =>
                        TenantRow(shown[k], |UsersOf(users, shown[k].id)|));
      UserCounts(users);
      Response(StatusOk, TenantPage(rows, page, CeilDiv(|tenants|, limit), |tenants|))
  }
}
