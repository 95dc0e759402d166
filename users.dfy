/** /api/users: add a user to a tenant, list a tenant's users, delete a user. */
module UserRoutes {
  import opened Collections
  import opened Schema
  import opened Http
  import opened Database

  /** The body of POST /tenants/:tenantId/users; a password left out is None. */
  datatype NewUser = NewUser(email: string, password: Option<string>, fullName: string, role: Option<Role>)

  /** The row the INSERT adds: the path's tenant, the hashed password, and
      the role 'user' unless the request names one. */
  function Enrolled(id: Id, tenantId: Id, req: NewUser): (u: User)
    requires req.password.Some?
    ensures u.id == id && u.tenantId == Some(tenantId)
    ensures u.email == req.email && u.fullName == req.fullName
    ensures Verify(req.password.value, u.passwordHash)
    ensures req.role.Some? ==> u.role == req.role.value
    ensures req.role.None? ==> u.role == Member
  {
    User(id, Some(tenantId), req.email, Hash(req.password.value), req.fullName, req.role.GetOr(Member))
  }

  /** One more row of tenant `tenantId` raises its count by one. */
  lemma CountAfterInsert(users: seq<User>, u: User, tenantId: Id)
    requires u.tenantId == Some(tenantId)
    ensures |UsersOf(users + [u], tenantId)| == |UsersOf(users, tenantId)| + 1
  {
  }

  /** POST /tenants/:tenantId/users, tenant_admin only. The caller must
      belong to the path's tenant; the tenant's user count must be below its
      max_users; bcrypt fails on a missing password (500); a second user
      with the same email in the tenant is a conflict. Only an insert draws
      an id. */
  method AddUser(db: Store, caller: Principal, tenantId: Id, req: NewUser) returns (r: Response)
    requires db.Valid()
    requires caller.role == TenantAdmin
    modifies db
    ensures db.Valid()
    ensures db.tenants == old(db.tenants) && db.projects == old(db.projects)
    ensures db.tasks == old(db.tasks) && db.audit == old(db.audit)
    ensures r.status != StatusCreated ==> db.users == old(db.users) && db.nextId == old(db.nextId)
    ensures r.status == StatusCreated ==> db.nextId == old(db.nextId) + 1
    ensures caller.tenantId != Some(tenantId) ==> r == Response(StatusForbidden, Failure("Unauthorized"))
    ensures caller.tenantId == Some(tenantId) && TenantById(old(db.tenants), tenantId).None? ==>
      r == Response(StatusServerError, Failure("Failed to create user"))
    ensures caller.tenantId == Some(tenantId) && TenantById(old(db.tenants), tenantId).Some? ==>
      var cap := TenantById(old(db.tenants), tenantId).value.maxUsers;
      var before := |UsersOf(old(db.users), tenantId)|;
      && (before >= cap ==>
            r == Response(StatusForbidden, Failure("Subscription limit reached: Maximum users exceeded")))
      && (before < cap && req.password.None? ==>
            r == Response(StatusServerError, Failure("Failed to create user")))
      && (before < cap && req.password.Some? && EmailTaken(old(db.users), Some(tenantId), req.email) ==>
            r == Response(StatusConflict, Failure("Email already exists in this organization")))
      && (before < cap && req.password.Some? && !EmailTaken(old(db.users), Some(tenantId), req.email) ==>
            && r.status == StatusCreated
            && db.users == old(db.users) + [Enrolled(old(db.nextId), tenantId, req)]
            && r.body == UserCreated(View(Enrolled(old(db.nextId), tenantId, req))))
    ensures r.status == StatusCreated ==>
      && TenantById(old(db.tenants), tenantId).Some?
      && |UsersOf(old(db.users), tenantId)| < TenantById(old(db.tenants), tenantId).value.maxUsers
      && |UsersOf(db.users, tenantId)| == |UsersOf(old(db.users), tenantId)| + 1
      && |UsersOf(db.users, tenantId)| <= TenantById(old(db.tenants), tenantId).value.maxUsers
  {
    if caller.tenantId != Some(tenantId) {
      return Response(StatusForbidden, Failure("Unauthorized"));
    }
    var tenant := TenantById(db.tenants, tenantId);
    if tenant.None? {
      // rows[0] of the lookup is undefined: the handler's catch answers 500.
      return Response(StatusServerError, Failure("Failed to create user"));
    }
    if |UsersOf(db.users, tenantId)| >= tenant.value.maxUsers {
      return Response(StatusForbidden, Failure("Subscription limit reached: Maximum users exceeded"));
    }
    if req.password.None? {
      // bcrypt rejects the missing password; the handler's catch answers 500.
      return Response(StatusServerError, Failure("Failed to create user"));
    }
    if EmailTaken(db.users, Some(tenantId), req.email) {
      return Response(StatusConflict, Failure("Email already exists in this organization"));
    }
    var id := db.FreshId();
    var user := Enrolled(id, tenantId, req);
    AppendFresh(db.users, user, UserKey, id);
    CountAfterInsert(db.users, user, tenantId);
    db.users := db.users + [user];
    r := Response(StatusCreated, UserCreated(View(user)));
  }

  /** The accounts of a list of users, position by position. */
  function Views(us: seq<User>): (accounts: seq<Account>)
    ensures |accounts| == |us|
    ensures forall k :: 0 <= k < |us| ==> accounts[k] == View(us[k])
  {
    seq(|us|, k requires 0 <= k < |us| => View(us[k]))
  }

  lemma ViewsMembers(us: seq<User>)
    ensures forall u :: u in us ==> View(u) in Views(us)
    ensures forall a :: a in Views(us) ==> exists u :: u in us && View(u) == a
  {
  }

  /** A tenant's users listed newest first: their order in the table, reversed. */
  lemma NewestFirst(users: seq<User>, tenantId: Id)
    ensures var members := Reverse(UsersOf(users, tenantId));
      && (forall u :: u in members <==> u in users && u.tenantId == Some(tenantId))
      && (Increasing(users, UserKey) ==> Decreasing(members, UserKey))
  {
    ReverseMembers(UsersOf(users, tenantId));
    if Increasing(users, UserKey) {
      FilterIncreasing(users, UserOfTenant(tenantId), UserKey);
      ReverseDecreasing(UsersOf(users, tenantId), UserKey);
    }
  }

  /** GET /tenants/:tenantId/users. Any role may ask about its own tenant, a
      super_admin about any. The answer holds exactly that tenant's users,
      newest first, without password hashes. */
  function ListUsers(users: seq<User>, caller: Principal, tenantId: Id): (r: Response)
    ensures r.status == StatusForbidden <==> caller.role != SuperAdmin && caller.tenantId != Some(tenantId)
    ensures r.status == StatusForbidden ==> r.body == Failure("Access denied")
    ensures r.status != StatusForbidden ==> r.status == StatusOk && r.body.UserList?
    ensures r.body.UserList? ==>
      && (forall a :: a in r.body.accounts ==>
            a.tenantId == Some(tenantId) && exists u :: u in users && View(u) == a)
      && (forall u :: u in users && u.tenantId == Some(tenantId) ==> View(u) in r.body.accounts)
      && (Increasing(users, UserKey) ==>
            forall i, j :: 0 <= i < j < |r.body.accounts| ==> r.body.accounts[i].id > r.body.accounts[j].id)
  {
    if caller.role != SuperAdmin && caller.tenantId != Some(tenantId) then
      Response(StatusForbidden, Failure("Access denied"))
    else
      var members := Reverse(UsersOf(users, tenantId));
      NewestFirst(users, tenantId);
      ViewsMembers(members);
      Response(StatusOk, UserList(Views(members)))
  }

  /** The rows DELETE FROM users WHERE id = $1 AND tenant_id = <caller's
      tenant> leaves: it can only reach a user of the caller's tenant, and a
      caller without a tenant deletes nobody. */
  function NotDeleted(userId: Id, callerTenant: Option<Id>): (keep: User -> bool)
    ensures forall u: User :: !keep(u) ==> u.id == userId && callerTenant.Some? && u.tenantId == callerTenant
    ensures forall u: User :: u.id != userId || u.tenantId != callerTenant ==> keep(u)
    ensures callerTenant.None? ==> forall u: User :: keep(u)
  {
    (u: User) => !(u.id == userId && SameTenant(u.tenantId, callerTenant))
  }

  /** DELETE /:userId, tenant_admin only. A caller may not delete themselves
      (checked before the store is touched); the DELETE only reaches users of
      the caller's tenant, and deleting nothing is a 404. */
  method DeleteUser(db: Store, caller: Principal, userId: Id) returns (r: Response)
    requires db.Valid()
    requires caller.role == TenantAdmin
    modifies db
    ensures db.Valid()
    ensures db.tenants == old(db.tenants) && db.projects == old(db.projects)
    ensures db.tasks == old(db.tasks) && db.audit == old(db.audit) && db.nextId == old(db.nextId)
    ensures caller.id == userId ==>
      r == Response(StatusForbidden, Failure("Cannot delete yourself")) && db.users == old(db.users)
    ensures caller.id != userId
            && (forall u :: u in old(db.users) && u.id == userId ==> !SameTenant(u.tenantId, caller.tenantId)) ==>
      r == Response(StatusNotFound, Failure("User not found")) && db.users == old(db.users)
    ensures caller.id != userId
            && (exists u :: u in old(db.users) && u.id == userId && SameTenant(u.tenantId, caller.tenantId)) ==>
      r == Response(StatusOk, Done("User deleted successfully")) && |db.users| == |old(db.users)| - 1
    ensures forall u :: u in db.users <==>
      u in old(db.users) && !(r.status == StatusOk && u.id == userId && SameTenant(u.tenantId, caller.tenantId))
  {
    if caller.id == userId {
      return Response(StatusForbidden, Failure("Cannot delete yourself"));
    }
    var keep := NotDeleted(userId, caller.tenantId);
    if forall u :: u in db.users ==> keep(u) {
      // rowCount is 0: the DELETE removed no row.
      return Response(StatusNotFound, Failure("User not found"));
    }
    var gone :| gone in db.users && !keep(gone);
    assert forall u :: u in db.users && u != gone ==> keep(u) by {
      forall u | u in db.users && u != gone ensures keep(u) {
        if !keep(u) {
          KeyIdentifies(db.users, UserKey, u, gone);
        }
      }
    }
    FilterDropsOne(db.users, keep, UserKey, gone);
    FilterIncreasing(db.users, keep, UserKey);
    FilterBelow(db.users, keep, UserKey, db.nextId);
    db.users := Filter(db.users, keep);
    r := Response(StatusOk, Done("User deleted successfully"));
  }
}
