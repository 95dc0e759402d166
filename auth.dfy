/** /api/auth: tenant registration and login. */
module AuthRoutes {
  import opened Collections
  import opened Schema
  import opened Http
  import opened Database

  /** The body of POST /register-tenant; a password left out is None. */
  datatype Registration = Registration(
    tenantName: Option<string>,
    subdomain: string,
    adminEmail: string,
    adminPassword: Option<string>,
    adminFullName: string)

  /** A new tenant starts active, on the free plan, with room for five users
      and three projects. */
  function Provisioned(id: Id, req: Registration): (t: Tenant)
    ensures t.id == id && t.subdomain == req.subdomain && t.name == req.tenantName
    ensures t.status == "active" && t.plan == "free" && t.maxUsers == 5 && t.maxProjects == 3
  {
    Tenant(id, req.tenantName, req.subdomain, "active", "free", 5, 3)
  }

  /** Its first user is a tenant_admin of the new tenant. */
  function FirstAdmin(id: Id, tenantId: Id, req: Registration): (u: User)
    requires req.adminPassword.Some?
    ensures u.id == id && u.tenantId == Some(tenantId) && u.role == TenantAdmin
    ensures u.email == req.adminEmail && u.fullName == req.adminFullName
    ensures Verify(req.adminPassword.value, u.passwordHash)
  {
    User(id, Some(tenantId), req.adminEmail, Hash(req.adminPassword.value), req.adminFullName, TenantAdmin)
  }

  /** A row added under an unused subdomain keeps subdomains unique. */
  lemma FreshSubdomain(tenants: seq<Tenant>, t: Tenant)
    requires SubdomainsUnique(tenants) && !SubdomainTaken(tenants, t.subdomain)
    ensures SubdomainsUnique(tenants + [t])
  {
  }

  /** POST /register-tenant, unauthenticated. BEGIN; insert the tenant; hash
      the admin's password; insert the admin; COMMIT. A unique violation on
      either insert (subdomain, or the admin's email within the new tenant)
      or a missing password, which bcrypt rejects after the tenant insert,
      rolls both rows back and answers 500 without saying which. The tenant
      insert draws an id even when it is rolled back. */
  method RegisterTenant(db: Store, req: Registration) returns (r: Response)
    requires db.Valid()
    modifies db
    ensures db.Valid()
    ensures db.projects == old(db.projects) && db.tasks == old(db.tasks) && db.audit == old(db.audit)
    ensures SubdomainTaken(old(db.tenants), req.subdomain) ==>
      && r == Response(StatusServerError, Failure("Registration failed"))
      && db.tenants == old(db.tenants) && db.users == old(db.users) && db.nextId == old(db.nextId)
    ensures !SubdomainTaken(old(db.tenants), req.subdomain)
            && (req.adminPassword.None? || EmailTaken(old(db.users), Some(old(db.nextId)), req.adminEmail)) ==>
      && r == Response(StatusServerError, Failure("Registration failed"))
      && db.tenants == old(db.tenants) && db.users == old(db.users) && db.nextId == old(db.nextId) + 1
    ensures !SubdomainTaken(old(db.tenants), req.subdomain) && req.adminPassword.Some?
            && !EmailTaken(old(db.users), Some(old(db.nextId)), req.adminEmail) ==>
      var tenantId := old(db.nextId);
      var admin := FirstAdmin(tenantId + 1, tenantId, req);
      && r == Response(StatusCreated, Registered(tenantId, View(admin)))
      && db.tenants == old(db.tenants) + [Provisioned(tenantId, req)]
      && db.users == old(db.users) + [admin]
      && db.nextId == tenantId + 2
  {
    var committedTenants := db.tenants;
    if SubdomainTaken(db.tenants, req.subdomain) {
      return Response(StatusServerError, Failure("Registration failed"));
    }
    var tenantId := db.FreshId();
    var tenant := Provisioned(tenantId, req);
    AppendFresh(db.tenants, tenant, TenantKey, tenantId);
    FreshSubdomain(db.tenants, tenant);
    db.tenants := db.tenants + [tenant];
    if req.adminPassword.None? || EmailTaken(db.users, Some(tenantId), req.adminEmail) {
      // ROLLBACK: the tenant row goes; its id stays drawn.
      db.tenants := committedTenants;
      return Response(StatusServerError, Failure("Registration failed"));
    }
    var userId := db.FreshId();
    var admin := FirstAdmin(userId, tenantId, req);
    AppendFresh(db.users, admin, UserKey, userId);
    db.users := db.users + [admin];
    r := Response(StatusCreated, Registered(tenantId, View(admin)));
  }

  /** The body of POST /login; a password left out is None. */
  datatype Credentials = Credentials(email: string, password: Option<string>, tenantSubdomain: string)

  /** A user joined with their tenant. */
  datatype SignIn = SignIn(user: User, tenant: Tenant)

  function TenantAt(tenants: seq<Tenant>, id: Id, subdomain: string): (r: Option<Tenant>)
    ensures r.Some? ==> r.value in tenants && r.value.id == id && r.value.subdomain == subdomain
    ensures r.None? <==> forall t :: t in tenants ==> !(t.id == id && t.subdomain == subdomain)
  {
    Find(tenants, (t: Tenant) => t.id == id && t.subdomain == subdomain)
  }

  function SignsInAt(tenants: seq<Tenant>, email: string, subdomain: string): User -> bool {
    (u: User) => u.email == email && u.tenantId.Some? && TenantAt(tenants, u.tenantId.value, subdomain).Some?
  }

  /** The first row of users JOIN tenants ON u.tenant_id = t.id WHERE
      u.email = $1 AND t.subdomain = $2. */
  function SignInRow(tenants: seq<Tenant>, users: seq<User>, email: string, subdomain: string)
    : (r: Option<SignIn>)
    ensures r.Some? ==>
      && r.value.user in users && r.value.tenant in tenants
      && r.value.user.email == email && r.value.user.tenantId == Some(r.value.tenant.id)
      && r.value.tenant.subdomain == subdomain
    ensures r.None? <==>
      forall u, t :: u in users && t in tenants && u.email == email && u.tenantId == Some(t.id) ==>
        t.subdomain != subdomain
  {
    match Find(users, SignsInAt(tenants, email, subdomain))
    case None => None
    case Some(u) => Some(SignIn(u, TenantAt(tenants, u.tenantId.value, subdomain).value))
  }

  /** POST /login. An unknown email or subdomain and a wrong password get the
      same 401; a tenant that is not active gets 403 before the password is
      looked at; a missing password makes bcrypt fail (500); otherwise the
      token carries the user's id, tenant and role and lasts 24 hours. */
  function Login(tenants: seq<Tenant>, users: seq<User>, cred: Credentials): (r: Response)
    ensures r.status in {StatusOk, StatusUnauthorized, StatusForbidden, StatusServerError}
    ensures r.status == StatusUnauthorized ==> r.body == Failure("Invalid credentials")
    ensures r.status == StatusForbidden ==> r.body == Failure("Account suspended/inactive")
    ensures r.status == StatusServerError ==> r.body == Failure("Login failed")
    ensures var row := SignInRow(tenants, users, cred.email, cred.tenantSubdomain);
      && (row.None? ==> r.status == StatusUnauthorized)
      && (row.Some? && row.value.tenant.status != "active" ==> r.status == StatusForbidden)
      && (row.Some? && row.value.tenant.status == "active" && cred.password.None? ==>
            r.status == StatusServerError)
      && (row.Some? && row.value.tenant.status == "active" && cred.password.Some?
          && !Verify(cred.password.value, row.value.user.passwordHash) ==>
            r.status == StatusUnauthorized)
      && (row.Some? && row.value.tenant.status == "active" && cred.password.Some?
          && Verify(cred.password.value, row.value.user.passwordHash) ==>
            r.status == StatusOk)
      && (r.status == StatusOk ==>
            && row.Some? && row.value.tenant.status == "active"
            && cred.password.Some? && Verify(cred.password.value, row.value.user.passwordHash)
            && r.body == SignedIn(View(row.value.user),
                                  Claims(row.value.user.id, row.value.user.tenantId, row.value.user.role),
                                  TokenLifetime))
  {
    match SignInRow(tenants, users, cred.email, cred.tenantSubdomain)
    case None => Response(StatusUnauthorized, Failure("Invalid credentials"))
    case Some(SignIn(u, t)) =>
      if t.status != "active" then
        Response(StatusForbidden, Failure("Account suspended/inactive"))
      else if cred.password.None? then
        Response(StatusServerError, Failure("Login failed"))
      else if !Verify(cred.password.value, u.passwordHash) then
        Response(StatusUnauthorized, Failure("Invalid credentials"))
      else
        Response(StatusOk, SignedIn(View(u), Claims(u.id, u.tenantId, u.role), TokenLifetime))
  }

  /** Registering a tenant and then logging in with the admin's email,
      password and the new subdomain succeeds, and the token names the new
      admin, the new tenant and the tenant_admin role. */
  lemma RegisterThenLogin(tenants: seq<Tenant>, users: seq<User>, nextId: nat, req: Registration)
    requires req.adminPassword.Some?
    requires !SubdomainTaken(tenants, req.subdomain)
    requires !EmailTaken(users, Some(nextId), req.adminEmail)
    ensures var admin := FirstAdmin(nextId + 1, nextId, req);
      Login(tenants + [Provisioned(nextId, req)], users + [admin],
            Credentials(req.adminEmail, req.adminPassword, req.subdomain))
      == Response(StatusOk, SignedIn(View(admin), Claims(nextId + 1, Some(nextId), TenantAdmin), TokenLifetime))
  {
  }

  /** A sign-up followed by a sign-in with the same details, as a client
      would run them against one store. */
  method RegisterAndLogin(db: Store, req: Registration) returns (registered: Response, signedIn: Response)
    requires db.Valid()
    modifies db
    ensures registered.status == StatusCreated ==>
      && registered.body.Registered?
      && signedIn.status == StatusOk
      && signedIn.body == SignedIn(registered.body.admin,
                                   Claims(registered.body.admin.id, Some(registered.body.tenantId), TenantAdmin),
                                   TokenLifetime)
  {
    ghost var tenants, users, nextId := db.tenants, db.users, db.nextId;
    registered := RegisterTenant(db, req);
    signedIn := Login(db.tenants, db.users, Credentials(req.adminEmail, req.adminPassword, req.subdomain));
    if registered.status == StatusCreated {
      RegisterThenLogin(tenants, users, nextId, req);
    }
  }
}
