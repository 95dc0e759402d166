# Multi-tenant SaaS backend: route handlers

This project models the Express route handlers of a multi-tenant project
management backend in Dafny. Tenants (organisations) own users, projects and
tasks. Every handler takes the authenticated caller (`id`, `tenant_id`,
`role`) and the request fields. It runs a short chain of guards: role gate,
tenant match, self-deletion, creator ownership, and the subscription quota
"count ≥ max". It then runs one INSERT, UPDATE or DELETE whose `WHERE id = …
AND tenant_id = …` clause decides what can change, and returns a status code
and a JSON payload.

The PostgreSQL database is modelled as an in-memory `Store` (module
`Database`). It has one sequence per table, the append-only audit log, and a
counter that draws row ids. Rows stay in insertion order and ids grow with
every insert. So `ORDER BY created_at DESC` becomes "strictly decreasing ids",
and `rows[0]` of a query becomes the first matching row in table order.

Modules:

- `Collections`: `Option` and the sequence operations the SQL maps onto:
  WHERE (`Filter`), `rows[0]` (`Find`), COUNT (`FilterSize`), ORDER BY DESC
  (`Reverse`), LIMIT/OFFSET (`Window`), UPDATE … WHERE (`UpdateWhere`), and
  the page count (`CeilDiv`).
- `Schema`: the rows of the tables, roles, the bcrypt and SQL-NULL
  conventions, the queries, and `WellFormed`. `WellFormed` is what every
  handler keeps:
  - ids are increasing and below the counter;
  - subdomains are unique;
  - every task carries its project's tenant.
- `Http`: status codes and response payloads.
- `Database`: the `Store` class, id drawing and `logAction`.
- `TenantRoutes`, `UserRoutes`, `ProjectRoutes`, `TaskRoutes`, `AuthRoutes`:
  one module per route file.

Handlers that only read are functions over the tables they query. Handlers
that write are module-level methods that take the `Store` and modify it. Each
method states its response case by case, the exact new contents of the tables
it touches, that the other tables stay unchanged, how far the id counter
advances, and that `Valid()` is preserved.

The model follows the code in three places a reader might not expect:

- Registration answers one generic 500 for any failure. It does not tell a
  taken subdomain from a taken email (`backend/src/routes/auth.js:41-43`).
- The user and project quotas hold after each create, but they are not a
  global invariant: a super_admin may lower `max_users` or `max_projects`
  below the current count (`backend/src/routes/tenants.js:71-72`).
- A caller asking for a foreign tenant's details gets 403, not a masked 404
  (`backend/src/routes/tenants.js:16-18`). Creating a task on a foreign
  project is also a 403 (`backend/src/routes/tasks.js:24-26`).

Conventions:

- A request field that is absent (`undefined`, sent as SQL NULL) is `None`.
  A password is optional in the same way: bcrypt rejects a missing one, and
  the handler's catch answers 500.
- `x || default` on a string is `Truthy`.
- `tenant_id = $n` with a NULL caller tenant matches no row (`SameTenant`).
- A bcrypt hash is an ideal one-way digest (`Hash`, `Verify`).
- A signed JWT is its claims record (`Claims`).

## Model

| member | source | states |
|---|---|---|
| TenantRoutes.GetTenant | backend/src/routes/tenants.js:11-49 | 403 exactly when the caller is neither super_admin nor of the tenant; 404 exactly when allowed and no tenant has the id; otherwise the tenant with that id, with totalUsers and totalProjects equal to the number of user and project rows of that tenant |
| TenantRoutes.Revised | backend/src/routes/tenants.js:68-80 | super_admin: each supplied field replaces the stored one and each absent one keeps it; tenant_admin: name becomes exactly what was sent (absent gives NULL) and status, plan and both limits stay; id and subdomain never change |
| TenantRoutes.ReviseTwice | backend/src/routes/tenants.js:68-80 | the same PUT applied twice gives the row it gives once |
| TenantRoutes.UpdateRows | backend/src/routes/tenants.js:70-79 | only rows whose id matches are revised, every other row stays in place; id order, subdomain uniqueness and the id bound are kept |
| TenantRoutes.UpdatedRow | backend/src/routes/tenants.js:74-83 | RETURNING * yields no row exactly when no tenant has the id, otherwise the revision of the row with that id |
| TenantRoutes.RevisionKeepsStore | backend/src/routes/tenants.js:68-82 | the tenant UPDATE, by either role, keeps the whole store well formed: ids ordered and below the counter, subdomains unique |
| TenantRoutes.UpdateTenant | backend/src/routes/tenants.js:55-88 | a tenant_admin on a foreign tenant gets 403 and the tenants are unchanged; otherwise 200, rows with the id are revised and all others stay, the other tables are untouched, and the store stays well formed |
| TenantRoutes.ParamOr | backend/src/routes/tenants.js:96-97 | parseInt of the query parameter, or the fallback when that is falsy: a missing, unparsable or zero parameter gives the fallback, any other value is kept, and with a non-zero fallback the result is never zero |
| Collections.Window | backend/src/routes/tenants.js:105 | LIMIT/OFFSET: the page holds min(limit, rest) rows and row k is row offset+k of the ordered table |
| TenantRoutes.ListTenants | backend/src/routes/tenants.js:94-125 | 200 exactly when LIMIT and OFFSET are non-negative and within the bigint range (500 otherwise); page is echoed; totalTenants is the table size; totalPages is the least count of pages of `limit` rows holding every tenant; row k is the (offset+k)-th newest tenant with its user count; the page holds min(limit, rest) rows |
| Collections.CeilDiv | backend/src/routes/tenants.js:116 | Math.ceil(total / limit): the least page count whose pages of `limit` hold `total` |
| Collections.FilterSize | backend/src/routes/tenants.js:31-32 | COUNT(*) of a WHERE equals the number of row positions satisfying it |
| Schema.TenantById | backend/src/routes/tenants.js:20-26 | a found tenant is in the table with the requested id; none is found exactly when no row has it |
| Schema.UsersOf | backend/src/routes/users.js:58-61 | exactly the users whose tenant is the given one |
| Schema.ProjectsOf | backend/src/routes/projects.js:56 | exactly the projects whose tenant is the given one |
| Schema.UserCount | backend/src/routes/tenants.js:31 | the size of a tenant's user list is the number of user rows of that tenant |
| Schema.ProjectCount | backend/src/routes/tenants.js:32 | the size of a tenant's project list is the number of project rows of that tenant |
| Schema.TaskCount | backend/src/routes/projects.js:53 | the tasks counted for a project are the task rows with that project_id |
| Schema.UserById | backend/src/routes/tasks.js:60 | a found user has the id; none is found exactly when no user has it |
| Database.Store.Log | backend/src/utils/logger.js:6-16 | the audit log grows by exactly the given entry |
| Database.Store.FreshId | backend/src/routes/projects.js:30-31 | the drawn id is the counter, which advances past it, so the store stays well formed |
| UserRoutes.Enrolled | backend/src/routes/users.js:31-35 | the new user has the path's tenant, a hash that verifies the password, and role 'user' unless one is sent |
| UserRoutes.CountAfterInsert | backend/src/routes/users.js:32-35 | inserting a user of a tenant raises that tenant's count by exactly one |
| UserRoutes.AddUser | backend/src/routes/users.js:12-44 | in this order: foreign tenant gives 403; missing tenant gives 500; count ≥ max_users gives 403; a missing password gives 500; an email already used in the tenant gives 409; in each of these no user is inserted and no id is drawn; otherwise 201, one id is drawn, and exactly the new row is appended, the count before was below max_users, and it rises by one and stays ≤ max_users |
| UserRoutes.NewestFirst | backend/src/routes/users.js:58-59 | the listed users are exactly the tenant's, in strictly decreasing id order |
| UserRoutes.ListUsers | backend/src/routes/users.js:50-67 | 403 exactly for a non-super_admin asking about another tenant; otherwise every account listed is a user of that tenant, every user of that tenant is listed, and ids strictly decrease |
| UserRoutes.NotDeleted | backend/src/routes/users.js:81 | the DELETE's WHERE removes only a row with that id and the caller's tenant, keeps every other row, and removes nothing for a caller without a tenant |
| UserRoutes.DeleteUser | backend/src/routes/users.js:73-91 | deleting oneself gives 403 and no change; no user with that id in the caller's tenant gives 404 and no change; otherwise 200 and exactly that user is removed (size drops by one, every other user stays) |
| ProjectRoutes.Founded | backend/src/routes/projects.js:30-33 | the new project has the caller's tenant and id as creator, and status 'active' unless one is sent |
| ProjectRoutes.CountAfterInsert | backend/src/routes/projects.js:30-33 | inserting a project of a tenant raises that tenant's count by exactly one |
| ProjectRoutes.FreshProjectKeepsTasks | backend/src/routes/projects.js:30-33 | a project with a never-drawn id keeps every task on its project's tenant |
| ProjectRoutes.CreateProject | backend/src/routes/projects.js:11-40 | a missing or empty name gives 400 before any read; a caller without a tenant, or a missing tenant, gives 500; count ≥ max_projects gives 403; none of these inserts anything or draws an id; otherwise 201, one id is drawn, with exactly the new row appended, the count before was below max_projects, and it rises by one and stays ≤ max_projects |
| ProjectRoutes.CreatorName | backend/src/routes/projects.js:52-55 | when the creator's row exists, the name shown is that user's full name |
| ProjectRoutes.Listed | backend/src/routes/projects.js:50-58 | the projects shown are exactly the tenant's projects whose creator row exists (the inner join), in strictly decreasing id order |
| ProjectRoutes.JoinedOrder | backend/src/routes/projects.js:57 | the joined and filtered projects, reversed, come newest first |
| ProjectRoutes.Rows | backend/src/routes/projects.js:51-53 | row k carries project k, its creator's name and the number of tasks with its project_id |
| ProjectRoutes.ListProjects | backend/src/routes/projects.js:46-66 | only projects of the caller's tenant are listed, each with its existing creator's name and its task count; every such project with an existing creator is listed; ids strictly decrease |
| ProjectRoutes.DeleteProject | backend/src/routes/projects.js:72-94 | no project with the id in the caller's tenant gives 404 and no change; a caller who is neither tenant_admin nor the creator gets 403 and no change; otherwise 200 and exactly that project is removed, every other project stays |
| TaskRoutes.Drafted | backend/src/routes/tasks.js:39-43 | the new task has the given project and tenant, priority 'medium' unless one is sent, and the column's default status |
| TaskRoutes.NewTaskKeepsScope | backend/src/routes/tasks.js:39-43 | appending a task that carries its project's tenant and a fresh id keeps ids ordered and every task on its project's tenant |
| TaskRoutes.AssigneeCheck | backend/src/routes/tasks.js:29-36 | the assignee lookup returns a row exactly when the user exists in the caller's tenant, and none for a caller without a tenant |
| TaskRoutes.CreateTask | backend/src/routes/tasks.js:12-51 | a project outside the caller's tenant gives 403; an assignee who is not a user of the caller's tenant gives 400; neither inserts, logs or draws an id; otherwise 201, one id is drawn, exactly the new task is appended, it carries its project's tenant, and exactly one CREATE_TASK entry for the caller, their tenant and the new id is logged |
| TaskRoutes.AssigneeName | backend/src/routes/tasks.js:60-61 | the LEFT JOIN gives a name exactly when the task has an assignee whose row exists, and that name is the user's full name |
| TaskRoutes.TableOrder | backend/src/routes/tasks.js:59-64 | the filtered tasks keep the table's increasing id order |
| TaskRoutes.ListTasks | backend/src/routes/tasks.js:56-69 | exactly the tasks with that project_id and the caller's tenant are listed, each with its assignee's name, each once, in increasing id order |
| TaskRoutes.EditKeepsScope | backend/src/routes/tasks.js:99-105 | an update that keeps a task's id, project and tenant keeps the whole store well formed |
| TaskRoutes.MatchedRow | backend/src/routes/tasks.js:78-83 | RETURNING * yields no row exactly when no task has the id in the caller's tenant, otherwise that task as edited |
| TaskRoutes.StatusRows | backend/src/routes/tasks.js:78-80 | the table keeps its length; the task with the id in the caller's tenant gets the new status and every other row stays as it was |
| TaskRoutes.StatusUpdate | backend/src/routes/tasks.js:78-83 | after the status UPDATE the store is still well formed, and RETURNING * is empty exactly when no task has the id in the caller's tenant, otherwise that task with the new status |
| TaskRoutes.StatusRowsUnmatched | backend/src/routes/tasks.js:83 | when no task has the id in the caller's tenant (rowCount 0) the UPDATE leaves the table exactly as it was |
| TaskRoutes.UpdateTaskStatus | backend/src/routes/tasks.js:74-89 | no task with the id in the caller's tenant gives 404 and no change; otherwise 200 with that task, whose status alone is replaced; every other task stays; nothing is logged |
| TaskRoutes.Amended | backend/src/routes/tasks.js:100-103 | each supplied field replaces the stored one and each absent one keeps it; id, project and tenant never change |
| TaskRoutes.AmendNothing | backend/src/routes/tasks.js:100-103 | a PUT that supplies nothing leaves the task as it was |
| TaskRoutes.AmendTwice | backend/src/routes/tasks.js:100-103 | the same PUT applied twice gives the task it gives once |
| TaskRoutes.AmendRows | backend/src/routes/tasks.js:99-106 | the table keeps its length; the task with the id in the caller's tenant is amended field by field and every other row, in particular every task of another tenant, stays as it was |
| TaskRoutes.AmendUpdate | backend/src/routes/tasks.js:99-110 | after the COALESCE UPDATE the store is still well formed, and RETURNING * is empty exactly when no task has the id in the caller's tenant, otherwise that task as amended |
| TaskRoutes.UpdateTask | backend/src/routes/tasks.js:94-114 | always 200; no row is returned exactly when no task has the id in the caller's tenant, otherwise the amended task; only that task changes and no task of another tenant does; one UPDATE_TASK entry is logged even when nothing matched; the assignee is not checked against the tenant |
| AuthRoutes.Provisioned | backend/src/routes/auth.js:21-24 | the new tenant is active, on plan 'free', with max_users 5 and max_projects 3 |
| AuthRoutes.FirstAdmin | backend/src/routes/auth.js:26-32 | the first user, made only when a password is present, is a tenant_admin of the new tenant whose hash verifies that password |
| AuthRoutes.FreshSubdomain | backend/src/routes/auth.js:21-24 | inserting a tenant under an unused subdomain keeps subdomains unique |
| AuthRoutes.RegisterTenant | backend/src/routes/auth.js:13-47 | a taken subdomain gives 500 with nothing changed and no id drawn; a missing admin password or the admin email taken in the new tenant gives 500, the tenant row is rolled back and neither tenants nor users change, though its id stays drawn; otherwise 201 with exactly the provisioned tenant and its admin appended and two ids drawn |
| AuthRoutes.TenantAt | backend/src/routes/auth.js:58-59 | a found tenant has the id and the subdomain; none is found exactly when no tenant has both |
| AuthRoutes.SignInRow | backend/src/routes/auth.js:56-67 | a found row joins a user with that email to their tenant with that subdomain; none is found exactly when no such pair exists |
| AuthRoutes.Login | backend/src/routes/auth.js:53-98 | no row gives 401; an inactive tenant gives 403 whatever the password; then a missing password gives 500, a wrong password the same 401, and a right password 200; a 200 carries the row's user and exactly its id, tenant and role as claims, with expiresIn 86400 |
| AuthRoutes.RegisterThenLogin | backend/src/routes/auth.js:21-79 | after a successful registration (which needs a password), logging in with the admin's email, password and the new subdomain gives 200 with claims naming the new admin, the new tenant and tenant_admin |
| AuthRoutes.RegisterAndLogin | backend/src/routes/auth.js:13-98 | a registration answered 201, followed by a login with the same details, is answered 200 with the registered admin's claims |

## Left out

- Express routing, JSON shaping, CORS and the health check: a response is a status plus a payload datatype, and `success` flags are not modelled.
- The `authenticateToken` and `authorizeRoles` middleware is not part of this model. The caller is a given `Principal`. Role gates are preconditions: tenant_admin for adding and deleting users; tenant_admin or super_admin for updating a tenant; super_admin for listing tenants.
- bcrypt salting and cost, and JWT signing, secret, expiry and verification: a hash is an ideal digest and a token is its claims.
- The 500 answers a database fault would cause (connection loss, NOT NULL or CHECK violations, a non-UUID id) are not modelled. Modelled 500s: a missing tenant row in the quota checks, a LIMIT or OFFSET that is negative or beyond the bigint range, a missing password, and the registration rollback.
- Concurrency: the quota check-then-insert race is not modelled; the model is sequential.
- A failing audit insert is swallowed by `logAction`: the model always appends.
- COUNT returned as a string and `parseInt`: counts are integers.
- `created_at` and `updated_at` timestamps: insertion order stands in for creation time.
- Tasks whose project is deleted: cascades are defined in the database schema, which is not modelled, so the model leaves such tasks in place.
- The schema file is not part of this model. Its unique indexes are stated as predicates: a unique subdomain (`SubdomainTaken`) and a unique email within a tenant (`EmailTaken`). Its default task status is taken to be 'todo' (`DefaultTaskStatus`).
- ListTasks: the query has no ORDER BY, and the model lists rows in table order.
- `is_active` and `created_at` in the user listing, and the tenant columns beyond id, name, subdomain, status, plan and the two limits, are not modelled.
- Role strings outside the three roles are not modelled: a request's role is one of the three or absent.
- `GET /me` (`backend/src/routes/auth.js:104-118`) is a plain join with no decision logic.
- Database migrations (`backend/src/initDb.js`), the server wiring and the React frontend are not modelled.
- Database.Store.FreshId: draws the next integer rather than a UUID; only distinctness and order of ids are used.
- AuthRoutes.RegisterTenant: the unique index on emails is taken to be per tenant, so the admin insert's unique violation fails only if a stray user already carries the new tenant's id; the missing password is the rollback's ordinary cause.
- TenantRoutes.ListTenants: page, limit and offset are exact integers; JavaScript computes them as doubles, which round above 2^53, and that rounding is not modelled.
- Request fields of the wrong JSON type (a number where a string is expected) are not modelled; only absence is.
