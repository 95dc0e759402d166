/** The shared store the handlers query: one sequence per table, the
    append-only audit log, and the id generator. */
module Database {
  import opened Collections
  import opened Schema

  class Store {
    var tenants: seq<Tenant>
    var users: seq<User>
    var projects: seq<Project>
    var tasks: seq<Task>
    var audit: seq<AuditEntry>
    var nextId: nat

    ghost predicate Valid()
      reads this
    {
      WellFormed(tenants, users, projects, tasks, nextId)
    }

    constructor ()
      ensures Valid()
      ensures tenants == [] && users == [] && projects == [] && tasks == [] && audit == []
    {
      tenants, users, projects, tasks, audit := [], [], [], [], [];
      nextId := 0;
    }

    /** A new row id, distinct from every id drawn before. */
    method FreshId() returns (id: Id)
      requires Valid()
      modifies this`nextId
      ensures Valid()
      ensures id == old(nextId) && nextId == id + 1
    {
      id := nextId;
      nextId := nextId + 1;
    }

    /** logAction: a best-effort insert into audit_logs. A failed insert is
        swallowed there, so it never reaches the handler's result; the model
        always appends. */
    method Log(tenantId: Option<Id>, userId: Id, action: string, entityType: string, entityId: Id)
      modifies this`audit
      ensures audit == old(audit) + [AuditEntry(tenantId, userId, action, entityType, entityId)]
    {
      audit := audit + [AuditEntry(tenantId, userId, action, entityType, entityId)];
    }
  }
}
