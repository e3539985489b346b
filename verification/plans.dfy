/** The plan limits checked before a system, table, field or record is
    created. Each check reads the owner's plan; a `None` limit means
    unlimited, and the check fails once the current count has reached the
    limit. The checks never change the store. */
module Plans {
  import opened Common
  import opened Entities

  /** The limit of one kind a plan sets. */
  datatype LimitKind = Systems | RecordsPerSystem | FieldsPerSystem | TablesPerSystem

  function LimitOf(plan: Plan, kind: LimitKind): Option<int> {
    match kind
    case Systems => plan.maxSystems
    case RecordsPerSystem => plan.maxRecordsPerSystem
    case FieldsPerSystem => plan.maxFieldsPerSystem
    case TablesPerSystem => plan.maxTablesPerSystem
  }

  /** `current` rows may grow by one under `limit`. */
  predicate WithinLimit(limit: Option<int>, current: nat) {
    limit.None? || current < limit.value
  }

  /** The plan of a user: a missing user, a null plan id or a missing plan
      is an error. */
  function PlanOfUser(st: Store, userId: Id): (r: Result<Plan>)
    ensures r.Ok? <==> (userId in st.users && st.users[userId].planId.Some?
                        && st.users[userId].planId.value in st.plans)
    ensures r.Ok? ==> r.value == st.plans[st.users[userId].planId.value]
    ensures userId !in st.users ==> r == Err(UserNotFound)
  {
    if userId !in st.users then Err(UserNotFound)
    else
      var planId := st.users[userId].planId;
      if planId.None? || planId.value !in st.plans then Err(PlanNotFound)
      else Ok(st.plans[planId.value])
  }

  /** The shared shape of the four checks. */
  function CheckLimit(st: Store, ownerId: Id, kind: LimitKind, current: nat): (r: Outcome)
    ensures r.Pass? <==> PlanOfUser(st, ownerId).Ok? && WithinLimit(LimitOf(PlanOfUser(st, ownerId).value, kind), current)
    ensures r.Fail? && PlanOfUser(st, ownerId).Ok? ==> r.error == LimitReached
  {
    match PlanOfUser(st, ownerId)
    case Err(e) => Fail(e)
    case Ok(plan) => Need(WithinLimit(LimitOf(plan, kind), current), LimitReached)
  }

  /** Number of records of a system (`countBySystemId`). */
  function RecordCount(st: Store, systemId: Id): nat {
    |set id | id in st.records && st.records[id].systemId == systemId|
  }

  /** Number of fields of a system, table-level ones included. */
  function FieldCount(st: Store, systemId: Id): nat {
    |set id | id in st.fields && st.fields[id].systemId == systemId|
  }

  /** Number of tables of a system. */
  function TableCount(st: Store, systemId: Id): nat {
    |set id | id in st.tables && st.tables[id].systemId == systemId|
  }

  /** The rows of a system a per-system limit bounds. */
  function CountOf(st: Store, systemId: Id, kind: LimitKind): nat {
    match kind
    case Systems => 0
    case RecordsPerSystem => RecordCount(st, systemId)
    case FieldsPerSystem => FieldCount(st, systemId)
    case TablesPerSystem => TableCount(st, systemId)
  }

  /** `validateSystemLimit`: the user's own plan bounds the systems it owns. */
  function ValidateSystemLimit(st: Store, userId: Id): (r: Outcome)
    ensures r.Pass? <==> (PlanOfUser(st, userId).Ok?
      && WithinLimit(PlanOfUser(st, userId).value.maxSystems, |OwnedSystems(st, userId)|))
  {
    CheckLimit(st, userId, Systems, |OwnedSystems(st, userId)|)
  }

  /** `validateRecordLimitForOwner`. */
  function ValidateRecordLimitForOwner(st: Store, ownerId: Id, systemId: Id): (r: Outcome)
    ensures r.Pass? <==> (PlanOfUser(st, ownerId).Ok?
      && WithinLimit(PlanOfUser(st, ownerId).value.maxRecordsPerSystem, RecordCount(st, systemId)))
  {
    CheckLimit(st, ownerId, RecordsPerSystem, RecordCount(st, systemId))
  }

  /** `validateFieldLimitForOwner`. */
  function ValidateFieldLimitForOwner(st: Store, ownerId: Id, systemId: Id): (r: Outcome)
    ensures r.Pass? <==> (PlanOfUser(st, ownerId).Ok?
      && WithinLimit(PlanOfUser(st, ownerId).value.maxFieldsPerSystem, FieldCount(st, systemId)))
  {
    CheckLimit(st, ownerId, FieldsPerSystem, FieldCount(st, systemId))
  }

  /** `validateTableLimitForOwner`. */
  function ValidateTableLimitForOwner(st: Store, ownerId: Id, systemId: Id): (r: Outcome)
    ensures r.Pass? <==> (PlanOfUser(st, ownerId).Ok?
      && WithinLimit(PlanOfUser(st, ownerId).value.maxTablesPerSystem, TableCount(st, systemId)))
  {
    CheckLimit(st, ownerId, TablesPerSystem, TableCount(st, systemId))
  }

  /** `validateRecordLimit` / `validateFieldLimit` / `validateTableLimit`:
      the system's owner's plan applies; a missing system is an error. */
  function ValidateForSystem(st: Store, systemId: Id, kind: LimitKind): (r: Outcome)
    requires kind != Systems
    ensures systemId !in st.systems ==> r == Fail(SystemNotFound)
    ensures systemId in st.systems ==>
      var owner := st.systems[systemId].ownerId;
      (r.Pass? <==> (PlanOfUser(st, owner).Ok?
                     && WithinLimit(LimitOf(PlanOfUser(st, owner).value, kind), CountOf(st, systemId, kind))))
  {
    if systemId !in st.systems then Fail(SystemNotFound)
    else
      var owner := st.systems[systemId].ownerId;
      match kind
      case RecordsPerSystem => ValidateRecordLimitForOwner(st, owner, systemId)
      case FieldsPerSystem => ValidateFieldLimitForOwner(st, owner, systemId)
      case TablesPerSystem => ValidateTableLimitForOwner(st, owner, systemId)
  }

  /** A null limit never rejects; a limit of `n` admits exactly the counts
      below `n`, so a larger count is rejected whenever a smaller one is. */
  lemma WithinLimitFacts(limit: Option<int>, a: nat, b: nat)
    ensures limit.None? ==> WithinLimit(limit, a)
    ensures a <= b && WithinLimit(limit, b) ==> WithinLimit(limit, a)
    ensures limit.Some? && limit.value <= 0 ==> !WithinLimit(limit, a)
  {
  }
}
