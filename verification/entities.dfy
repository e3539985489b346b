/** The persistent entities of the services and the store that holds them.
    Every repository is a finite map from primary key to row; composite
    unique constraints become the map key itself, so they cannot be broken
    by construction:
    - a membership (`SystemUser`) is keyed by (system id, user id);
    - a per-user system password (`SystemUserPassword`) likewise;
    - a record value (`SystemRecordValue`) by (record id, field id). */
module Entities {
  import opened Common

  /** A subscription plan. Every limit is a nullable `Integer`: `None`
      means unlimited. */
  datatype Plan = Plan(
    name: string,
    maxSystems: Option<int>,
    maxRecordsPerSystem: Option<int>,
    maxUsersPerSystem: Option<int>,
    maxFieldsPerSystem: Option<int>,
    maxTablesPerSystem: Option<int>)

  /** An account. `planId` is nullable in the schema. */
  datatype User = User(
    name: string,
    email: string,
    passwordHash: string,
    planId: Option<Id>,
    avatarUrl: Option<string>)

  /** `System.SecurityMode`: how a system guards its data. */
  datatype SecurityMode = ModeNone | ModeGeneral | ModeIndividual

  /** A user-defined system (a database of tables). */
  datatype SystemRow = SystemRow(
    ownerId: Id,
    name: Option<string>,
    description: Option<string>,
    imageUrl: Option<string>,
    securityMode: SecurityMode,
    generalPasswordHash: Option<string>)

  /** `SystemUser.Role`, which `SystemInvitation.Role` mirrors constant for
      constant. Ownership is not a role: the owner is `SystemRow.ownerId`. */
  datatype MemberRole = Admin | Editor | Viewer

  /** A share of a system with an e-mail address. */
  datatype Share = Share(systemId: Id, userEmail: string)

  /** A table of a system. */
  datatype Table = Table(systemId: Id, name: Option<string>, description: Option<string>)

  /** A column definition. `tableId` is `None` for the system-level fields
      of the older, table-less API. The options (`SystemFieldOption` rows)
      belong to the field and are kept with it. */
  datatype Field = Field(
    systemId: Id,
    tableId: Option<Id>,
    name: string,
    fieldType: string,
    required: bool,
    orderIndex: int,
    options: seq<string>)

  /** A row of a user-defined table. `tableId` is `None` for records of the
      table-less API. */
  datatype Record = Record(systemId: Id, tableId: Option<Id>, createdBy: Id)

  /** `SystemRelationship.RelationType`. */
  datatype RelationType = OneToOne | OneToMany | ManyToMany

  /** A foreign-key declaration: values of `fromFieldId` (a field of
      `fromTableId`) name records of `toTableId`; `toFieldId` is only the
      column shown for the referenced record. All ids are NOT NULL. */
  datatype Relationship = Relationship(
    systemId: Id,
    fromTableId: Id,
    fromFieldId: Id,
    toTableId: Id,
    toFieldId: Id,
    relationType: RelationType)

  /** `SystemInvitation.AccessType`. */
  datatype AccessType = AccessNone | AccessGeneral | AccessIndividual

  /** `SystemInvitation.Status`. */
  datatype Status = Pending | Accepted | Rejected | Expired | Cancelled

  /** An invitation to join a system. Times are seconds on the server
      clock; `expiresAt` is nullable in the schema. */
  datatype Invitation = Invitation(
    systemId: Id,
    inviterId: Id,
    inviteeEmail: string,
    inviteeId: Option<Id>,
    role: MemberRole,
    accessType: AccessType,
    passwordHash: Option<string>,
    status: Status,
    expiresAt: Option<int>,
    acceptedAt: Option<int>,
    rejectedAt: Option<int>)

  /** The database. */
  datatype Store = Store(
    users: map<Id, User>,
    plans: map<Id, Plan>,
    systems: map<Id, SystemRow>,
    members: map<(Id, Id), MemberRole>,
    passwords: map<(Id, Id), Option<string>>,
    shares: map<Id, Share>,
    tables: map<Id, Table>,
    fields: map<Id, Field>,
    records: map<Id, Record>,
    values: map<(Id, Id), Option<string>>,
    relationships: map<Id, Relationship>,
    invitations: map<Id, Invitation>)

  /** The password encoder, passed in: `encode` hashes, `matches` checks a
      raw password against a hash. Nothing about hashing is assumed. */
  datatype Encoder = Encoder(encode: string -> string, matches: (string, string) -> bool)

  /** Seconds in a day, the unit of `plusDays`. */
  const SecondsPerDay: int := 86400

  /** Whether `userId` holds a membership row for `systemId`
      (`existsBySystemIdAndUserId`). */
  predicate IsMember(st: Store, systemId: Id, userId: Id) {
    (systemId, userId) in st.members
  }

  /** Number of membership rows of a system (`countBySystemId`). */
  function MemberCount(st: Store, systemId: Id): nat {
    |set k | k in st.members && k.0 == systemId|
  }

  /** The ids of the systems a user owns (`findByOwnerId`). */
  function OwnedSystems(st: Store, userId: Id): (s: set<Id>)
    ensures forall id :: id in s <==> id in st.systems && st.systems[id].ownerId == userId
  {
    set id | id in st.systems && st.systems[id].ownerId == userId
  }

  /** The user whose e-mail is exactly `email` (`findByEmail`); the model
      picks the lowest id if several rows share it. */
  function FindUserByEmail(users: map<Id, User>, email: string): (r: Option<Id>)
    ensures r.Some? ==> r.value in users && users[r.value].email == email
    ensures r.None? ==> forall id :: id in users ==> users[id].email != email
  {
    if exists id :: id in users && users[id].email == email then
      var w :| w in users && users[w].email == email;
      var ids := set id | id in users && users[id].email == email;
      assert w in ids;
      Some(MinOf(ids))
    else None
  }
}
