/** Who may do what to a system. Two rules exist side by side: the role
    matrix of the record-store service, and the plain "owner or any member"
    rule of the table and relationship services. */
module Access {
  import opened Common
  import opened Entities

  /** The actions `hasPermission` is asked about, by the names its callers
      pass; any other name falls to the `default` branch. */
  datatype Action = ManageFields | CreateRecords | UpdateRecords | DeleteRecords | View
                  | Unnamed(name: string)

  /** The name a caller passes for an action. */
  function ActionName(a: Action): string {
    match a
    case ManageFields => "manage_fields"
    case CreateRecords => "create_record"
    case UpdateRecords => "update_record"
    case DeleteRecords => "delete_record"
    case View => "view"
    case Unnamed(n) => n
  }

  /** The branch of the `switch` a name selects. */
  function ActionOf(name: string): (a: Action)
    ensures a.Unnamed? <==> name !in {"manage_fields", "create_record", "update_record", "delete_record", "view"}
  {
    if name == "manage_fields" then ManageFields
    else if name == "create_record" then CreateRecords
    else if name == "update_record" then UpdateRecords
    else if name == "delete_record" then DeleteRecords
    else if name == "view" then View
    else Unnamed(name)
  }

  /** Reading a name and writing it back is the identity, and the five
      known names select their own branch. */
  lemma ActionNameRoundTrip(name: string, a: Action)
    ensures ActionName(ActionOf(name)) == name
    ensures !a.Unnamed? ==> ActionOf(ActionName(a)) == a
  {
  }

  /** The outcome of `hasPermission` for a member's role. */
  predicate RoleAllows(role: MemberRole, action: Action) {
    match action
    case ManageFields => role == Admin
    case CreateRecords | UpdateRecords | DeleteRecords => role == Admin || role == Editor
    case View => true
    case Unnamed(_) => false
  }

  /** `SystemDataService.hasPermission`: the owner may do anything, a
      non-member nothing, a member what its role allows. A missing system is
      an error. */
  function HasPermission(st: Store, systemId: Id, userId: Id, action: Action): (r: Result<bool>)
    ensures r.Err? <==> systemId !in st.systems
    ensures r.Err? ==> r.error == SystemNotFound
    ensures r.Ok? ==> (r.value <==>
      st.systems[systemId].ownerId == userId
      || ((systemId, userId) in st.members && RoleAllows(st.members[(systemId, userId)], action)))
  {
    if systemId !in st.systems then Err(SystemNotFound)
    else if st.systems[systemId].ownerId == userId then Ok(true)
    else if (systemId, userId) !in st.members then Ok(false)
    else Ok(RoleAllows(st.members[(systemId, userId)], action))
  }

  /** The role matrix, action by action. */
  lemma PermissionMatrix(st: Store, systemId: Id, userId: Id)
    requires systemId in st.systems
    ensures st.systems[systemId].ownerId == userId ==>
      forall a :: HasPermission(st, systemId, userId, a) == Ok(true)
    ensures st.systems[systemId].ownerId != userId && (systemId, userId) !in st.members ==>
      forall a :: HasPermission(st, systemId, userId, a) == Ok(false)
    ensures st.systems[systemId].ownerId != userId && (systemId, userId) in st.members ==>
      var role := st.members[(systemId, userId)];
      && HasPermission(st, systemId, userId, ManageFields) == Ok(role == Admin)
      && HasPermission(st, systemId, userId, CreateRecords) == Ok(role != Viewer)
      && HasPermission(st, systemId, userId, UpdateRecords) == Ok(role != Viewer)
      && HasPermission(st, systemId, userId, DeleteRecords) == Ok(role != Viewer)
      && HasPermission(st, systemId, userId, View) == Ok(true)
  {
  }

  /** An action name outside the five known ones is denied to everyone but
      the owner. */
  lemma UnknownActionDenied(st: Store, systemId: Id, userId: Id, name: string)
    requires systemId in st.systems && st.systems[systemId].ownerId != userId
    requires name !in {"manage_fields", "create_record", "update_record", "delete_record", "view"}
    ensures HasPermission(st, systemId, userId, ActionOf(name)) == Ok(false)
  {
  }

  /** Roles are ordered by what they allow: whatever a viewer may do an
      editor may do, and whatever an editor may do an admin may do. */
  lemma RolesNested(action: Action)
    ensures RoleAllows(Viewer, action) ==> RoleAllows(Editor, action)
    ensures RoleAllows(Editor, action) ==> RoleAllows(Admin, action)
  {
  }

  /** `hasPermission` of `SystemTableService` and
      `SystemRelationshipService`: the owner or any member, whatever its
      role. A missing system is an error. */
  function OwnerOrMember(st: Store, systemId: Id, userId: Id): (r: Result<bool>)
    ensures r.Err? <==> systemId !in st.systems
    ensures r.Err? ==> r.error == SystemNotFound
    ensures r.Ok? ==> (r.value <==> st.systems[systemId].ownerId == userId || IsMember(st, systemId, userId))
  {
    if systemId !in st.systems then Err(SystemNotFound)
    else Ok(st.systems[systemId].ownerId == userId || IsMember(st, systemId, userId))
  }

  /** The membership rule is exactly the role matrix for `view`. */
  lemma OwnerOrMemberIsView(st: Store, systemId: Id, userId: Id)
    ensures OwnerOrMember(st, systemId, userId) == HasPermission(st, systemId, userId, View)
  {
  }

  /** The check an operation guarded by `permitted` runs: the lookup error,
      or `PermissionDenied` when the answer is no. */
  function Guard(permitted: Result<bool>): (r: Outcome)
    ensures r.Pass? <==> permitted == Ok(true)
    ensures permitted.Err? ==> r == Fail(permitted.error)
    ensures permitted == Ok(false) ==> r == Fail(PermissionDenied)
  {
    match permitted
    case Err(e) => Fail(e)
    case Ok(b) => if b then Pass else Fail(PermissionDenied)
  }
}
