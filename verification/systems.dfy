/** `SystemService`: creating, listing, reading, changing and deleting
    systems, their response shape, the owner's statistics, the hard-coded
    create limit and the general-password check. */
module Systems {
  import opened Common
  import opened Entities
  import opened Plans
  import opened Query
  import opened Fields

  // ---------------------------------------------------------------------
  // Requests
  // ---------------------------------------------------------------------

  /** `SystemRequest.UserRequest`. */
  datatype MemberRequest = MemberRequest(email: Option<string>, role: Option<string>)

  /** `SystemRequest.UserPasswordRequest`. */
  datatype PasswordRequest = PasswordRequest(email: Option<string>, password: Option<string>)

  /** `SystemRequest`; a null list behaves like an empty one. */
  datatype SystemRequest = SystemRequest(
    name: Option<string>,
    description: Option<string>,
    imageUrl: Option<string>,
    securityMode: Option<string>,
    generalPassword: Option<string>,
    fields: seq<FieldRequest>,
    users: seq<MemberRequest>,
    userPasswords: seq<PasswordRequest>)

  /** The constant name of a security mode. */
  function ModeName(m: SecurityMode): string {
    match m
    case ModeNone => "none"
    case ModeGeneral => "general"
    case ModeIndividual => "individual"
  }

  /** The mode a request sets: a null mode keeps `current`, a name that is
      no mode's name (`IllegalArgumentException`) becomes `none`. */
  function ParseMode(name: Option<string>, current: SecurityMode): (m: SecurityMode)
    ensures name.None? ==> m == current
    ensures name.Some? ==> (ModeName(m) == name.value || m == ModeNone)
  {
    match name
    case None => current
    case Some(n) =>
      if n == "general" then ModeGeneral
      else if n == "individual" then ModeIndividual
      else ModeNone
  }

  /** Every mode survives the trip through its name; an unknown name is
      read as `none`, whatever the current mode. */
  lemma ParseModeRoundTrip(m: SecurityMode, current: SecurityMode, n: string)
    ensures ParseMode(Some(ModeName(m)), current) == m
    ensures (forall u :: ModeName(u) != n) ==> ParseMode(Some(n), current) == ModeNone
  {
    if forall u :: ModeName(u) != n {
      assert ModeName(ModeGeneral) != n && ModeName(ModeIndividual) != n;
    }
  }

  /** The constant name of a member role. */
  function RoleName(r: MemberRole): string {
    match r
    case Admin => "admin"
    case Editor => "editor"
    case Viewer => "viewer"
  }

  /** `SystemUser.Role.valueOf` with the `IllegalArgumentException` caught:
      an unknown name becomes `viewer`, a null one throws. */
  function ParseRole(name: Option<string>): (r: Result<MemberRole>)
    ensures r.Err? <==> name.None?
    ensures r.Err? ==> r.error == NullValue
    ensures r.Ok? ==> (RoleName(r.value) == name.value || r.value == Viewer)
  {
    match name
    case None => Err(NullValue)
    case Some(n) =>
      if n == "admin" then Ok(Admin)
      else if n == "editor" then Ok(Editor)
      else Ok(Viewer)
  }

  /** Every role survives the trip through its name. */
  lemma ParseRoleRoundTrip(r: MemberRole)
    ensures ParseRole(Some(RoleName(r))) == Ok(r)
  {
  }

  /** The stored hash after a request: a non-empty password is encoded,
      a null or empty one keeps `current`. */
  function HashOf(enc: Encoder, password: Option<string>, current: Option<string>): (h: Option<string>)
    ensures password.Some? && password.value != "" ==> h == Some(enc.encode(password.value))
    ensures (password.None? || password.value == "") ==> h == current
  {
    if password.Some? && password.value != "" then Some(enc.encode(password.value)) else current
  }

  // ---------------------------------------------------------------------
  // Creating a system
  // ---------------------------------------------------------------------

  /** `createField` of `SystemService`, once per requested field. */
  function AddFields(st: Store, systemId: Id, fs: seq<FieldRequest>): (r: Result<Store>)
    ensures r.Ok? ==> r.value == st.(fields := r.value.fields)
    ensures r.Ok? ==> forall f :: f in st.fields ==> f in r.value.fields && r.value.fields[f] == st.fields[f]
    ensures r.Ok? ==> forall f :: f in r.value.fields && f !in st.fields ==>
      r.value.fields[f].systemId == systemId && r.value.fields[f].tableId.None?
    ensures r.Ok? ==> |r.value.fields| == |st.fields| + |fs|
    ensures r.Ok? <==> forall i :: 0 <= i < |fs| ==> FieldAdmissible(fs[i])
    decreases |fs|
  {
    if fs == [] then Ok(st)
    else
      assert forall i :: 1 <= i < |fs| ==> fs[i] == fs[1..][i - 1];
      var (st1, _) :- AddSystemField(st, systemId, fs[0]);
      AddFields(st1, systemId, fs[1..])
  }

  /** A field request the save accepts: a name, a type and no null
      option. */
  predicate FieldAdmissible(req: FieldRequest) {
    req.name.Some? && req.fieldType.Some? && AllPresent(req.options)
  }

  /** `createSystemUser`: the user is looked up by e-mail; one who is
      already a member is left as is, anyone else joins with the requested
      role. */
  function AddMember(st: Store, systemId: Id, m: MemberRequest): (r: Result<Store>)
    ensures r.Ok? ==> m.email.Some? && FindUserByEmail(st.users, m.email.value).Some?
    ensures r.Ok? ==> r.value == st.(members := r.value.members)
    ensures r.Ok? ==> var u := FindUserByEmail(st.users, m.email.value).value;
      && IsMember(r.value, systemId, u)
      && (IsMember(st, systemId, u) ==> r.value == st)
      && (!IsMember(st, systemId, u) ==>
            ParseRole(m.role).Ok? && r.value.members == st.members[(systemId, u) := ParseRole(m.role).value])
    ensures (m.email.None? || FindUserByEmail(st.users, m.email.value).None?) ==> r == Err(UserNotFound)
  {
    if m.email.None? then Err(UserNotFound)
    else
      match FindUserByEmail(st.users, m.email.value)
      case None => Err(UserNotFound)
      case Some(u) =>
        if IsMember(st, systemId, u) then Ok(st)
        else
          var role :- ParseRole(m.role);
          Ok(st.(members := st.members[(systemId, u) := role]))
  }

  /** `createSystemUser` for every requested member, in order. Existing
      memberships are never changed, and every requested user ends up a
      member. */
  function AddMembers(st: Store, systemId: Id, ms: seq<MemberRequest>): (r: Result<Store>)
    ensures r.Ok? ==> r.value == st.(members := r.value.members)
    ensures r.Ok? ==> forall k :: k in st.members ==> k in r.value.members && r.value.members[k] == st.members[k]
    ensures r.Ok? ==> forall k :: k in r.value.members && k !in st.members ==> k.0 == systemId
    ensures r.Ok? ==> forall i :: 0 <= i < |ms| ==> JoinedBy(r.value, systemId, ms[i])
    ensures (forall i :: 0 <= i < |ms| ==> MemberAdmissible(st, ms[i])) ==> r.Ok?
    decreases |ms|
  {
    if ms == [] then Ok(st)
    else
      assert forall i :: 1 <= i < |ms| ==> ms[i] == ms[1..][i - 1];
      var st1 :- AddMember(st, systemId, ms[0]);
      var r := AddMembers(st1, systemId, ms[1..]);
      if r.Ok? then
        assert JoinedBy(r.value, systemId, ms[0]) by {
          assert st1.users == st.users && r.value.users == st.users;
        }
        assert forall i :: 1 <= i < |ms| ==> ms[i] == ms[1..][i - 1];
        r
      else r
  }

  /** A member request that always succeeds: its e-mail names a user and
      it carries a role. */
  predicate MemberAdmissible(st: Store, m: MemberRequest) {
    Resolves(st, m.email) && m.role.Some?
  }

  /** The e-mail names a user of the store. */
  predicate Resolves(st: Store, email: Option<string>) {
    email.Some? && FindUserByEmail(st.users, email.value).Some?
  }

  /** The user a resolvable e-mail names. */
  function UserOf(st: Store, email: Option<string>): Id
    requires Resolves(st, email)
  {
    FindUserByEmail(st.users, email.value).value
  }

  /** The requested e-mail names a user who is a member of the system. */
  predicate JoinedBy(st: Store, systemId: Id, m: MemberRequest) {
    m.email.Some? && FindUserByEmail(st.users, m.email.value).Some?
    && IsMember(st, systemId, FindUserByEmail(st.users, m.email.value).value)
  }

  /** `createSystemUserPassword`: one password row per (system, user); a
      second row for the same pair violates the unique constraint. An empty
      or null password leaves the hash null. */
  function AddPassword(st: Store, systemId: Id, p: PasswordRequest, enc: Encoder): (r: Result<Store>)
    ensures r.Ok? <==> (p.email.Some? && FindUserByEmail(st.users, p.email.value).Some?
                        && (systemId, FindUserByEmail(st.users, p.email.value).value) !in st.passwords)
    ensures r.Ok? ==> r.value == st.(passwords := st.passwords[
      (systemId, FindUserByEmail(st.users, p.email.value).value) := HashOf(enc, p.password, None)])
  {
    if p.email.None? then Err(UserNotFound)
    else
      match FindUserByEmail(st.users, p.email.value)
      case None => Err(UserNotFound)
      case Some(u) =>
        if (systemId, u) in st.passwords then Err(UniqueViolation)
        else Ok(st.(passwords := st.passwords[(systemId, u) := HashOf(enc, p.password, None)]))
  }

  /** `createSystemUserPassword` for every requested password, in order. */
  function AddPasswords(st: Store, systemId: Id, ps: seq<PasswordRequest>, enc: Encoder): (r: Result<Store>)
    ensures r.Ok? ==> r.value == st.(passwords := r.value.passwords)
    ensures r.Ok? ==> forall k :: k in st.passwords ==> k in r.value.passwords && r.value.passwords[k] == st.passwords[k]
    ensures r.Ok? <==> PasswordsAdmissible(st, systemId, ps)
    ensures r.Ok? ==> forall i :: 0 <= i < |ps| ==>
      (systemId, UserOf(st, ps[i].email)) in r.value.passwords
      && r.value.passwords[(systemId, UserOf(st, ps[i].email))] == HashOf(enc, ps[i].password, None)
    ensures r.Ok? ==> forall k :: k in r.value.passwords && k !in st.passwords ==> k.0 == systemId
    decreases |ps|
  {
    if ps == [] then Ok(st)
    else
      PasswordsAdmissibleCons(st, systemId, ps, enc);
      var st1 :- AddPassword(st, systemId, ps[0], enc);
      var r := AddPasswords(st1, systemId, ps[1..], enc);
      if r.Ok? then
        PasswordsStoredCons(st, st1, r.value, systemId, ps, enc);
        r
      else r
  }

  /** Every password request names a user, none of them already has a
      password row in the system, and no two name the same user. */
  predicate PasswordsAdmissible(st: Store, systemId: Id, ps: seq<PasswordRequest>) {
    && (forall i :: 0 <= i < |ps| ==> Resolves(st, ps[i].email))
    && (forall i :: 0 <= i < |ps| ==> (systemId, UserOf(st, ps[i].email)) !in st.passwords)
    && (forall i, j :: 0 <= i < j < |ps| ==> UserOf(st, ps[i].email) != UserOf(st, ps[j].email))
  }

  /** A list of password requests is admissible exactly when its first
      request is saved and the rest are admissible afterwards. */
  lemma PasswordsAdmissibleCons(st: Store, systemId: Id, ps: seq<PasswordRequest>, enc: Encoder)
    requires |ps| > 0
    ensures PasswordsAdmissible(st, systemId, ps) <==>
      AddPassword(st, systemId, ps[0], enc).Ok?
      && PasswordsAdmissible(AddPassword(st, systemId, ps[0], enc).value, systemId, ps[1..])
  {
    if AddPassword(st, systemId, ps[0], enc).Ok? {
      var st1 := AddPassword(st, systemId, ps[0], enc).value;
      PasswordsAdmissibleStep(st, st1, systemId, ps);
    }
  }

  /** Once the first request's row is written, the rest are admissible
      exactly when the whole list was. */
  lemma PasswordsAdmissibleStep(st: Store, st1: Store, systemId: Id, ps: seq<PasswordRequest>)
    requires |ps| > 0 && Resolves(st, ps[0].email) && (systemId, UserOf(st, ps[0].email)) !in st.passwords
    requires st1.users == st.users
    requires st1.passwords.Keys == st.passwords.Keys + {(systemId, UserOf(st, ps[0].email))}
    ensures PasswordsAdmissible(st, systemId, ps) <==> PasswordsAdmissible(st1, systemId, ps[1..])
  {
    var rest := ps[1..];
    assert forall i :: 0 <= i < |rest| ==> rest[i] == ps[i + 1];
    if PasswordsAdmissible(st1, systemId, rest) {
      forall i | 0 <= i < |ps|
        ensures Resolves(st, ps[i].email) && (systemId, UserOf(st, ps[i].email)) !in st.passwords
      {
        if i > 0 {
          assert Resolves(st1, rest[i - 1].email);
        }
      }
      forall i, j | 0 <= i < j < |ps|
        ensures UserOf(st, ps[i].email) != UserOf(st, ps[j].email)
      {
        assert (systemId, UserOf(st1, rest[j - 1].email)) !in st1.passwords;
        if i > 0 {
          assert UserOf(st1, rest[i - 1].email) != UserOf(st1, rest[j - 1].email);
        }
      }
    }
    if PasswordsAdmissible(st, systemId, ps) {
      forall i | 0 <= i < |rest|
        ensures Resolves(st1, rest[i].email) && (systemId, UserOf(st1, rest[i].email)) !in st1.passwords
      {
        assert UserOf(st, ps[0].email) != UserOf(st, ps[i + 1].email);
      }
      forall i, j | 0 <= i < j < |rest|
        ensures UserOf(st1, rest[i].email) != UserOf(st1, rest[j].email)
      {
        assert UserOf(st, ps[i + 1].email) != UserOf(st, ps[j + 1].email);
      }
    }
  }

  /** The password rows after the first request and the rest: each
      request's user has its hash, and only this system gains rows. */
  lemma PasswordsStoredCons(st: Store, st1: Store, st2: Store, systemId: Id, ps: seq<PasswordRequest>, enc: Encoder)
    requires |ps| > 0 && AddPassword(st, systemId, ps[0], enc) == Ok(st1)
    requires st2 == st1.(passwords := st2.passwords)
    requires forall k :: k in st1.passwords ==> k in st2.passwords && st2.passwords[k] == st1.passwords[k]
    requires forall i :: 0 <= i < |ps[1..]| ==>
      && Resolves(st1, ps[1..][i].email)
      && (systemId, UserOf(st1, ps[1..][i].email)) in st2.passwords
      && st2.passwords[(systemId, UserOf(st1, ps[1..][i].email))] == HashOf(enc, ps[1..][i].password, None)
    requires forall k :: k in st2.passwords && k !in st1.passwords ==> k.0 == systemId
    ensures forall i :: 0 <= i < |ps| ==>
      && Resolves(st, ps[i].email)
      && (systemId, UserOf(st, ps[i].email)) in st2.passwords
      && st2.passwords[(systemId, UserOf(st, ps[i].email))] == HashOf(enc, ps[i].password, None)
    ensures forall k :: k in st2.passwords && k !in st.passwords ==> k.0 == systemId
  {
    assert st1.users == st.users;
    forall i | 0 <= i < |ps|
      ensures Resolves(st, ps[i].email)
        && (systemId, UserOf(st, ps[i].email)) in st2.passwords
        && st2.passwords[(systemId, UserOf(st, ps[i].email))] == HashOf(enc, ps[i].password, None)
    {
      if i > 0 {
        assert ps[i] == ps[1..][i - 1];
      }
    }
  }

  /** `createSystem`: the owner's plan must admit another system. The
      system is saved with the caller as owner (a null name violates a NOT
      NULL column), then its fields, members and passwords; any failure
      undoes everything. */
  function CreateSystem(st: Store, req: SystemRequest, userId: Id, enc: Encoder): (r: Result<(Store, Id)>)
    ensures ValidateSystemLimit(st, userId).Fail? ==> r == Err(ValidateSystemLimit(st, userId).error)
    ensures ValidateSystemLimit(st, userId).Pass? && req.name.None? ==> r == Err(NotNullViolation)
    ensures r.Ok? ==>
      var (st2, id) := r.value;
      && id !in st.systems && id in st2.systems && st2.systems == st.systems[id := st2.systems[id]]
      && st2.systems[id] == SystemRow(userId, req.name, req.description, req.imageUrl,
                                      ParseMode(req.securityMode, ModeNone),
                                      HashOf(enc, req.generalPassword, None))
      && st2.users == st.users && st2.plans == st.plans && st2.records == st.records
      && (forall k :: k in st.members ==> k in st2.members && st2.members[k] == st.members[k])
      && (forall i :: 0 <= i < |req.users| ==> JoinedBy(st2, id, req.users[i]))
  {
    match ValidateSystemLimit(st, userId)
    case Fail(e) => Err(e)
    case Pass =>
      if req.name.None? then Err(NotNullViolation)
      else
        var id := Fresh(st.systems);
        var st2 :- Populate(CreatedRow(st, req, userId, enc), id, req, enc);
        Ok((st2, id))
  }

  /** The store with the requested system saved under a fresh id, owned by
      the caller, with its mode parsed and its general password hashed. */
  function CreatedRow(st: Store, req: SystemRequest, userId: Id, enc: Encoder): (st1: Store)
    ensures st1 == st.(systems := st1.systems)
    ensures st1.users == st.users && st1.passwords == st.passwords
  {
    st.(systems := st.systems[Fresh(st.systems) := SystemRow(userId, req.name, req.description, req.imageUrl,
                                                             ParseMode(req.securityMode, ModeNone),
                                                             HashOf(enc, req.generalPassword, None))])
  }

  /** The fields, members and passwords of a newly saved system, in that
      order; a failure at any of them fails the whole. */
  function Populate(st: Store, id: Id, req: SystemRequest, enc: Encoder): (r: Result<Store>)
    ensures r.Ok? ==>
      && r.value == st.(fields := r.value.fields, members := r.value.members, passwords := r.value.passwords)
      && |r.value.fields| == |st.fields| + |req.fields|
      && (forall f :: f in st.fields ==> f in r.value.fields && r.value.fields[f] == st.fields[f])
      && (forall f :: f in r.value.fields && f !in st.fields ==> r.value.fields[f].systemId == id && r.value.fields[f].tableId.None?)
      && (forall k :: k in st.members ==> k in r.value.members && r.value.members[k] == st.members[k])
      && (forall i :: 0 <= i < |req.users| ==> JoinedBy(r.value, id, req.users[i]))
      && (forall k :: k in st.passwords ==> k in r.value.passwords && r.value.passwords[k] == st.passwords[k])
      && (forall k :: k in r.value.passwords && k !in st.passwords ==> k.0 == id)
  {
    var st2 :- AddFields(st, id, req.fields);
    var st3 :- AddMembers(st2, id, req.users);
    var st4 :- AddPasswords(st3, id, req.userPasswords, enc);
    JoinedKept(st3, st4, id, req.users);
    Ok(st4)
  }

  /** Populating succeeds when every request is acceptable, and only if
      the field and password requests are; each requested password is then
      stored, hashed, for the user its e-mail names. */
  lemma PopulateSucceeds(st: Store, id: Id, req: SystemRequest, enc: Encoder)
    ensures var r := Populate(st, id, req, enc);
      r.Ok? ==>
        && (forall i :: 0 <= i < |req.fields| ==> FieldAdmissible(req.fields[i]))
        && PasswordsAdmissible(st, id, req.userPasswords)
        && forall i :: 0 <= i < |req.userPasswords| ==>
             (id, UserOf(st, req.userPasswords[i].email)) in r.value.passwords
             && r.value.passwords[(id, UserOf(st, req.userPasswords[i].email))] == HashOf(enc, req.userPasswords[i].password, None)
    ensures
      && (forall i :: 0 <= i < |req.fields| ==> FieldAdmissible(req.fields[i]))
      && (forall i :: 0 <= i < |req.users| ==> MemberAdmissible(st, req.users[i]))
      && PasswordsAdmissible(st, id, req.userPasswords)
      ==> Populate(st, id, req, enc).Ok?
  {
    if Populate(st, id, req, enc).Ok? {
      PopulatedRows(st, id, req, enc);
    }
    if && (forall i :: 0 <= i < |req.fields| ==> FieldAdmissible(req.fields[i]))
       && (forall i :: 0 <= i < |req.users| ==> MemberAdmissible(st, req.users[i]))
       && PasswordsAdmissible(st, id, req.userPasswords)
    {
      PopulateAdmitted(st, id, req, enc);
    }
  }

  /** A population that succeeded had acceptable field and password
      requests and stored each password, hashed, for its user. */
  lemma PopulatedRows(st: Store, id: Id, req: SystemRequest, enc: Encoder)
    requires Populate(st, id, req, enc).Ok?
    ensures forall i :: 0 <= i < |req.fields| ==> FieldAdmissible(req.fields[i])
    ensures PasswordsAdmissible(st, id, req.userPasswords)
    ensures var st4 := Populate(st, id, req, enc).value;
      forall i :: 0 <= i < |req.userPasswords| ==>
        (id, UserOf(st, req.userPasswords[i].email)) in st4.passwords
        && st4.passwords[(id, UserOf(st, req.userPasswords[i].email))] == HashOf(enc, req.userPasswords[i].password, None)
  {
    var st2 := AddFields(st, id, req.fields).value;
    var st3 := AddMembers(st2, id, req.users).value;
    PasswordsAdmissibleFrame(st, st3, id, req.userPasswords);
  }

  /** Acceptable requests populate the system. */
  lemma PopulateAdmitted(st: Store, id: Id, req: SystemRequest, enc: Encoder)
    requires forall i :: 0 <= i < |req.fields| ==> FieldAdmissible(req.fields[i])
    requires forall i :: 0 <= i < |req.users| ==> MemberAdmissible(st, req.users[i])
    requires PasswordsAdmissible(st, id, req.userPasswords)
    ensures Populate(st, id, req, enc).Ok?
  {
    var st2 := AddFields(st, id, req.fields).value;
    MembersAdmissibleFrame(st, st2, req.users);
    var st3 := AddMembers(st2, id, req.users).value;
    PasswordsAdmissibleFrame(st, st3, id, req.userPasswords);
  }

  /** Member admissibility depends only on the users. */
  lemma MembersAdmissibleFrame(st: Store, st2: Store, ms: seq<MemberRequest>)
    requires st2.users == st.users
    ensures (forall i :: 0 <= i < |ms| ==> MemberAdmissible(st, ms[i])) <==>
            (forall i :: 0 <= i < |ms| ==> MemberAdmissible(st2, ms[i]))
  {
  }

  /** Password admissibility depends only on the users and the password
      rows, and so do the users the requests name. */
  lemma PasswordsAdmissibleFrame(st: Store, st2: Store, id: Id, ps: seq<PasswordRequest>)
    requires st2.users == st.users && st2.passwords == st.passwords
    ensures PasswordsAdmissible(st, id, ps) <==> PasswordsAdmissible(st2, id, ps)
    ensures forall i :: 0 <= i < |ps| && Resolves(st, ps[i].email) ==>
      Resolves(st2, ps[i].email) && UserOf(st2, ps[i].email) == UserOf(st, ps[i].email)
  {
  }

  /** Saving passwords leaves every membership in place. */
  lemma JoinedKept(st: Store, st2: Store, id: Id, ms: seq<MemberRequest>)
    requires st2 == st.(passwords := st2.passwords)
    requires forall i :: 0 <= i < |ms| ==> JoinedBy(st, id, ms[i])
    ensures forall i :: 0 <= i < |ms| ==> JoinedBy(st2, id, ms[i])
  {
    forall i | 0 <= i < |ms|
      ensures JoinedBy(st2, id, ms[i])
    {
      assert JoinedBy(st, id, ms[i]);
    }
  }

  /** The store a creation leaves besides the system row: the requested
      fields and passwords of the new system, every earlier field and
      password row as it was, and tables, relationships, records, values,
      shares and invitations untouched. */
  lemma CreateSystemStores(st: Store, req: SystemRequest, userId: Id, enc: Encoder)
    requires CreateSystem(st, req, userId, enc).Ok?
    ensures var (st2, id) := CreateSystem(st, req, userId, enc).value;
      && st2 == st.(systems := st2.systems, fields := st2.fields, members := st2.members, passwords := st2.passwords)
      && |st2.fields| == |st.fields| + |req.fields|
      && (forall f :: f in st.fields ==> f in st2.fields && st2.fields[f] == st.fields[f])
      && (forall f :: f in st2.fields && f !in st.fields ==> st2.fields[f].systemId == id && st2.fields[f].tableId.None?)
      && (forall k :: k in st.passwords ==> k in st2.passwords && st2.passwords[k] == st.passwords[k])
      && (forall k :: k in st2.passwords && k !in st.passwords ==> k.0 == id)
    ensures var (st2, id) := CreateSystem(st, req, userId, enc).value;
      forall i :: 0 <= i < |req.userPasswords| ==>
        && Resolves(st, req.userPasswords[i].email)
        && (id, UserOf(st, req.userPasswords[i].email)) in st2.passwords
        && st2.passwords[(id, UserOf(st, req.userPasswords[i].email))] == HashOf(enc, req.userPasswords[i].password, None)
  {
    var id := Fresh(st.systems);
    var st1 := CreatedRow(st, req, userId, enc);
    assert CreateSystem(st, req, userId, enc).value == (Populate(st1, id, req, enc).value, id);
    PopulatedPasswords(st, st1, id, req, enc);
  }

  /** The password rows `Populate` writes on the new system's row are
      those the requests name in the store before it. */
  lemma PopulatedPasswords(st: Store, st1: Store, id: Id, req: SystemRequest, enc: Encoder)
    requires st1.users == st.users && st1.passwords == st.passwords
    requires Populate(st1, id, req, enc).Ok?
    ensures var st2 := Populate(st1, id, req, enc).value;
      forall i :: 0 <= i < |req.userPasswords| ==>
        && Resolves(st, req.userPasswords[i].email)
        && (id, UserOf(st, req.userPasswords[i].email)) in st2.passwords
        && st2.passwords[(id, UserOf(st, req.userPasswords[i].email))] == HashOf(enc, req.userPasswords[i].password, None)
  {
    PopulateSucceeds(st1, id, req, enc);
    PasswordsAdmissibleFrame(st, st1, id, req.userPasswords);
  }

  /** A creation succeeds only when the plan admits the system, the name
      is present and every field and password request is acceptable; and
      it does succeed when, besides, every member request names a user and
      carries a role. */
  lemma CreateSystemSucceeds(st: Store, req: SystemRequest, userId: Id, enc: Encoder)
    ensures CreateSystem(st, req, userId, enc).Ok? ==>
      && req.name.Some? && ValidateSystemLimit(st, userId).Pass?
      && (forall i :: 0 <= i < |req.fields| ==> FieldAdmissible(req.fields[i]))
      && PasswordsAdmissible(st, Fresh(st.systems), req.userPasswords)
    ensures
      && ValidateSystemLimit(st, userId).Pass? && req.name.Some?
      && (forall i :: 0 <= i < |req.fields| ==> FieldAdmissible(req.fields[i]))
      && (forall i :: 0 <= i < |req.users| ==> MemberAdmissible(st, req.users[i]))
      && PasswordsAdmissible(st, Fresh(st.systems), req.userPasswords)
      ==> CreateSystem(st, req, userId, enc).Ok?
  {
    var id := Fresh(st.systems);
    var st1 := CreatedRow(st, req, userId, enc);
    PopulateSucceeds(st1, id, req, enc);
    PasswordsAdmissibleFrame(st, st1, id, req.userPasswords);
    MembersAdmissibleFrame(st, st1, req.users);
  }

  /** A successful create never takes the caller past the plan's system
      limit. */
  lemma CreateSystemRespectsLimit(st: Store, req: SystemRequest, userId: Id, enc: Encoder)
    requires CreateSystem(st, req, userId, enc).Ok?
    ensures var (st2, id) := CreateSystem(st, req, userId, enc).value;
      && OwnedSystems(st2, userId) == OwnedSystems(st, userId) + {id}
      && var limit := PlanOfUser(st2, userId).value.maxSystems;
         limit.Some? ==> |OwnedSystems(st2, userId)| <= limit.value
  {
    var (st2, id) := CreateSystem(st, req, userId, enc).value;
    assert ValidateSystemLimit(st, userId).Pass?;
    OwnedGainsOne(st, st2, id, userId);
    assert PlanOfUser(st2, userId) == PlanOfUser(st, userId);
  }

  /** A system added with the caller as owner is one more system the
      caller owns. */
  lemma OwnedGainsOne(st: Store, st2: Store, id: Id, userId: Id)
    requires id !in st.systems && id in st2.systems && st2.systems == st.systems[id := st2.systems[id]]
    requires st2.systems[id].ownerId == userId
    ensures OwnedSystems(st2, userId) == OwnedSystems(st, userId) + {id}
    ensures |OwnedSystems(st2, userId)| == |OwnedSystems(st, userId)| + 1
  {
    var a, b := OwnedSystems(st, userId), OwnedSystems(st2, userId);
    assert forall x :: x in b <==> x in a || x == id;
    assert b == a + {id};
  }

  // ---------------------------------------------------------------------
  // Changing and deleting a system
  // ---------------------------------------------------------------------

  /** `updateSystem`: only the owner may change a system. Name,
      description and image are replaced, nulls included (a null name
      violates NOT NULL); the mode changes only when one is given and the
      hash only when a non-empty password is given. */
  function UpdateSystem(st: Store, id: Id, req: SystemRequest, userId: Id, enc: Encoder): (r: Result<Store>)
    ensures r.Ok? <==> id in st.systems && st.systems[id].ownerId == userId && req.name.Some?
    ensures id !in st.systems ==> r == Err(SystemNotFound)
    ensures id in st.systems && st.systems[id].ownerId != userId ==> r == Err(PermissionDenied)
    ensures r.Ok? ==>
      var old_ := st.systems[id];
      r.value == st.(systems := st.systems[id := SystemRow(
        old_.ownerId, req.name, req.description, req.imageUrl,
        ParseMode(req.securityMode, old_.securityMode),
        HashOf(enc, req.generalPassword, old_.generalPasswordHash))])
  {
    if id !in st.systems then Err(SystemNotFound)
    else
      var s := st.systems[id];
      if s.ownerId != userId then Err(PermissionDenied)
      else if req.name.None? then Err(NotNullViolation)
      else
        var s2 := s.(name := req.name, description := req.description, imageUrl := req.imageUrl,
                     securityMode := ParseMode(req.securityMode, s.securityMode),
                     generalPasswordHash := HashOf(enc, req.generalPassword, s.generalPasswordHash));
        Ok(st.(systems := st.systems[id := s2]))
  }

  /** `deleteSystem`: only the owner may delete a system. The system row
      goes; what the database does to the rows that name it is not part of
      this model. */
  function DeleteSystem(st: Store, id: Id, userId: Id): (r: Result<Store>)
    ensures r.Ok? <==> id in st.systems && st.systems[id].ownerId == userId
    ensures id !in st.systems ==> r == Err(SystemNotFound)
    ensures id in st.systems && st.systems[id].ownerId != userId ==> r == Err(PermissionDenied)
    ensures r.Ok? ==> r.value == st.(systems := st.systems - {id})
  {
    if id !in st.systems then Err(SystemNotFound)
    else if st.systems[id].ownerId != userId then Err(PermissionDenied)
    else Ok(st.(systems := st.systems - {id}))
  }

  // ---------------------------------------------------------------------
  // Visibility and responses
  // ---------------------------------------------------------------------

  /** The ids of the shares of `systemId` with `email`
      (`findBySystemIdAndUserEmail`). */
  function SharesOf(st: Store, systemId: Id, email: string): set<Id> {
    set i | i in st.shares && st.shares[i].systemId == systemId && st.shares[i].userEmail == email
  }

  /** The share rule of `getSystemById`: the caller is a known user with a
      share of the system under its e-mail. */
  predicate SharedWith(st: Store, systemId: Id, userId: Id) {
    userId in st.users && SharesOf(st, systemId, st.users[userId].email) != {}
  }

  /** Whether a user may see a system: owner, member or share. */
  predicate MaySee(st: Store, systemId: Id, userId: Id) {
    systemId in st.systems
    && (st.systems[systemId].ownerId == userId || IsMember(st, systemId, userId) || SharedWith(st, systemId, userId))
  }

  /** An entry of the response's user list. */
  datatype UserEntry = UserEntry(userId: Id, email: string, name: string, role: string)

  /** `SystemResponse`, without the creation time. */
  datatype SystemResponse = SystemResponse(
    id: Id, ownerId: Id, name: Option<string>, description: Option<string>, imageUrl: Option<string>,
    securityMode: string, users: seq<UserEntry>, userCount: nat, isInvited: bool)

  /** The user ids of a system's memberships, ascending. */
  function MemberIds(st: Store, systemId: Id): (ids: seq<Id>)
    ensures Increasing(ids)
    ensures forall u :: u in ids <==> IsMember(st, systemId, u)
  {
    SortedKeys(set k | k in st.members && k.0 == systemId :: k.1)
  }

  /** The member entries: each membership whose user still exists, with the
      role's name. */
  function MemberEntries(st: Store, systemId: Id): (es: seq<UserEntry>)
    ensures forall i :: 0 <= i < |es| ==>
      && IsMember(st, systemId, es[i].userId) && es[i].userId in st.users
      && es[i].role == RoleName(st.members[(systemId, es[i].userId)])
    ensures forall u :: IsMember(st, systemId, u) && u in st.users ==> exists i :: 0 <= i < |es| && es[i].userId == u
  {
    var ids := Filter(MemberIds(st, systemId), (u: Id) => u in st.users);
    assert forall i :: 0 <= i < |ids| ==> ids[i] in st.users && IsMember(st, systemId, ids[i]) by {
      forall i | 0 <= i < |ids|
        ensures ids[i] in st.users && IsMember(st, systemId, ids[i])
      {
        assert ids[i] in ids;
      }
    }
    var es := seq(|ids|, i requires 0 <= i < |ids| && ids[i] in st.users && IsMember(st, systemId, ids[i]) =>
                UserEntry(ids[i], st.users[ids[i]].email, st.users[ids[i]].name,
                          RoleName(st.members[(systemId, ids[i])])));
    assert forall u :: IsMember(st, systemId, u) && u in st.users ==> exists i :: 0 <= i < |es| && es[i].userId == u by {
      forall u | IsMember(st, systemId, u) && u in st.users
        ensures exists i :: 0 <= i < |es| && es[i].userId == u
      {
        assert u in MemberIds(st, systemId);
        assert u in ids;
        var i :| 0 <= i < |ids| && ids[i] == u;
        assert es[i].userId == u;
      }
    }
    es
  }

  /** `convertToResponse(system, userId)`: the owner (when the account still
      exists) with role `owner`, then the members; `userCount` is the list's
      length but at least 1; `isInvited` holds for a member who is not the
      owner. */
  function Response(st: Store, systemId: Id, userId: Id): (r: SystemResponse)
    requires systemId in st.systems
    ensures r.id == systemId && r.ownerId == st.systems[systemId].ownerId
    ensures r.userCount == if |r.users| == 0 then 1 else |r.users|
    ensures r.isInvited <==> st.systems[systemId].ownerId != userId && IsMember(st, systemId, userId)
  {
    var s := st.systems[systemId];
    var ownerEntry := if s.ownerId in st.users
      then [UserEntry(s.ownerId, st.users[s.ownerId].email, st.users[s.ownerId].name, "owner")]
      else [];
    var users := ownerEntry + MemberEntries(st, systemId);
    SystemResponse(systemId, s.ownerId, s.name, s.description, s.imageUrl, ModeName(s.securityMode),
                   users, if |users| == 0 then 1 else |users|,
                   s.ownerId != userId && IsMember(st, systemId, userId))
  }

  /** The response lists the owner first, when its account exists, and
      counts at least one user. */
  lemma ResponseOwnerFirst(st: Store, systemId: Id, userId: Id)
    requires systemId in st.systems
    ensures var r := Response(st, systemId, userId);
      var ownerId := st.systems[systemId].ownerId;
      && r.userCount >= 1
      && (ownerId in st.users ==> |r.users| >= 1 && r.users[0].userId == ownerId && r.users[0].role == "owner"
                                  && r.userCount == |r.users|)
  {
  }

  /** Every member whose account exists is listed, with its role's name. */
  lemma ResponseListsMembers(st: Store, systemId: Id, userId: Id, u: Id)
    requires systemId in st.systems && IsMember(st, systemId, u) && u in st.users
    ensures var r := Response(st, systemId, userId);
      exists i :: 0 <= i < |r.users| && r.users[i].userId == u
        && r.users[i].role == RoleName(st.members[(systemId, u)])
  {
    var r := Response(st, systemId, userId);
    var ms := MemberEntries(st, systemId);
    var k := |r.users| - |ms|;
    assert r.users[k..] == ms;
    var j :| 0 <= j < |ms| && ms[j].userId == u;
    assert r.users[k + j] == ms[j];
  }

  /** `getSystemById`: the system, to its owner, a member or a user it is
      shared with. */
  function GetSystem(st: Store, id: Id, userId: Id): (r: Result<SystemResponse>)
    ensures r.Ok? <==> MaySee(st, id, userId)
    ensures id !in st.systems ==> r == Err(SystemNotFound)
    ensures id in st.systems && !MaySee(st, id, userId) ==> r == Err(PermissionDenied)
    ensures r.Ok? ==> r.value == Response(st, id, userId)
  {
    if id !in st.systems then Err(SystemNotFound)
    else if !MaySee(st, id, userId) then Err(PermissionDenied)
    else Ok(Response(st, id, userId))
  }

  /** The system ids of a user's memberships, ascending
      (`findByUserId`). */
  function JoinedSystems(st: Store, userId: Id): (ids: seq<Id>)
    ensures forall s :: s in ids <==> IsMember(st, s, userId)
  {
    SortedKeys(set k | k in st.members && k.1 == userId :: k.0)
  }

  /** The systems of the shares with an e-mail, in share order
      (`findByUserEmail`). */
  function SharedSystems(st: Store, email: string): (ids: seq<Id>)
    ensures forall s :: s in ids <==> SharesOf(st, s, email) != {}
  {
    var shareIds := SortedKeys(set i | i in st.shares && st.shares[i].userEmail == email);
    assert forall i :: 0 <= i < |shareIds| ==> shareIds[i] in st.shares by {
      forall i | 0 <= i < |shareIds|
        ensures shareIds[i] in st.shares
      {
        assert shareIds[i] in shareIds;
      }
    }
    var r := seq(|shareIds|, i requires 0 <= i < |shareIds| && shareIds[i] in st.shares =>
               st.shares[shareIds[i]].systemId);
    assert forall s :: s in r <==> SharesOf(st, s, email) != {} by {
      forall s
        ensures s in r <==> SharesOf(st, s, email) != {}
      {
        if s in r {
          var i :| 0 <= i < |r| && r[i] == s;
          assert shareIds[i] in shareIds;
          assert shareIds[i] in SharesOf(st, s, email);
        }
        if SharesOf(st, s, email) != {} {
          EmptyOrInhabited(SharesOf(st, s, email));
          var x :| x in SharesOf(st, s, email);
          assert x in shareIds;
          var i :| 0 <= i < |shareIds| && shareIds[i] == x;
          assert r[i] == s;
        }
      }
    }
    r
  }

  /** `getAllSystems`: the systems the user owns, then those it is a member
      of, then those shared with its e-mail, each once. A null or unknown
      user sees none. */
  function AllSystems(st: Store, userId: Option<Id>): (r: seq<Id>)
    ensures (userId.None? || userId.value !in st.users) ==> r == []
    ensures NoDuplicates(r)
    ensures userId.Some? && userId.value in st.users ==>
      SortedKeys(OwnedSystems(st, userId.value)) <= r
  {
    if userId.None? || userId.value !in st.users then []
    else
      var u := userId.value;
      var owned := SortedKeys(OwnedSystems(st, u));
      assert NoDuplicates(owned) by {
        forall i, j | 0 <= i < j < |owned|
          ensures owned[i] != owned[j]
        {
          assert Below(owned, i, j);
        }
      }
      var withMembers := AppendNew(owned, JoinedSystems(st, u), st.systems.Keys);
      AppendNew(withMembers, SharedSystems(st, st.users[u].email), st.systems.Keys)
  }

  /** The list and the single read agree: a known user's list holds exactly
      the systems `getSystemById` shows it. */
  lemma AllSystemsAreVisible(st: Store, userId: Id, id: Id)
    requires userId in st.users
    ensures id in AllSystems(st, Some(userId)) <==> GetSystem(st, id, userId).Ok?
  {
    var owned := SortedKeys(OwnedSystems(st, userId));
    var withMembers := AppendNew(owned, JoinedSystems(st, userId), st.systems.Keys);
    assert id in owned <==> id in OwnedSystems(st, userId);
  }

  // ---------------------------------------------------------------------
  // Statistics, limit and password
  // ---------------------------------------------------------------------

  /** `SystemStatisticsResponse.PlanUsage`. */
  datatype PlanUsage = PlanUsage(current: nat, max: int, planName: string)

  /** The counters of `SystemStatisticsResponse`. */
  datatype Statistics = Statistics(
    totalSystems: nat, securityNone: nat, securityGeneral: nat, securityIndividual: nat,
    totalUsers: nat, totalRecords: nat, planUsage: Option<PlanUsage>)

  /** The owned systems in one security mode. */
  function InMode(st: Store, userId: Id, m: SecurityMode): set<Id> {
    set id | id in OwnedSystems(st, userId) && st.systems[id].securityMode == m
  }

  /** The distinct users of the user's systems: each system's owner and
      every member of it. */
  function UsersOfOwned(st: Store, userId: Id): set<Id> {
    (set id | id in OwnedSystems(st, userId) :: st.systems[id].ownerId)
    + MembersOfOwned(st, userId)
  }

  /** The members of the user's systems. */
  function MembersOfOwned(st: Store, userId: Id): set<Id> {
    set k | k in st.members && k.0 in OwnedSystems(st, userId) :: k.1
  }

  /** The owners of a user's systems are that user alone, or nobody when
      it owns none. */
  lemma OwnersOfOwned(st: Store, userId: Id)
    ensures OwnedSystems(st, userId) != {} ==> UsersOfOwned(st, userId) == {userId} + MembersOfOwned(st, userId)
    ensures OwnedSystems(st, userId) == {} ==> UsersOfOwned(st, userId) == {}
  {
    var owned := OwnedSystems(st, userId);
    var owners := set id | id in owned :: st.systems[id].ownerId;
    if owned != {} {
      EmptyOrInhabited(owned);
      var sid :| sid in owned;
      assert st.systems[sid].ownerId in owners;
      assert owners == {userId};
    } else {
      assert owners == {};
      assert MembersOfOwned(st, userId) == {};
    }
  }

  /** The records of the user's systems. */
  function RecordsOfOwned(st: Store, userId: Id): set<Id> {
    set r | r in st.records && st.records[r].systemId in OwnedSystems(st, userId)
  }

  /** The plan usage: systems owned against the plan's limit (`-1` for
      none or no plan) and the plan's name, "Básico" when the user has no
      plan. */
  function Usage(st: Store, userId: Id): PlanUsage {
    var plan := if userId in st.users && st.users[userId].planId.Some?
                   && st.users[userId].planId.value in st.plans
                then Some(st.plans[st.users[userId].planId.value]) else None;
    PlanUsage(|OwnedSystems(st, userId)|,
              if plan.Some? && plan.value.maxSystems.Some? then plan.value.maxSystems.value else -1,
              if plan.Some? then plan.value.name else "Básico")
  }

  /** `getStatistics`, without the daily activity series. */
  function GetStatistics(st: Store, userId: Option<Id>): (s: Statistics)
    ensures userId.None? ==> s == Statistics(0, 0, 0, 0, 0, 0, None)
    ensures userId.Some? ==> s.totalSystems == |OwnedSystems(st, userId.value)|
    ensures userId.Some? ==> s.planUsage == Some(Usage(st, userId.value))
    ensures userId.Some? ==>
      && s.securityNone == |InMode(st, userId.value, ModeNone)|
      && s.securityGeneral == |InMode(st, userId.value, ModeGeneral)|
      && s.securityIndividual == |InMode(st, userId.value, ModeIndividual)|
    ensures userId.Some? ==> s.totalUsers == |UsersOfOwned(st, userId.value)|
    ensures userId.Some? ==> s.totalRecords == |RecordsOfOwned(st, userId.value)|
  {
    if userId.None? then Statistics(0, 0, 0, 0, 0, 0, None)
    else
      var u := userId.value;
      OwnersOfOwned(st, u);
      if OwnedSystems(st, u) == {} then
        assert InMode(st, u, ModeNone) == {} && InMode(st, u, ModeGeneral) == {} && InMode(st, u, ModeIndividual) == {};
        assert RecordsOfOwned(st, u) == {};
        Statistics(0, 0, 0, 0, 0, 0, Some(Usage(st, u)))
      else
        Statistics(|OwnedSystems(st, u)|,
                   |InMode(st, u, ModeNone)|, |InMode(st, u, ModeGeneral)|, |InMode(st, u, ModeIndividual)|,
                   |{u} + MembersOfOwned(st, u)|, |RecordsOfOwned(st, u)|, Some(Usage(st, u)))
  }

  /** Every owned system is in exactly one mode, so the three mode counters
      add up to the total; the distinct users include the owner, so there
      is at least one exactly when the user owns a system. */
  lemma StatisticsCounters(st: Store, userId: Id)
    ensures var s := GetStatistics(st, Some(userId));
      && s.securityNone + s.securityGeneral + s.securityIndividual == s.totalSystems
      && (s.totalUsers >= 1 <==> s.totalSystems >= 1)
      && s.totalRecords <= |st.records|
  {
    ModesPartition(st, userId);
    OwnersOfOwned(st, userId);
    SubsetSize(RecordsOfOwned(st, userId), st.records.Keys);
    if OwnedSystems(st, userId) != {} {
      assert userId in UsersOfOwned(st, userId);
    }
  }

  /** The three modes split the owned systems. */
  lemma ModesPartition(st: Store, userId: Id)
    ensures |InMode(st, userId, ModeNone)| + |InMode(st, userId, ModeGeneral)| + |InMode(st, userId, ModeIndividual)|
         == |OwnedSystems(st, userId)|
  {
    var owned := OwnedSystems(st, userId);
    var a, b, c := InMode(st, userId, ModeNone), InMode(st, userId, ModeGeneral), InMode(st, userId, ModeIndividual);
    assert owned == a + b + c by {
      forall x | x in owned
        ensures x in a + b + c
      {
        match st.systems[x].securityMode
        case ModeNone => assert x in a;
        case ModeGeneral => assert x in b;
        case ModeIndividual => assert x in c;
      }
    }
    assert a !! b && (a + b) !! c;
    assert |a + b| == |a| + |b|;
  }

  /** A created system is counted once more in its owner's statistics. */
  lemma CreateSystemCounted(st: Store, req: SystemRequest, userId: Id, enc: Encoder)
    requires CreateSystem(st, req, userId, enc).Ok?
    ensures var (st2, _) := CreateSystem(st, req, userId, enc).value;
      GetStatistics(st2, Some(userId)).totalSystems == GetStatistics(st, Some(userId)).totalSystems + 1
  {
    CreateSystemRespectsLimit(st, req, userId, enc);
  }

  /** The answer of `getCreateLimit`. */
  datatype CreateLimit = CreateLimit(canCreate: bool, currentCount: nat, maxSystems: nat)

  /** The hard-coded ceiling of `getCreateLimit`. */
  const MaxSystemsShown: nat := 999

  /** `getCreateLimit`: the owned count against a fixed 999, whatever the
      plan says. */
  function GetCreateLimit(st: Store, userId: Id): (r: CreateLimit)
    ensures r.currentCount == |OwnedSystems(st, userId)| && r.maxSystems == MaxSystemsShown
    ensures r.canCreate <==> r.currentCount < MaxSystemsShown
  {
    var n := |OwnedSystems(st, userId)|;
    CreateLimit(n < MaxSystemsShown, n, MaxSystemsShown)
  }

  /** The create limit reported and the one enforced are different: a user
      of a one-system plan who owns a system is told it can create more,
      and the create is refused. */
  lemma CreateLimitIsNotThePlan(enc: Encoder)
    ensures var plan := Plan("Básico", Some(1), None, None, None, None);
      var st := Store(map[1 := User("Ana", "ana@x", "h", Some(1), None)], map[1 := plan],
                      map[7 := SystemRow(1, Some("S"), None, None, ModeNone, None)],
                      map[], map[], map[], map[], map[], map[], map[], map[], map[]);
      var req := SystemRequest(Some("T"), None, None, None, None, [], [], []);
      && GetCreateLimit(st, 1).canCreate
      && CreateSystem(st, req, 1, enc) == Err(LimitReached)
  {
    var plan := Plan("Básico", Some(1), None, None, None, None);
    var st := Store(map[1 := User("Ana", "ana@x", "h", Some(1), None)], map[1 := plan],
                    map[7 := SystemRow(1, Some("S"), None, None, ModeNone, None)],
                    map[], map[], map[], map[], map[], map[], map[], map[], map[]);
    assert OwnedSystems(st, 1) == {7};
  }

  /** `verifyPassword`: only a `general` system with a non-empty hash asks
      for the password; a null password then fails and any other is matched
      against the hash. */
  function VerifyPassword(st: Store, systemId: Id, password: Option<string>, enc: Encoder): (r: Result<bool>)
    ensures r.Err? <==> systemId !in st.systems
    ensures r.Err? ==> r.error == SystemNotFound
    ensures r == Ok(false) ==>
      && st.systems[systemId].securityMode == ModeGeneral
      && st.systems[systemId].generalPasswordHash.Some? && st.systems[systemId].generalPasswordHash.value != ""
  {
    if systemId !in st.systems then Err(SystemNotFound)
    else
      var s := st.systems[systemId];
      match s.securityMode
      case ModeNone => Ok(true)
      case ModeGeneral =>
        if s.generalPasswordHash.None? || s.generalPasswordHash.value == "" then Ok(true)
        else if password.None? then Ok(false)
        else Ok(enc.matches(password.value, s.generalPasswordHash.value))
      case ModeIndividual => Ok(true)
  }

  /** The decision table of `verifyPassword`, row by row. */
  lemma VerifyPasswordTable(st: Store, systemId: Id, password: Option<string>, enc: Encoder)
    requires systemId in st.systems
    ensures var s := st.systems[systemId];
      && (s.securityMode == ModeNone ==> VerifyPassword(st, systemId, password, enc) == Ok(true))
      && (s.securityMode == ModeIndividual ==> VerifyPassword(st, systemId, password, enc) == Ok(true))
      && ((s.securityMode == ModeGeneral && (s.generalPasswordHash.None? || s.generalPasswordHash.value == ""))
            ==> VerifyPassword(st, systemId, password, enc) == Ok(true))
      && ((s.securityMode == ModeGeneral && s.generalPasswordHash.Some? && s.generalPasswordHash.value != "")
            ==> VerifyPassword(st, systemId, password, enc)
                == Ok(password.Some? && enc.matches(password.value, s.generalPasswordHash.value)))
  {
  }

  /** After the owner sets a `general` mode with a non-empty password, that
      password is checked against its own encoding. */
  lemma UpdateThenVerify(st: Store, id: Id, req: SystemRequest, userId: Id, enc: Encoder)
    requires UpdateSystem(st, id, req, userId, enc).Ok?
    requires req.securityMode == Some("general") && req.generalPassword.Some? && req.generalPassword.value != ""
    requires enc.encode(req.generalPassword.value) != ""
    ensures VerifyPassword(UpdateSystem(st, id, req, userId, enc).value, id, req.generalPassword, enc)
         == Ok(enc.matches(req.generalPassword.value, enc.encode(req.generalPassword.value)))
  {
  }
}
