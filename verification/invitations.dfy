/** `InvitationService` and the `SystemInvitation` entity: an invitation is
    created pending by a system's owner and then accepted or rejected by the
    invitee, cancelled by the inviter, expired by the hourly sweep, or
    re-sent (the original cancelled and a copy created).

    The schema's unique key `unique_pending_invitation` lists
    (system_id, invitee_email, status): as written it covers every status,
    although its name says it is meant for pending invitations. Every write
    of an invitation therefore takes the key in force as a parameter
    (`KeyPolicy`), so the model states both what the schema does and what it
    was evidently meant to do. */
module Invitations {
  import opened Common
  import opened Text
  import opened Entities
  import opened Query
  import opened Systems

  // ---------------------------------------------------------------------
  // The unique key
  // ---------------------------------------------------------------------

  /** Which invitations the unique key compares: all of them (the schema as
      written) or only the pending ones (as its name says). */
  datatype KeyPolicy = AllStatuses | PendingOnly

  /** Two invitations share a key under `policy`. */
  predicate SameKey(a: Invitation, b: Invitation, policy: KeyPolicy) {
    a.systemId == b.systemId && a.inviteeEmail == b.inviteeEmail && a.status == b.status
    && (policy == AllStatuses || a.status == Pending)
  }

  /** No two invitations share a key. */
  predicate KeyUnique(invs: map<Id, Invitation>, policy: KeyPolicy) {
    forall i, j :: i in invs && j in invs && i != j ==> !SameKey(invs[i], invs[j], policy)
  }

  /** Writing `inv` under `id` would give it the key of another row. */
  predicate Clashes(invs: map<Id, Invitation>, id: Id, inv: Invitation, policy: KeyPolicy) {
    exists j :: j in invs && j != id && SameKey(invs[j], inv, policy)
  }

  /** `invitationRepository.save`: the row is written unless the unique key
      rejects it. */
  function Save(invs: map<Id, Invitation>, id: Id, inv: Invitation, policy: KeyPolicy)
    : (r: Result<map<Id, Invitation>>)
    ensures r.Ok? <==> !Clashes(invs, id, inv, policy)
    ensures r.Err? ==> r.error == UniqueViolation
    ensures r.Ok? ==> r.value == invs[id := inv]
    ensures r.Ok? && KeyUnique(invs, policy) ==> KeyUnique(r.value, policy)
  {
    if Clashes(invs, id, inv, policy) then Err(UniqueViolation)
    else
      var m := invs[id := inv];
      assert KeyUnique(invs, policy) ==> KeyUnique(m, policy) by {
        if KeyUnique(invs, policy) {
          forall i, j | i in m && j in m && i != j
            ensures !SameKey(m[i], m[j], policy)
          {
            if i == id {
              assert !SameKey(invs[j], inv, policy);
            } else if j == id {
              assert !SameKey(invs[i], inv, policy);
            }
          }
        }
      }
      Ok(m)
  }

  /** With the key restricted to pending invitations, a row that leaves the
      pending state can always be written. */
  lemma LeavingPendingNeverClashes(invs: map<Id, Invitation>, id: Id, inv: Invitation)
    requires inv.status != Pending
    ensures Save(invs, id, inv, PendingOnly) == Ok(invs[id := inv])
  {
  }

  /** Another invitation than `id` of the system, stored under exactly
      `email`, with `status`. */
  predicate Sibling(invs: map<Id, Invitation>, id: Id, systemId: Id, email: string, status: Status) {
    exists j :: j in invs && j != id && invs[j].systemId == systemId
      && invs[j].inviteeEmail == email && invs[j].status == status
  }

  /** A write clashes exactly with a sibling of the same status, and only
      pending ones when the key is restricted to them. */
  lemma ClashesAsSibling(invs: map<Id, Invitation>, id: Id, inv: Invitation, policy: KeyPolicy)
    ensures Clashes(invs, id, inv, policy) <==>
      (policy == AllStatuses || inv.status == Pending) && Sibling(invs, id, inv.systemId, inv.inviteeEmail, inv.status)
  {
    if Sibling(invs, id, inv.systemId, inv.inviteeEmail, inv.status) && (policy == AllStatuses || inv.status == Pending) {
      var j :| j in invs && j != id && invs[j].systemId == inv.systemId
        && invs[j].inviteeEmail == inv.inviteeEmail && invs[j].status == inv.status;
      assert SameKey(invs[j], inv, policy);
    }
  }

  // ---------------------------------------------------------------------
  // Creating
  // ---------------------------------------------------------------------

  /** `InvitationRequest`. */
  datatype InvitationRequest = InvitationRequest(
    systemId: Id,
    inviteeEmail: Option<string>,
    role: Option<string>,
    accessType: Option<string>,
    individualPassword: Option<string>,
    expirationDays: Option<int>)

  /** The constant name of an access type. */
  function AccessName(a: AccessType): string {
    match a
    case AccessNone => "none"
    case AccessGeneral => "general"
    case AccessIndividual => "individual"
  }

  /** `AccessType.valueOf` with the `IllegalArgumentException` caught: an
      unknown name becomes `none`, a null one throws. */
  function ParseAccess(name: Option<string>): (r: Result<AccessType>)
    ensures r.Err? <==> name.None?
    ensures r.Err? ==> r.error == NullValue
    ensures r.Ok? ==> (AccessName(r.value) == name.value || r.value == AccessNone)
  {
    match name
    case None => Err(NullValue)
    case Some(n) =>
      if n == "general" then Ok(AccessGeneral)
      else if n == "individual" then Ok(AccessIndividual)
      else Ok(AccessNone)
  }

  /** Every access type survives the trip through its name. */
  lemma ParseAccessRoundTrip(a: AccessType)
    ensures ParseAccess(Some(AccessName(a))) == Ok(a)
  {
  }

  /** The most members a system may have before invitations are refused. */
  const MaxMembers: nat := 500

  /** Days an invitation lives when the request names none. */
  const DefaultExpirationDays: int := 30

  /** A pending invitation of `systemId` stored under exactly `email`
      (`existsBySystemIdAndInviteeEmailAndStatus`). */
  predicate PendingFor(st: Store, systemId: Id, email: string) {
    exists j :: j in st.invitations && st.invitations[j].systemId == systemId
      && st.invitations[j].inviteeEmail == email && st.invitations[j].status == Pending
  }

  /** The checks of `createInvitation` before anything is written, in the
      order the source makes them. The owner is the inviter once the second
      check passes, so the owner lookup cannot fail after the inviter's. */
  function CreateChecks(st: Store, req: InvitationRequest, inviterId: Id): (r: Outcome)
    ensures r.Pass? ==> req.systemId in st.systems && st.systems[req.systemId].ownerId == inviterId
    ensures r.Pass? ==> inviterId in st.users && req.inviteeEmail.Some?
    ensures r.Pass? ==> !EqualsIgnoreCase(st.users[inviterId].email, req.inviteeEmail.value)
    ensures r.Pass? ==> !PendingFor(st, req.systemId, req.inviteeEmail.value)
    ensures r.Pass? ==> MemberCount(st, req.systemId) < MaxMembers
    ensures r.Pass? && FindUserByEmail(st.users, req.inviteeEmail.value).Some? ==>
      !IsMember(st, req.systemId, FindUserByEmail(st.users, req.inviteeEmail.value).value)
    ensures r.Pass? <==>
      && req.systemId in st.systems && st.systems[req.systemId].ownerId == inviterId
      && inviterId in st.users && req.inviteeEmail.Some?
      && !EqualsIgnoreCase(st.users[inviterId].email, req.inviteeEmail.value)
      && !(FindUserByEmail(st.users, req.inviteeEmail.value).Some?
           && IsMember(st, req.systemId, FindUserByEmail(st.users, req.inviteeEmail.value).value))
      && !PendingFor(st, req.systemId, req.inviteeEmail.value)
      && MemberCount(st, req.systemId) < MaxMembers
  {
    if req.systemId !in st.systems then Fail(SystemNotFound)
    else if st.systems[req.systemId].ownerId != inviterId then Fail(PermissionDenied)
    else if inviterId !in st.users then Fail(UserNotFound)
    else
      match req.inviteeEmail
      case None =>
        // `equalsIgnoreCase(null)` is false and a null e-mail finds no user
        // and no invitation; the member limit still applies, and then
        // `toLowerCase` throws.
        if MemberCount(st, req.systemId) >= MaxMembers then Fail(LimitReached) else Fail(NullValue)
      case Some(email) =>
        if EqualsIgnoreCase(st.users[inviterId].email, email) then Fail(SelfInvitation)
        else if FindUserByEmail(st.users, email).Some? && IsMember(st, req.systemId, FindUserByEmail(st.users, email).value)
        then Fail(AlreadyMember)
        else if PendingFor(st, req.systemId, email) then Fail(PendingExists)
        else if MemberCount(st, req.systemId) >= MaxMembers then Fail(LimitReached)
        else Pass
  }

  /** The checks of `createInvitation` that read no invitation: the system,
      its owner, the inviter, self-invitation and membership. On a request
      with an e-mail they fail exactly as `CreateChecks` would first fail. */
  function ChecksBeforeFlush(st: Store, req: InvitationRequest, inviterId: Id): (r: Outcome)
    requires req.inviteeEmail.Some?
    ensures r.Fail? ==> CreateChecks(st, req, inviterId) == r
    ensures r.Pass? <==>
      && req.systemId in st.systems && st.systems[req.systemId].ownerId == inviterId
      && inviterId in st.users
      && !EqualsIgnoreCase(st.users[inviterId].email, req.inviteeEmail.value)
      && !(FindUserByEmail(st.users, req.inviteeEmail.value).Some?
           && IsMember(st, req.systemId, FindUserByEmail(st.users, req.inviteeEmail.value).value))
  {
    var email := req.inviteeEmail.value;
    if req.systemId !in st.systems then Fail(SystemNotFound)
    else if st.systems[req.systemId].ownerId != inviterId then Fail(PermissionDenied)
    else if inviterId !in st.users then Fail(UserNotFound)
    else if EqualsIgnoreCase(st.users[inviterId].email, email) then Fail(SelfInvitation)
    else if FindUserByEmail(st.users, email).Some? && IsMember(st, req.systemId, FindUserByEmail(st.users, email).value)
    then Fail(AlreadyMember)
    else Pass
  }

  /** `createInvitation`: after the checks, a pending invitation for the
      lower-cased e-mail, linked to the invitee's account if one exists,
      with the parsed role and access type, a password hash only for
      `individual` access with a non-empty password, and an expiry `days`
      days from `now`. */
  function CreateInvitation(st: Store, req: InvitationRequest, inviterId: Id, now: int, enc: Encoder,
                            policy: KeyPolicy): (r: Result<(Store, Id)>)
    ensures CreateChecks(st, req, inviterId).Fail? ==> r == Err(CreateChecks(st, req, inviterId).error)
    ensures r.Ok? ==> r.value.1 !in st.invitations && r.value.1 in r.value.0.invitations
    ensures r.Ok? ==>
      var (st2, id) := r.value;
      var inv := st2.invitations[id];
      && st2 == st.(invitations := st.invitations[id := inv])
      && inv.systemId == req.systemId && inv.inviterId == inviterId
      && inv.status == Pending
      && inv.inviteeEmail == Lower(req.inviteeEmail.value)
      && inv.inviteeId == FindUserByEmail(st.users, req.inviteeEmail.value)
      && Ok(inv.role) == ParseRole(req.role) && Ok(inv.accessType) == ParseAccess(req.accessType)
      && (inv.passwordHash.Some? <==>
            inv.accessType == AccessIndividual && req.individualPassword.Some? && req.individualPassword.value != "")
      && inv.expiresAt == Some(now + req.expirationDays.GetOr(DefaultExpirationDays) * SecondsPerDay)
      && inv.acceptedAt.None? && inv.rejectedAt.None?
    ensures r.Ok? && KeyUnique(st.invitations, policy) ==> KeyUnique(r.value.0.invitations, policy)
    ensures CreateChecks(st, req, inviterId).Pass? && (req.role.None? || req.accessType.None?) ==> r == Err(NullValue)
    ensures r.Ok? <==>
      && CreateChecks(st, req, inviterId).Pass? && req.role.Some? && req.accessType.Some?
      && !PendingFor(st, req.systemId, Lower(req.inviteeEmail.value))
  {
    match CreateChecks(st, req, inviterId)
    case Fail(e) => Err(e)
    case Pass =>
      var email := req.inviteeEmail.value;
      var role :- ParseRole(req.role);
      var access :- ParseAccess(req.accessType);
      var hash := if access == AccessIndividual then HashOf(enc, req.individualPassword, None) else None;
      var days := req.expirationDays.GetOr(DefaultExpirationDays);
      var inv := Invitation(req.systemId, inviterId, Lower(email), FindUserByEmail(st.users, email),
                            role, access, hash, Pending, Some(now + days * SecondsPerDay), None, None);
      var id := Fresh(st.invitations);
      NewPendingClashes(st, id, inv, policy);
      var invs :- Save(st.invitations, id, inv, policy);
      Ok((st.(invitations := invs), id))
  }

  /** A new pending invitation under an unused id clashes exactly with a
      pending invitation of its system under the same e-mail, whatever the
      key covers. */
  lemma NewPendingClashes(st: Store, id: Id, inv: Invitation, policy: KeyPolicy)
    requires id !in st.invitations && inv.status == Pending
    ensures Clashes(st.invitations, id, inv, policy) <==> PendingFor(st, inv.systemId, inv.inviteeEmail)
  {
    ClashesAsSibling(st.invitations, id, inv, policy);
  }

  /** Only the owner invites, and never to its own address in any case. */
  lemma OnlyOwnerInvites(st: Store, req: InvitationRequest, inviterId: Id, now: int, enc: Encoder, policy: KeyPolicy)
    requires CreateInvitation(st, req, inviterId, now, enc, policy).Ok?
    ensures req.systemId in st.systems && st.systems[req.systemId].ownerId == inviterId
    ensures inviterId in st.users && !EqualsIgnoreCase(st.users[inviterId].email, req.inviteeEmail.value)
    ensures MemberCount(st, req.systemId) < MaxMembers
  {
  }

  // ---------------------------------------------------------------------
  // Accepting and rejecting
  // ---------------------------------------------------------------------

  /** The identity check of accept and reject: a caller with an id must
      match the invitation's invitee id when it has one (and passes when it
      has none); a caller without an id must give the invitation's e-mail,
      in any case. */
  predicate ForCaller(inv: Invitation, userId: Option<Id>, userEmail: Option<string>) {
    match userId
    case Some(u) => inv.inviteeId.None? || inv.inviteeId.value == u
    case None => userEmail.Some? && EqualsIgnoreCase(inv.inviteeEmail, userEmail.value)
  }

  /** `expiresAt.isBefore(now)`; an invitation without expiry never
      expires. */
  predicate IsExpired(inv: Invitation, now: int) {
    inv.expiresAt.Some? && inv.expiresAt.value < now
  }

  /** The account that accepts: the caller's id, which must exist, or else
      the user with exactly the given e-mail, who must have registered. */
  function Accepter(st: Store, userId: Option<Id>, userEmail: Option<string>): (r: Result<Id>)
    ensures r.Ok? ==> r.value in st.users
    ensures userId.Some? ==> (r.Ok? <==> userId.value in st.users) && (r.Ok? ==> r.value == userId.value)
    ensures r.Err? ==> r.error == UserNotFound || r.error == MustRegister
  {
    match userId
    case Some(u) => if u in st.users then Ok(u) else Err(UserNotFound)
    case None =>
      if userEmail.None? then Err(MustRegister)
      else
        match FindUserByEmail(st.users, userEmail.value)
        case None => Err(MustRegister)
        case Some(u) => Ok(u)
  }

  /** `acceptInvitation`: for the caller, still pending and not expired
      (the write of `expired` is undone with the rest when the exception
      leaves the transaction). The accepter joins the system with the
      invitation's role, receives the individual password if there is one,
      and the invitation becomes accepted and linked to the accepter. A
      second membership or password row for the same pair violates its
      unique key. */
  function AcceptInvitation(st: Store, id: Id, userId: Option<Id>, userEmail: Option<string>, now: int,
                            policy: KeyPolicy): (r: Result<Store>)
    ensures id !in st.invitations ==> r == Err(InvitationNotFound)
    ensures id in st.invitations && !ForCaller(st.invitations[id], userId, userEmail) ==> r == Err(NotForYou)
    ensures (id in st.invitations && ForCaller(st.invitations[id], userId, userEmail)
             && st.invitations[id].status != Pending) ==> r == Err(AlreadyProcessed)
    ensures (id in st.invitations && ForCaller(st.invitations[id], userId, userEmail)
             && st.invitations[id].status == Pending && IsExpired(st.invitations[id], now)) ==> r == Err(HasExpired)
    ensures r.Ok? ==> id in st.invitations && Accepter(st, userId, userEmail).Ok?
    ensures r.Ok? ==>
      var inv := st.invitations[id];
      var u := Accepter(st, userId, userEmail).value;
      && inv.status == Pending && !IsExpired(inv, now)
      && !IsMember(st, inv.systemId, u)
      && r.value.members == st.members[(inv.systemId, u) := inv.role]
      && r.value.passwords == (if inv.accessType == AccessIndividual && inv.passwordHash.Some?
                               then st.passwords[(inv.systemId, u) := inv.passwordHash]
                               else st.passwords)
      && r.value.invitations == st.invitations[id := inv.(status := Accepted, acceptedAt := Some(now),
                                                           inviteeId := Some(u))]
      && r.value == st.(members := r.value.members, passwords := r.value.passwords,
                        invitations := r.value.invitations)
    ensures r.Ok? && KeyUnique(st.invitations, policy) ==> KeyUnique(r.value.invitations, policy)
    ensures r.Ok? <==> id in st.invitations && AcceptAllowed(st, id, userId, userEmail, now, policy)
  {
    if id !in st.invitations then Err(InvitationNotFound)
    else
      var inv := st.invitations[id];
      if !ForCaller(inv, userId, userEmail) then Err(NotForYou)
      else if inv.status != Pending then Err(AlreadyProcessed)
      else if IsExpired(inv, now) then Err(HasExpired)
      else
        var u :- Accepter(st, userId, userEmail);
        ClashesAsSibling(st.invitations, id, inv.(status := Accepted, acceptedAt := Some(now), inviteeId := Some(u)), policy);
        if IsMember(st, inv.systemId, u) then Err(UniqueViolation)
        else
          var members := st.members[(inv.systemId, u) := inv.role];
          var copies := inv.accessType == AccessIndividual && inv.passwordHash.Some?;
          if copies && (inv.systemId, u) in st.passwords then Err(UniqueViolation)
          else
            var passwords := if copies then st.passwords[(inv.systemId, u) := inv.passwordHash] else st.passwords;
            var invs :- Save(st.invitations, id, inv.(status := Accepted, acceptedAt := Some(now),
                                                      inviteeId := Some(u)), policy);
            Ok(st.(members := members, passwords := passwords, invitations := invs))
  }

  /** Everything acceptance needs of the invitation `id`: the caller's
      identity, a pending and unexpired invitation, an accepting account
      that is not yet a member and has no password row to collide with,
      and, when the key covers every status, no other accepted invitation
      of the system under the same e-mail. */
  predicate AcceptAllowed(st: Store, id: Id, userId: Option<Id>, userEmail: Option<string>, now: int, policy: KeyPolicy)
    requires id in st.invitations
  {
    var inv := st.invitations[id];
    && ForCaller(inv, userId, userEmail) && inv.status == Pending && !IsExpired(inv, now)
    && Accepter(st, userId, userEmail).Ok?
    && var u := Accepter(st, userId, userEmail).value;
       && !IsMember(st, inv.systemId, u)
       && !(inv.accessType == AccessIndividual && inv.passwordHash.Some? && (inv.systemId, u) in st.passwords)
       && (policy == PendingOnly || !Sibling(st.invitations, id, inv.systemId, inv.inviteeEmail, Accepted))
  }

  /** Accepting adds exactly one membership to the system. */
  lemma AcceptAddsOneMember(st: Store, id: Id, userId: Option<Id>, userEmail: Option<string>, now: int,
                            policy: KeyPolicy)
    requires AcceptInvitation(st, id, userId, userEmail, now, policy).Ok?
    ensures var s := st.invitations[id].systemId;
      MemberCount(AcceptInvitation(st, id, userId, userEmail, now, policy).value, s) == MemberCount(st, s) + 1
  {
    var st2 := AcceptInvitation(st, id, userId, userEmail, now, policy).value;
    var inv := st.invitations[id];
    var u := Accepter(st, userId, userEmail).value;
    var a := set k | k in st.members && k.0 == inv.systemId;
    var b := set k | k in st2.members && k.0 == inv.systemId;
    assert b == a + {(inv.systemId, u)};
  }

  /** `rejectInvitation`: for the caller and still pending; expiry is not
      checked. */
  function RejectInvitation(st: Store, id: Id, userId: Option<Id>, userEmail: Option<string>, now: int,
                            policy: KeyPolicy): (r: Result<Store>)
    ensures r.Ok? ==> (id in st.invitations && ForCaller(st.invitations[id], userId, userEmail)
                       && st.invitations[id].status == Pending)
    ensures (id in st.invitations && ForCaller(st.invitations[id], userId, userEmail)
             && st.invitations[id].status != Pending) ==> r == Err(AlreadyProcessed)
    ensures r.Ok? ==> r.value == st.(invitations := st.invitations[id :=
      st.invitations[id].(status := Rejected, rejectedAt := Some(now))])
    ensures r.Ok? && KeyUnique(st.invitations, policy) ==> KeyUnique(r.value.invitations, policy)
    ensures id !in st.invitations ==> r == Err(InvitationNotFound)
    ensures id in st.invitations && !ForCaller(st.invitations[id], userId, userEmail) ==> r == Err(NotForYou)
    ensures r.Ok? <==>
      && id in st.invitations && ForCaller(st.invitations[id], userId, userEmail)
      && st.invitations[id].status == Pending
      && (policy == PendingOnly
          || !Sibling(st.invitations, id, st.invitations[id].systemId, st.invitations[id].inviteeEmail, Rejected))
  {
    if id !in st.invitations then Err(InvitationNotFound)
    else
      var inv := st.invitations[id];
      ClashesAsSibling(st.invitations, id, inv.(status := Rejected, rejectedAt := Some(now)), policy);
      if !ForCaller(inv, userId, userEmail) then Err(NotForYou)
      else if inv.status != Pending then Err(AlreadyProcessed)
      else
        var invs :- Save(st.invitations, id, inv.(status := Rejected, rejectedAt := Some(now)), policy);
        Ok(st.(invitations := invs))
  }

  /** A caller that gives its id passes the identity check of an
      invitation not linked to any account, whoever it is. */
  lemma UnlinkedInvitationOpenToAnyId(inv: Invitation, userId: Id, userEmail: Option<string>)
    requires inv.inviteeId.None?
    ensures ForCaller(inv, Some(userId), userEmail)
  {
  }

  // ---------------------------------------------------------------------
  // Cancelling, re-sending and expiring
  // ---------------------------------------------------------------------

  /** `cancelInvitation`: only the inviter, and only while pending. */
  function CancelInvitation(st: Store, id: Id, inviterId: Id, policy: KeyPolicy): (r: Result<Store>)
    ensures id !in st.invitations ==> r == Err(InvitationNotFound)
    ensures id in st.invitations && st.invitations[id].inviterId != inviterId ==> r == Err(NotInviter)
    ensures (id in st.invitations && st.invitations[id].inviterId == inviterId
             && st.invitations[id].status != Pending) ==> r == Err(NotPending)
    ensures r.Ok? <==>
      && id in st.invitations && st.invitations[id].inviterId == inviterId
      && st.invitations[id].status == Pending
      && (policy == PendingOnly
          || !Sibling(st.invitations, id, st.invitations[id].systemId, st.invitations[id].inviteeEmail, Cancelled))
    ensures r.Ok? ==> r.value == st.(invitations := st.invitations[id := st.invitations[id].(status := Cancelled)])
    ensures r.Ok? && KeyUnique(st.invitations, policy) ==> KeyUnique(r.value.invitations, policy)
  {
    if id !in st.invitations then Err(InvitationNotFound)
    else
      var inv := st.invitations[id];
      if inv.inviterId != inviterId then Err(NotInviter)
      else if inv.status != Pending then Err(NotPending)
      else
        ClashesAsSibling(st.invitations, id, inv.(status := Cancelled), policy);
        var invs :- Save(st.invitations, id, inv.(status := Cancelled), policy);
        Ok(st.(invitations := invs))
  }

  /** The request `resendInvitation` builds from the original. */
  function ResendRequest(inv: Invitation): InvitationRequest {
    InvitationRequest(inv.systemId, Some(inv.inviteeEmail), Some(RoleName(inv.role)),
                      Some(AccessName(inv.accessType)), None, Some(30))
  }

  /** `resendInvitation`: only the inviter; the original is marked
      cancelled whatever its status, then a new invitation with the same
      system, e-mail, role and access type and a 30-day expiry is created
      through every check of `createInvitation`. The individual password is
      not carried over. The save of the cancelled original is an update of
      a loaded row, written when the session flushes, which is first at the
      query for pending invitations; the checks before that query read no
      invitation, so their failures come first and nothing is written. */
  function ResendInvitation(st: Store, id: Id, inviterId: Id, now: int, enc: Encoder, policy: KeyPolicy)
    : (r: Result<(Store, Id)>)
    ensures id !in st.invitations ==> r == Err(InvitationNotFound)
    ensures id in st.invitations && st.invitations[id].inviterId != inviterId ==> r == Err(NotInviter)
    ensures r.Ok? ==> id in st.invitations && id in r.value.0.invitations && r.value.1 in r.value.0.invitations
    ensures r.Ok? ==>
      var inv := st.invitations[id];
      var (st2, id2) := r.value;
      && id2 != id && id2 !in st.invitations
      && st2.invitations[id].status == Cancelled
      && st2.invitations[id2].status == Pending
      && st2.invitations[id2].systemId == inv.systemId
      && st2.invitations[id2].inviteeEmail == Lower(inv.inviteeEmail)
      && st2.invitations[id2].role == inv.role && st2.invitations[id2].accessType == inv.accessType
      && st2.invitations[id2].passwordHash.None?
      && st2.invitations[id2].expiresAt == Some(now + 30 * SecondsPerDay)
    ensures id in st.invitations && st.invitations[id].inviterId == inviterId
            && ChecksBeforeFlush(st, ResendRequest(st.invitations[id]), inviterId).Fail? ==>
            r == Err(CreateChecks(st, ResendRequest(st.invitations[id]), inviterId).error)
  {
    if id !in st.invitations then Err(InvitationNotFound)
    else
      var inv := st.invitations[id];
      if inv.inviterId != inviterId then Err(NotInviter)
      else
        var req := ResendRequest(inv);
        match ChecksBeforeFlush(st, req, inviterId)
        case Fail(e) => Err(e)
        case Pass =>
          var invs :- Save(st.invitations, id, inv.(status := Cancelled), policy);
          var st1 := st.(invitations := invs);
          ParseRoleRoundTrip(inv.role);
          ParseAccessRoundTrip(inv.accessType);
          CreateInvitation(st1, req, inviterId, now, enc, policy)
  }

  /** Re-sending an invitation of a system that no longer exists reports
      the missing system, even when the cancelled original would clash
      with an earlier cancelled invitation under the key as written. */
  lemma ResendOfOrphanNotFound(st: Store, id: Id, inviterId: Id, now: int, enc: Encoder, policy: KeyPolicy)
    requires id in st.invitations && st.invitations[id].inviterId == inviterId
    requires st.invitations[id].systemId !in st.systems
    ensures ResendInvitation(st, id, inviterId, now, enc, policy) == Err(SystemNotFound)
  {
  }

  /** A re-send succeeds exactly when the inviter asks, the cancelled
      original can be written, and a fresh invitation to the same e-mail
      passes every creation check with the original out of the way: the
      inviter still owns the system, is not the invitee, the invitee is not
      a member, the system has room, and no other pending invitation of
      the system is stored under the e-mail or its lower-cased form. */
  lemma ResendSucceeds(st: Store, id: Id, inviterId: Id, now: int, enc: Encoder, policy: KeyPolicy)
    requires id in st.invitations
    ensures var inv := st.invitations[id];
      ResendInvitation(st, id, inviterId, now, enc, policy).Ok? <==>
        && inv.inviterId == inviterId
        && (policy == PendingOnly || !Sibling(st.invitations, id, inv.systemId, inv.inviteeEmail, Cancelled))
        && inv.systemId in st.systems && st.systems[inv.systemId].ownerId == inviterId
        && inviterId in st.users
        && !EqualsIgnoreCase(st.users[inviterId].email, inv.inviteeEmail)
        && !(FindUserByEmail(st.users, inv.inviteeEmail).Some?
             && IsMember(st, inv.systemId, FindUserByEmail(st.users, inv.inviteeEmail).value))
        && MemberCount(st, inv.systemId) < MaxMembers
        && !Sibling(st.invitations, id, inv.systemId, inv.inviteeEmail, Pending)
        && !Sibling(st.invitations, id, inv.systemId, Lower(inv.inviteeEmail), Pending)
  {
    var inv := st.invitations[id];
    var cancelled := inv.(status := Cancelled);
    ClashesAsSibling(st.invitations, id, cancelled, policy);
    var st1 := st.(invitations := st.invitations[id := cancelled]);
    PendingAfterLeaving(st, id, cancelled, inv.systemId, inv.inviteeEmail);
    PendingAfterLeaving(st, id, cancelled, inv.systemId, Lower(inv.inviteeEmail));
    ParseRoleRoundTrip(inv.role);
    ParseAccessRoundTrip(inv.accessType);
  }

  /** Once invitation `id` leaves the pending state, the pending ones of a
      system under an e-mail are its pending siblings. */
  lemma PendingAfterLeaving(st: Store, id: Id, inv: Invitation, systemId: Id, email: string)
    requires id in st.invitations && inv.status != Pending
    ensures PendingFor(st.(invitations := st.invitations[id := inv]), systemId, email) <==>
      Sibling(st.invitations, id, systemId, email, Pending)
  {
    var st1 := st.(invitations := st.invitations[id := inv]);
    if PendingFor(st1, systemId, email) {
      var j :| j in st1.invitations && st1.invitations[j].systemId == systemId
        && st1.invitations[j].inviteeEmail == email && st1.invitations[j].status == Pending;
      assert j != id;
    }
    if Sibling(st.invitations, id, systemId, email, Pending) {
      var j :| j in st.invitations && j != id && st.invitations[j].systemId == systemId
        && st.invitations[j].inviteeEmail == email && st.invitations[j].status == Pending;
      assert st1.invitations[j] == st.invitations[j];
    }
  }

  /** The invitations the sweep turns into expired ones
      (`findExpiredInvitations`): pending, with an expiry before `now`. */
  function Overdue(invs: map<Id, Invitation>, now: int): set<Id> {
    set j | j in invs && invs[j].status == Pending && IsExpired(invs[j], now)
  }

  /** Marks `ids` expired one after the other; one rejected write fails
      the whole sweep. */
  function ExpireEach(invs: map<Id, Invitation>, ids: seq<Id>, policy: KeyPolicy)
    : (r: Result<map<Id, Invitation>>)
    requires forall i :: 0 <= i < |ids| ==> ids[i] in invs
    ensures r.Ok? ==> r.value.Keys == invs.Keys
    ensures r.Ok? ==> forall j :: j in invs && j !in ids ==> r.value[j] == invs[j]
    ensures r.Ok? ==> forall j :: j in ids ==> r.value[j] == invs[j].(status := Expired)
    ensures r.Ok? && KeyUnique(invs, policy) ==> KeyUnique(r.value, policy)
    decreases |ids|
  {
    if ids == [] then Ok(invs)
    else
      var j := ids[0];
      var invs1 :- Save(invs, j, invs[j].(status := Expired), policy);
      assert forall i :: 0 <= i < |ids[1..]| ==> ids[1..][i] in invs1;
      var r := ExpireEach(invs1, ids[1..], policy);
      if r.Err? then r
      else
        ExpireStep(invs, ids, invs1, r.value);
        r
  }

  /** Expiring the first id, then the rest, expires them all and nothing
      else. */
  lemma ExpireStep(invs: map<Id, Invitation>, ids: seq<Id>, invs1: map<Id, Invitation>, r: map<Id, Invitation>)
    requires ids != [] && forall i :: 0 <= i < |ids| ==> ids[i] in invs
    requires invs1 == invs[ids[0] := invs[ids[0]].(status := Expired)]
    requires r.Keys == invs1.Keys
    requires forall j :: j in invs1 && j !in ids[1..] ==> r[j] == invs1[j]
    requires forall j :: j in ids[1..] ==> r[j] == invs1[j].(status := Expired)
    ensures r.Keys == invs.Keys
    ensures forall j :: j in invs && j !in ids ==> r[j] == invs[j]
    ensures forall j :: j in ids ==> r[j] == invs[j].(status := Expired)
  {
    assert forall x :: x in ids ==> x == ids[0] || x in ids[1..];
  }

  /** `expireOldInvitations`: exactly the overdue pending invitations become
      expired, in id order; the others are untouched. */
  function ExpireOldInvitations(st: Store, now: int, policy: KeyPolicy): (r: Result<Store>)
    ensures r.Ok? ==> r.value == st.(invitations := r.value.invitations)
    ensures r.Ok? ==> r.value.invitations.Keys == st.invitations.Keys
    ensures r.Ok? ==> forall j :: j in st.invitations ==>
      r.value.invitations[j] == if j in Overdue(st.invitations, now)
                                then st.invitations[j].(status := Expired)
                                else st.invitations[j]
    ensures r.Ok? && KeyUnique(st.invitations, policy) ==> KeyUnique(r.value.invitations, policy)
  {
    var ids := SortedKeys(Overdue(st.invitations, now));
    assert forall i :: 0 <= i < |ids| ==> ids[i] in st.invitations by {
      forall i | 0 <= i < |ids|
        ensures ids[i] in st.invitations
      {
        assert ids[i] in ids;
      }
    }
    var invs :- ExpireEach(st.invitations, ids, policy);
    Ok(st.(invitations := invs))
  }

  /** Under the key as written, expiring pending invitations that are
      pairwise distinct in key succeeds exactly when none of them already
      has an expired sibling: expiring one never makes a later one clash. */
  lemma {:induction false} ExpireEachSucceeds(invs: map<Id, Invitation>, ids: seq<Id>)
    requires forall i :: 0 <= i < |ids| ==> ids[i] in invs && invs[ids[i]].status == Pending
    requires NoDuplicates(ids)
    requires KeyUnique(invs, AllStatuses)
    ensures ExpireEach(invs, ids, AllStatuses).Ok? <==>
      forall i :: 0 <= i < |ids| ==>
        !Sibling(invs, ids[i], invs[ids[i]].systemId, invs[ids[i]].inviteeEmail, Expired)
    decreases |ids|
  {
    if ids != [] {
      var j := ids[0];
      var inv := invs[j].(status := Expired);
      ClashesAsSibling(invs, j, inv, AllStatuses);
      if !Sibling(invs, j, inv.systemId, inv.inviteeEmail, Expired) {
        var invs1 := invs[j := inv];
        var rest := ids[1..];
        forall i | 0 <= i < |rest|
          ensures rest[i] in invs1 && invs1[rest[i]].status == Pending
          ensures rest[i] != j
        {
          assert rest[i] == ids[i + 1];
        }
        assert NoDuplicates(rest) by {
          forall a, b | 0 <= a < b < |rest|
            ensures rest[a] != rest[b]
          {
            assert rest[a] == ids[a + 1] && rest[b] == ids[b + 1];
          }
        }
        ExpireEachSucceeds(invs1, rest);
        forall i | 0 <= i < |rest|
          ensures Sibling(invs1, rest[i], invs1[rest[i]].systemId, invs1[rest[i]].inviteeEmail, Expired)
              <==> Sibling(invs, rest[i], invs[rest[i]].systemId, invs[rest[i]].inviteeEmail, Expired)
        {
          SiblingAfterExpiry(invs, j, rest[i]);
        }
        assert forall i :: 0 <= i < |ids| && i > 0 ==> ids[i] == rest[i - 1];
      }
    }
  }

  /** Expiring one pending invitation gives another pending one no new
      expired sibling while no two pending ones share a key. */
  lemma SiblingAfterExpiry(invs: map<Id, Invitation>, j: Id, k: Id)
    requires j in invs && k in invs && j != k
    requires invs[j].status == Pending && invs[k].status == Pending
    requires KeyUnique(invs, AllStatuses)
    ensures var invs1 := invs[j := invs[j].(status := Expired)];
      Sibling(invs1, k, invs[k].systemId, invs[k].inviteeEmail, Expired)
      <==> Sibling(invs, k, invs[k].systemId, invs[k].inviteeEmail, Expired)
  {
    var invs1 := invs[j := invs[j].(status := Expired)];
    if Sibling(invs1, k, invs[k].systemId, invs[k].inviteeEmail, Expired) {
      var w :| w in invs1 && w != k && invs1[w].systemId == invs[k].systemId
        && invs1[w].inviteeEmail == invs[k].inviteeEmail && invs1[w].status == Expired;
      if w == j {
        assert SameKey(invs[j], invs[k], AllStatuses);
        assert false;
      }
      assert invs[w] == invs1[w];
    }
    if Sibling(invs, k, invs[k].systemId, invs[k].inviteeEmail, Expired) {
      var w :| w in invs && w != k && invs[w].systemId == invs[k].systemId
        && invs[w].inviteeEmail == invs[k].inviteeEmail && invs[w].status == Expired;
      assert w != j && invs1[w] == invs[w];
    }
  }

  /** Under the key as written, on a store whose keys are unique, the sweep
      succeeds exactly when no overdue invitation already has an expired
      sibling for its system and e-mail. */
  lemma ExpireOldInvitationsSucceeds(st: Store, now: int)
    requires KeyUnique(st.invitations, AllStatuses)
    ensures ExpireOldInvitations(st, now, AllStatuses).Ok? <==>
      forall j :: j in Overdue(st.invitations, now) ==>
        !Sibling(st.invitations, j, st.invitations[j].systemId, st.invitations[j].inviteeEmail, Expired)
  {
    var over := Overdue(st.invitations, now);
    var ids := SortedKeys(over);
    forall i | 0 <= i < |ids|
      ensures ids[i] in st.invitations && st.invitations[ids[i]].status == Pending
    {
      assert ids[i] in over;
    }
    IncreasingNoDuplicates(ids);
    ExpireEachSucceeds(st.invitations, ids);
    assert ExpireOldInvitations(st, now, AllStatuses).Ok? <==> ExpireEach(st.invitations, ids, AllStatuses).Ok?;
    forall j | j in over
      ensures exists i :: 0 <= i < |ids| && ids[i] == j
    {
      assert j in ids;
    }
  }

  /** With the key limited to pending rows the sweep always succeeds. */
  lemma {:induction false} ExpireNeverFailsPendingOnly(invs: map<Id, Invitation>, ids: seq<Id>)
    requires forall i :: 0 <= i < |ids| ==> ids[i] in invs
    ensures ExpireEach(invs, ids, PendingOnly).Ok?
    decreases |ids|
  {
    if ids != [] {
      var j := ids[0];
      LeavingPendingNeverClashes(invs, j, invs[j].(status := Expired));
      var invs1 := invs[j := invs[j].(status := Expired)];
      assert forall i :: 0 <= i < |ids[1..]| ==> ids[1..][i] in invs1;
      ExpireNeverFailsPendingOnly(invs1, ids[1..]);
    }
  }

  // ---------------------------------------------------------------------
  // Managing the invited members
  // ---------------------------------------------------------------------

  /** `SystemUser.Role.valueOf` with the exception turned into "invalid
      role": here an unknown name is refused instead of read as `viewer`. */
  function StrictRole(name: Option<string>): (r: Result<MemberRole>)
    ensures r.Ok? <==> name.Some? && name.value in {"admin", "editor", "viewer"}
    ensures r.Ok? ==> RoleName(r.value) == name.value
    ensures name.None? ==> r == Err(NullValue)
    ensures name.Some? && r.Err? ==> r.error == InvalidRole
  {
    match name
    case None => Err(NullValue)
    case Some(n) =>
      if n == "admin" then Ok(Admin)
      else if n == "editor" then Ok(Editor)
      else if n == "viewer" then Ok(Viewer)
      else Err(InvalidRole)
  }

  /** The owner's checks shared by the two member operations: the system
      exists, the requester owns it and the user holds a membership. */
  function MemberChecks(st: Store, systemId: Id, userId: Id, requesterId: Id): (r: Outcome)
    ensures r.Pass? <==> systemId in st.systems && st.systems[systemId].ownerId == requesterId
                         && IsMember(st, systemId, userId)
    ensures systemId !in st.systems ==> r == Fail(SystemNotFound)
  {
    if systemId !in st.systems then Fail(SystemNotFound)
    else if st.systems[systemId].ownerId != requesterId then Fail(PermissionDenied)
    else if !IsMember(st, systemId, userId) then Fail(UserNotFound)
    else Pass
  }

  /** `updateInvitedUserRole`: the owner gives a member a new role. */
  function UpdateInvitedUserRole(st: Store, systemId: Id, userId: Id, newRole: Option<string>, requesterId: Id)
    : (r: Result<Store>)
    ensures r.Ok? <==> MemberChecks(st, systemId, userId, requesterId).Pass? && StrictRole(newRole).Ok?
    ensures r.Ok? ==> r.value == st.(members := st.members[(systemId, userId) := StrictRole(newRole).value])
  {
    match MemberChecks(st, systemId, userId, requesterId)
    case Fail(e) => Err(e)
    case Pass =>
      var role :- StrictRole(newRole);
      Ok(st.(members := st.members[(systemId, userId) := role]))
  }

  /** `removeInvitedUser`: the owner removes a member together with the
      member's system password, if any. */
  function RemoveInvitedUser(st: Store, systemId: Id, userId: Id, requesterId: Id): (r: Result<Store>)
    ensures r.Ok? <==> MemberChecks(st, systemId, userId, requesterId).Pass?
    ensures r.Ok? ==> !IsMember(r.value, systemId, userId) && (systemId, userId) !in r.value.passwords
    ensures r.Ok? ==> r.value == st.(members := st.members - {(systemId, userId)},
                                     passwords := st.passwords - {(systemId, userId)})
  {
    match MemberChecks(st, systemId, userId, requesterId)
    case Fail(e) => Err(e)
    case Pass =>
      Ok(st.(members := st.members - {(systemId, userId)}, passwords := st.passwords - {(systemId, userId)}))
  }

  /** Removing the member an accepted invitation added gives back the
      memberships of before, and the passwords too when the member had
      none for that system before. */
  lemma RemoveUndoesAccept(st: Store, id: Id, userId: Option<Id>, userEmail: Option<string>, now: int,
                           policy: KeyPolicy)
    requires AcceptInvitation(st, id, userId, userEmail, now, policy).Ok?
    requires st.invitations[id].systemId in st.systems
    ensures var inv := st.invitations[id];
      var u := Accepter(st, userId, userEmail).value;
      var st1 := AcceptInvitation(st, id, userId, userEmail, now, policy).value;
      var st2 := RemoveInvitedUser(st1, inv.systemId, u, st.systems[inv.systemId].ownerId);
      && st2.Ok? && st2.value.members == st.members
        && ((inv.systemId, u) !in st.passwords ==> st2.value.passwords == st.passwords)
  {
    var inv := st.invitations[id];
    var u := Accepter(st, userId, userEmail).value;
    var st1 := AcceptInvitation(st, id, userId, userEmail, now, policy).value;
    RemoveUndoesAdd(st, st1, inv.systemId, u, inv.role, inv.passwordHash);
  }

  /** Removing a membership that was just added, together with any password
      added for it, restores what was there before. */
  lemma RemoveUndoesAdd(st: Store, st1: Store, systemId: Id, u: Id, role: MemberRole, hash: Option<string>)
    requires systemId in st.systems && st1.systems == st.systems
    requires (systemId, u) !in st.members && st1.members == st.members[(systemId, u) := role]
    requires st1.passwords == st.passwords || st1.passwords == st.passwords[(systemId, u) := hash]
    ensures var r := RemoveInvitedUser(st1, systemId, u, st.systems[systemId].ownerId);
      && r.Ok? && r.value.members == st.members
      && ((systemId, u) !in st.passwords ==> r.value.passwords == st.passwords)
  {
    var key := (systemId, u);
    assert MemberChecks(st1, systemId, u, st.systems[systemId].ownerId).Pass?;
    var r := RemoveInvitedUser(st1, systemId, u, st.systems[systemId].ownerId);
    assert r.value.members == st1.members - {key};
    assert r.value.passwords == st1.passwords - {key};
    assert st1.members - {key} == st.members;
    if key !in st.passwords {
      assert st1.passwords - {key} == st.passwords;
    }
  }

  // ---------------------------------------------------------------------
  // The unique key as written
  // ---------------------------------------------------------------------

  /** A system, its owner and an invitee, with one invitation to the
      invitee already cancelled (#1) and a second one pending (#2). */
  function TwoInvitations(): Store {
    var cancelled := Invitation(1, 1, "bo@x", None, Viewer, AccessNone, None, Cancelled, Some(100), None, None);
    Store(map[1 := User("Ana", "ana@x", "h", Some(1), None)], map[],
          map[1 := SystemRow(1, Some("S"), None, None, ModeNone, None)],
          map[], map[], map[], map[], map[], map[], map[], map[],
          map[1 := cancelled, 2 := cancelled.(status := Pending)])
  }

  /** As written, the key compares every status, so an invitee whose first
      invitation was cancelled can never have a second one cancelled (nor
      re-sent, which cancels it): the write is refused. With the key on
      pending rows only, the same cancel goes through. */
  lemma SecondCancelRejectedAsWritten()
    ensures KeyUnique(TwoInvitations().invitations, AllStatuses)
    ensures CancelInvitation(TwoInvitations(), 2, 1, AllStatuses) == Err(UniqueViolation)
    ensures CancelInvitation(TwoInvitations(), 2, 1, PendingOnly).Ok?
  {
    TwoInvitationsUnique();
    SecondCancelClashes();
    CancelAlwaysPossiblePendingOnly(TwoInvitations(), 2, 1);
  }

  /** The two invitations differ in status, so the key as written admits
      both. */
  lemma TwoInvitationsUnique()
    ensures KeyUnique(TwoInvitations().invitations, AllStatuses)
  {
    var invs := TwoInvitations().invitations;
    assert invs.Keys == {1, 2};
  }

  /** Cancelling #2 would give it the key of the cancelled #1. */
  lemma SecondCancelClashes()
    ensures CancelInvitation(TwoInvitations(), 2, 1, AllStatuses) == Err(UniqueViolation)
  {
    var st := TwoInvitations();
    assert SameKey(st.invitations[1], st.invitations[2].(status := Cancelled), AllStatuses);
  }

  /** With the key on pending rows only, the inviter can always cancel a
      pending invitation, and re-sending never fails on the original. */
  lemma CancelAlwaysPossiblePendingOnly(st: Store, id: Id, inviterId: Id)
    requires id in st.invitations && st.invitations[id].inviterId == inviterId
    requires st.invitations[id].status == Pending
    ensures CancelInvitation(st, id, inviterId, PendingOnly).Ok?
  {
    LeavingPendingNeverClashes(st.invitations, id, st.invitations[id].(status := Cancelled));
  }

  // ---------------------------------------------------------------------
  // Responses, lists and the summary
  // ---------------------------------------------------------------------

  /** The action flags of `convertToResponse`. */
  datatype Flags = Flags(isExpired: bool, canAccept: bool, canReject: bool, canCancel: bool, canResend: bool)

  /** The flags shown for an invitation at time `now`. */
  function FlagsOf(inv: Invitation, now: int): (f: Flags)
    ensures f.canAccept <==> inv.status == Pending && !IsExpired(inv, now)
    ensures f.canReject <==> inv.status == Pending
    ensures f.canCancel <==> inv.status == Pending
    ensures f.canResend <==> inv.status in {Rejected, Expired, Cancelled}
  {
    var expired := IsExpired(inv, now);
    Flags(expired, inv.status == Pending && !expired, inv.status == Pending, inv.status == Pending,
          inv.status != Pending && inv.status != Accepted)
  }

  /** The accept flag tells the truth: for a caller who passes the
      identity check, accept stops at the status or expiry check exactly
      when `canAccept` is off. */
  lemma AcceptFlagMatches(st: Store, id: Id, userId: Option<Id>, userEmail: Option<string>, now: int,
                          policy: KeyPolicy)
    requires id in st.invitations && ForCaller(st.invitations[id], userId, userEmail)
    ensures !FlagsOf(st.invitations[id], now).canAccept
      <==> AcceptInvitation(st, id, userId, userEmail, now, policy) in {Err(AlreadyProcessed), Err(HasExpired)}
  {
    var inv := st.invitations[id];
    var r := AcceptInvitation(st, id, userId, userEmail, now, policy);
    if inv.status == Pending && !IsExpired(inv, now) {
      var a := Accepter(st, userId, userEmail);
      if a.Err? {
        assert r == Err(a.error);
      } else if IsMember(st, inv.systemId, a.value) {
        assert r == Err(UniqueViolation);
      } else {
        assert r.Ok? || r == Err(UniqueViolation);
      }
    }
  }

  /** The reject flag tells the truth: for a caller who passes the
      identity check, reject stops at the status check exactly when
      `canReject` is off. */
  lemma RejectFlagMatches(st: Store, id: Id, userId: Option<Id>, userEmail: Option<string>, now: int,
                          policy: KeyPolicy)
    requires id in st.invitations && ForCaller(st.invitations[id], userId, userEmail)
    ensures !FlagsOf(st.invitations[id], now).canReject
      <==> RejectInvitation(st, id, userId, userEmail, now, policy) == Err(AlreadyProcessed)
  {
    var inv := st.invitations[id];
    if inv.status == Pending {
      var r := RejectInvitation(st, id, userId, userEmail, now, policy);
      assert r.Ok? || r == Err(UniqueViolation);
    }
  }

  /** The cancel flag tells the truth: the inviter's cancel stops at the
      status check exactly when `canCancel` is off. */
  lemma CancelFlagMatches(st: Store, id: Id, inviterId: Id, now: int, policy: KeyPolicy)
    requires id in st.invitations && st.invitations[id].inviterId == inviterId
    ensures !FlagsOf(st.invitations[id], now).canCancel
      <==> CancelInvitation(st, id, inviterId, policy) == Err(NotPending)
  {
    var inv := st.invitations[id];
    if inv.status == Pending {
      var r := CancelInvitation(st, id, inviterId, policy);
      assert r.Ok? || r == Err(UniqueViolation);
    }
  }

  /** `getReceivedInvitations`: those linked to the caller's id, then those
      addressed to its lower-cased e-mail, each once. A null e-mail
      throws. */
  function ReceivedInvitations(st: Store, userEmail: Option<string>, userId: Option<Id>): (r: Result<seq<Id>>)
    ensures r.Err? <==> userEmail.None?
    ensures r.Ok? ==> NoDuplicates(r.value)
    ensures r.Ok? ==> forall j :: j in r.value <==> j in ReceivedSet(st, userEmail.value, userId)
  {
    if userEmail.None? then Err(NullValue)
    else
      var byId := if userId.Some? then SortedKeys(set j | j in st.invitations && st.invitations[j].inviteeId == userId)
                  else [];
      var byEmail := SortedKeys(set j | j in st.invitations && st.invitations[j].inviteeEmail == Lower(userEmail.value));
      Ok(AppendNew(AppendNew([], byId, st.invitations.Keys), byEmail, st.invitations.Keys))
  }

  /** The invitations addressed to a user by id or by lower-cased e-mail. */
  function ReceivedSet(st: Store, email: string, userId: Option<Id>): set<Id> {
    set j | j in st.invitations
      && ((userId.Some? && st.invitations[j].inviteeId == userId) || st.invitations[j].inviteeEmail == Lower(email))
  }

  /** `InvitationSummaryResponse`. */
  datatype Summary = Summary(pendingReceived: nat, pendingSent: nat, accepted: nat, rejected: nat,
                             expired: nat, total: nat)

  /** The invitations a user sent with a given status. */
  function SentWith(st: Store, userId: Id, s: Status): set<Id> {
    set j | j in st.invitations && st.invitations[j].inviterId == userId && st.invitations[j].status == s
  }

  /** The invitations a user sent. */
  function Sent(st: Store, userId: Id): set<Id> {
    set j | j in st.invitations && st.invitations[j].inviterId == userId
  }

  /** `getSummary`: nothing without an e-mail; the pending invitations
      received by e-mail or id, each counted once; and the sent ones by
      status, when the id is known. */
  function GetSummary(st: Store, userId: Option<Id>, userEmail: Option<string>): (s: Summary)
    ensures userEmail.None? || userEmail.value == [] ==> s == Summary(0, 0, 0, 0, 0, 0)
    ensures userId.None? ==> s.pendingSent == 0 && s.total == 0
    ensures userEmail.Some? && userEmail.value != [] && userId.Some? ==>
      && s.pendingSent == |SentWith(st, userId.value, Pending)|
      && s.accepted == |SentWith(st, userId.value, Accepted)|
      && s.rejected == |SentWith(st, userId.value, Rejected)|
      && s.expired == |SentWith(st, userId.value, Expired)|
      && s.total == |Sent(st, userId.value)|
  {
    if userEmail.None? || userEmail.value == [] then Summary(0, 0, 0, 0, 0, 0)
    else
      var received := set j | j in ReceivedSet(st, userEmail.value, userId) && st.invitations[j].status == Pending;
      match userId
      case None => Summary(|received|, 0, 0, 0, 0, 0)
      case Some(u) =>
        Summary(|received|, |SentWith(st, u, Pending)|, |SentWith(st, u, Accepted)|,
                |SentWith(st, u, Rejected)|, |SentWith(st, u, Expired)|, |Sent(st, u)|)
  }

  /** Cancelling a sent invitation takes it out of the inviter's pending
      count and leaves every other counter of the summary as it was. */
  lemma CancelLowersPendingSent(st: Store, id: Id, inviterId: Id, policy: KeyPolicy, email: string)
    requires email != [] && CancelInvitation(st, id, inviterId, policy).Ok?
    ensures var s1 := GetSummary(st, Some(inviterId), Some(email));
      var s2 := GetSummary(CancelInvitation(st, id, inviterId, policy).value, Some(inviterId), Some(email));
      && s2.pendingSent == s1.pendingSent - 1
      && s2.accepted == s1.accepted && s2.rejected == s1.rejected && s2.expired == s1.expired
      && s2.total == s1.total
  {
    var st2 := CancelInvitation(st, id, inviterId, policy).value;
    var invs, invs2 := st.invitations, st2.invitations;
    assert invs2 == invs[id := invs[id].(status := Cancelled)];
    StatusCountAfterCancel(invs, invs2, id, inviterId, Pending);
    StatusCountAfterCancel(invs, invs2, id, inviterId, Accepted);
    StatusCountAfterCancel(invs, invs2, id, inviterId, Rejected);
    StatusCountAfterCancel(invs, invs2, id, inviterId, Expired);
  }

  /** Moving one of a user's pending invitations to cancelled: its sent
      pending ones lose it, its sent ones with any status but cancelled
      stay as they were, and so do all its sent ones. */
  lemma StatusCountAfterCancel(invs: map<Id, Invitation>, invs2: map<Id, Invitation>, id: Id, u: Id, s: Status)
    requires id in invs && invs[id].inviterId == u && invs[id].status == Pending
    requires invs2 == invs[id := invs[id].(status := Cancelled)]
    ensures s == Pending ==>
      (set j | j in invs2 && invs2[j].inviterId == u && invs2[j].status == s)
      == (set j | j in invs && invs[j].inviterId == u && invs[j].status == s) - {id}
    ensures s != Pending && s != Cancelled ==>
      (set j | j in invs2 && invs2[j].inviterId == u && invs2[j].status == s)
      == (set j | j in invs && invs[j].inviterId == u && invs[j].status == s)
    ensures (set j | j in invs2 && invs2[j].inviterId == u) == (set j | j in invs && invs[j].inviterId == u)
  {
  }

  /** The pending count of the summary is the number of pending
      invitations in the received list; the sent counters leave out only
      the cancelled ones. */
  lemma SummaryMatchesLists(st: Store, userId: Option<Id>, email: string)
    requires email != []
    ensures var s := GetSummary(st, userId, Some(email));
      var list := ReceivedInvitations(st, Some(email), userId).value;
      && s.pendingReceived == |set j | j in list && st.invitations[j].status == Pending|
      && (userId.Some? ==>
            s.pendingSent + s.accepted + s.rejected + s.expired + |SentWith(st, userId.value, Cancelled)| == s.total)
  {
    var list := ReceivedInvitations(st, Some(email), userId).value;
    PendingOfSameIds(st.invitations, list, ReceivedSet(st, email, userId));
    if userId.Some? {
      SentPartition(st, userId.value);
    }
  }

  /** A list and a set with the same invitations hold the same pending ones. */
  lemma PendingOfSameIds(invs: map<Id, Invitation>, list: seq<Id>, ids: set<Id>)
    requires ids <= invs.Keys
    requires forall j :: j in list <==> j in ids
    ensures (set j | j in list && invs[j].status == Pending) == (set j | j in ids && invs[j].status == Pending)
  {
    var a := set j | j in list && invs[j].status == Pending;
    var b := set j | j in ids && invs[j].status == Pending;
    assert forall j :: j in a <==> j in b;
  }

  /** The five statuses split the sent invitations. */
  lemma SentPartition(st: Store, u: Id)
    ensures |SentWith(st, u, Pending)| + |SentWith(st, u, Accepted)| + |SentWith(st, u, Rejected)|
          + |SentWith(st, u, Expired)| + |SentWith(st, u, Cancelled)| == |Sent(st, u)|
  {
    var p, a, r, e, c := SentWith(st, u, Pending), SentWith(st, u, Accepted), SentWith(st, u, Rejected),
                         SentWith(st, u, Expired), SentWith(st, u, Cancelled);
    assert Sent(st, u) == p + a + r + e + c by {
      forall j | j in Sent(st, u)
        ensures j in p + a + r + e + c
      {
        match st.invitations[j].status
        case Pending => assert j in p;
        case Accepted => assert j in a;
        case Rejected => assert j in r;
        case Expired => assert j in e;
        case Cancelled => assert j in c;
      }
    }
    assert p !! a && (p + a) !! r && (p + a + r) !! e && (p + a + r + e) !! c;
  }
}
