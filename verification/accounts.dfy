/** `UserService`: the profile of an account, and the changes its owner can
    make to it (e-mail and name, password, plan, avatar). */
module Accounts {
  import opened Common
  import opened Text
  import opened Entities

  /** The plan names the service knows; any other plan id, and no plan at
      all, shows as "Desconocido". */
  function PlanName(planId: Option<Id>): (r: string)
    ensures planId == Some(1) <==> r == "Básico"
    ensures planId == Some(2) <==> r == "Pro"
    ensures planId == Some(3) <==> r == "Enterprise"
    ensures r == "Desconocido" <==> !(planId.Some? && 1 <= planId.value <= 3)
  {
    match planId
    case Some(1) => "Básico"
    case Some(2) => "Pro"
    case Some(3) => "Enterprise"
    case _ => "Desconocido"
  }

  /** `UserProfileResponse` without the creation time. */
  datatype Profile = Profile(id: Id, name: string, email: string, planId: Option<Id>, planName: string,
                             avatarUrl: Option<string>)

  /** The profile shown for an account. */
  function ProfileOf(users: map<Id, User>, userId: Id): (r: Result<Profile>)
    ensures r.Ok? <==> userId in users
    ensures r.Err? ==> r.error == UserNotFound
    ensures r.Ok? ==> (r.value.id == userId && r.value.email == users[userId].email
                       && r.value.name == users[userId].name && r.value.planId == users[userId].planId
                       && r.value.planName == PlanName(users[userId].planId)
                       && r.value.avatarUrl == users[userId].avatarUrl)
  {
    if userId !in users then Err(UserNotFound)
    else
      var u := users[userId];
      Ok(Profile(userId, u.name, u.email, u.planId, PlanName(u.planId), u.avatarUrl))
  }

  /** `getUserProfile`. */
  function GetUserProfile(st: Store, userId: Id): (r: Result<Profile>)
    ensures r.Ok? <==> userId in st.users
    ensures r.Ok? ==> r.value.id == userId && r.value.email == st.users[userId].email
  {
    ProfileOf(st.users, userId)
  }

  /** No two accounts share an e-mail. */
  predicate EmailsUnique(users: map<Id, User>) {
    forall i, j :: i in users && j in users && i != j ==> users[i].email != users[j].email
  }

  /** Some account uses `email` exactly (`existsByEmail`). */
  predicate EmailTaken(users: map<Id, User>, email: string) {
    exists j :: j in users && users[j].email == email
  }

  /** `updateProfile`: a new e-mail, different from the current one, must
      not belong to any account; a name that is blank after trimming is
      ignored, as is a missing one. */
  function UpdateProfile(st: Store, userId: Id, email: Option<string>, name: Option<string>)
    : (r: Result<(Store, Profile)>)
    ensures userId !in st.users ==> r == Err(UserNotFound)
    ensures r.Err? ==> r.error in {UserNotFound, EmailInUse}
    ensures userId in st.users ==>
      (r.Err? <==> email.Some? && email.value != st.users[userId].email && EmailTaken(st.users, email.value))
    ensures r.Ok? ==> userId in st.users && userId in r.value.0.users
    ensures r.Ok? ==>
      var u := st.users[userId];
      var u2 := r.value.0.users[userId];
      && r.value.0 == st.(users := st.users[userId := u2])
      && u2.email == (if email.Some? then email.value else u.email)
      && u2.name == (if name.Some? && Trim(name.value) != [] then name.value else u.name)
      && u2.passwordHash == u.passwordHash && u2.planId == u.planId && u2.avatarUrl == u.avatarUrl
      && Ok(r.value.1) == ProfileOf(r.value.0.users, userId)
    ensures r.Ok? && EmailsUnique(st.users) ==> EmailsUnique(r.value.0.users)
  {
    if userId !in st.users then Err(UserNotFound)
    else
      var u := st.users[userId];
      if email.Some? && email.value != u.email && EmailTaken(st.users, email.value) then Err(EmailInUse)
      else
        var u1 := if email.Some? then u.(email := email.value) else u;
        var u2 := if name.Some? && Trim(name.value) != [] then u1.(name := name.value) else u1;
        var users := st.users[userId := u2];
        assert EmailsUnique(st.users) ==> EmailsUnique(users) by {
          if EmailsUnique(st.users) {
            forall i, j | i in users && j in users && i != j
              ensures users[i].email != users[j].email
            {
              if i == userId && u2.email != u.email {
                assert !(st.users[j].email == email.value);
              } else if j == userId && u2.email != u.email {
                assert !(st.users[i].email == email.value);
              }
            }
          }
        }
        Ok((st.(users := users), ProfileOf(users, userId).value))
  }

  /** A name made only of spaces and control characters never replaces
      the current one. */
  lemma BlankNameIgnored(st: Store, userId: Id, email: Option<string>, name: string)
    requires IsBlank(name)
    requires UpdateProfile(st, userId, email, Some(name)).Ok?
    ensures UpdateProfile(st, userId, email, Some(name)).value.0.users[userId].name == st.users[userId].name
  {
    TrimEmptyIffBlank(name);
  }

  /** The shortest new password `changePassword` accepts. */
  const MinPasswordLength: nat := 6

  /** `changePassword`: the current password must match the stored hash
      (a missing one makes the encoder throw), then the new one must have
      at least six characters; the stored hash becomes the new one's. */
  function ChangePassword(st: Store, userId: Id, current: Option<string>, newPassword: Option<string>, enc: Encoder)
    : (r: Result<Store>)
    ensures r.Ok? <==> userId in st.users && current.Some? && enc.matches(current.value, st.users[userId].passwordHash)
                       && newPassword.Some? && |newPassword.value| >= MinPasswordLength
    ensures userId in st.users && current.Some? && !enc.matches(current.value, st.users[userId].passwordHash)
      ==> r == Err(WrongPassword)
    ensures (userId in st.users && current.Some? && enc.matches(current.value, st.users[userId].passwordHash)
             && (newPassword.None? || |newPassword.value| < MinPasswordLength)) ==> r == Err(PasswordTooShort)
    ensures r.Ok? ==>
      r.value == st.(users := st.users[userId := st.users[userId].(passwordHash := enc.encode(newPassword.value))])
  {
    if userId !in st.users then Err(UserNotFound)
    else
      var u := st.users[userId];
      if current.None? then Err(NullValue)
      else if !enc.matches(current.value, u.passwordHash) then Err(WrongPassword)
      else if newPassword.None? || |newPassword.value| < MinPasswordLength then Err(PasswordTooShort)
      else Ok(st.(users := st.users[userId := u.(passwordHash := enc.encode(newPassword.value))]))
  }

  /** With an encoder that recognises its own hashes, the new password is
      the current one afterwards: a further change given it succeeds
      exactly when the next password is long enough. */
  lemma ChangedPasswordIsCurrent(st: Store, userId: Id, current: string, newPassword: string, enc: Encoder,
                                 next: Option<string>)
    requires ChangePassword(st, userId, Some(current), Some(newPassword), enc).Ok?
    requires enc.matches(newPassword, enc.encode(newPassword))
    ensures var st2 := ChangePassword(st, userId, Some(current), Some(newPassword), enc).value;
      (ChangePassword(st2, userId, Some(newPassword), next, enc).Ok?
       <==> next.Some? && |next.value| >= MinPasswordLength)
  {
  }

  /** The plan ids `changePlan` accepts. */
  predicate ValidPlanId(planId: int) {
    1 <= planId <= 3
  }

  /** `changePlan`: only plans 1, 2 and 3. */
  function ChangePlan(st: Store, userId: Id, newPlanId: Option<int>): (r: Result<(Store, Profile)>)
    ensures r.Ok? <==> userId in st.users && newPlanId.Some? && ValidPlanId(newPlanId.value)
    ensures userId in st.users && !(newPlanId.Some? && ValidPlanId(newPlanId.value)) ==> r == Err(InvalidPlan)
    ensures r.Ok? ==> r.value.0 == st.(users := st.users[userId := st.users[userId].(planId := newPlanId)])
    ensures r.Ok? ==> Ok(r.value.1) == ProfileOf(r.value.0.users, userId)
  {
    if userId !in st.users then Err(UserNotFound)
    else if newPlanId.None? || !ValidPlanId(newPlanId.value) then Err(InvalidPlan)
    else
      var users := st.users[userId := st.users[userId].(planId := newPlanId)];
      Ok((st.(users := users), ProfileOf(users, userId).value))
  }

  /** After a plan change the profile always shows a known plan name. */
  lemma ChangedPlanHasName(st: Store, userId: Id, newPlanId: Option<int>)
    requires ChangePlan(st, userId, newPlanId).Ok?
    ensures ChangePlan(st, userId, newPlanId).value.1.planName != "Desconocido"
  {
  }

  /** `updateAvatar`: a missing URL leaves the avatar as it was. */
  function UpdateAvatar(st: Store, userId: Id, avatarUrl: Option<string>): (r: Result<(Store, Profile)>)
    ensures r.Ok? <==> userId in st.users
    ensures r.Ok? ==> r.value.0.users.Keys == st.users.Keys
    ensures r.Ok? ==> r.value.0 == st.(users := r.value.0.users)
    ensures r.Ok? ==> r.value.1.avatarUrl == (if avatarUrl.Some? then avatarUrl else st.users[userId].avatarUrl)
    ensures r.Ok? ==> forall j :: j in st.users && j != userId ==> r.value.0.users[j] == st.users[j]
    ensures r.Ok? ==> r.value.0.users[userId] == st.users[userId].(avatarUrl := r.value.1.avatarUrl)
  {
    if userId !in st.users then Err(UserNotFound)
    else
      var u := st.users[userId];
      var users := if avatarUrl.Some? then st.users[userId := u.(avatarUrl := avatarUrl)] else st.users;
      Ok((st.(users := users), ProfileOf(users, userId).value))
  }

  /** Setting the same avatar twice changes nothing the second time. */
  lemma UpdateAvatarIdempotent(st: Store, userId: Id, avatarUrl: Option<string>)
    requires UpdateAvatar(st, userId, avatarUrl).Ok?
    ensures var st1 := UpdateAvatar(st, userId, avatarUrl).value.0;
      UpdateAvatar(st1, userId, avatarUrl).value.0 == st1
  {
    var st1 := UpdateAvatar(st, userId, avatarUrl).value.0;
    assert avatarUrl.Some? ==> st1.users[userId := st1.users[userId].(avatarUrl := avatarUrl)] == st1.users;
  }
}
