/** The self-service account endpoints: obtaining a token, changing the
    password and updating the profile.  Password hashing and checking are
    parameters: `verify(hash, plain)` says whether `plain` matches the stored
    `hash`, and `hash(plain)` produces a new stored hash. */
module Users {
  import opened Store
  import opened Validation
  import opened Paths

  /** What a token carries about its holder. */
  datatype Credential = Credential(userId: int, username: string)

  /** The login name is an e-mail when it contains '@', a username otherwise. */
  function LookupLogin(users: seq<User>, login: string): (r: Option<User>)
    ensures r.Some? ==> r.value in users && (if '@' in login then r.value.email else r.value.username) == login
    ensures r.None? <==> forall u :: u in users ==> (if '@' in login then u.email else u.username) != login
  {
    if '@' in login then UserByEmail(users, login) else UserByUsername(users, login)
  }

  /** Token issuance.  An unknown login and a wrong password get the same
      answer; the password is checked before the activation flag. */
  function GetToken(users: seq<User>, login: string, password: string,
                    verify: (string, string) -> bool): (r: Result<Credential>)
    ensures LookupLogin(users, login).None? ==> r == Err(BadCredentials)
    ensures r.Ok? <==> var u := LookupLogin(users, login);
                       u.Some? && verify(u.value.password, password) && u.value.isActive
    ensures r.Ok? ==> exists u :: u in users && u.isActive && r.value == Credential(u.id, u.username)
                         && (if '@' in login then u.email == login else u.username == login)
    ensures r.Ok? ==> r.value == Credential(LookupLogin(users, login).value.id, LookupLogin(users, login).value.username)
    ensures r.Err? ==> r.failure == BadCredentials || r.failure == Inactive
    ensures r == Err(Inactive) ==> verify(LookupLogin(users, login).value.password, password)
  {
    match LookupLogin(users, login)
    case None => Err(BadCredentials)
    case Some(u) =>
      if !verify(u.password, password) then Err(BadCredentials)
      else if !u.isActive then Err(Inactive)
      else Ok(Credential(u.id, u.username))
  }

  /** An inactive account is refused a token even with the right password, and
      with a wrong one it is told only that the credentials are wrong. */
  lemma InactiveAccountRefused(users: seq<User>, login: string, password: string,
                               verify: (string, string) -> bool)
    requires LookupLogin(users, login).Some? && !LookupLogin(users, login).value.isActive
    ensures var u := LookupLogin(users, login).value;
            GetToken(users, login, password, verify)
              == (if verify(u.password, password) then Err(Inactive) else Err(BadCredentials))
  {
  }

  /** The same e-mail and username reach the same account when both are unique
      and the username has no '@'. */
  lemma EmailAndUsernameAgree(users: seq<User>, i: nat, password: string, verify: (string, string) -> bool)
    requires i < |users| && '@' in users[i].email && '@' !in users[i].username
    requires forall j :: 0 <= j < |users| && j != i ==>
               users[j].email != users[i].email && users[j].username != users[i].username
    ensures GetToken(users, users[i].email, password, verify) == GetToken(users, users[i].username, password, verify)
  {
    var byEmail := UserByEmail(users, users[i].email);
    var byName := UserByUsername(users, users[i].username);
    assert byEmail.value == users[i];
    assert byName.value == users[i];
  }

  datatype PasswordForm = PasswordForm(oldPassword: string, newPassword: string, confirm: string)

  /** Password change: the old password must verify, then the new password and
      its confirmation must agree; the hash of the confirmation is stored. */
  function ChangePassword(caller: Option<User>, form: PasswordForm,
                          verify: (string, string) -> bool, hash: string -> string): (r: Result<User>)
    ensures r.Ok? <==> caller.Some? && verify(caller.value.password, form.oldPassword)
                       && form.newPassword == form.confirm
    ensures r.Ok? ==> r.value == caller.value.(password := hash(form.newPassword))
    ensures caller.None? ==> r == Err(Unauthenticated)
    ensures caller.Some? && !verify(caller.value.password, form.oldPassword) ==> r == Err(WrongPassword)
    ensures caller.Some? && verify(caller.value.password, form.oldPassword) && form.newPassword != form.confirm ==>
              r == Err(ConfirmMismatch)
  {
    if caller.None? then Err(Unauthenticated)
    else if !verify(caller.value.password, form.oldPassword) then Err(WrongPassword)
    else if form.newPassword != form.confirm then Err(ConfirmMismatch)
    else Ok(caller.value.(password := hash(form.confirm)))
  }

  /** With a verifying hash, the new password is the one that verifies afterwards. */
  lemma NewPasswordVerifies(caller: User, form: PasswordForm,
                            verify: (string, string) -> bool, hash: string -> string)
    requires forall p :: verify(hash(p), p)
    requires ChangePassword(Some(caller), form, verify, hash).Ok?
    ensures verify(ChangePassword(Some(caller), form, verify, hash).value.password, form.confirm)
  {
  }

  /** `avatar` is the client's file name of an uploaded avatar, if any. */
  datatype InfoForm = InfoForm(firstName: string, lastName: string, username: string, avatar: Option<string>)

  /** Profile update: only non-empty name fields overwrite; a new avatar must
      have an image extension and is stored under the (already updated)
      username.  A rejected avatar saves nothing. */
  function UpdateInfo(caller: Option<User>, form: InfoForm, fileId: string): (r: Result<User>)
    ensures caller.None? ==> r == Err(Unauthenticated)
    ensures caller.Some? && form.avatar.Some? && !IsAllowedExtension(Ext(form.avatar.value)) ==> r == Err(BadExtension)
    ensures r.Err? && caller.Some? ==> r.failure == BadExtension && form.avatar.Some?
                                        && !IsAllowedExtension(Ext(form.avatar.value))
    ensures r.Ok? ==>
              var u := caller.value;
              && r.value.id == u.id && r.value.email == u.email && r.value.password == u.password
              && r.value.isActive == u.isActive && r.value.kind == u.kind
              && r.value.firstName == (if form.firstName != "" then form.firstName else u.firstName)
              && r.value.lastName == (if form.lastName != "" then form.lastName else u.lastName)
              && r.value.username == (if form.username != "" then form.username else u.username)
              && (form.avatar.None? ==> r.value.avatar == u.avatar)
              && (form.avatar.Some? ==>
                    r.value.avatar == Some(AvatarPath(r.value.username, fileId + Ext(form.avatar.value))))
  {
    if caller.None? then Err(Unauthenticated)
    else
      var u := caller.value;
      var named := u.(firstName := if form.firstName != "" then form.firstName else u.firstName,
                      lastName := if form.lastName != "" then form.lastName else u.lastName,
                      username := if form.username != "" then form.username else u.username);
      match form.avatar
      case None => Ok(named)
      case Some(name) =>
        if !IsAllowedExtension(Ext(name)) then Err(BadExtension)
        else Ok(named.(avatar := Some(AvatarPath(named.username, fileId + Ext(name)))))
  }

  /** Sending the same name fields again changes nothing more. */
  lemma InfoUpdateIdempotent(u: User, form: InfoForm, fileId: string)
    requires form.avatar.None?
    ensures UpdateInfo(Some(u), form, fileId).Ok?
    ensures UpdateInfo(Some(UpdateInfo(Some(u), form, fileId).value), form, fileId)
         == UpdateInfo(Some(u), form, fileId)
  {
  }

  /** An empty form changes nothing. */
  lemma EmptyInfoFormIsNoOp(u: User, fileId: string)
    ensures UpdateInfo(Some(u), InfoForm("", "", "", None), fileId) == Ok(u)
  {
  }
}
