/** Account registration and activation.  Registration stores the new, inactive
    account and records its activation code with the e-mail and an expiry one
    day ahead; activation consumes the code once.  Instants are integers in
    nanoseconds; an entry is never swept, only consumed. */
module Activation {
  import opened Store
  import opened Validation

  const Hour: int := 3_600_000_000_000
  /** How long an activation code stays valid. */
  const Window: int := 24 * Hour

  datatype Pending = Pending(email: string, expiry: int)

  type Registry = map<string, Pending>

  /** The state both endpoints read and write. */
  datatype Accounts = Accounts(users: seq<User>, pending: Registry)

  datatype Registration = Registration(
    firstName: string, lastName: string, username: string, email: string, password: string)

  datatype Outcome = Outcome(failure: Option<Failure>, next: Accounts)

  function RequiredRegistrationFields(form: Registration): (r: seq<string>)
    ensures r == [] <==> form.firstName != "" && form.lastName != "" && form.username != ""
                         && form.email != "" && form.password != ""
  {
    var fields := [("FirstName", form.firstName), ("LastName", form.lastName), ("Username", form.username),
                   ("Email", form.email), ("Password", form.password)];
    assert fields[1].1 == form.lastName && fields[2].1 == form.username;
    assert fields[3].1 == form.email && fields[4].1 == form.password;
    MissingFields(fields)
  }

  /** The unique indexes on username and e-mail. */
  predicate Taken(users: seq<User>, username: string, email: string) {
    exists i :: 0 <= i < |users| && (users[i].username == username || users[i].email == email)
  }

  /** The account a registration creates: inactive, of the default MEMBER type,
      holding the password's hash. */
  function NewAccount(form: Registration, id: int, hash: string -> string): User {
    User(id, form.firstName, form.lastName, form.username, form.email, None, hash(form.password), false, Member)
  }

  /** Registration.  `code` is the newly generated activation code, `now` the clock,
      `hash` the password hashing, `newId` the key the database assigns and
      `mailSent` whether the activation mail went out. */
  function Register(st: Accounts, form: Registration, code: string, now: int,
                    hash: string -> string, newId: int, mailSent: bool): (r: Outcome)
    ensures RequiredRegistrationFields(form) != [] || Taken(st.users, form.username, form.email) ==> r.next == st
    ensures RequiredRegistrationFields(form) == [] && !Taken(st.users, form.username, form.email) ==>
              r.next == Accounts(st.users + [NewAccount(form, newId, hash)],
                                 st.pending[code := Pending(form.email, now + Window)])
    ensures r.failure == Some(MailFailed) <==>
              RequiredRegistrationFields(form) == [] && !Taken(st.users, form.username, form.email) && !mailSent
    ensures r.failure.None? || r.failure == Some(MailFailed) <==>
              RequiredRegistrationFields(form) == [] && !Taken(st.users, form.username, form.email)
    ensures RequiredRegistrationFields(form) != [] ==> r.failure == Some(Invalid(RequiredRegistrationFields(form)))
    ensures RequiredRegistrationFields(form) == [] && Taken(st.users, form.username, form.email) ==>
              r.failure == Some(Conflict)
  {
    if RequiredRegistrationFields(form) != [] then Outcome(Some(Invalid(RequiredRegistrationFields(form))), st)
    else if Taken(st.users, form.username, form.email) then Outcome(Some(Conflict), st)
    else
      var next := Accounts(st.users + [NewAccount(form, newId, hash)],
                           st.pending[code := Pending(form.email, now + Window)]);
      assert |next.users| != |st.users|;
      Outcome(if mailSent then None else Some(MailFailed), next)
  }

  /** A code is usable while it is recorded and the clock is not past its expiry. */
  predicate Usable(pending: Registry, code: string, now: int) {
    code in pending && now <= pending[code].expiry
  }

  /** Activation: consume the code, mark the account with its e-mail active. */
  function Activate(st: Accounts, code: string, now: int): (r: Outcome)
    ensures r.failure.None? <==> Usable(st.pending, code, now) && UserByEmail(st.users, st.pending[code].email).Some?
    ensures !Usable(st.pending, code, now) ==> r.failure == Some(InvalidOrExpiredCode)
    ensures Usable(st.pending, code, now) && UserByEmail(st.users, st.pending[code].email).None? ==>
              r.failure == Some(NotFound(st.pending[code].email))
    ensures r.failure.Some? ==> r.next == st
    ensures r.failure.None? ==>
              && r.next.pending == st.pending - {code}
              && var u := UserByEmail(st.users, st.pending[code].email).value;
                 r.next.users == SaveUser(st.users, u.(isActive := true))
  {
    if code !in st.pending || now > st.pending[code].expiry then Outcome(Some(InvalidOrExpiredCode), st)
    else
      var email := st.pending[code].email;
      match UserByEmail(st.users, email)
      case None => Outcome(Some(NotFound(email)), st)
      case Some(u) => Outcome(None, Accounts(SaveUser(st.users, u.(isActive := true)), st.pending - {code}))
  }

  /** The expiry instant itself is still accepted; one nanosecond later is not. */
  lemma ExpiryBoundary(st: Accounts, code: string)
    requires code in st.pending
    ensures Usable(st.pending, code, st.pending[code].expiry)
    ensures !Usable(st.pending, code, st.pending[code].expiry + 1)
    ensures Activate(st, code, st.pending[code].expiry + 1) == Outcome(Some(InvalidOrExpiredCode), st)
  {
  }

  /** A code works at most once. */
  lemma SingleUse(st: Accounts, code: string, now: int, later: int)
    requires Activate(st, code, now).failure.None?
    ensures Activate(Activate(st, code, now).next, code, later).failure == Some(InvalidOrExpiredCode)
  {
  }

  /** An activation leaves every other pending code as it was. */
  lemma OtherCodesUntouched(st: Accounts, code: string, now: int, other: string)
    requires other != code
    ensures other in Activate(st, code, now).next.pending <==> other in st.pending
    ensures other in st.pending ==> Activate(st, code, now).next.pending[other] == st.pending[other]
  {
  }

  /** Registering and then following the mailed code within a day activates the
      new account, and the code is used up. */
  lemma RegisterThenActivate(st: Accounts, form: Registration, code: string, now: int,
                             hash: string -> string, newId: int, mailSent: bool, later: int)
    requires RequiredRegistrationFields(form) == [] && !Taken(st.users, form.username, form.email)
    requires later <= now + Window
    ensures var registered := Register(st, form, code, now, hash, newId, mailSent).next;
            var done := Activate(registered, code, later);
            && done.failure.None?
            && code !in done.next.pending
            && exists i :: 0 <= i < |done.next.users| && done.next.users[i].email == form.email
                             && done.next.users[i].isActive
  {
    var registered := Register(st, form, code, now, hash, newId, mailSent).next;
    var account := NewAccount(form, newId, hash);
    assert registered.users[|st.users|] == account;
    var found := UserByEmail(registered.users, form.email);
    assert found.Some?;
    assert found.value == account by {
      var i :| 0 <= i < |registered.users| && registered.users[i] == found.value
               && forall j :: 0 <= j < i ==> registered.users[j].email != form.email;
      assert i == |st.users|;
    }
    var done := Activate(registered, code, later);
    var k := |st.users|;
    assert done.next.users[k].email == form.email && done.next.users[k].isActive;
  }
}
