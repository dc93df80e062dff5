/** The records the handlers read and write, and the table lookups they use.

    A table is a sequence of records in the order they were inserted, which is
    the order of their auto-increment keys; a lookup answers the first record
    that matches, as an ORM `First` query ordered by the key does.  Uniqueness of
    usernames, e-mails and slugs is a database constraint and is not assumed
    here.  Classes and articles are deleted softly: the row stays, marked
    deleted, so lookups skip it while its unique title and slug stay taken. */
module Store {

  datatype Option<+T> = None | Some(value: T)

  /** Why a handler answers with an error envelope. */
  datatype Failure =
    | Unauthenticated          // the caller could not be resolved from the token
    | Forbidden                // a role, ownership or mentor check refused the caller
    | NotFound(key: string)    // no class, article or user under that slug, username or e-mail
    | Invalid(fields: seq<string>)  // required payload fields left empty, in declaration order
    | BadExtension             // upload extension outside the image allow-list
    | Conflict                 // a unique index refused the insert
    | BadCredentials           // unknown account or wrong password; one message for both
    | Inactive                 // right password, account not yet activated
    | WrongPassword            // the old password given to a password change does not verify
    | ConfirmMismatch          // new password and its confirmation differ
    | InvalidOrExpiredCode     // activation code unknown or past its expiry
    | MailFailed               // the activation mail could not be sent
    | Panic                    // nil dereference or index out of range, answered 500 by the recovery middleware

  datatype Result<+T> = Ok(value: T) | Err(failure: Failure)

  /** `UserType` is an 8-bit signed integer in the source; only two values are named. */
  type UserType = t: int | -128 <= t < 128
  const Admin: UserType := 0
  const Member: UserType := 1

  datatype User = User(
    id: int,
    firstName: string,
    lastName: string,
    username: string,
    email: string,
    avatar: Option<string>,
    password: string,          // the stored hash
    isActive: bool,
    kind: UserType)

  /** A class; its two rosters are the usernames of the associated users. */
  datatype Class = Class(
    id: int,
    title: string,
    slug: string,
    description: string,
    logo: Option<string>,
    isActive: bool,
    mentors: seq<string>,
    members: seq<string>,
    deleted: bool)             // the deletion timestamp is set

  /** `status` is a free string: the source's status type is a string type. */
  datatype Article = Article(
    id: int,
    userId: int,
    title: string,
    slug: string,
    content: string,
    views: int,
    status: string,
    deleted: bool)             // the deletion timestamp is set

  const Published := "PUBLISHED"

  /** Index of the first element satisfying `p`. */
  function FindFirst<T>(s: seq<T>, p: T -> bool): (r: Option<nat>)
    ensures r.None? <==> forall i :: 0 <= i < |s| ==> !p(s[i])
    ensures r.Some? ==> r.value < |s| && p(s[r.value])
    ensures r.Some? ==> forall j :: 0 <= j < r.value ==> !p(s[j])
  {
    if |s| == 0 then None
    else if p(s[0]) then Some(0)
    else match FindFirst(s[1..], p)
      case None => None
      case Some(k) => Some(k + 1)
  }

  function UserByUsername(users: seq<User>, name: string): (r: Option<User>)
    ensures r.None? <==> forall i :: 0 <= i < |users| ==> users[i].username != name
    ensures r.Some? ==> r.value in users && r.value.username == name
  {
    match FindFirst(users, (u: User) => u.username == name)
    case None => None
    case Some(i) => Some(users[i])
  }

  function UserByEmail(users: seq<User>, email: string): (r: Option<User>)
    ensures r.None? <==> forall i :: 0 <= i < |users| ==> users[i].email != email
    ensures r.Some? ==> r.value in users && r.value.email == email
    ensures r.Some? ==> exists i :: 0 <= i < |users| && users[i] == r.value
                          && forall j :: 0 <= j < i ==> users[j].email != email
  {
    match FindFirst(users, (u: User) => u.email == email)
    case None => None
    case Some(i) => Some(users[i])
  }

  /** The live class with the slug; deleted rows are skipped. */
  function ClassBySlug(classes: seq<Class>, slug: string): (r: Option<nat>)
    ensures r.None? <==> forall i :: 0 <= i < |classes| ==> classes[i].deleted || classes[i].slug != slug
    ensures r.Some? ==> r.value < |classes| && !classes[r.value].deleted && classes[r.value].slug == slug
  {
    FindFirst(classes, (c: Class) => !c.deleted && c.slug == slug)
  }

  /** The live article with the slug; deleted rows are skipped. */
  function ArticleBySlug(articles: seq<Article>, slug: string): (r: Option<nat>)
    ensures r.None? <==> forall i :: 0 <= i < |articles| ==> articles[i].deleted || articles[i].slug != slug
    ensures r.Some? ==> r.value < |articles| && !articles[r.value].deleted && articles[r.value].slug == slug
  {
    FindFirst(articles, (a: Article) => !a.deleted && a.slug == slug)
  }

  /** Saving a loaded user writes every column of the row with its primary key. */
  function SaveUser(users: seq<User>, u: User): (r: seq<User>)
    ensures |r| == |users|
    ensures forall i :: 0 <= i < |users| && users[i].id != u.id ==> r[i] == users[i]
    ensures forall i :: 0 <= i < |users| && users[i].id == u.id ==> r[i] == u
  {
    seq(|users|, i requires 0 <= i < |users| => if users[i].id == u.id then u else users[i])
  }
}
