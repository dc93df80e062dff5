# kafekoding-api handler logic in Dafny

This project models the decision logic of the kafekoding-api REST handlers. The
service is a Go backend for an educational community. It manages users, classes
(each with a roster of mentors and members) and articles.

Each handler is modelled as a pure function. It takes the state it reads: the
user, class and article tables, the activation registry, and the caller resolved
from the bearer token. It returns the failure it answers with, or the state it
leaves behind. Anything the handlers call but do not decide is a parameter:
- the clock (`now`, in nanoseconds);
- the UUIDs (`code`, `fileId`);
- the slug library (`makeSlug`);
- password hashing (`hash`) and checking (`verify`);
- whether the activation mail went out (`mailSent`);
- the key the database assigns (`newId`).

Modules, one per part of the source:

- `Store` (`store.dfy`) holds the records, the `Failure` kinds the handlers
  answer with, and the lookups. A table is a sequence in insertion order, which
  is the order of the auto-increment keys. A lookup returns the first match, as
  `First` does, and skips soft-deleted classes and articles.
- `Validation` (`validation.dfy`) holds the image allow-list, Go's
  `filepath.Ext`, and the validator's `required` rule.
- `Paths` (`paths.dfy`) holds `strings.Split`/join with both round trips, the
  media paths, and the rewrite of a class logo's path when the slug changes.
- `Roster` (`roster.dfy`) is the class detail endpoint. It has the mentor gate
  and the four add/remove steps, run in order, each on the rosters the earlier
  steps left.
- `Classes` (`classes.dfy`) covers class creation, update (field by field, saved
  as it goes) and deletion.
- `Activation` (`activation.dfy`) covers registration and the single-use,
  24-hour activation code.
- `Users` (`users.dfy`) covers token issuance, password change and profile
  update.
- `Articles` (`articles.dfy`) covers the listing's defaults and 64-bit offset,
  creation, and the owner-only update and deletion.

Behaviour of the handlers that the model makes explicit:

- **The roster gate.** It refuses as soon as any mentor's username differs from
  the caller's. So a class without mentors admits every authenticated caller, and
  a class with two different mentors admits nobody
  (`Roster.NoMentorsAdmitsAnyone`, `Roster.TwoMentorsRefuseEveryone`).
- **Unknown usernames.** An unknown username in a roster request answers
  NotFound for the first such name. The steps before it stay applied
  (`Roster.StoppedKeepsEarlierSteps`, `Roster.UnknownMemberKeepsAddedMentors`).
- **The updated mentor list.** The gate is evaluated again for each step, on the
  mentor list as the earlier steps left it. So a request that adds a second
  mentor is refused for its later steps (`Roster.AddedMentorLocksLaterSteps`).
- **Persisting roster changes.** The association calls write the join rows
  themselves, so every completed roster step is persisted even though only the
  add-mentor step saves the class.
- **Soft deletes.** Deleting a class or an article only marks its row. The row's
  title and slug stay under the unique indexes, so creating a class or article
  with the same slug is refused (`Classes.DeletedClassKeepsSlugTaken`,
  `Articles.DeletedArticleKeepsSlugTaken`).
- **Unknown and expired codes.** Activation answers the same for an unknown code
  and an expired one.

## Model

| member | source | states |
|---|---|---|
| `Store.UserByUsername` | models/user.go:46-51 | None exactly when no user has the username; otherwise a user of the table with that username |
| `Store.UserByEmail` | models/user.go:53-58 | None exactly when no user has the e-mail; otherwise the first user in table order with that e-mail |
| `Store.ClassBySlug` | models/class.go:42-47 | None exactly when no live (not deleted) class has the slug; otherwise the position of a live class with that slug |
| `Store.ArticleBySlug` | models/article.go:60-64 | None exactly when no live (not deleted) article has the slug; otherwise the position of a live article with that slug |
| `Store.SaveUser` | handlers/userhandler.go:176-177 | saving a user rewrites exactly the rows with its key and leaves every other row as it was |
| `Validation.IsAllowedExtension` | handlers/validation.go:3-12 | accepted exactly for .jpg, .jpeg, .png and .webp, so an accepted extension starts with a dot and has no upper-case letter; ".JPG", "jpg" and "" are refused |
| `Validation.Ext` | handlers/classhandler.go:92-99 | the result is empty exactly when every dot is followed by a later slash; otherwise it is the path's suffix from the last dot, with no dot or slash after it |
| `Validation.StoredNameKeepsExtension` | handlers/classhandler.go:99-100 | a stored file name (a dot- and slash-free UUID plus the client name's extension) has the same extension as the client's name |
| `Validation.MissingFields` | handlers/classhandler.go:61-80 | names exactly the fields whose value is empty; empty exactly when every field is filled |
| `Validation.MissingFieldsConcat` | handlers/classhandler.go:61-80 | the missing fields of a concatenation are those of its first part followed by those of the second, so they come in declaration order |
| `Paths.JoinSplit` | handlers/classhandler.go:405-406 | joining the parts of a split on '/' gives back the original path |
| `Paths.SplitJoin` | handlers/classhandler.go:405-406 | splitting a join of slash-free parts gives back the parts |
| `Paths.LogoPathSegments` | handlers/classhandler.go:100 | a logo path media/classes/<slug>/<file> splits into exactly those four segments |
| `Paths.RenameLogo` | handlers/classhandler.go:405-409 | succeeds exactly when a logo exists and has at least four segments, and otherwise panics; the new path is media/classes/<new slug>/<fourth segment> |
| `Paths.RenameMovesLogo` | handlers/classhandler.go:405-409 | a logo stored as media/classes/<old>/<file> becomes media/classes/<new>/<file> |
| `Paths.RenameTwice` | handlers/classhandler.go:401-409 | two successive renames land where one rename to the last slug lands |
| `Roster.MentorGateIffAllCaller` | handlers/classhandler.go:164-172 | the gate passes exactly when every mentor's username equals the caller's |
| `Roster.NoMentorsAdmitsAnyone` | handlers/classhandler.go:164-172 | with no mentors the gate admits any caller |
| `Roster.TwoMentorsRefuseEveryone` | handlers/classhandler.go:164-172 | with two different mentors the gate refuses every caller, those mentors included |
| `Roster.GateAdmitsOnlyMentors` | handlers/classhandler.go:164-172 | when the class has mentors, a caller who passes the gate is one of them |
| `Roster.Selected` | handlers/classhandler.go:174-194 | the requested names whose roster presence is the wanted one, in request order; each such name occurs as often as in the request, every other name not at all |
| `Roster.Select` | handlers/classhandler.go:174-194 | fails exactly when some requested name has no account, answering NotFound for the first such name; otherwise the selection is exactly the requested names with the wanted presence, in request order with repeats kept |
| `Roster.RemoveAll` | handlers/classhandler.go:271-294 | removes every occurrence of the given names and keeps every other name with its multiplicity |
| `Roster.RemoveSelected` | handlers/classhandler.go:271-294 | removing only the requested names that are on the roster leaves the same roster as removing every requested name |
| `Roster.AddTo` | handlers/classhandler.go:174-197 | fails exactly when a name has no account (NotFound for the first); otherwise the old roster followed by the requested names not on it, in request order |
| `Roster.RemoveFrom` | handlers/classhandler.go:271-294 | fails exactly when a name has no account (NotFound for the first); otherwise every occurrence of a requested name is gone and every other name stays, in order |
| `Roster.AddIsIdempotent` | handlers/classhandler.go:185-197 | after an addition, the same addition selects nothing |
| `Roster.RemoveIsIdempotent` | handlers/classhandler.go:282-294 | after a removal, the same removal selects nothing |
| `Roster.UnchangedNamesAreNoOps` | handlers/classhandler.go:185-194 | adding names already on the roster and removing names absent from it change nothing |
| `Roster.FreshNamesAppendedInOrder` | handlers/classhandler.go:174-197 | when no requested name is on the roster, the addition appends the request itself, in order and with repeats |
| `Roster.ApplyStep` | handlers/classhandler.go:153-199 | an empty list skips the step; otherwise an unresolved caller fails with Unauthenticated and a refused gate with Forbidden; past the gate it fails exactly when a name has no account (NotFound for the first); an addition appends exactly the names not yet on the roster, in request order, and a removal removes exactly the requested names; the other roster and every other field are kept |
| `Roster.RunSteps` | handlers/classhandler.go:152-345 | a run of steps changes nothing but the rosters; with every list empty the class is shown as it was |
| `Roster.RunOneStep` | handlers/classhandler.go:153-199 | one step shows the class it produces, or stops with its failure on the class it was given |
| `Roster.RunStepsConcat` | handlers/classhandler.go:152-345 | running two runs of steps in sequence is running the second from the class the first showed; a stop in the first ends the request |
| `Roster.StoppedKeepsEarlierSteps` | handlers/classhandler.go:152-345 | when the steps before a step showed a class and that step fails, the request stops with the step's failure on the class the earlier steps left, whatever steps follow |
| `Roster.Detail` | handlers/classhandler.go:136-346 | answers class-not-found exactly when no live class has the slug; otherwise only the loaded class's rosters can differ in the answer |
| `Roster.EmptyRequestShowsClass` | handlers/classhandler.go:143-153 | with all four lists empty the loaded class is shown unchanged, whoever asks |
| `Roster.RefusedCallerChangesNothing` | handlers/classhandler.go:153-172 | a caller the gate refuses is stopped with Forbidden before any roster changes, provided some list is non-empty |
| `Roster.AddedMentorLocksLaterSteps` | handlers/classhandler.go:197-221 | when a sole mentor adds another mentor, the added mentor stays and the request's member step is refused |
| `Roster.UnknownMemberKeepsAddedMentors` | handlers/classhandler.go:153-247 | an unknown username in the member list answers NotFound for the first unknown name, and the mentors the earlier step appended stay appended |
| `Classes.RequiredClassFields` | handlers/classhandler.go:45-80 | no field is missing exactly when title and description are non-empty and a logo is attached |
| `Classes.CreateClass` | handlers/classhandler.go:27-125 | no caller: Unauthenticated; only an administrator gets anything written; missing fields: Invalid with their names; a disallowed extension is refused before any file or row is written; otherwise the logo is written to media/classes/<slug>/<uuid><ext>, and the row is added exactly when no row (deleted ones included) has the title or slug; a clash answers Conflict with the file written and the table unchanged |
| `Classes.CreatedClassIsFound` | handlers/classhandler.go:82-124 | a created class is found by its slug and carries the stored logo path |
| `Classes.CreatedLogoSurvivesRename` | handlers/classhandler.go:99-100 | the logo written at creation is moved to the same file name under any later slug |
| `Classes.Retitle` | handlers/classhandler.go:401-446 | an empty title changes nothing; otherwise title, slug and logo path change together, or the logo rewrite fails, and every failure is Panic |
| `Classes.Relogo` | handlers/classhandler.go:453-477 | no upload changes nothing; an upload panics on a class with no logo and is refused with a disallowed extension; an allowed upload on a class with a logo succeeds and is stored under the current slug |
| `Classes.NewLogoSurvivesRename` | handlers/classhandler.go:453-477 | an accepted new logo has an allowed extension and names the same file after any later rename |
| `Classes.UpdateClass` | handlers/classhandler.go:349-483 | refused exactly for a caller who is not a mentor or is of the MEMBER type; succeeds exactly when the gate passes, a new title's logo rename works, and an upload meets a logo and has an allowed extension; stops with a panic exactly for an upload without a title on a class with no logo, and stops with BadExtension exactly for a gate-passing update whose rename works and whose upload meets a logo with a disallowed extension; a stopped update has saved the new title, slug, renamed logo and description and nothing else; on success a non-empty title or description overwrites, the active flag is always overwritten, the logo follows the upload or the rename, and key, rosters and the deletion flag are kept |
| `Classes.FlagOnlyUpdate` | handlers/classhandler.go:479-480 | a form with only the active flag changes only that flag |
| `Classes.RejectedLogoKeepsEarlierFields` | handlers/classhandler.go:445-463 | an upload with a disallowed extension, by a caller past the gate whose rename works and whose class has a logo to replace, stops with BadExtension; the new title and description stay saved and the active flag is not applied |
| `Classes.DeleteClass` | handlers/classhandler.go:486-517 | deletes exactly when a live class has the slug and the caller is an administrator; no caller answers Unauthenticated, a missing class NotFound and a found class with a non-administrator Forbidden; the delete only marks that row deleted and leaves every other row as it was |
| `Classes.DeletedClassIsGone` | handlers/classhandler.go:486-517 | with unique slugs, a deleted class is no longer found by its slug |
| `Classes.DeletedClassKeepsSlugTaken` | models/class.go:13-20 | after a delete, creating a class with the deleted class's slug answers Conflict and adds no row |
| `Activation.RequiredRegistrationFields` | handlers/userhandler.go:74-110 | no field is missing exactly when all five registration fields are filled |
| `Activation.Register` | handlers/userhandler.go:73-152 | missing fields answer Invalid with those fields and a clash with an existing username or e-mail answers Conflict, both changing nothing; otherwise the inactive account is appended and code ↦ (email, now + 24h) is recorded, whether the mail goes out or not; MailFailed exactly when a valid registration's mail does not go out |
| `Activation.Activate` | handlers/userhandler.go:155-182 | succeeds exactly when the code is recorded, now is not after its expiry and an account has the e-mail; an unusable code answers InvalidOrExpiredCode and a usable one with no account NotFound with its e-mail; then the account is activated and the code removed; any failure changes nothing |
| `Activation.ExpiryBoundary` | handlers/userhandler.go:158-159 | a code is accepted at its expiry instant and refused one nanosecond later, and the refused entry stays |
| `Activation.SingleUse` | handlers/userhandler.go:176-178 | after a successful activation, the same code is refused at any time |
| `Activation.OtherCodesUntouched` | handlers/userhandler.go:178 | an activation leaves every other pending code as it was |
| `Activation.RegisterThenActivate` | handlers/userhandler.go:134-178 | a registration followed within 24 hours by its code activates the new account and uses up the code |
| `Users.LookupLogin` | handlers/userhandler.go:199-218 | None exactly when no user's e-mail (for a login containing '@') or username (for any other login) equals the login; otherwise a user of the table with that e-mail or username |
| `Users.GetToken` | handlers/userhandler.go:185-257 | a token is issued exactly for a found, password-verified, active account, and carries the key and username of that very account (the first row the lookup returns); an unknown login and a wrong password get the same failure; Inactive only after the password verified |
| `Users.InactiveAccountRefused` | handlers/userhandler.go:220-236 | an inactive account gets Inactive with the right password and BadCredentials with a wrong one |
| `Users.EmailAndUsernameAgree` | handlers/userhandler.go:199-218 | with unique e-mail and username, logging in by either gives the same answer |
| `Users.ChangePassword` | handlers/userhandler.go:274-323 | the password changes exactly when the old one verifies and the new one equals its confirmation; no caller answers Unauthenticated, and a wrong old password is reported before a mismatched confirmation; on failure nothing is stored |
| `Users.NewPasswordVerifies` | handlers/userhandler.go:316-318 | when the hashing verifies its own output, the new password verifies against the stored hash |
| `Users.UpdateInfo` | handlers/userhandler.go:326-394 | only non-empty name fields overwrite; the avatar is stored at media/user/profile/<updated username>/<uuid><ext>; an avatar with a disallowed extension is refused with BadExtension and nothing is saved, and that is the only failure for a signed-in caller; key, e-mail, password, activation and type are kept |
| `Users.InfoUpdateIdempotent` | handlers/userhandler.go:352-360 | repeating a profile update without an avatar changes nothing more |
| `Users.EmptyInfoFormIsNoOp` | handlers/userhandler.go:352-360 | an empty profile form leaves the account as it was |
| `Articles.Wrap64` | handlers/articlehandlerv1.go:96 | a 64-bit value congruent to the input modulo 2^64, equal to the input when it fits |
| `Articles.Offset` | handlers/articlehandlerv1.go:96 | wrapping `page - 1` and then the product to 64 bits gives the mathematical (page - 1) * size wrapped once |
| `Articles.ListParameters` | handlers/articlehandlerv1.go:90-96 | absent parameters default to page 1, size 10 and status PUBLISHED; the offset is (page - 1) * size wrapped to 64 bits as Go's arithmetic does, so it is that product whenever it fits |
| `Articles.DefaultListing` | handlers/articlehandlerv1.go:91-93 | with no parameters the listing asks for page 1 of 10 PUBLISHED articles from offset 0 |
| `Articles.FirstPageStartsAtZero` | handlers/articlehandlerv1.go:96 | page 1 has offset 0 for any size |
| `Articles.NextPageFollows` | handlers/articlehandlerv1.go:96 | for a positive size, each page starts where the previous one ends |
| `Articles.OffsetMonotone` | handlers/articlehandlerv1.go:96 | for a positive size, the offset never decreases as the page grows, below the 64-bit limit |
| `Articles.LargePageWraps` | handlers/articlehandlerv1.go:96 | page 2^62 + 1 of size 2 wraps the offset to -2^63 |
| `Articles.RequiredArticleFields` | handlers/articlehandlerv1.go:20-53 | no field is missing exactly when title, content and status are all non-empty |
| `Articles.CreateArticle` | handlers/articlehandlerv1.go:19-88 | validation comes before authentication, so missing fields answer Invalid, then no caller Unauthenticated, then a taken slug Conflict; succeeds exactly for valid fields, a caller, and a slug no row (deleted ones included) holds; the new live article has the assigned key, is owned by the caller, has 0 views and carries the payload's title, content and status |
| `Articles.CreatedArticleIsFound` | handlers/articlehandlerv1.go:65-81 | a created article is found under its slug, and its creator may then update and delete it |
| `Articles.Merge` | handlers/articlehandlerv1.go:161-168 | title and content are overwritten only when non-empty, status always (even with ""); key, owner, slug, views and the deletion flag are kept, and nothing else changes |
| `Articles.MergeIdempotent` | handlers/articlehandlerv1.go:161-168 | merging the same form twice is merging it once |
| `Articles.MergeKeepsOwnerAndSlug` | handlers/articlehandlerv1.go:139-171 | after an update the article keeps its slug and its owner |
| `Articles.UpdateArticle` | handlers/articlehandlerv1.go:119-177 | updates exactly when the article exists and the caller's key equals its owner's; otherwise Unauthenticated, NotFound or, for a found article, Forbidden; the result is the merge |
| `Articles.DeleteArticle` | handlers/articlehandlerv1.go:197-227 | deletes exactly when a live article has the slug and the caller owns it; the delete only marks that row deleted and leaves every other row as it was |
| `Articles.DeletedArticleKeepsSlugTaken` | models/article.go:22-28 | after a delete, creating an article with the deleted article's slug answers Conflict |

## Left out

- `Store.UserByUsername`: compares usernames exactly. MySQL's default collation compares them case-insensitively, and that is not modelled.
- `Store.UserByEmail`: compares e-mails exactly, for the same reason.
- `Store.ClassBySlug`: compares slugs exactly. The database's case-insensitive collation is not modelled.
- `Store.ArticleBySlug`: compares slugs exactly, for the same reason.
- `Activation.Register`: the unique-index test `Activation.Taken` compares username and e-mail exactly, not case-insensitively. The 50-character limit on names, username and e-mail (models/user.go:18-21) is not modelled either, so a longer value is accepted where MySQL refuses or truncates it.
- `Classes.CreateClass`: the clash test `Classes.Clashes` compares title and slug exactly, not case-insensitively. The 50-character title and 60-character slug limits (models/class.go:13-14) are not modelled.
- `Articles.CreateArticle`: the clash test `Articles.SlugTaken` compares slugs exactly, not case-insensitively. The 50-character title and 60-character slug limits (models/article.go:21-22) are not modelled.
- `Store.SaveUser`: only updates rows that exist. The ORM's insert, used when no row has the key, never arises for a loaded user.
- `Classes.CreateClass`: `newId` is not required to exceed the existing keys, in this function and in `Activation.Register` and `Articles.CreateArticle`. A table is kept in insertion order, and "first" means first in that order; the database's auto-increment makes that the key order.
- `Roster.ApplyStep`: an addition keeps repeated names, so the roster in the response can list one user twice. The database's join table stores each pair only once, and that is not modelled.
- `Activation.Register`: accepts any non-empty e-mail. The validator's e-mail format rule is not modelled.
- `Articles.ListParameters`: parsing the query string is not shown in the source, so page and size arrive already parsed (absent or a 64-bit integer).
- File I/O is out. This covers saving uploads, opening, creating and copying a logo on rename, and the errors of all of these; every file operation is assumed to succeed. The model records where a file would be written. It does not record that class update and profile update delete the old logo or avatar file before checking the new upload's extension.
- JSON and multipart binding failures ("Payload error") are left out. Some bindings come after an access check: class creation binds after the admin check (handlers/classhandler.go:52), class update after the mentor gate (handlers/classhandler.go:392), and article update after the owner check (handlers/articlehandlerv1.go:152). So an authorised caller whose payload fails to bind gets "Payload error" with nothing saved, and the model does not have that reply.
- Token issuance and verification (JWT) and `CheckAuthHandler` are left out. The authentication middleware and `getUserFromContext` are reduced to the caller parameter, which is None when no user can be resolved.
- Sending the activation mail (SMTP) is left out. It is the `mailSent` parameter.
- The slug library, UUID generation and password hashing are opaque here. They are parameters.
- The article listing query is left out: ordering by update time, LIMIT/OFFSET and the total count are database work. So are the class listing (`Get`) and the article detail endpoint, which are plain reads.
- A failed save is left out. The handlers ignore the error of a `Save` during class update, the add-mentor roster step (handlers/classhandler.go:198), article update (handlers/articlehandlerv1.go:171), activation, password change and profile update; `Articles.UpdateArticle` answers Ok whatever the save does, for example a unique-index clash on a changed username or title.
- Timestamps, preloaded relations (articles, images, meetings) and `IsLogined` are left out. The deletion timestamp is reduced to a flag: set means deleted.
- The generic upload endpoint in the server's main file, routing and CORS are left out.
- Concurrent access to the unsynchronised activation map is out of scope.
