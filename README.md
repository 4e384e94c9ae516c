# Identity and access control of a NestJS user service, in Dafny

This project models the identity and access-control core of a NestJS user
service. The core covers:

- the minimum-role guard with its rank table (ADMIN = 2, USER = 1);
- the user directory behind `IUserRepository`, following its MySQL implementation;
- the pagination metadata of the user listing;
- the policy checks of `UsersService` (delete, lookups, and the update the controller calls);
- the credential flow of `AuthService` (sign-up, sign-in, sign-in token);
- the user error hierarchy and the HTTP statuses `UsersController` maps it to.

Each source file becomes one Dafny module:

| file | module | form |
|---|---|---|
| wrappers.dfy | `Wrappers` | `Option`, `Result`, `Outcome` |
| roles.dfy | `Roles` | pure: role enum, rank table, `CanActivate` |
| user_errors.dfy | `UserErrors` | pure: one variant type for `UserError` and its subclasses, and their messages |
| pagination.dfy | `Pagination` | pure: offset, page count, metadata, the page window |
| passwords.dfy | `Passwords` | the argon2 hash, abstracted |
| collation.dfy | `Collation` | the database's case-insensitive comparison of text |
| user_store.dfy | `UserStore` | class `UserMySQLRepository` over a `map<Id, User>` and a newest-first id order |
| users_service.dfy | `Users` | pure policy checks and class `UsersService` holding the repository |
| auth_service.dfy | `Auth` | pure sign-in check and token, class `AuthService` holding the users service |
| users_controller.dfy | `UsersApi` | pure: route roles, default page request, status mapping |

Modelling choices:

- **Collation.** The database compares text under a case-insensitive collation (`utf8mb4_unicode_ci`, test/global-setup.ts:26). Lookups by email or id find a row whatever the case of the letters, a delete by id matches the same way, and the unique email index refuses `Ann@x.com` next to `ann@x.com`. The model compares ids and emails by their `Collation.Key`, which folds ASCII upper-case letters to lower case.
- **Store invariant.** The repository keeps the invariant `Consistent`. Every row is stored under the key of its id, and emails are unique up to case (the unique index of user.entity.ts:13-14). The listing order holds every row key exactly once.
- **Listing order.** The createdAt-descending order of `findAll` is represented as newest-insertion-first. Rows created within the same second share a `createdAt` value (a `timestamp` column), and the database orders such ties arbitrarily. The model breaks them by insertion order.
- **Fresh ids.** A new row's id comes from the database's UUID generator, so `CreateUser` takes it as a parameter. A taken id or a taken email is refused like a unique-key violation.
- **Hashing.** A password hash (`Passwords.Hash`) is modelled as an ideal one-way digest: it verifies against the password it was made from and against no other. Argon2's per-call random salt is a parameter.
- **Tokens.** A token is modelled as the claims it carries, `{userId, email}`.
- **Update rules.** `user.service.ts` has no `updateUser`, although users.controller.ts:135 calls one. Its rules come from the error classes and the PATCH tests:
  - the target must exist;
  - a non-admin may update only their own record (ids compared under the collation) and may not change its role;
  - the email may not be held, in any case, by another account.

  A role change means the update carries a role that differs from the stored one. A plain user who re-sends their own current role therefore passes. The tests at user.controller.spec.ts:599-609 show only a change from USER to ADMIN.

  `UsersService.UpdateUser` promises only that a refusal names one of the failing checks. It fixes no order among the checks, because none is shown in the source.

Where the code, its tests and its unused error classes disagree, the model follows the code:

- **Delete refusals.** The service throws Nest `NotFoundException`/`ForbiddenException` rather than the `UserError` subclasses that the controller catches. Their statuses and texts are the same, so one `UserError` type models both. The non-admin delete refusal carries the custom text `You do not have permission to delete users`.
- **Sign-up storage errors.** A database refusal during sign-up is not caught, so it surfaces as `StorageFailure` (500). It is not mapped to the duplicate-email conflict.
- **GET /users/:id.** The route declares ADMIN as its minimum role, and `UsersApi.MinimumRole` follows the code. The test at user.controller.spec.ts:288-302 expects a plain user to read another user's record.
- **Repository wiring.** `UsersService` injects the older `UsersRepository` (user.service.ts:18), whose `findAll` returns no metadata. The domain module binds `IUserRepository` to the MySQL class, and the controller reads `data`/`meta`. The model uses the `IUserRepository` semantics.

## Model

| member | source | states |
|---|---|---|
| Roles.Rank | src/common/guards/has-minimum-role.guard.ts:11-14 | the rank table is total over the two roles, with values 1 and 2, and 2 exactly for ADMIN |
| Roles.RankTable | src/common/guards/has-minimum-role.guard.ts:11-14 | rank(ADMIN) = 2 > rank(USER) = 1 |
| Roles.RoleOrderIsTotalOrder | src/common/guards/has-minimum-role.guard.ts:29-33 | comparing ranks orders the roles totally: reflexive, antisymmetric, transitive, total |
| Roles.CanActivate | src/common/guards/has-minimum-role.guard.ts:16-34 | no minimum role: granted; otherwise granted iff the caller is an admin or the minimum is USER, which is the role order stated without the rank table |
| Roles.NoMinimumRoleAdmitsEveryone | src/common/guards/has-minimum-role.guard.ts:22-24 | with no minimum role every caller passes |
| Roles.GuardIsReflexive | src/common/guards/has-minimum-role.guard.spec.ts:58-62 | a caller always passes when its own role is the minimum |
| Roles.UserDeniedWhenAdminRequired | src/common/guards/has-minimum-role.guard.spec.ts:52-56 | a USER caller is refused where ADMIN is required |
| Roles.AdminSatisfiesEveryRequirement | src/common/guards/has-minimum-role.guard.ts:29-33 | an ADMIN caller passes every guard |
| Roles.GuardIsMonotone | src/common/guards/has-minimum-role.guard.ts:29-33 | passing for a minimum role implies passing for every lower one |
| UserErrors.DefaultInsufficientPermissions | src/app/domains/user/user.errors.ts:22-26 | the permissions error built without a text carries `Insufficient permissions for this operation` |
| UserErrors.Message | src/app/domains/user/user.errors.ts:1-41 | not-found and email-in-use messages interpolate the id / email, which can be read back between the fixed prefix and suffix; self-deletion and unauthorized-update messages are their constants; a permissions error carries its given text |
| UserErrors.BetweenRecovers | src/app/domains/user/user.errors.ts:8-33 | the subject interpolated between a prefix and a suffix is recovered exactly |
| UserErrors.MessageDeterminesError | src/app/domains/user/user.errors.ts:8-41 | among errors other than permission errors, two errors with the same message are the same error, subject included |
| Pagination.TotalPages | src/app/domains/user/repositories/user.mysql.repository.ts:60 | ceil(total / limit): the least page count covering every item, 0 exactly for an empty listing |
| Pagination.BelowTotalPagesIff | src/app/domains/user/repositories/user.mysql.repository.ts:60-69 | page < totalPages iff some item lies after that page (page × limit < total) |
| Pagination.Meta | src/app/domains/user/repositories/user.mysql.repository.ts:60-71 | echoes page, limit and total unclamped; totalPages is ceil(total / limit); hasNextPage iff page < totalPages, which holds iff items remain after the page; hasPreviousPage iff the offset is positive |
| Pagination.Window | src/app/domains/user/repositories/user.mysql.repository.ts:51-53 | skip/take returns min(take, rows after skip) rows, each the row at skip + i |
| Pagination.Paginate | src/app/domains/user/repositories/user.mysql.repository.ts:47-73 | a page holds at most `limit` items, item i being listing item (page − 1) × limit + i, with the metadata of the whole listing |
| Pagination.EmptyIffPastLastPage | src/app/domains/user/repositories/user.mysql.repository.ts:51-60 | a page is empty iff its number exceeds totalPages |
| Pagination.PastLastPage | src/app/domains/user/repositories/user.mysql.repository.ts:63-70 | a page past the end has no data and no next page, echoes the requested page, and has a previous page when the listing is not empty |
| Pagination.PageBeforeLastIsFull | src/app/domains/user/repositories/user.mysql.repository.ts:52-60 | every page before the last holds exactly `limit` items |
| Pagination.PageRangesDisjoint | src/app/domains/user/repositories/user.mysql.repository.ts:52-53 | two different pages cover disjoint index ranges |
| Pagination.PagesDisjoint | src/app/domains/user/repositories/user.mysql.repository.ts:52-57 | over a listing without repeats, different pages share no item |
| Pagination.EveryItemOnItsPage | src/app/domains/user/repositories/user.mysql.repository.ts:52-60 | listing item k is item k mod limit of page k div limit + 1, and that page is within totalPages |
| Pagination.FifteenItemsInPagesOfFive | src/app/domains/user/repositories/user.mysql.repository.ts:60-70 | 15 items, limit 5: 3 pages; page 1 has a next and no previous page; page 3 has a previous and no next page; page 4 is empty with a previous page |
| Passwords.Verify | src/app/domains/auth/auth.service.ts:59 | a password verifies against a digest exactly when hashing it with the digest's own salt gives that digest |
| Passwords.Hash | src/app/domains/auth/auth.service.ts:30 | a digest verifies against the password it was made from and against no other |
| Collation.FoldChar | test/global-setup.ts:26 | a character as the collation sees it: an upper-case ASCII letter becomes its own lower-case letter; other characters are unchanged; the result is never upper-case |
| Collation.Key | test/global-setup.ts:26 | the key has the string's length, folds every character, and contains no upper-case letter |
| Collation.KeyIsIdempotent | test/global-setup.ts:26 | folding a key again gives the same key |
| Collation.LowerCaseIsOwnKey | test/global-setup.ts:26 | a string without upper-case letters, like a generated UUID, is its own key |
| Collation.KeyAppend | test/global-setup.ts:26 | the key of a concatenation is the concatenation of the keys |
| Collation.KeyIsFoldedString | test/global-setup.ts:26 | a string that folds another character by character is its key |
| Collation.EmailSpellingsCollide | src/app/domains/user/user.entity.ts:13-14 | `Ann@x.com` and `ann@x.com` are different strings with the same key, so the unique index treats them as one email |
| UserStore.Patched | src/app/domains/user/repositories/user.mysql.repository.ts:79-80 | the update sets exactly the fields it carries and never touches the id or the password |
| UserStore.PatchIsIdempotent | src/app/domains/user/repositories/user.mysql.repository.ts:79-82 | applying the same update twice equals applying it once |
| UserStore.EmptyPatchIsIdentity | src/app/domains/user/repositories/user.mysql.repository.ts:79-82 | an update with no fields leaves the row unchanged |
| UserStore.OwnerOf | src/app/domains/user/repositories/user.mysql.repository.ts:25-38 | a row is found by email iff some row's email equals it up to case, and the row found is stored under the key of its own id with such an email |
| UserStore.OwnerIgnoresCase | src/app/domains/user/repositories/user.mysql.repository.ts:25-38 | two spellings of an email that differ only in case find the same row, or none alike |
| UserStore.ById | src/app/domains/user/repositories/user.mysql.repository.ts:40-45 | a row is found by id iff its key is stored, whatever the case of the id sent; the row comes back without its password |
| UserStore.Without | src/app/domains/user/repositories/user.mysql.repository.ts:75-77 | removing an id from the listing order keeps every other id and keeps the order free of repeats |
| UserStore.WithoutAbsent | src/app/domains/user/repositories/user.mysql.repository.ts:75-77 | deleting an id that is not stored leaves the listing order as it was |
| UserStore.WithoutAt | src/app/domains/user/repositories/user.mysql.repository.ts:75-77 | deleting the id at index i drops exactly that entry and keeps the others in their order |
| UserStore.ListingOf | src/app/domains/user/repositories/user.mysql.repository.ts:51-57 | the listing has one entry per id in order, each the row without its password |
| UserStore.ListingAfterInsert | src/app/domains/user/repositories/user.mysql.repository.ts:20-23 | a newly created user comes first in the createdAt-descending listing, and the rest of the listing is unchanged |
| UserStore.ListingAfterDelete | src/app/domains/user/repositories/user.mysql.repository.ts:75-77 | after a delete the createdAt-descending listing is the old one without the deleted row's entry, every other entry in its old order |
| UserStore.ListingIdAt | src/app/domains/user/repositories/user.mysql.repository.ts:51-57 | listing entry a is the row keyed by the a-th key of the order |
| UserStore.PagesShareNoIds | src/app/domains/user/repositories/user.mysql.repository.ts:52-57 | under the fixed order, two different pages share no user: their ids differ even up to case |
| UserStore.UserMySQLRepository.CreateUser | src/app/domains/user/repositories/user.mysql.repository.ts:20-23 | succeeds iff neither the id nor the email is in use up to case; then exactly one row is added under the id's key, put first in the order and returned; otherwise nothing changes; emails stay unique up to case |
| UserStore.UserMySQLRepository.FindUserByEmail | src/app/domains/user/repositories/user.mysql.repository.ts:25-38 | returns the full row (password included) whose email equals the one given up to case, or none when no row has it |
| UserStore.UserMySQLRepository.FindUserById | src/app/domains/user/repositories/user.mysql.repository.ts:40-45 | returns the row whose id equals the one given up to case, without its password, or none exactly when there is no such row |
| UserStore.UserMySQLRepository.FindAll | src/app/domains/user/repositories/user.mysql.repository.ts:47-73 | returns the requested page of the newest-first listing and its metadata |
| UserStore.UserMySQLRepository.DeleteUser | src/app/domains/user/repositories/user.mysql.repository.ts:75-77 | removes exactly the row whose id equals the one given up to case, from the table and the order, and nothing else |
| UserStore.UserMySQLRepository.UpdateUser | src/app/domains/user/repositories/user.mysql.repository.ts:79-82 | a missing id changes nothing and reads back none; an email another row holds, in any case, is refused with no change; otherwise only the given fields of that row change and the row is read back without its password |
| Users.Found | src/app/domains/user/user.service.ts:40-67 | absent user: not-found error whose message is `User with ID <id> not found`; present: the stored record |
| Users.DeleteCheckAsWritten | src/app/domains/user/user.service.ts:74-88 | the checks as written: pass iff the target exists, the two id strings differ character by character, and the requester is an admin; not-found iff absent; self-deletion iff present and the same string; otherwise a non-admin gets the permission error `You do not have permission to delete users` |
| Users.SelfDeletionBypassAsWritten | src/app/domains/user/user.service.ts:74-90 | an admin sending another spelling of their own id passes the check as written; the lookup finds the admin's own row and the delete removes it |
| Users.UpperCasedUuidIsAnotherSpelling | src/app/controllers/users/dto/request.dto.ts:80 | the upper-cased form of a generated UUID is a different string with the same key |
| Users.DeleteCheck | src/app/domains/user/user.service.ts:74-88 | the checks as intended: pass iff the target exists, is not the requester under any spelling of the id, and the requester is an admin; not-found iff absent, checked first; self-deletion iff present and the same account; permission error, with the text `You do not have permission to delete users`, iff present, another account and not admin |
| Users.DeleteMissingIsNotFound | src/app/domains/user/user.service.ts:74-78 | a missing target is reported as not found, whoever asks and with whatever role |
| Users.SelfDeletionRefusedEvenForAdmin | src/app/domains/user/user.service.ts:80-82 | an admin deleting themselves is refused with `You cannot delete yourself` |
| Users.UserNeverDeletes | src/app/domains/user/user.service.ts:84-88 | a USER requester is always refused |
| Users.UpdateViolations | src/app/controllers/users/users.controller.ts:129-153 | not-found iff the target is absent; unauthorized iff a non-admin updates another account or changes the role; email-in-use iff the email is held by another account; no other error |
| Users.RoleChange | src/app/controllers/users/user.controller.spec.ts:599-609 | a change needs a target and a role in the update; re-sending the current role is no change |
| Users.RoleChangeIffPatchChangesRole | src/app/controllers/users/user.controller.spec.ts:599-609 | an update is a role change exactly when the stored role after it differs from the one before |
| Users.EmailHolder | src/app/domains/user/repositories/user.mysql.repository.ts:25-38 | the key of the account holding the requested email, up to case, or none when the email is free |
| Users.UpdateOwnProfileAllowed | src/app/controllers/users/user.controller.spec.ts:539-559 | a user may change their own name and email to a free one, and the role is not touched |
| Users.AdminUpdatesAnyNameAndRole | src/app/controllers/users/user.controller.spec.ts:561-580 | an admin may change any user's name and role |
| Users.UserUpdatingOtherRefused | src/app/controllers/users/user.controller.spec.ts:582-597 | a USER updating another user fails only the authorization check |
| Users.UserChangingOwnRoleRefused | src/app/controllers/users/user.controller.spec.ts:599-609 | a USER changing their own role is refused with `You are not authorized to update this user` |
| Users.UpdateToTakenEmailRefused | src/app/controllers/users/user.controller.spec.ts:637-657 | an update to an email held by another account fails only with email-in-use for that email |
| Users.AdminUpdatingMissingUserNotFound | src/app/controllers/users/user.controller.spec.ts:611-623 | updating a non-existent id fails only with not-found |
| Users.UsersService.CreateUser | src/app/domains/user/user.service.ts:21-23 | the repository's creation, unchanged |
| Users.UsersService.FindUserByEmail | src/app/domains/user/user.service.ts:25-27 | the repository's lookup by email, unchanged |
| Users.UsersService.UserMe | src/app/domains/user/user.service.ts:29-31 | the requester's own record without password, if present |
| Users.UsersService.FindAll | src/app/domains/user/user.service.ts:33-38 | the repository's page, unchanged |
| Users.UsersService.FindUserById | src/app/domains/user/user.service.ts:54-67 | succeeds iff the id is stored up to case, returning the stored record; otherwise not-found |
| Users.UsersService.FindById | src/app/domains/user/user.service.ts:40-52 | the same lookup as findUserById |
| Users.UsersService.DeleteUser | src/app/domains/user/user.service.ts:69-91 | the outcome is the intended ordered checks on the stored target; on success exactly the target is removed, on any failure nothing changes; the requester's own row is never removed; the store invariant holds |
| Users.UsersService.UpdateUser | src/app/controllers/users/users.controller.ts:129-153 | succeeds iff no check fails; a refusal names a failing check and changes nothing; success changes only the given fields of the target and returns the record read back |
| Auth.DuplicateEmailMessageAsWritten | src/app/domains/auth/auth.service.ts:88-94 | the conflict text as written (see Findings) |
| Auth.DuplicateEmailMessageOmitsEmail | src/app/domains/auth/auth.service.ts:92 | for every email, the text as written differs from `Email <email> is already in use` and does not contain the email in that shape |
| Auth.ErrorMessage | src/app/domains/auth/auth.errors.ts:8-20 | invalid credentials read `Invalid credentials provided`; a conflict reads `Email <email> is already in use`, and the email can be read back |
| Auth.Status | src/app/controllers/auth/auth.controller.ts:44-73 | invalid credentials 401, email conflict 409, an uncaught storage error 500 |
| Auth.CreateSignInToken | src/app/domains/auth/auth.service.ts:70-86 | the token's claims are exactly the given user id and email |
| Auth.SignInCheck | src/app/domains/auth/auth.service.ts:50-68 | succeeds iff the email is registered and the password verifies against its hash; every failure is the same InvalidCredentials with the same text; success returns the stored user and a token over its id and email |
| Auth.SignInFailuresIndistinguishable | src/app/domains/auth/auth.service.ts:55-63 | an unknown email and a wrong password give identical results |
| Auth.SignUpThenSignIn | src/app/domains/auth/auth.service.ts:25-68 | after a sign-up with a fresh email, the store invariant holds, the email is taken for a second sign-up, sign-in with the same password returns the new user and a token naming its id, and a wrong password fails with InvalidCredentials |
| Auth.SignInIgnoresEmailCase | src/app/domains/auth/auth.service.ts:50-94 | spellings of one email that differ only in case are refused alike by the duplicate check and sign in alike |
| Auth.AuthService.CheckDuplicateEmail | src/app/domains/auth/auth.service.ts:88-94 | fails with a conflict for that email iff the email is registered in any case |
| Auth.AuthService.SignUp | src/app/domains/auth/auth.service.ts:25-48 | an email registered in any case fails with a conflict and changes nothing; a refused write after that check is a storage failure that changes nothing; otherwise exactly one user is added with the given name, email, role and the hash of the password, and the token's claims are the saved id and email |
| Auth.AuthService.SignIn | src/app/domains/auth/auth.service.ts:50-68 | the sign-in check applied to the user registered under that email in any case; nothing is written |
| UsersApi.MinimumRole | src/app/controllers/users/users.controller.ts:54-129 | list, get-by-id and delete require ADMIN; /me and update declare no minimum role |
| UsersApi.Admits | src/common/guards/has-minimum-role.guard.ts:16-34 | a route's guard admits a caller iff the route declares no minimum role or the caller is an admin |
| UsersApi.RouteAccess | src/app/controllers/users/users.controller.ts:54-129 | an admin passes every route's guard; a USER passes only /me and update |
| UsersApi.ListQuery | src/app/controllers/users/users.controller.ts:69 | an omitted limit is 10 and an omitted page is 1; given values are kept |
| UsersApi.Status | src/app/controllers/users/users.controller.ts:84-152 | not-found 404; self-deletion, insufficient permissions and unauthorized update 403; email in use 409 |
| UsersApi.UserResponseStatus | src/app/controllers/users/users.controller.ts:83-153 | GET /:id and PATCH /:id answer 200 exactly for a user returned, else the status of the service's error |
| UsersApi.DeleteStatusAsWritten | src/app/controllers/users/users.controller.ts:94-119 | as written: a caller below ADMIN gets 403 from the guard; otherwise 204 iff the as-written delete checks (exact id comparison) pass, else the failing check's status |
| UsersApi.OwnIdUpperCasedAnswers204AsWritten | src/app/domains/user/user.service.ts:80 | an admin deleting their own account through the upper-cased id gets 204 as written, where the intended status is 403 |
| UsersApi.DeleteStatus | src/app/controllers/users/users.controller.ts:94-119 | the intended statuses: a caller below ADMIN gets 403 from the guard; otherwise 204 iff the intended delete checks pass, else the failing check's status |
| UsersApi.DeleteRouteNeverReportsMissingPermission | src/app/controllers/users/users.controller.ts:99-106 | behind the admin-only guard the service's permission check on delete never fails |
| UsersApi.DeleteStatuses | src/app/controllers/users/users.controller.ts:94-119 | the intended statuses: a missing target gives 404; an admin deleting themselves, under any spelling of the id, gives 403 (as written only for the exact spelling); a USER gives 403; an admin deleting another existing account gives 204 |
| UsersApi.RefusedUpdateStatus | src/app/controllers/users/user.controller.spec.ts:582-657 | when one check fails, the PATCH status is 403 for an unauthorized update, 409 for a taken email and 404 for a missing user |

## Findings

| source | as written | input that shows it | evidently intended | confidence | as-written member | corrected member |
|---|---|---|---|---|---|---|
| src/app/domains/auth/auth.service.ts:92 | the duplicate-email conflict carries the text `Email already in use.` | sign up twice with `newtest@gmail.com` | `Email newtest@gmail.com is already in use`, which the test at src/app/controllers/auth/auth.controller.spec.ts:74-76 and `EmailAlreadyExistsError` (src/app/domains/auth/auth.errors.ts:15-19) both state | high; not executed | Auth.DuplicateEmailMessageAsWritten (shown by Auth.DuplicateEmailMessageOmitsEmail) | Auth.ErrorMessage |
| src/app/domains/user/user.service.ts:80 | the self-deletion check compares the two id strings with `===`, while the lookup before it and the delete after it compare under the database's case-insensitive collation | an admin with id `3fa85f64-5717-4562-b3fc-2c963f66afa6` sends DELETE /users/3FA85F64-5717-4562-B3FC-2C963F66AFA6, which `IsUUID('all')` accepts: the target is found, the check passes, and the admin's own row is deleted | an admin can never delete their own account, whatever the spelling of the id | medium (depends on the database running a case-insensitive collation, as the test database does); not executed | Users.DeleteCheckAsWritten and UsersApi.DeleteStatusAsWritten (shown by Users.SelfDeletionBypassAsWritten, Users.UpperCasedUuidIsAnotherSpelling and UsersApi.OwnIdUpperCasedAnswers204AsWritten) | Users.DeleteCheck, used by Users.UsersService.DeleteUser, UsersApi.DeleteStatus and UsersApi.DeleteStatuses |

## Left out

- Token signing and verification (JSON Web Token, RFC 7519) are not modelled. This covers the signature, the `exp` expiry check of section 4.1.4 of RFC 7519, and the Bearer extraction of section 2.1 of RFC 6750. The JWT strategy's `validate` (a payload whose email no longer exists is refused) is also not modelled. A token is modelled as its claims.
- Argon2's memory-hard hashing and its constant-time comparison cannot be expressed. The hash is an ideal digest.
- Creation and update timestamps are opaque. The createdAt-descending order is modelled as newest insertion first, with rows created in the same second ordered by insertion. The database leaves such ties unordered, so its pages can overlap or skip rows (user.seed.ts:38 saves its users in one batch, and user.controller.spec.ts:58 creates its users concurrently). UserStore.PagesShareNoIds holds only under the model's strict order.
- The collation is modelled as ASCII case folding. Its other equivalences are not modelled: accents, other scripts' cases, and trailing-space padding.
- Input validation is framework parsing and is not modelled: the UUID format, email format, password length, role enum and the limit range [1, 100].
- UserStore.UserMySQLRepository.FindAll: page and limit are modelled as whole numbers ≥ 1 (hence its requires). Fractional values, which `@IsNumber` at src/app/controllers/users/dto/request.dto.ts:27 and :39 would accept, are not modelled. Neither is whether those class-validator rules run at all: the global pipe at src/main.module.ts:22 is the zod pipe.
- Concurrency is not modelled: concurrent deletes, and the check-then-insert race of sign-up. The model is sequential, and email uniqueness is a store invariant.
- Logging in the services, the error classes' `name` fields, Swagger, modules, database configuration, seeds and bootstrap are not modelled.
- The older `UsersRepository` class is not part of this model. Only the `IUserRepository` semantics are modelled.
- Users.UsersService.UpdateUser: does not state which failing check is reported when several fail. Neither the source nor its tests fix that order.
- UserStore.UserMySQLRepository.UpdateUser: an update with no fields is modelled as a write that changes nothing. How the ORM treats an empty update is not modelled.
