/**
 * UsersService: the policy checks guarding deletion and update of users,
 * and the lookups that turn a missing user into a not-found error. The
 * service holds the user repository and changes only that.
 */
module Users {
  import opened Wrappers
  import Roles
  import opened UserErrors
  import opened Pagination
  import opened UserStore
  import opened Collation

  /** The text of the permission error deleteUser raises for a non-admin. */
  const DeletePermissionMessage: string := "You do not have permission to delete users"

  /** findUserById / findById: a missing user becomes a not-found error. */
  function Found(lookup: Option<PublicUser>, id: Id): (r: Result<PublicUser, UserError>)
    ensures r.Failure? <==> lookup.None?
    ensures r.Failure? ==> r.error == UserNotFound(id) && Message(r.error) == NotFoundPrefix + id + NotFoundSuffix
    ensures r.Success? ==> r.value == lookup.value
  {
    if lookup.None? then Failure(UserNotFound(id)) else Success(lookup.value)
  }

  /**
   * The checks deleteUser runs as written: the target exists (looked up
   * under the collation), it is not the requester (compared character by
   * character), the requester is an admin.
   */
  function DeleteCheckAsWritten(target: Option<PublicUser>, requestingId: Id, targetId: Id, role: Roles.Role): (o: Outcome<UserError>)
    ensures o.Pass? <==> target.Some? && requestingId != targetId && role == Roles.Admin
    ensures o == Fail(UserNotFound(targetId)) <==> target.None?
    ensures o == Fail(SelfDeletion) <==> target.Some? && requestingId == targetId
    ensures o == Fail(InsufficientPermissions(DeletePermissionMessage)) <==>
      target.Some? && requestingId != targetId && role != Roles.Admin
  {
    if target.None? then Fail(UserNotFound(targetId))
    else if requestingId == targetId then Fail(SelfDeletion)
    else if role != Roles.Admin then Fail(InsufficientPermissions(DeletePermissionMessage))
    else Pass
  }

  /**
   * An admin who sends another spelling of their own id (its letters
   * upper-cased) passes the self-deletion check as written, while the
   * lookup, and then the delete, which compare under the collation, reach
   * the admin's own row.
   */
  lemma SelfDeletionBypassAsWritten(users: map<Id, User>, order: seq<Id>, own: Id, spelled: Id)
    requires Consistent(users, order)
    requires own in users && users[own].role == Roles.Admin
    requires Key(spelled) == own && spelled != users[own].id
    ensures ById(users, spelled) == Some(Public(users[own]))
    ensures DeleteCheckAsWritten(ById(users, spelled), users[own].id, spelled, Roles.Admin) == Pass
    ensures own !in users - {Key(spelled)}
  {
  }

  /** Such a spelling exists for every id with a letter, as UUIDs have. */
  lemma UpperCasedUuidIsAnotherSpelling()
    ensures var own := "3fa85f64-5717-4562-b3fc-2c963f66afa6";
      var spelled := "3FA85F64-5717-4562-B3FC-2C963F66AFA6";
      Key(own) == own && Key(spelled) == own && spelled != own
  {
    var g1, g2, g3, g4, g5 := "3FA85F64-", "5717-", "4562-", "B3FC-", "2C963F66AFA6";
    var l1, l2, l3, l4, l5 := "3fa85f64-", "5717-", "4562-", "b3fc-", "2c963f66afa6";
    assert "3FA85F64-5717-4562-B3FC-2C963F66AFA6" == g1 + g2 + g3 + g4 + g5;
    assert "3fa85f64-5717-4562-b3fc-2c963f66afa6" == l1 + l2 + l3 + l4 + l5;
    KeyIsFoldedString(g1, l1);
    KeyIsFoldedString(g2, l2);
    KeyIsFoldedString(g3, l3);
    KeyIsFoldedString(g4, l4);
    KeyIsFoldedString(g5, l5);
    KeyIsFoldedString(l1, l1);
    KeyIsFoldedString(l4, l4);
    KeyIsFoldedString(l5, l5);
    KeyOfGroups(g1, g2, g3, g4, g5);
    KeyOfGroups(l1, l2, l3, l4, l5);
  }

  /** The key of a UUID is the concatenation of the keys of its groups. */
  lemma KeyOfGroups(a: string, b: string, c: string, d: string, e: string)
    ensures Key(a + b + c + d + e) == Key(a) + Key(b) + Key(c) + Key(d) + Key(e)
  {
    KeyAppend(a + b + c + d, e);
    KeyAppend(a + b + c, d);
    KeyAppend(a + b, c);
    KeyAppend(a, b);
  }

  /**
   * The checks deleteUser is meant to run before removing anything, in
   * order: the target exists, it is not the requester under any spelling
   * of the requester's id, the requester is an admin.
   */
  function DeleteCheck(target: Option<PublicUser>, requestingId: Id, targetId: Id, role: Roles.Role): (o: Outcome<UserError>)
    ensures o.Pass? <==> target.Some? && Key(requestingId) != Key(targetId) && role == Roles.Admin
    ensures o == Fail(UserNotFound(targetId)) <==> target.None?
    ensures o == Fail(SelfDeletion) <==> target.Some? && Key(requestingId) == Key(targetId)
    ensures (o.Fail? && o.error.InsufficientPermissions?) <==>
      target.Some? && Key(requestingId) != Key(targetId) && role != Roles.Admin
    ensures o.Fail? && o.error.InsufficientPermissions? ==> o.error.message == DeletePermissionMessage
  {
    if target.None? then Fail(UserNotFound(targetId))
    else if Key(requestingId) == Key(targetId) then Fail(SelfDeletion)
    else if role != Roles.Admin then Fail(InsufficientPermissions(DeletePermissionMessage))
    else Pass
  }

  /** Existence is checked first: a missing target is reported whoever asks. */
  lemma DeleteMissingIsNotFound(requestingId: Id, targetId: Id, role: Roles.Role)
    ensures DeleteCheck(None, requestingId, targetId, role) == Fail(UserNotFound(targetId))
  {
  }

  /** Deleting oneself is refused, even for an admin. */
  lemma SelfDeletionRefusedEvenForAdmin(target: PublicUser, id: Id)
    ensures DeleteCheck(Some(target), id, id, Roles.Admin) == Fail(SelfDeletion)
    ensures Message(DeleteCheck(Some(target), id, id, Roles.Admin).error) == "You cannot delete yourself"
  {
  }

  /** A plain user may never delete anybody. */
  lemma UserNeverDeletes(target: Option<PublicUser>, requestingId: Id, targetId: Id)
    ensures DeleteCheck(target, requestingId, targetId, Roles.User).Fail?
  {
  }

  /**
   * Every check that an update by `requestingId` (with role `role`) of
   * `targetId` fails. `emailHolder` is the key of the account that already
   * holds the requested email, if any. Ids are compared under the collation.
   */
  function UpdateViolations(target: Option<PublicUser>, emailHolder: Option<Id>, requestingId: Id, targetId: Id,
                            patch: UpdateUserParams, role: Roles.Role): (v: set<UserError>)
    ensures UserNotFound(targetId) in v <==> target.None?
    ensures UnauthorizedUpdate in v <==>
      role != Roles.Admin && (Key(requestingId) != Key(targetId) || RoleChange(target, patch))
    ensures (exists e :: EmailInUse(e) in v) <==>
      patch.email.Some? && emailHolder.Some? && emailHolder.value != Key(targetId)
    ensures forall e :: e in v ==> e == UserNotFound(targetId) || e == UnauthorizedUpdate || (patch.email.Some? && e == EmailInUse(patch.email.value))
  {
    (if target.None? then {UserNotFound(targetId)} else {})
    + (if role != Roles.Admin && (Key(requestingId) != Key(targetId) || RoleChange(target, patch))
       then {UnauthorizedUpdate} else {})
    + (if patch.email.Some? && emailHolder.Some? && emailHolder.value != Key(targetId)
       then {EmailInUse(patch.email.value)} else {})
  }

  /**
   * The update gives the target a role other than its current one; sending
   * the role the target already has is no change.
   */
  predicate RoleChange(target: Option<PublicUser>, patch: UpdateUserParams): (changed: bool)
    ensures changed ==> target.Some? && patch.role.Some?
    ensures target.Some? && patch.role == Some(target.value.role) ==> !changed
  {
    target.Some? && patch.role.Some? && patch.role.value != target.value.role
  }

  /** A role change is exactly an update after which the stored role differs. */
  lemma RoleChangeIffPatchChangesRole(u: User, patch: UpdateUserParams)
    ensures RoleChange(Some(Public(u)), patch) <==> Patched(u, patch).role != u.role
  {
  }

  /** The key of the account holding the email an update asks for, in any case, if any. */
  ghost function EmailHolder(users: map<Id, User>, patch: UpdateUserParams): (h: Option<Id>)
    requires KeyedById(users)
    ensures h.Some? <==> patch.email.Some? && EmailTaken(users, patch.email.value)
    ensures h.Some? ==> h.value in users && Key(users[h.value].email) == Key(patch.email.value)
  {
    if patch.email.Some? && EmailTaken(users, patch.email.value)
    then Some(Key(OwnerOf(users, patch.email.value).value.id))
    else None
  }

  lemma UpdateOwnProfileAllowed(target: PublicUser, id: Id, name: string, email: string, emailHolder: Option<Id>)
    requires target.id == id
    requires emailHolder.None? || emailHolder == Some(Key(id))
    ensures UpdateViolations(Some(target), emailHolder, id, id, UpdateUserParams(Some(name), Some(email), None), Roles.User) == {}
  {
  }

  lemma AdminUpdatesAnyNameAndRole(target: PublicUser, adminId: Id, targetId: Id, name: string, role: Roles.Role)
    ensures UpdateViolations(Some(target), None, adminId, targetId, UpdateUserParams(Some(name), None, Some(role)), Roles.Admin) == {}
  {
  }

  lemma UserUpdatingOtherRefused(target: PublicUser, requestingId: Id, targetId: Id, patch: UpdateUserParams)
    requires Key(requestingId) != Key(targetId)
    requires patch.email.None?
    ensures UpdateViolations(Some(target), None, requestingId, targetId, patch, Roles.User) == {UnauthorizedUpdate}
  {
  }

  lemma UserChangingOwnRoleRefused(target: PublicUser, id: Id)
    requires target.role == Roles.User
    ensures UpdateViolations(Some(target), None, id, id, UpdateUserParams(None, None, Some(Roles.Admin)), Roles.User) == {UnauthorizedUpdate}
    ensures Message(UnauthorizedUpdate) == "You are not authorized to update this user"
  {
  }

  lemma UpdateToTakenEmailRefused(target: PublicUser, id: Id, other: Id, email: string)
    requires other != Key(id)
    ensures UpdateViolations(Some(target), Some(other), id, id, UpdateUserParams(None, Some(email), None), Roles.User) == {EmailInUse(email)}
  {
  }

  lemma AdminUpdatingMissingUserNotFound(adminId: Id, targetId: Id, name: string)
    ensures UpdateViolations(None, None, adminId, targetId, UpdateUserParams(Some(name), None, None), Roles.Admin) == {UserNotFound(targetId)}
  {
  }

  /** UsersService over its repository. */
  class UsersService {
    const usersRepository: UserMySQLRepository

    ghost predicate Valid()
      reads this, usersRepository
    {
      usersRepository.Valid()
    }

    constructor (repository: UserMySQLRepository)
      ensures usersRepository == repository
    {
      usersRepository := repository;
    }

    /** createUser: passed to the repository unchanged. */
    method CreateUser(id: Id, params: CreateUserParams) returns (r: Result<User, StoreError>)
      requires Valid()
      modifies usersRepository
      ensures Valid()
      ensures r.Success? <==> Key(id) !in old(usersRepository.users) && !EmailTaken(old(usersRepository.users), params.email)
      ensures r.Success? ==>
        && r.value == User(id, params.name, params.email, params.password, params.role)
        && usersRepository.users == old(usersRepository.users)[Key(id) := r.value]
        && usersRepository.order == [Key(id)] + old(usersRepository.order)
      ensures r.Failure? ==> usersRepository.users == old(usersRepository.users) && usersRepository.order == old(usersRepository.order)
    {
      r := usersRepository.CreateUser(id, params);
    }

    /** findUserByEmail: passed to the repository unchanged. */
    method FindUserByEmail(email: string) returns (r: Option<User>)
      requires Valid()
      ensures r == OwnerOf(usersRepository.users, email)
      ensures r.Some? ==> Key(r.value.email) == Key(email)
    {
      r := usersRepository.FindUserByEmail(email);
    }

    /** userMe: the requester's own record, if it still exists. */
    method UserMe(userId: Id) returns (r: Option<PublicUser>)
      requires Valid()
      ensures r == ById(usersRepository.users, userId)
      ensures r.Some? ==> Key(r.value.id) == Key(userId)
    {
      r := usersRepository.FindUserById(userId);
    }

    /** findAll: passed to the repository unchanged. */
    method FindAll(limit: nat, page: nat) returns (r: Paginated<PublicUser>)
      requires Valid()
      requires limit >= 1 && page >= 1
      ensures r == Paginate(ListingOf(usersRepository.users, usersRepository.order), limit, page)
    {
      r := usersRepository.FindAll(limit, page);
    }

    /** findUserById: the stored record, or not-found. */
    method FindUserById(userId: Id) returns (r: Result<PublicUser, UserError>)
      requires Valid()
      ensures r == Found(ById(usersRepository.users, userId), userId)
      ensures r.Success? <==> Key(userId) in usersRepository.users
      ensures r.Success? ==> r.value == Public(usersRepository.users[Key(userId)])
    {
      var user := usersRepository.FindUserById(userId);
      r := Found(user, userId);
    }

    /** findById: the same lookup as findUserById. */
    method FindById(userId: Id) returns (r: Result<PublicUser, UserError>)
      requires Valid()
      ensures r == Found(ById(usersRepository.users, userId), userId)
      ensures r.Success? <==> Key(userId) in usersRepository.users
    {
      var user := usersRepository.FindUserById(userId);
      r := Found(user, userId);
    }

    /**
     * deleteUser: run the checks in order; only when all pass is exactly
     * the target removed. A failed check changes nothing, and the
     * requester's own row is never removed.
     */
    method DeleteUser(requestingId: Id, targetId: Id, role: Roles.Role) returns (o: Outcome<UserError>)
      requires Valid()
      modifies usersRepository
      ensures Valid()
      ensures o == DeleteCheck(ById(old(usersRepository.users), targetId), requestingId, targetId, role)
      ensures o.Pass? ==>
        && usersRepository.users == old(usersRepository.users) - {Key(targetId)}
        && usersRepository.order == Without(old(usersRepository.order), Key(targetId))
      ensures o.Fail? ==>
        usersRepository.users == old(usersRepository.users) && usersRepository.order == old(usersRepository.order)
      ensures Key(requestingId) in old(usersRepository.users) ==> Key(requestingId) in usersRepository.users
    {
      var userToDelete := usersRepository.FindUserById(targetId);
      o := DeleteCheck(userToDelete, requestingId, targetId, role);
      if o.Pass? {
        usersRepository.DeleteUser(targetId);
      }
    }

    /**
     * updateUser: refuse with one of the failing checks, changing nothing;
     * when no check fails, set the patched fields of the target and return
     * the record as read back.
     */
    method UpdateUser(requestingId: Id, targetId: Id, patch: UpdateUserParams, role: Roles.Role)
      returns (r: Result<PublicUser, UserError>)
      requires Valid()
      modifies usersRepository
      ensures Valid()
      ensures usersRepository.order == old(usersRepository.order)
      ensures var violations := UpdateViolations(
                ById(old(usersRepository.users), targetId), EmailHolder(old(usersRepository.users), patch),
                requestingId, targetId, patch, role);
        && (r.Success? <==> violations == {})
        && (r.Failure? ==> r.error in violations && usersRepository.users == old(usersRepository.users))
      ensures r.Success? ==>
        && Key(targetId) in old(usersRepository.users)
        && usersRepository.users == old(usersRepository.users)[Key(targetId) := Patched(old(usersRepository.users)[Key(targetId)], patch)]
        && r.value == Public(usersRepository.users[Key(targetId)])
    {
      var target := usersRepository.FindUserById(targetId);
      if target.None? {
        return Failure(UserNotFound(targetId));
      }
      if role != Roles.Admin && (Key(requestingId) != Key(targetId) || RoleChange(target, patch)) {
        return Failure(UnauthorizedUpdate);
      }
      if patch.email.Some? {
        var holder := usersRepository.FindUserByEmail(patch.email.value);
        if holder.Some? && Key(holder.value.id) != Key(targetId) {
          return Failure(EmailInUse(patch.email.value));
        }
      }
      var updated := usersRepository.UpdateUser(targetId, patch);
      r := Success(updated.value.value);
    }
  }
}
