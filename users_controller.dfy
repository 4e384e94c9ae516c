/**
 * UsersController: the minimum role each route declares, the default
 * page request, and the HTTP status each outcome of the user service
 * reaches the client with.
 */
module UsersApi {
  import opened Wrappers
  import Roles
  import opened UserErrors
  import opened UserStore
  import opened Users
  import opened Collation

  /** The routes of the controller: GET /me, GET /, GET /:id, DELETE /:id, PATCH /:id. */
  datatype Route = Me | List | GetById | Delete | Update

  /** The minimum role each route declares; routes without one are open to every signed-in user. */
  function MinimumRole(route: Route): (r: Option<Roles.Role>)
    ensures r.Some? <==> route == List || route == GetById || route == Delete
    ensures r.Some? ==> r.value == Roles.Admin
  {
    match route
    case List => Some(Roles.Admin)
    case GetById => Some(Roles.Admin)
    case Delete => Some(Roles.Admin)
    case Me => None
    case Update => None
  }

  /** The role guard in front of a route. */
  function Admits(route: Route, caller: Roles.Role): (ok: bool)
    ensures ok <==> MinimumRole(route).None? || caller == Roles.Admin
  {
    Roles.CanActivate(MinimumRole(route), caller)
  }

  /** An admin passes every route's guard; a plain user only those of /me and the update. */
  lemma RouteAccess(route: Route)
    ensures Admits(route, Roles.Admin)
    ensures Admits(route, Roles.User) <==> route == Me || route == Update
  {
  }

  const DefaultLimit: nat := 10
  const DefaultPage: nat := 1

  /** The page request of findAll: an omitted limit is 10 and an omitted page is 1. */
  function ListQuery(limit: Option<nat>, page: Option<nat>): (q: (nat, nat))
    ensures limit.None? ==> q.0 == 10
    ensures page.None? ==> q.1 == 1
    ensures limit.Some? ==> q.0 == limit.value
    ensures page.Some? ==> q.1 == page.value
  {
    (if limit.Some? then limit.value else DefaultLimit, if page.Some? then page.value else DefaultPage)
  }

  /** The status of a user error: not-found 404, a refused actor 403, a taken email 409. */
  function Status(e: UserError): (code: int)
    ensures code == 404 <==> e.UserNotFound?
    ensures code == 403 <==> e.SelfDeletion? || e.InsufficientPermissions? || e.UnauthorizedUpdate?
    ensures code == 409 <==> e.EmailInUse?
  {
    match e
    case UserNotFound(_) => 404
    case SelfDeletion => 403
    case InsufficientPermissions(_) => 403
    case UnauthorizedUpdate => 403
    case EmailInUse(_) => 409
  }

  /**
   * The status of the routes answering with one user record, GET /:id once
   * the guard has passed and PATCH /:id: 200, or the status of the error the
   * service reports.
   */
  function UserResponseStatus(r: Result<PublicUser, UserError>): (code: int)
    ensures r.Success? <==> code == 200
    ensures r.Failure? ==> code == Status(r.error)
  {
    if r.Success? then 200 else Status(r.error)
  }

  /** The status of DELETE /:id: 403 from the guard, else 204 or the service's error. */
  function DeleteStatus(callerId: Id, callerRole: Roles.Role, target: Option<PublicUser>, targetId: Id): (code: int)
    ensures !Admits(Delete, callerRole) ==> code == 403
    ensures Admits(Delete, callerRole) ==>
      var o := DeleteCheck(target, callerId, targetId, callerRole);
      (code == 204 <==> o.Pass?) && (o.Fail? ==> code == Status(o.error))
  {
    if !Admits(Delete, callerRole) then 403
    else
      var o := DeleteCheck(target, callerId, targetId, callerRole);
      if o.Pass? then 204 else Status(o.error)
  }

  /**
   * The status of DELETE /:id as written: the guard, then the service's
   * checks with the self-deletion test comparing the id strings exactly.
   */
  function DeleteStatusAsWritten(callerId: Id, callerRole: Roles.Role, target: Option<PublicUser>, targetId: Id): (code: int)
    ensures !Admits(Delete, callerRole) ==> code == 403
    ensures Admits(Delete, callerRole) ==>
      var o := DeleteCheckAsWritten(target, callerId, targetId, callerRole);
      (code == 204 <==> o.Pass?) && (o.Fail? ==> code == Status(o.error))
  {
    if !Admits(Delete, callerRole) then 403
    else
      var o := DeleteCheckAsWritten(target, callerId, targetId, callerRole);
      if o.Pass? then 204 else Status(o.error)
  }

  /**
   * An admin deleting their own account through the upper-cased spelling
   * of their id is answered 204 as written, where the intended answer is 403.
   */
  lemma OwnIdUpperCasedAnswers204AsWritten(target: PublicUser)
    ensures var own := "3fa85f64-5717-4562-b3fc-2c963f66afa6";
      var spelled := "3FA85F64-5717-4562-B3FC-2C963F66AFA6";
      && DeleteStatusAsWritten(own, Roles.Admin, Some(target), spelled) == 204
      && DeleteStatus(own, Roles.Admin, Some(target), spelled) == 403
  {
    UpperCasedUuidIsAnotherSpelling();
  }

  /**
   * Behind the admin-only guard the service's permission check on delete
   * can never fail: only an admin reaches it.
   */
  lemma DeleteRouteNeverReportsMissingPermission(callerId: Id, callerRole: Roles.Role, target: Option<PublicUser>, targetId: Id)
    requires Admits(Delete, callerRole)
    ensures var o := DeleteCheck(target, callerId, targetId, callerRole);
      !(o.Fail? && o.error.InsufficientPermissions?)
  {
  }

  /**
   * DELETE /:id: an absent target is 404, deleting oneself (under any
   * spelling of one's id) is 403 for an admin too, a plain user gets 403.
   */
  lemma DeleteStatuses(callerId: Id, target: PublicUser, targetId: Id)
    ensures DeleteStatus(callerId, Roles.Admin, None, targetId) == 404
    ensures DeleteStatus(callerId, Roles.Admin, Some(target), callerId) == 403
    ensures DeleteStatus(callerId, Roles.User, Some(target), targetId) == 403
    ensures Key(callerId) == Key(targetId) ==> DeleteStatus(callerId, Roles.Admin, Some(target), targetId) == 403
    ensures Key(callerId) != Key(targetId) ==> DeleteStatus(callerId, Roles.Admin, Some(target), targetId) == 204
  {
  }

  /**
   * PATCH /:id when exactly one check fails: the status is that check's,
   * 403 for an unauthorized update and 409 for a taken email.
   */
  lemma RefusedUpdateStatus(violations: set<UserError>, r: Result<PublicUser, UserError>)
    requires r.Failure? && r.error in violations
    ensures violations == {UnauthorizedUpdate} ==> UserResponseStatus(r) == 403
    ensures (exists e :: violations == {EmailInUse(e)}) ==> UserResponseStatus(r) == 409
    ensures (exists id :: violations == {UserNotFound(id)}) ==> UserResponseStatus(r) == 404
  {
  }
}
