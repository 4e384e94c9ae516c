/**
 * The role hierarchy and the minimum-role guard (HasMinimumRoleGuard).
 * A route may declare a minimum role; the guard admits a caller whose rank
 * is at least the rank of that role.
 */
module Roles {
  import opened Wrappers

  /** The closed role enumeration: 'admin' and 'user'. */
  datatype Role = Admin | User

  /** The rank table `roleHierarchy`: ADMIN = 2, USER = 1. */
  function Rank(r: Role): (n: nat)
    ensures 1 <= n <= 2
    ensures n == 2 <==> r == Admin
  {
    match r
    case Admin => 2
    case User => 1
  }

  /**
   * The role order stated without the rank table: an admin is at least
   * every role, and every role is at least a plain user.
   */
  predicate AtLeast(caller: Role, required: Role) {
    caller == Admin || required == User
  }

  /**
   * canActivate: with no minimum role declared the request passes;
   * otherwise it passes iff the caller's rank reaches the required rank.
   */
  function CanActivate(required: Option<Role>, caller: Role): (granted: bool)
    ensures required.None? ==> granted
    ensures required.Some? ==> (granted <==> AtLeast(caller, required.value))
  {
    if required.None? then true
    else Rank(caller) >= Rank(required.value)
  }

  lemma RankTable()
    ensures Rank(Admin) == 2 && Rank(User) == 1
    ensures Rank(Admin) > Rank(User)
  {
  }

  /** The rank order is a total order on roles. */
  lemma RoleOrderIsTotalOrder(a: Role, b: Role, c: Role)
    ensures AtLeast(a, a)
    ensures AtLeast(a, b) && AtLeast(b, a) ==> a == b
    ensures AtLeast(a, b) && AtLeast(b, c) ==> AtLeast(a, c)
    ensures AtLeast(a, b) || AtLeast(b, a)
  {
  }

  lemma NoMinimumRoleAdmitsEveryone(caller: Role)
    ensures CanActivate(None, caller)
  {
  }

  /** A caller always satisfies its own role as the minimum. */
  lemma GuardIsReflexive(r: Role)
    ensures CanActivate(Some(r), r)
  {
  }

  lemma UserDeniedWhenAdminRequired()
    ensures !CanActivate(Some(Admin), User)
  {
  }

  lemma AdminSatisfiesEveryRequirement(required: Option<Role>)
    ensures CanActivate(required, Admin)
  {
  }

  /** Being admitted for a minimum role implies being admitted for any lower one. */
  lemma GuardIsMonotone(caller: Role, required: Role, lower: Role)
    requires CanActivate(Some(required), caller)
    requires Rank(lower) <= Rank(required)
    ensures CanActivate(Some(lower), caller)
  {
  }
}
