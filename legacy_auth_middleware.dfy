/**
 * The older `AuthMiddleware` under `src/middleware`: the same `authenticate` (modelled once, by
 * `AuthMiddlewares.AuthMiddleware.Authenticate`) and an `authorize(...roles)` that checks role
 * membership instead of asking a permission strategy.
 */
module LegacyAuthMiddleware {
  import opened Common
  import opened Models
  import opened AuthMiddlewares
  import Permission

  /** `authorize(...roles)`: 401 without a user; 403 when a non-empty role list omits the user's role. */
  function RoleAuthorization(roles: seq<UserRole>, user: Option<User>): (n: Next)
    ensures n == Fail(Unauthorized) <==> user.None?
    ensures n == Fail(Forbidden) <==> user.Some? && |roles| > 0 && user.value.role !in roles
    ensures n == Continue <==> user.Some? && (|roles| == 0 || user.value.role in roles)
  {
    if user.None? then Fail(Unauthorized)
    else if |roles| > 0 && user.value.role !in roles then Fail(Forbidden)
    else Continue
  }

  /** With no roles listed every authenticated user passes; adding roles to a non-empty list never rejects a user it admitted. */
  lemma RolesNarrowAccess(roles: seq<UserRole>, more: seq<UserRole>, user: User)
    ensures RoleAuthorization([], Some(user)) == Continue
    ensures |roles| > 0 && RoleAuthorization(roles, Some(user)) == Continue ==>
              RoleAuthorization(roles + more, Some(user)) == Continue
  {
  }

  /**
   * A role list is the role-based strategy once it lists exactly the roles `Can` allows the action:
   * `authorize(Admin, Editor)` guards an edit as `authorize('topic:update')` does.
   */
  lemma RoleListAsStrategy(roles: seq<UserRole>, action: Permission.Action, user: User)
    requires |roles| > 0 && forall r :: r in roles <==> Permission.Can(r, action)
    ensures RoleAuthorization(roles, Some(user)) == Authorization(RoleBased(), Some(user), action)
  {
  }
}
