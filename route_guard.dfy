/** The role guard the router wraps around protected pages: once the auth
    listener has answered, a signed-in account is let in when no role is
    required or its stored role is the required one; until then only the
    loading view is shown. */
module RouteGuard {
  import opened Text
  import opened Store

  datatype View = Loading | RedirectHome | Children

  /** What the guard holds: whether it is still checking, and the verdict. */
  datatype GuardState = GuardState(checking: bool, allowed: bool)

  const Initial := GuardState(true, false)

  /** `!requiredRole`: no role given, or the empty string. */
  predicate NoRoleRequired(requiredRole: Option<string>) {
    requiredRole.None? || requiredRole.value == []
  }

  /** The decision of the auth callback. No account: denied. No role
      required: allowed. Otherwise allowed exactly when the stored role is
      the required one; a missing profile reads as no role and a failed
      lookup denies. */
  function Allowed(user: Option<AuthUser>, requiredRole: Option<string>, lookup: ProfileLookup): (r: bool)
    ensures user.None? ==> !r
    ensures user.Some? && NoRoleRequired(requiredRole) ==> r
    ensures r <==>
      user.Some? && (NoRoleRequired(requiredRole) || (lookup.ProfileFound? && requiredRole == Some(lookup.profile.role)))
    ensures !NoRoleRequired(requiredRole) && !lookup.ProfileFound? ==> !r
  {
    if user.None? then false
    else if NoRoleRequired(requiredRole) then true
    else match lookup
      case ProfileFound(p) => Some(p.role) == requiredRole
      case NoProfile => false
      case LookupFailed(_) => false
  }

  /** The callback's effect: the verdict is recorded and checking ends. */
  function Settle(user: Option<AuthUser>, requiredRole: Option<string>, lookup: ProfileLookup): (s: GuardState)
    ensures !s.checking
    ensures s.allowed == Allowed(user, requiredRole, lookup)
  {
    GuardState(false, Allowed(user, requiredRole, lookup))
  }

  /** The render: loading while checking, home when denied, the page
      otherwise. */
  function Render(s: GuardState): (v: View)
    ensures v == Loading <==> s.checking
    ensures v == Children <==> !s.checking && s.allowed
    ensures v == RedirectHome <==> !s.checking && !s.allowed
  {
    if s.checking then Loading
    else if !s.allowed then RedirectHome
    else Children
  }

  /** Before the listener answers nothing but the loading view is shown;
      after it, the page is shown exactly to an allowed account and
      everyone else is sent home. */
  lemma GuardLifecycle(user: Option<AuthUser>, requiredRole: Option<string>, lookup: ProfileLookup)
    ensures Render(Initial) == Loading
    ensures Render(Settle(user, requiredRole, lookup)) == Children <==>
      user.Some? && (NoRoleRequired(requiredRole) || (lookup.ProfileFound? && requiredRole == Some(lookup.profile.role)))
    ensures user.None? ==> Render(Settle(user, requiredRole, lookup)) == RedirectHome
  {
  }
}
