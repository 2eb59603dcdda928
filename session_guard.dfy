/** The session guard built on the auth-state hook: a loading view while
    the session or the role is being read, home for a visitor, home for a
    role that is not the required one, and the page otherwise. */
module SessionGuard {
  import opened Text
  import opened Store
  import RouteGuard

  datatype View = LoadingSession | RedirectHome | Children

  /** The hook's session and the role read for it. `role` is `None` for
      JavaScript's `null`. */
  datatype Session = Session(user: Option<AuthUser>, loadingAuth: bool, role: Option<string>, loadingRole: bool)

  /** The state before the role effect has run. */
  function Initial(user: Option<AuthUser>, loadingAuth: bool): Session {
    Session(user, loadingAuth, None, true)
  }

  /** `fetchRole`: the stored role, or null for a missing profile or a
      failed lookup. */
  function RoleOf(lookup: ProfileLookup): (r: Option<string>)
    ensures r.Some? <==> lookup.ProfileFound?
    ensures r.Some? ==> r.value == lookup.profile.role
  {
    if lookup.ProfileFound? then Some(lookup.profile.role) else None
  }

  /** The role effect. With no account once the session is known, the
      role stops loading; with an account, the role is read and stops
      loading; while the session is still loading nothing changes. */
  function Effect(s: Session, lookup: ProfileLookup): (t: Session)
    ensures t.user == s.user && t.loadingAuth == s.loadingAuth
    ensures s.user.Some? ==> t.role == RoleOf(lookup) && !t.loadingRole
    ensures s.user.None? && !s.loadingAuth ==> t.role == s.role && !t.loadingRole
    ensures s.user.None? && s.loadingAuth ==> t == s
  {
    if s.user.None? && !s.loadingAuth then s.(loadingRole := false)
    else if s.user.Some? then s.(role := RoleOf(lookup), loadingRole := false)
    else s
  }

  /** The render. `requiredRole` is `None` when the prop is not given:
      `undefined`, which no role, not even `null`, is strictly equal to. */
  function Render(s: Session, requiredRole: Option<string>): (v: View)
    ensures v == LoadingSession <==> s.loadingAuth || s.loadingRole
    ensures v == Children <==>
      !s.loadingAuth && !s.loadingRole && s.user.Some? && requiredRole.Some? && s.role == requiredRole
    ensures !s.loadingAuth && !s.loadingRole && s.user.None? ==> v == RedirectHome
  {
    if s.loadingAuth || s.loadingRole then LoadingSession
    else if s.user.None? then RedirectHome
    else if requiredRole.None? || s.role != requiredRole then RedirectHome
    else Children
  }

  /** Once the session is known and the effect has run, the page is shown
      exactly to an account whose stored role is the required one. */
  lemma SettledSession(user: Option<AuthUser>, lookup: ProfileLookup, requiredRole: Option<string>)
    ensures Render(Initial(user, false), requiredRole) == LoadingSession
    ensures Render(Effect(Initial(user, false), lookup), requiredRole) == Children <==>
      user.Some? && lookup.ProfileFound? && requiredRole == Some(lookup.profile.role)
  {
  }

  /** Without a required role this guard shows the page to no one, where
      the role guard would show it to every signed-in account. */
  lemma NoRequiredRoleShowsNothing(user: Option<AuthUser>, lookup: ProfileLookup)
    ensures Render(Effect(Initial(user, false), lookup), None) != Children
    ensures user.Some? ==>
      RouteGuard.Render(RouteGuard.Settle(user, None, lookup)) == RouteGuard.Children
  {
  }

  /** With a non-empty required role the two guards agree once settled. */
  lemma GuardsAgree(user: Option<AuthUser>, lookup: ProfileLookup, role: string)
    requires role != []
    ensures (Render(Effect(Initial(user, false), lookup), Some(role)) == Children) ==
      (RouteGuard.Render(RouteGuard.Settle(user, Some(role), lookup)) == RouteGuard.Children)
  {
  }
}
