/** The login page: the institute-domain gate shared by sign-up and
    sign-in, the sign-up cascade (the profile it stores), the sign-in
    cascade (verified email, stored profile, matching role, then the
    dashboard for that role) and the automatic redirect of an account that
    is already signed in. */
module Login {
  import opened Text
  import opened Store

  const Domain := "@thapar.edu"
  const FacultyHome := "/faculty-dashboard"
  const StudentHome := "/student-dashboard"

  const RestrictedMessage := "Access restricted. Please use a @thapar.edu email."
  const NameRequiredMessage := "Please enter your full name."
  const InUseCode := "auth/email-already-in-use"
  const InUseMessage := "This email is already in use. Please sign in."
  const SignupFallbackMessage := "Signup failed. Please try again."
  const NotVerifiedMessage := "Email not verified. Please check your inbox for the verification link."
  const NoDataMessage := "No user data found. Please sign up first."
  const BadCredentialsMessage := "Invalid email or password."
  const LoginFallbackMessage := "Login failed"
  const RoleCheckMessage := "Error checking user role."

  /** The auth service's answer to `createUserWithEmailAndPassword` or
      `signInWithEmailAndPassword`. */
  datatype AuthAttempt = Authenticated(user: AuthUser) | AuthRejected(failure: Failure)

  datatype SignupOutcome = SignupError(message: string) | Registered(uid: Uid, profile: Profile)

  datatype LoginOutcome = LoginError(message: string) | Navigate(path: string)

  datatype RedirectOutcome = Stay | Redirect(path: string) | RoleCheckError(message: string)

  /** `email.toLowerCase().endsWith("@thapar.edu")` */
  predicate AllowedEmail(email: string): (b: bool)
    ensures b <==> |email| >= |Domain| && Lower(email[|email| - |Domain|..]) == Domain
  {
    var n := |email| - |Domain|;
    assert n >= 0 ==> Lower(email)[n..] == Lower(email[n..]);
    EndsWith(Lower(email), Domain)
  }

  /** Lower-casing twice is lower-casing once. */
  lemma LowerIdempotent(s: string)
    ensures Lower(Lower(s)) == Lower(s)
  {
    assert forall i :: 0 <= i < |s| ==> LowerChar(LowerChar(s[i])) == LowerChar(s[i]);
  }

  /** The gate ignores case: an address passes exactly when its lower-case
      form does. */
  lemma AllowedEmailIgnoresCase(email: string)
    ensures AllowedEmail(email) <==> AllowedEmail(Lower(email))
  {
    LowerIdempotent(email);
  }

  /** The dashboard a role signs in to. */
  function Home(role: string): (path: string)
    ensures role == "faculty" ==> path == FacultyHome
    ensures role != "faculty" ==> path == StudentHome
  {
    if role == "faculty" then FacultyHome else StudentHome
  }

  /** `err.message || fallback` */
  function MessageOr(f: Failure, fallback: string): (r: string)
    ensures r == (if f.message != [] then f.message else fallback)
    ensures r != [] || fallback == []
  {
    OrElse(Some(f.message), fallback)
  }

  /** The message a failed sign-in shows: one message for an unknown
      account, a wrong password and invalid credentials alike. */
  function LoginFailureMessage(f: Failure): (r: string)
    ensures f.code in {"auth/user-not-found", "auth/wrong-password", "auth/invalid-credential"} ==>
      r == BadCredentialsMessage
    ensures f.code !in {"auth/user-not-found", "auth/wrong-password", "auth/invalid-credential"} ==>
      r == MessageOr(f, LoginFallbackMessage)
  {
    if f.code == "auth/user-not-found" || f.code == "auth/wrong-password" || f.code == "auth/invalid-credential"
    then BadCredentialsMessage
    else MessageOr(f, LoginFallbackMessage)
  }

  /** The message shown when the selected role is not the stored one. */
  function RoleMismatchMessage(selected: string, stored: string): string {
    "Selected role (\U{201C}" + selected + "\U{201D}) does not match account role (\U{201C}" + stored + "\U{201D})."
  }

  /** `handleSignup`. `created` is the auth service's answer to creating
      the account. The outcome `Registered` carries the profile document
      written for the new account, after which the account is signed out
      until its email is verified. */
  function Signup(email: string, name: string, role: string, created: AuthAttempt): (r: SignupOutcome)
    ensures !AllowedEmail(email) ==> r == SignupError(RestrictedMessage)
    ensures AllowedEmail(email) && Trim(name) == [] ==> r == SignupError(NameRequiredMessage)
    ensures r.Registered? <==> AllowedEmail(email) && Trim(name) != [] && created.Authenticated?
    ensures r.Registered? ==>
      && r.uid == created.user.uid
      && r.profile == Profile(Trim(name), created.user.email, role, None)
      && r.profile.name != [] && !IsSpace(r.profile.name[0]) && !IsSpace(r.profile.name[|r.profile.name| - 1])
    ensures AllowedEmail(email) && Trim(name) != [] && created.AuthRejected? ==>
      r == SignupError(
        if created.failure.code == InUseCode then InUseMessage
        else MessageOr(created.failure, SignupFallbackMessage))
    ensures r.SignupError? ==> r.message != []
  {
    if !AllowedEmail(email) then SignupError(RestrictedMessage)
    else if Trim(name) == [] then SignupError(NameRequiredMessage)
    else match created
      case AuthRejected(f) =>
        SignupError(if f.code == InUseCode then InUseMessage else MessageOr(f, SignupFallbackMessage))
      case Authenticated(user) =>
        Registered(user.uid, Profile(Trim(name), user.email, role, None))
  }

  /** `handleLogin`. `signedIn` is the auth service's answer and `lookup`
      the read of the account's profile document; a failure of either is
      reported through the same message mapping. */
  function SignIn(email: string, role: string, signedIn: AuthAttempt, lookup: ProfileLookup): (r: LoginOutcome)
    ensures !AllowedEmail(email) ==> r == LoginError(RestrictedMessage)
    ensures AllowedEmail(email) && signedIn.AuthRejected? ==> r == LoginError(LoginFailureMessage(signedIn.failure))
    ensures AllowedEmail(email) && signedIn.Authenticated? && !signedIn.user.emailVerified ==>
      r == LoginError(NotVerifiedMessage)
    ensures AllowedEmail(email) && signedIn.Authenticated? && signedIn.user.emailVerified && lookup.NoProfile? ==>
      r == LoginError(NoDataMessage)
    ensures AllowedEmail(email) && signedIn.Authenticated? && signedIn.user.emailVerified && lookup.LookupFailed? ==>
      r == LoginError(LoginFailureMessage(lookup.failure))
    ensures (AllowedEmail(email) && signedIn.Authenticated? && signedIn.user.emailVerified
             && lookup.ProfileFound? && lookup.profile.role != role) ==>
      r == LoginError(RoleMismatchMessage(role, lookup.profile.role))
    ensures r.Navigate? <==>
      && AllowedEmail(email) && signedIn.Authenticated? && signedIn.user.emailVerified
      && lookup.ProfileFound? && lookup.profile.role == role
    ensures r.Navigate? ==> r.path == Home(lookup.profile.role) && r.path == Home(role)
  {
    if !AllowedEmail(email) then LoginError(RestrictedMessage)
    else match signedIn
      case AuthRejected(f) => LoginError(LoginFailureMessage(f))
      case Authenticated(user) =>
        if !user.emailVerified then LoginError(NotVerifiedMessage)
        else match lookup
          case LookupFailed(f) => LoginError(LoginFailureMessage(f))
          case NoProfile => LoginError(NoDataMessage)
          case ProfileFound(p) =>
            if p.role != role then LoginError(RoleMismatchMessage(role, p.role))
            else Navigate(Home(p.role))
  }

  /** The auth listener: an account already signed in is sent to its
      dashboard only when its email is verified and its stored role is
      faculty or student; a failed lookup shows an error. */
  function AutoRedirect(user: Option<AuthUser>, lookup: ProfileLookup): (r: RedirectOutcome)
    ensures r.Redirect? <==>
      user.Some? && user.value.emailVerified && lookup.ProfileFound? && lookup.profile.role in {"faculty", "student"}
    ensures r.Redirect? ==> r.path == Home(lookup.profile.role)
    ensures r.RoleCheckError? <==> user.Some? && user.value.emailVerified && lookup.LookupFailed?
    ensures r.RoleCheckError? ==> r.message == RoleCheckMessage
  {
    if user.None? || !user.value.emailVerified then Stay
    else match lookup
      case LookupFailed(_) => RoleCheckError(RoleCheckMessage)
      case NoProfile => Stay
      case ProfileFound(p) =>
        if p.role == "faculty" then Redirect(FacultyHome)
        else if p.role == "student" then Redirect(StudentHome)
        else Stay
  }

  /** Both forms turn away an address outside the domain before the auth
      service is asked anything. */
  lemma DomainGateShared(email: string, name: string, role: string, attempt: AuthAttempt, lookup: ProfileLookup)
    requires !AllowedEmail(email)
    ensures Signup(email, name, role, attempt) == SignupError(RestrictedMessage)
    ensures SignIn(email, role, attempt, lookup) == LoginError(RestrictedMessage)
  {
  }

  /** Signing up and then signing in: once the email is verified, the
      profile sign-up wrote lets the same role in, to that role's
      dashboard, and any other selected role is refused. */
  lemma SignupThenSignIn(email: string, name: string, role: string, other: string, created: AuthUser, later: AuthUser)
    requires AllowedEmail(email) && Trim(name) != []
    requires later.uid == created.uid && later.emailVerified
    requires other != role
    ensures Signup(email, name, role, Authenticated(created)).Registered?
    ensures
      var p := Signup(email, name, role, Authenticated(created)).profile;
      && SignIn(email, role, Authenticated(later), ProfileFound(p)) == Navigate(Home(role))
      && SignIn(email, other, Authenticated(later), ProfileFound(p)).LoginError?
  {
  }

  /** A verified student or faculty account signed in through the form is
      also redirected, to the same dashboard, when it comes back. */
  lemma SignInAgreesWithRedirect(email: string, role: string, user: AuthUser, p: Profile)
    requires AllowedEmail(email) && user.emailVerified && p.role == role
    requires role in {"faculty", "student"}
    ensures SignIn(email, role, Authenticated(user), ProfileFound(p)) == Navigate(Home(role))
    ensures AutoRedirect(Some(user), ProfileFound(p)) == Redirect(Home(role))
  {
  }
}
