/** The student dashboard: the profile shown at the top, the list of
    joined classes (classes with a membership record for the student,
    newest first), joining a class by its code and editing the name. */
module StudentDashboard {
  import opened Text
  import opened Store
  import Seqs

  const EnterCode := "Enter a class code."
  const NotAuthenticated := "Not authenticated."
  const NoClassWithCode := "No class found with that code."

  datatype EditOutcome = NoUser | Cancelled | EmptyName | UpdateFailed | NameUpdated

  class Dashboard {
    const st: Store
    var authUser: Option<AuthUser>
    var profile: Option<Profile>
    var joined: seq<ClassRec>
    var activeClassId: Option<ClassId>
    var error: string

    constructor (st: Store)
      ensures this.st == st
      ensures authUser.None? && profile.None? && joined == [] && activeClassId.None? && error == []
    {
      this.st := st;
      authUser, profile, joined, activeClassId, error := None, None, [], None, [];
    }

    /** `loadUserProfile`: the stored profile, or one built from the auth
        account with the student role when there is none. */
    method LoadUserProfile(user: AuthUser)
      modifies this`profile
      ensures user.uid in st.users ==> profile == Some(st.users[user.uid])
      ensures user.uid !in st.users ==> profile == Some(FallbackProfile(user, [], "student"))
    {
      if user.uid in st.users {
        profile := Some(st.users[user.uid]);
      } else {
        profile := Some(FallbackProfile(user, [], "student"));
      }
    }

    /** `fetchJoinedClasses`: the classes with a membership record for
        `uid`, in the store's newest-first order; the first of them becomes
        active only when no class is active yet. */
    method FetchJoinedClasses(uid: Uid)
      modifies this`joined, this`activeClassId
      ensures joined == Seqs.Filter(st.classes, HasMembership(st.members, uid))
      ensures forall c :: c in joined <==> c in st.classes && (c.id, uid) in st.members
      ensures old(activeClassId).None? && joined != [] ==> activeClassId == Some(joined[0].id)
      ensures old(activeClassId).Some? || joined == [] ==> activeClassId == old(activeClassId)
    {
      joined := st.MemberClasses(uid);
      if joined != [] && activeClassId.None? {
        activeClassId := Some(joined[0].id);
      }
    }

    /** The auth listener: remember the account, then load its profile and
        its classes. */
    method SignIn(user: AuthUser)
      modifies this`authUser, this`profile, this`joined, this`activeClassId
      ensures authUser == Some(user)
      ensures user.uid in st.users ==> profile == Some(st.users[user.uid])
      ensures user.uid !in st.users ==> profile == Some(FallbackProfile(user, [], "student"))
      ensures joined == Seqs.Filter(st.classes, HasMembership(st.members, user.uid))
      ensures old(activeClassId).None? && joined != [] ==> activeClassId == Some(joined[0].id)
      ensures old(activeClassId).Some? || joined == [] ==> activeClassId == old(activeClassId)
    {
      authUser := Some(user);
      LoadUserProfile(user);
      FetchJoinedClasses(user.uid);
    }

    /** `handleJoinByCode`. A blank code or a missing account is refused
        with an error and no lookup; otherwise the first class whose code
        is exactly the trimmed code is joined by overwriting the caller's
        membership record, the list is refreshed and that class becomes
        active. */
    method JoinByCode(code: string)
      modifies this`error, this`joined, this`activeClassId, st`members
      ensures Trim(code) == [] ==>
        error == EnterCode && st.members == old(st.members)
        && joined == old(joined) && activeClassId == old(activeClassId)
      ensures Trim(code) != [] && authUser.None? ==>
        error == NotAuthenticated && st.members == old(st.members)
        && joined == old(joined) && activeClassId == old(activeClassId)
      ensures Trim(code) != [] && authUser.Some? && FirstWithCode(st.classes, Trim(code)).None? ==>
        error == NoClassWithCode && st.members == old(st.members)
        && joined == old(joined) && activeClassId == old(activeClassId)
      ensures Trim(code) != [] && authUser.Some? && FirstWithCode(st.classes, Trim(code)).Some? ==>
        var c := st.classes[FirstWithCode(st.classes, Trim(code)).value];
        && c.classCode == Trim(code)
        && st.members == old(st.members)[(c.id, authUser.value.uid) := RoleMember(authUser.value, "student")]
        && st.members[(c.id, authUser.value.uid)].points.None?
        && joined == Seqs.Filter(st.classes, HasMembership(st.members, authUser.value.uid))
        && c in joined
        && activeClassId == Some(c.id)
        && error == []
    {
      error := [];
      var trimmed := Trim(code);
      if trimmed == [] {
        error := EnterCode;
        return;
      }
      if authUser.None? {
        error := NotAuthenticated;
        return;
      }
      var found := FirstWithCode(st.classes, trimmed);
      if found.None? {
        error := NoClassWithCode;
        return;
      }
      var c := st.classes[found.value];
      var user := authUser.value;
      st.members := st.members[(c.id, user.uid) := RoleMember(user, "student")];
      FetchJoinedClasses(user.uid);
      error := [];
      activeClassId := Some(c.id);
    }

    /** `handleEditName`, with the prompt's answer as `input` (`None` when
        the prompt is cancelled). A blank name is refused; the update of a
        missing profile document fails; otherwise the trimmed name is
        stored and mirrored in the local profile. */
    method EditName(input: Option<string>) returns (outcome: EditOutcome)
      modifies st`users, this`profile
      ensures authUser.None? ==> outcome == NoUser
      ensures authUser.Some? && input.None? ==> outcome == Cancelled
      ensures authUser.Some? && input.Some? && Trim(input.value) == [] ==> outcome == EmptyName
      ensures authUser.Some? && input.Some? && Trim(input.value) != [] && authUser.value.uid !in st.users ==>
        outcome == UpdateFailed
      ensures outcome != NameUpdated ==> st.users == old(st.users) && profile == old(profile)
      ensures outcome == NameUpdated <==>
        authUser.Some? && input.Some? && Trim(input.value) != [] && authUser.value.uid in old(st.users)
      ensures outcome == NameUpdated ==>
        var uid := authUser.value.uid;
        && st.users == old(st.users)[uid := old(st.users)[uid].(name := Trim(input.value))]
        && profile == Some(Renamed(old(profile), Trim(input.value)))
    {
      if authUser.None? {
        return NoUser;
      }
      if input.None? {
        return Cancelled;
      }
      var trimmed := Trim(input.value);
      if trimmed == [] {
        return EmptyName;
      }
      var uid := authUser.value.uid;
      if uid !in st.users {
        return UpdateFailed;
      }
      st.users := st.users[uid := st.users[uid].(name := trimmed)];
      profile := Some(Renamed(profile, trimmed));
      outcome := NameUpdated;
    }
  }
}
