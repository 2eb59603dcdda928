/** The faculty dashboard: the profile shown at the top, the classes the
    teacher belongs to (newest first), creating a class and editing the
    name, creating the profile document when it is missing. */
module FacultyDashboard {
  import opened Text
  import opened Store
  import Seqs

  datatype CreateOutcome = NotSignedIn | CodeRequired | TitleRequired | Created(id: ClassId)

  datatype EditOutcome = NoUser | Cancelled | EmptyName | NameUpdated | ProfileCreated

  /** The class document `handleCreateClass` adds: its code and title, the
      creator's email and uid, and the creator as its only member id. */
  function NewClass(id: ClassId, code: string, title: string, user: AuthUser): (c: ClassRec)
    ensures c.id == id && c.classCode == code && c.name == title
    ensures c.facultyId == Some(user.uid) && c.memberIds == [user.uid]
    ensures c.createdBy == user.email
  {
    ClassRec(id, code, title, user.email, Some(user.uid), [user.uid])
  }

  /** A class at the head of the list that has a membership record for
      `uid` heads the filtered list too. */
  lemma NewestMemberClassFirst(classes: seq<ClassRec>, members: map<(ClassId, Uid), Member>, uid: Uid)
    requires classes != [] && (classes[0].id, uid) in members
    ensures Seqs.Filter(classes, HasMembership(members, uid)) != []
    ensures Seqs.Filter(classes, HasMembership(members, uid))[0] == classes[0]
  {
    assert HasMembership(members, uid)(classes[0]);
  }

  class Dashboard {
    const st: Store
    var authUser: Option<AuthUser>
    var profile: Option<Profile>
    var myClasses: seq<ClassRec>
    var activeClassId: Option<ClassId>

    constructor (st: Store)
      ensures this.st == st
      ensures authUser.None? && profile.None? && myClasses == [] && activeClassId.None?
    {
      this.st := st;
      authUser, profile, myClasses, activeClassId := None, None, [], None;
    }

    /** `loadUserProfile`: the stored profile, or one built from the auth
        account with the faculty role when there is none. */
    method LoadUserProfile(user: AuthUser)
      modifies this`profile
      ensures user.uid in st.users ==> profile == Some(st.users[user.uid])
      ensures user.uid !in st.users ==> profile == Some(FallbackProfile(user, [], "faculty"))
    {
      if user.uid in st.users {
        profile := Some(st.users[user.uid]);
      } else {
        profile := Some(FallbackProfile(user, [], "faculty"));
      }
    }

    /** `fetchMyClasses`: the classes with a membership record for `uid`,
        newest first; the first becomes active only when none is. */
    method FetchMyClasses(uid: Uid)
      modifies this`myClasses, this`activeClassId
      ensures myClasses == Seqs.Filter(st.classes, HasMembership(st.members, uid))
      ensures forall c :: c in myClasses <==> c in st.classes && (c.id, uid) in st.members
      ensures old(activeClassId).None? && myClasses != [] ==> activeClassId == Some(myClasses[0].id)
      ensures old(activeClassId).Some? || myClasses == [] ==> activeClassId == old(activeClassId)
    {
      myClasses := st.MemberClasses(uid);
      if myClasses != [] && activeClassId.None? {
        activeClassId := Some(myClasses[0].id);
      }
    }

    /** The auth listener: remember the account, then load its profile and
        its classes. */
    method SignIn(user: AuthUser)
      modifies this`authUser, this`profile, this`myClasses, this`activeClassId
      ensures authUser == Some(user)
      ensures user.uid in st.users ==> profile == Some(st.users[user.uid])
      ensures user.uid !in st.users ==> profile == Some(FallbackProfile(user, [], "faculty"))
      ensures myClasses == Seqs.Filter(st.classes, HasMembership(st.members, user.uid))
      ensures old(activeClassId).None? && myClasses != [] ==> activeClassId == Some(myClasses[0].id)
      ensures old(activeClassId).Some? || myClasses == [] ==> activeClassId == old(activeClassId)
    {
      authUser := Some(user);
      LoadUserProfile(user);
      FetchMyClasses(user.uid);
    }

    /** `handleCreateClass`. `id` is the id the store gives the new class
        document. Signed out, or with a blank trimmed code or title, nothing
        is written. Otherwise the class is added as the newest, the creator
        gets a faculty membership in it, the list is refreshed (the new
        class heads it) and the new class becomes active. */
    method CreateClass(codeInput: string, titleInput: string, id: ClassId) returns (outcome: CreateOutcome)
      requires st.Valid() && st.FreshClassId(id)
      modifies st`classes, st`members, this`myClasses, this`activeClassId
      ensures st.Valid()
      ensures authUser.None? ==> outcome == NotSignedIn
      ensures authUser.Some? && Trim(codeInput) == [] ==> outcome == CodeRequired
      ensures authUser.Some? && Trim(codeInput) != [] && Trim(titleInput) == [] ==> outcome == TitleRequired
      ensures !outcome.Created? ==>
        st.classes == old(st.classes) && st.members == old(st.members)
        && myClasses == old(myClasses) && activeClassId == old(activeClassId)
      ensures outcome.Created? <==> authUser.Some? && Trim(codeInput) != [] && Trim(titleInput) != []
      ensures outcome.Created? ==>
        var user := authUser.value;
        && outcome.id == id
        && st.classes == [NewClass(id, Trim(codeInput), Trim(titleInput), user)] + old(st.classes)
        && st.members == old(st.members)[(id, user.uid) := RoleMember(user, "faculty")]
        && myClasses == Seqs.Filter(st.classes, HasMembership(st.members, user.uid))
        && myClasses != [] && myClasses[0] == NewClass(id, Trim(codeInput), Trim(titleInput), user)
        && activeClassId == Some(id)
    {
      if authUser.None? {
        return NotSignedIn;
      }
      var code := Trim(codeInput);
      var title := Trim(titleInput);
      if code == [] {
        return CodeRequired;
      }
      if title == [] {
        return TitleRequired;
      }
      var user := authUser.value;
      var c := NewClass(id, code, title, user);
      st.classes := [c] + st.classes;
      st.members := st.members[(id, user.uid) := RoleMember(user, "faculty")];
      FetchMyClasses(user.uid);
      NewestMemberClassFirst(st.classes, st.members, user.uid);
      activeClassId := Some(id);
      outcome := Created(id);
    }

    /** `handleEditName`, with the prompt's answer as `input` (`None` when
        cancelled). A blank name is refused. The profile's name is updated;
        when the profile document is missing the update fails and a faculty
        profile with that name is created instead. The local profile takes
        the name either way. */
    method EditName(input: Option<string>) returns (outcome: EditOutcome)
      modifies st`users, this`profile
      ensures authUser.None? ==> outcome == NoUser
      ensures authUser.Some? && input.None? ==> outcome == Cancelled
      ensures authUser.Some? && input.Some? && Trim(input.value) == [] ==> outcome == EmptyName
      ensures outcome in {NoUser, Cancelled, EmptyName} ==> st.users == old(st.users) && profile == old(profile)
      ensures authUser.Some? && input.Some? && Trim(input.value) != [] ==>
        var uid := authUser.value.uid;
        var name := Trim(input.value);
        && uid in st.users && st.users[uid].name == name
        && st.users.Keys == old(st.users).Keys + {uid}
        && (forall u :: u in old(st.users) && u != uid ==> st.users[u] == old(st.users)[u])
        && (uid in old(st.users) ==>
             outcome == NameUpdated && st.users[uid] == old(st.users)[uid].(name := name))
        && (uid !in old(st.users) ==>
             outcome == ProfileCreated && st.users[uid] == Profile(name, authUser.value.email, "faculty", None))
        && profile == Some(Renamed(old(profile), name))
    {
      if authUser.None? {
        return NoUser;
      }
      if input.None? {
        return Cancelled;
      }
      var name := Trim(input.value);
      if name == [] {
        return EmptyName;
      }
      var user := authUser.value;
      if user.uid in st.users {
        st.users := st.users[user.uid := st.users[user.uid].(name := name)];
        outcome := NameUpdated;
      } else {
        st.users := st.users[user.uid := Profile(name, user.email, "faculty", None)];
        outcome := ProfileCreated;
      }
      profile := Some(Renamed(profile, name));
    }
  }
}
