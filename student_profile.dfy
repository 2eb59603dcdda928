/** The student profile page: the profile with its fallback, the classes
    whose `memberIds` holds the student, joining a class by code (a
    membership record plus a set-union into `memberIds`), the guarded name
    update and the typed confirmation of account deletion. */
module StudentProfile {
  import opened Text
  import opened Store
  import Seqs

  const EnterCode := "Enter a class code."
  const NotAuthenticated := "Not authenticated."
  const NoClassWithCode := "No class found with that code."
  const LoadFailed := "Failed to load profile data."
  const NameUpdateFailed := "Failed to update name."
  const NameUpdatedMessage := "Name updated successfully!"
  const DeleteWord := "DELETE"
  const RecentLoginCode := "auth/requires-recent-login"
  const RecentLoginMessage := "This is a sensitive action. Please log out and log back in to confirm."

  /** Whether a class lists `uid` among its `memberIds`. */
  function ListsMember(uid: Uid): ClassRec -> bool {
    (c: ClassRec) => uid in c.memberIds
  }

  /** The query of `fetchJoinedClasses` on this page:
      `where("memberIds", "array-contains", uid)`, newest first. */
  function JoinedClasses(classes: seq<ClassRec>, uid: Uid): (r: seq<ClassRec>)
    ensures forall c :: c in r <==> c in classes && uid in c.memberIds
    ensures Seqs.IsSubsequence(r, classes)
  {
    Seqs.Filter(classes, ListsMember(uid))
  }

  /** The membership record this page writes: the student role and the
      profile's name, or "Student" when there is no usable name. */
  function JoiningMember(user: AuthUser, profile: Option<Profile>): (m: Member)
    ensures m.uid == user.uid && m.email == user.email && m.role == "student" && m.points.None?
    ensures m.name.Some? && m.name.value != []
    ensures profile.Some? && profile.value.name != [] ==> m.name == Some(profile.value.name)
    ensures profile.None? || profile.value.name == [] ==> m.name == Some("Student")
  {
    var name := if profile.Some? then OrElse(Some(profile.value.name), "Student") else "Student";
    Member(user.uid, user.email, "student", None, Some(name))
  }

  /** Account deletion goes ahead only on the exact word typed in the
      prompt (`None` when the prompt is dismissed). */
  predicate DeleteConfirmed(typed: Option<string>) {
    typed == Some(DeleteWord)
  }

  /** The message shown when the deletion itself fails. */
  function DeleteFailureMessage(f: Failure): (r: string)
    ensures f.code == RecentLoginCode ==> r == RecentLoginMessage
    ensures f.code != RecentLoginCode ==> r == f.message
  {
    if f.code == RecentLoginCode then RecentLoginMessage else f.message
  }

  /** A dismissed prompt, any other word, or the word in another case
      never confirms. */
  lemma OnlyExactWordConfirms()
    ensures !DeleteConfirmed(None)
    ensures !DeleteConfirmed(Some("delete"))
    ensures !DeleteConfirmed(Some("DELETE "))
    ensures DeleteConfirmed(Some("DELETE"))
  {
    assert "delete"[0] != "DELETE"[0];
    assert |"DELETE "| != |"DELETE"|;
  }

  datatype JoinOutcome = JoinRefused(message: string) | Joined(id: ClassId)

  datatype RenameOutcome = Closed | RenameFailed | Renamed

  datatype DeleteOutcome = Kept | Deleted | DeleteFailed

  class Page {
    const st: Store
    var authUser: Option<AuthUser>
    var profile: Option<Profile>
    var joined: seq<ClassRec>
    var editingName: bool
    var error: string
    var success: string

    constructor (st: Store)
      ensures this.st == st
      ensures authUser.None? && profile.None? && joined == [] && !editingName
      ensures error == [] && success == []
    {
      this.st := st;
      authUser, profile, joined, editingName, error, success := None, None, [], false, [], [];
    }

    /** `loadUserProfile`: the stored profile; when it is missing, or the
        lookup fails (which also sets an error), a student profile named
        after the auth account, or "Student". */
    method LoadUserProfile(user: AuthUser, lookupFails: bool)
      modifies this`profile, this`error
      ensures !lookupFails && user.uid in st.users ==>
        profile == Some(st.users[user.uid]) && error == old(error)
      ensures !lookupFails && user.uid !in st.users ==>
        profile == Some(FallbackProfile(user, "Student", "student")) && error == old(error)
      ensures lookupFails ==>
        profile == Some(FallbackProfile(user, "Student", "student")) && error == LoadFailed
    {
      if lookupFails {
        error := LoadFailed;
        profile := Some(FallbackProfile(user, "Student", "student"));
      } else if user.uid in st.users {
        profile := Some(st.users[user.uid]);
      } else {
        profile := Some(FallbackProfile(user, "Student", "student"));
      }
    }

    /** `fetchJoinedClasses` on this page. */
    method FetchJoinedClasses(uid: Uid)
      modifies this`joined
      ensures joined == JoinedClasses(st.classes, uid)
    {
      joined := JoinedClasses(st.classes, uid);
    }

    /** `handleJoinByCode`. A blank code or a missing account throws before
        any lookup; no class with exactly the trimmed code throws with no
        write. Otherwise the first such class is joined: the caller's
        membership record is written, the uid is set-added to the class's
        `memberIds` (a second join adds no copy) and the list is refreshed. */
    method JoinByCode(code: string) returns (outcome: JoinOutcome)
      requires st.Valid()
      modifies st`members, st`classes, this`joined
      ensures st.Valid()
      ensures Trim(code) == [] ==> outcome == JoinRefused(EnterCode)
      ensures Trim(code) != [] && authUser.None? ==> outcome == JoinRefused(NotAuthenticated)
      ensures Trim(code) != [] && authUser.Some? && FirstWithCode(old(st.classes), Trim(code)).None? ==>
        outcome == JoinRefused(NoClassWithCode)
      ensures outcome.JoinRefused? ==>
        st.members == old(st.members) && st.classes == old(st.classes) && joined == old(joined)
      ensures outcome.Joined? <==>
        Trim(code) != [] && authUser.Some? && FirstWithCode(old(st.classes), Trim(code)).Some?
      ensures outcome.Joined? ==>
        var k := FirstWithCode(old(st.classes), Trim(code)).value;
        var c := old(st.classes)[k];
        var uid := authUser.value.uid;
        && outcome.id == c.id && c.classCode == Trim(code)
        && st.members == old(st.members)[(c.id, uid) := JoiningMember(authUser.value, profile)]
        && st.classes == old(st.classes)[k := c.(memberIds := ArrayUnion(c.memberIds, uid))]
        && multiset(st.classes[k].memberIds)[uid] == (if uid in c.memberIds then multiset(c.memberIds)[uid] else 1)
        && joined == JoinedClasses(st.classes, uid)
        && st.classes[k] in joined
    {
      var trimmed := Trim(code);
      if trimmed == [] {
        return JoinRefused(EnterCode);
      }
      if authUser.None? {
        return JoinRefused(NotAuthenticated);
      }
      var found := FirstWithCode(st.classes, trimmed);
      if found.None? {
        return JoinRefused(NoClassWithCode);
      }
      var k := found.value;
      var c := st.classes[k];
      var user := authUser.value;
      st.members := st.members[(c.id, user.uid) := JoiningMember(user, profile)];
      ArrayUnionCount(c.memberIds, user.uid);
      st.classes := st.classes[k := c.(memberIds := ArrayUnion(c.memberIds, user.uid))];
      FetchJoinedClasses(user.uid);
      outcome := Joined(c.id);
    }

    /** `handleNameUpdate` with the typed name. With no profile, or a
        trimmed name equal to the current one, the editor just closes.
        Otherwise the messages are cleared and the trimmed name is written
        to the profile document, then mirrored locally; the write fails on
        a missing document or with no signed-in account. A blank name that
        differs from the current one is written too: this page does not
        check for it. */
    method NameUpdate(typed: string) returns (outcome: RenameOutcome)
      modifies st`users, this`profile, this`editingName, this`error, this`success
      ensures outcome == Closed <==> old(profile).None? || Trim(typed) == old(profile).value.name
      ensures outcome == Closed ==>
        !editingName && st.users == old(st.users) && profile == old(profile)
        && error == old(error) && success == old(success)
      ensures outcome == RenameFailed <==>
        old(profile).Some? && Trim(typed) != old(profile).value.name
        && (authUser.None? || authUser.value.uid !in old(st.users))
      ensures outcome == RenameFailed ==>
        st.users == old(st.users) && profile == old(profile) && editingName == old(editingName)
        && error == NameUpdateFailed && success == []
      ensures outcome == Renamed <==>
        old(profile).Some? && Trim(typed) != old(profile).value.name
        && authUser.Some? && authUser.value.uid in old(st.users)
      ensures outcome == Renamed ==>
        var uid := authUser.value.uid;
        && st.users == old(st.users)[uid := old(st.users)[uid].(name := Trim(typed))]
        && profile == Some(old(profile).value.(name := Trim(typed)))
        && !editingName && error == [] && success == NameUpdatedMessage
    {
      var name := Trim(typed);
      if profile.None? || name == profile.value.name {
        editingName := false;
        return Closed;
      }
      error := [];
      success := [];
      if authUser.None? || authUser.value.uid !in st.users {
        error := NameUpdateFailed;
        return RenameFailed;
      }
      var uid := authUser.value.uid;
      st.users := st.users[uid := st.users[uid].(name := name)];
      profile := Some(profile.value.(name := name));
      success := NameUpdatedMessage;
      editingName := false;
      outcome := Renamed;
    }

    /** `handleDeleteAccount`. `typed` is the prompt's answer; `failure`
        is what the auth service throws, if anything. */
    method DeleteAccount(typed: Option<string>, failure: Option<Failure>) returns (outcome: DeleteOutcome)
      modifies this`error, this`success
      ensures success == []
      ensures !DeleteConfirmed(typed) ==> outcome == Kept && error == []
      ensures DeleteConfirmed(typed) && failure.None? ==> outcome == Deleted && error == []
      ensures DeleteConfirmed(typed) && failure.Some? ==>
        outcome == DeleteFailed && error == DeleteFailureMessage(failure.value)
    {
      error := [];
      success := [];
      if !DeleteConfirmed(typed) {
        return Kept;
      }
      if failure.Some? {
        error := DeleteFailureMessage(failure.value);
        return DeleteFailed;
      }
      outcome := Deleted;
    }
  }
}
