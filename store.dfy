/** The document store the pages read and write, as maps and sequences.
    Record shapes follow the fields the pages write; fields that only
    carry server timestamps, URLs of uploaded blobs or photo links are left
    out. */
module Store {
  import opened Text
  import Seqs

  type Uid = string
  type ClassId = string
  type QuestionId = string
  type AnswerId = string
  type MaterialId = string

  /** `classes/{classId}/members/{uid}`: a class-scoped membership with its
      own point balance. `points` and `name` may be absent. */
  datatype Member = Member(uid: Uid, email: string, role: string, points: Option<int>, name: Option<string>)

  /** `users/{uid}`: the profile written at sign-up; `points` is the global
      balance the resources page credits. */
  datatype Profile = Profile(name: string, email: string, role: string, points: Option<int>)

  /** `classes/{classId}` */
  datatype ClassRec = ClassRec(
    id: ClassId, classCode: string, name: string, createdBy: string,
    facultyId: Option<Uid>, memberIds: seq<Uid>)

  /** One element of the `answers` array of a question. */
  datatype Answer = Answer(
    id: AnswerId, body: string, author: string, authorId: Uid,
    upvotes: seq<Uid>, accepted: bool)

  /** `questions/{questionId}` */
  datatype Question = Question(
    classId: ClassId, title: string, body: string, author: string, authorId: Uid,
    answers: seq<Answer>, acceptedAnswerId: Option<AnswerId>)

  /** `resources/classA/studentMaterials/{id}` */
  datatype Material = Material(title: string, uploadedBy: Uid, upvotes: int, tags: seq<string>)

  /** The signed-in account as the auth service reports it. */
  datatype AuthUser = AuthUser(uid: Uid, email: string, emailVerified: bool, displayName: Option<string>)

  /** `Math.max(0, v)` */
  function Max0(v: int): (r: int)
    ensures r >= 0 && r >= v
    ensures v >= 0 ==> r == v
  {
    if v < 0 then 0 else v
  }

  /** A counter field read as `value || 0`: an absent field counts as 0. */
  function OrZero(p: Option<int>): (r: int)
    ensures p.Some? ==> r == p.value
    ensures p.None? ==> r == 0
  {
    if p.Some? then p.value else 0
  }

  /** Firestore's `increment(d)` on a possibly absent counter field. */
  function Incremented(p: Option<int>, d: int): (r: Option<int>)
    ensures r.Some? && r.value == OrZero(p) + d
  {
    Some(OrZero(p) + d)
  }

  /** `arrayUnion(x)` on an array field: `x` is appended unless an equal
      element is already there. */
  function ArrayUnion<T(==,!new)>(s: seq<T>, x: T): (r: seq<T>)
    ensures x in r && forall y :: y in r <==> y in s || y == x
    ensures x !in s ==> r == s + [x]
    ensures x in s ==> r == s
  {
    if x in s then s else s + [x]
  }

  /** A multiset view of `arrayUnion`: the element added occurs exactly
      once unless it was already there, so a second union adds no copy. */
  lemma ArrayUnionCount<T(!new)>(s: seq<T>, x: T)
    ensures multiset(ArrayUnion(s, x))[x] == if x in s then multiset(s)[x] else 1
    ensures ArrayUnion(ArrayUnion(s, x), x) == ArrayUnion(s, x)
  {
    if x !in s {
      assert multiset(s)[x] == 0;
      assert multiset(s + [x]) == multiset(s) + multiset{x};
    }
  }

  /** An error thrown by the auth service or the document store. */
  datatype Failure = Failure(code: string, message: string)

  /** The outcome of `getDoc(doc(db, "users", uid))`. */
  datatype ProfileLookup = ProfileFound(profile: Profile) | NoProfile | LookupFailed(failure: Failure)

  /** `x || fallback` on a possibly absent string: absent and empty both
      give the fallback. */
  function OrElse(x: Option<string>, fallback: string): (r: string)
    ensures x.Some? && x.value != [] ==> r == x.value
    ensures x.None? || x.value == [] ==> r == fallback
  {
    if x.Some? && x.value != [] then x.value else fallback
  }

  /** The profile a page shows when `users/{uid}` is missing: the auth
      display name (or `defaultName`), the auth email and the page's role. */
  function FallbackProfile(user: AuthUser, defaultName: string, role: string): (r: Profile)
    ensures user.displayName.Some? && user.displayName.value != [] ==> r.name == user.displayName.value
    ensures user.displayName.None? || user.displayName.value == [] ==> r.name == defaultName
    ensures r.email == user.email && r.role == role && r.points.None?
  {
    Profile(OrElse(user.displayName, defaultName), user.email, role, None)
  }

  /** The membership record a page writes for the signed-in account: uid,
      email and the page's role, and nothing else, so no `points` field
      (a student joining a class, a teacher creating one). */
  function RoleMember(user: AuthUser, role: string): (m: Member)
    ensures m.uid == user.uid && m.email == user.email && m.role == role
    ensures m.points.None? && m.name.None?
  {
    Member(user.uid, user.email, role, None, None)
  }

  /** `setProfile(prev => ({ ...(prev || {}), name }))`: the name replaced,
      everything else kept; with no previous profile only the name is
      set (the other fields read as empty). */
  function Renamed(prev: Option<Profile>, name: string): (r: Profile)
    ensures r.name == name
    ensures prev.Some? ==> r == prev.value.(name := name)
  {
    if prev.Some? then prev.value.(name := name) else Profile(name, [], [], None)
  }

  /** `query(collection(db, "classes"), where("classCode", "==", code))`
      followed by `docs[0]`: the index of the first class, in list order,
      whose code is exactly `code`, or nothing when there is none. */
  function FirstWithCode(classes: seq<ClassRec>, code: string): (r: Option<nat>)
    ensures r.None? <==> forall i :: 0 <= i < |classes| ==> classes[i].classCode != code
    ensures r.Some? ==> r.value < |classes| && classes[r.value].classCode == code
    ensures r.Some? ==> forall i :: 0 <= i < r.value ==> classes[i].classCode != code
  {
    if classes == [] then None
    else if classes[0].classCode == code then Some(0)
    else match FirstWithCode(classes[1..], code)
      case None => None
      case Some(k) => Some(k + 1)
  }

  /** Whether `uid` has a membership record in a class: the predicate the
      dashboards filter the class list with. */
  function HasMembership(members: map<(ClassId, Uid), Member>, uid: Uid): ClassRec -> bool {
    (c: ClassRec) => (c.id, uid) in members
  }

  /** The whole store. `classes` is kept in the order the dashboards query
      it, `createdAt` descending (newest first). */
  class Store {
    var classes: seq<ClassRec>
    var members: map<(ClassId, Uid), Member>
    var users: map<Uid, Profile>
    var questions: map<QuestionId, Question>
    var materials: map<MaterialId, Material>

    /** Class ids are document ids: no two classes share one. */
    ghost predicate Valid()
      reads this
    {
      forall i, j :: 0 <= i < j < |classes| ==> classes[i].id != classes[j].id
    }

    constructor ()
      ensures Valid()
      ensures classes == [] && members == map[] && users == map[]
      ensures questions == map[] && materials == map[]
    {
      classes, members, users, questions, materials := [], map[], map[], map[], map[];
    }

    /** The class id is not yet used by a class. */
    predicate FreshClassId(id: ClassId)
      reads this
    {
      forall i :: 0 <= i < |classes| ==> classes[i].id != id
    }

    /** The loop of `fetchJoinedClasses` / `fetchMyClasses`: walk the class
        list newest first and keep each class that has a membership record
        for `uid`. */
    method MemberClasses(uid: Uid) returns (joined: seq<ClassRec>)
      ensures joined == Seqs.Filter(classes, HasMembership(members, uid))
      ensures forall c :: c in joined <==> c in classes && (c.id, uid) in members
      ensures Seqs.IsSubsequence(joined, classes)
    {
      joined := [];
      var i := 0;
      while i < |classes|
        invariant 0 <= i <= |classes|
        invariant joined == Seqs.Filter(classes[..i], HasMembership(members, uid))
      {
        var c := classes[i];
        Seqs.FilterSnoc(classes[..i], c, HasMembership(members, uid));
        assert classes[..i + 1] == classes[..i] + [c];
        if (c.id, uid) in members {
          joined := joined + [c];
        }
        i := i + 1;
      }
      assert classes[..i] == classes;
    }
  }
}
