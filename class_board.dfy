/** The class discussion board: students post questions, others answer,
    members upvote answers (a toggle worth one class point to the answer's
    author), the asker accepts an answer (five points), and the faculty
    panel counts answers and ranks contributors. */
module ClassBoard {
  import opened Text
  import opened Store
  import Seqs
  import Sorting
  import Leaderboard

  const UpvotePoints := 1
  const AcceptPoints := 5

  // ---------------------------------------------------------------------
  // Voter lists

  /** The order can change: `["u", "a"]` comes back as `["a", "u"]`. */
  lemma ToggleTwiceReorders()
    ensures Seqs.Toggle(Seqs.Toggle(["u", "a"], "u"), "u") == ["a", "u"]
  {
    assert "u" in ["u", "a"];
    assert Seqs.Without(["u", "a"], "u") == ["a"] by {
      assert ["u", "a"][1..] == ["a"];
      assert Seqs.Without(["a"], "u") == ["a"];
    }
  }

  // ---------------------------------------------------------------------
  // Answers

  /** The index of the first answer with the id: `answers.find(...)`. */
  function FindAnswer(answers: seq<Answer>, answerId: AnswerId): (r: Option<nat>)
    ensures r.Some? ==> r.value < |answers| && answers[r.value].id == answerId
    ensures r.Some? ==> forall i :: 0 <= i < r.value ==> answers[i].id != answerId
    ensures r.None? ==> forall i :: 0 <= i < |answers| ==> answers[i].id != answerId
  {
    if answers == [] then None
    else if answers[0].id == answerId then Some(0)
    else match FindAnswer(answers[1..], answerId)
      case None => None
      case Some(i) => Some(i + 1)
  }

  /** One answer after the caller's vote is toggled on it. */
  function Toggled(a: Answer, uid: Uid): Answer {
    a.(upvotes := Seqs.Toggle(a.upvotes, uid))
  }

  /** The `answers.map(...)` of the toggle: every answer with the id gets
      its voter list toggled, every other answer is returned as it was. */
  function ToggleAnswers(answers: seq<Answer>, answerId: AnswerId, uid: Uid): (r: seq<Answer>)
    ensures |r| == |answers|
    ensures forall i :: 0 <= i < |r| && answers[i].id != answerId ==> r[i] == answers[i]
    ensures forall i :: 0 <= i < |r| && answers[i].id == answerId ==> r[i] == Toggled(answers[i], uid)
  {
    seq(|answers|, i requires 0 <= i < |answers| =>
      if answers[i].id == answerId then Toggled(answers[i], uid) else answers[i])
  }

  /** Toggling the same answer twice from "not voted" restores the answers. */
  lemma ToggleAnswersTwice(answers: seq<Answer>, answerId: AnswerId, uid: Uid)
    requires forall i :: 0 <= i < |answers| && answers[i].id == answerId ==> uid !in answers[i].upvotes
    ensures ToggleAnswers(ToggleAnswers(answers, answerId, uid), answerId, uid) == answers
  {
    var once := ToggleAnswers(answers, answerId, uid);
    var twice := ToggleAnswers(once, answerId, uid);
    forall i | 0 <= i < |answers| ensures twice[i] == answers[i] {
      if answers[i].id == answerId {
        Seqs.ToggleTwice(answers[i].upvotes, uid);
      }
    }
  }

  /** The `answers.map(...)` of accepting: `accepted` is set on exactly the
      answers with the chosen id and cleared on all others. */
  function AcceptedAnswers(answers: seq<Answer>, answerId: AnswerId): (r: seq<Answer>)
    ensures |r| == |answers|
    ensures forall i :: 0 <= i < |r| ==> r[i] == answers[i].(accepted := answers[i].id == answerId)
    ensures forall i :: 0 <= i < |r| ==> (r[i].accepted <==> r[i].id == answerId)
  {
    seq(|answers|, i requires 0 <= i < |answers| => answers[i].(accepted := answers[i].id == answerId))
  }

  /** When answer ids are distinct and the chosen one is present, exactly
      one answer is accepted. */
  lemma ExactlyOneAccepted(answers: seq<Answer>, answerId: AnswerId)
    requires forall i, j :: 0 <= i < j < |answers| ==> answers[i].id != answers[j].id
    requires FindAnswer(answers, answerId).Some?
    ensures var r := AcceptedAnswers(answers, answerId);
      exists i :: 0 <= i < |r| && r[i].accepted && forall j :: 0 <= j < |r| && r[j].accepted ==> j == i
  {
    var r := AcceptedAnswers(answers, answerId);
    var i := FindAnswer(answers, answerId).value;
    assert r[i].accepted;
    forall j | 0 <= j < |r| && r[j].accepted ensures j == i {
      assert answers[j].id == answerId;
    }
  }

  /** Accepting again replaces the earlier choice: there is no guard
      against a second accept. */
  lemma ReacceptOverrides(answers: seq<Answer>, first: AnswerId, second: AnswerId)
    ensures AcceptedAnswers(AcceptedAnswers(answers, first), second) == AcceptedAnswers(answers, second)
  {
  }

  // ---------------------------------------------------------------------
  // Class points

  /** `setDefaultMemberPoints(memberRef, value)`: the balance becomes
      `max(0, value)`; a missing record is created as a student's. Nothing
      else changes. */
  function SetDefaultPoints(members: map<(ClassId, Uid), Member>, key: (ClassId, Uid), value: int)
    : (r: map<(ClassId, Uid), Member>)
    ensures key in r && r[key].points == Some(Max0(value)) && r[key].points.value >= 0
    ensures key !in members ==> r[key] == Member(key.1, "", "student", Some(Max0(value)), None)
    ensures key in members ==> r[key] == members[key].(points := Some(Max0(value)))
    ensures forall k :: k != key ==> (k in r <==> k in members) && (k in members ==> r[k] == members[k])
  {
    if key !in members then members[key := Member(key.1, "", "student", Some(Max0(value)), None)]
    else members[key := members[key].(points := Some(Max0(value)))]
  }

  /** `updateDoc(memberRef, { points: increment(delta) })`, and on failure
      `setDefaultMemberPoints(memberRef, fallback)`. The update fails when
      the record is missing, or when `fails` says the write was refused. */
  function Credit(members: map<(ClassId, Uid), Member>, key: (ClassId, Uid), delta: int, fallback: int, fails: bool)
    : (r: map<(ClassId, Uid), Member>)
    ensures key in r
    ensures key in members && !fails ==>
      r[key] == members[key].(points := Some(OrZero(members[key].points) + delta))
    ensures key !in members || fails ==> r == SetDefaultPoints(members, key, fallback)
    ensures forall k :: k != key ==> (k in r <==> k in members) && (k in members ==> r[k] == members[k])
  {
    if key in members && !fails then members[key := members[key].(points := Incremented(members[key].points, delta))]
    else SetDefaultPoints(members, key, fallback)
  }

  /** The credit of a toggle: +1 when the caller now upvotes the answer,
      otherwise -1; the fallbacks are 1 and 0. */
  function VoteCredit(members: map<(ClassId, Uid), Member>, key: (ClassId, Uid), nowUpvoted: bool, fails: bool)
    : (r: map<(ClassId, Uid), Member>)
    ensures key in r
    ensures key in members && !fails ==>
      r[key] == members[key].(points := Some(OrZero(members[key].points) + (if nowUpvoted then 1 else -1)))
    ensures key !in members || fails ==> r[key].points == Some(if nowUpvoted then 1 else 0)
    ensures key !in members ==> r[key].role == "student"
    ensures forall k :: k != key ==> (k in r <==> k in members) && (k in members ==> r[k] == members[k])
  {
    if nowUpvoted then Credit(members, key, UpvotePoints, 1, fails)
    else Credit(members, key, -UpvotePoints, 0, fails)
  }

  /** With both increments going through, a vote and its withdrawal cancel
      out on the author's balance, and the rest of the table is unchanged. */
  lemma TwoTogglesNetZero(members: map<(ClassId, Uid), Member>, key: (ClassId, Uid), nowUpvoted: bool)
    requires key in members
    ensures var r := VoteCredit(VoteCredit(members, key, nowUpvoted, false), key, !nowUpvoted, false);
      && OrZero(r[key].points) == OrZero(members[key].points)
      && r[key].(points := members[key].points) == members[key]
      && forall k :: k != key ==> (k in r <==> k in members) && (k in members ==> r[k] == members[k])
  {
  }

  /** The decrement itself is not floored: an author at 0 whose vote is
      withdrawn ends at -1. Only the fallback write floors at zero. */
  lemma WithdrawalCanGoNegative(members: map<(ClassId, Uid), Member>, key: (ClassId, Uid))
    requires key in members && OrZero(members[key].points) == 0
    ensures VoteCredit(members, key, false, false)[key].points == Some(-1)
  {
  }

  /** Every balance the fallback writes is non-negative. */
  lemma FallbackNeverNegative(members: map<(ClassId, Uid), Member>, key: (ClassId, Uid), nowUpvoted: bool)
    requires key !in members
    ensures VoteCredit(members, key, nowUpvoted, false)[key].points.value >= 0
    ensures VoteCredit(members, key, nowUpvoted, true)[key].points.value >= 0
  {
  }

  /** Accepting twice pays the bonus twice. */
  lemma AcceptTwicePaysTwice(members: map<(ClassId, Uid), Member>, key: (ClassId, Uid))
    requires key in members
    ensures var r := Credit(Credit(members, key, AcceptPoints, AcceptPoints, false), key, AcceptPoints, AcceptPoints, false);
      r[key].points == Some(OrZero(members[key].points) + 2 * AcceptPoints)
  {
  }

  // ---------------------------------------------------------------------
  // Handlers on the store

  datatype VoteOutcome = LoginRequired | NoQuestion | NoAnswer | OwnAnswer | Voted(nowUpvoted: bool)

  /** The `answers.map(...)` loop of `handleToggleUpvote`, with its
      `changed` flag: the flag is raised exactly when some answer has the id. */
  method ToggleLoop(answers: seq<Answer>, answerId: AnswerId, uid: Uid) returns (newAnswers: seq<Answer>, changed: bool)
    ensures newAnswers == ToggleAnswers(answers, answerId, uid)
    ensures changed <==> FindAnswer(answers, answerId).Some?
  {
    newAnswers := [];
    changed := false;
    for i := 0 to |answers|
      invariant newAnswers == ToggleAnswers(answers[..i], answerId, uid)
      invariant changed <==> exists k :: 0 <= k < i && answers[k].id == answerId
    {
      var a := answers[i];
      if a.id == answerId {
        a := Toggled(a, uid);
        changed := true;
      }
      newAnswers := newAnswers + [a];
    }
    assert answers[..|answers|] == answers;
    if FindAnswer(answers, answerId).Some? {
      assert answers[FindAnswer(answers, answerId).value].id == answerId;
    }
  }

  /** `handleToggleUpvote`. `incrementFails` stands for a refused points
      write, which sends the handler to its fallback. */
  method ToggleUpvote(st: Store, classId: ClassId, user: Option<AuthUser>, questionId: QuestionId,
                      answerId: AnswerId, incrementFails: bool) returns (outcome: VoteOutcome)
    modifies st
    ensures st.classes == old(st.classes) && st.users == old(st.users) && st.materials == old(st.materials)
    ensures !outcome.Voted? ==> st.questions == old(st.questions) && st.members == old(st.members)
    ensures user.None? ==> outcome == LoginRequired
    ensures user.Some? && questionId !in old(st.questions) ==> outcome == NoQuestion
    ensures user.Some? && questionId in old(st.questions) ==>
      var answers := old(st.questions)[questionId].answers;
      var found := FindAnswer(answers, answerId);
      && (found.None? ==> outcome == NoAnswer)
      && (found.Some? && answers[found.value].authorId == user.value.uid ==> outcome == OwnAnswer)
      && (found.Some? && answers[found.value].authorId != user.value.uid ==>
            var newAnswers := ToggleAnswers(answers, answerId, user.value.uid);
            var now := user.value.uid in newAnswers[found.value].upvotes;
            && outcome == Voted(now)
            && (now <==> user.value.uid !in answers[found.value].upvotes)
            && st.questions == old(st.questions)[questionId := old(st.questions)[questionId].(answers := newAnswers)]
            && st.members == VoteCredit(old(st.members), (classId, answers[found.value].authorId), now, incrementFails))
  {
    if user.None? {
      return LoginRequired;
    }
    var uid := user.value.uid;
    if questionId !in st.questions {
      return NoQuestion;
    }
    var q := st.questions[questionId];
    var found := FindAnswer(q.answers, answerId);
    if found.None? {
      return NoAnswer;
    }
    var target := q.answers[found.value];
    if target.authorId == uid {
      return OwnAnswer;
    }
    var newAnswers, changed := ToggleLoop(q.answers, answerId, uid);
    st.questions := st.questions[questionId := q.(answers := newAnswers)];
    var answer := newAnswers[found.value];
    var now := uid in answer.upvotes;
    st.members := VoteCredit(st.members, (classId, answer.authorId), now, incrementFails);
    outcome := Voted(now);
  }

  datatype AcceptOutcome = Cancelled | QuestionMissing | Failed | NotAsker | Accepted

  /** `handleAcceptAnswer`. `confirmed` is the answer to the confirmation
      dialog; a signed-out caller makes the handler fail before any write. */
  method AcceptAnswer(st: Store, classId: ClassId, user: Option<AuthUser>, confirmed: bool,
                      questionId: QuestionId, answerId: AnswerId, answerAuthorId: Uid,
                      incrementFails: bool) returns (outcome: AcceptOutcome)
    modifies st
    ensures st.classes == old(st.classes) && st.users == old(st.users) && st.materials == old(st.materials)
    ensures outcome != Accepted ==> st.questions == old(st.questions) && st.members == old(st.members)
    ensures !confirmed ==> outcome == Cancelled
    ensures confirmed && questionId !in old(st.questions) ==> outcome == QuestionMissing
    ensures confirmed && questionId in old(st.questions) && user.None? ==> outcome == Failed
    ensures confirmed && questionId in old(st.questions) && user.Some? ==>
      var q := old(st.questions)[questionId];
      && (q.authorId != user.value.uid ==> outcome == NotAsker)
      && (q.authorId == user.value.uid ==>
            && outcome == Accepted
            && st.questions == old(st.questions)[questionId :=
                 q.(acceptedAnswerId := Some(answerId), answers := AcceptedAnswers(q.answers, answerId))]
            && st.members == Credit(old(st.members), (classId, answerAuthorId), AcceptPoints, AcceptPoints, incrementFails))
  {
    if !confirmed {
      return Cancelled;
    }
    if questionId !in st.questions {
      return QuestionMissing;
    }
    var q := st.questions[questionId];
    if user.None? {
      return Failed;
    }
    if q.authorId != user.value.uid {
      return NotAsker;
    }
    st.questions := st.questions[questionId := q.(acceptedAnswerId := Some(answerId))];
    var q2 := st.questions[questionId];
    st.questions := st.questions[questionId := q2.(answers := AcceptedAnswers(q.answers, answerId))];
    st.members := Credit(st.members, (classId, answerAuthorId), AcceptPoints, AcceptPoints, incrementFails);
    outcome := Accepted;
  }

  datatype AnswerOutcome = EmptyAnswer | QuestionNotFound | SignedOut | OwnQuestion | Answered(answer: Answer)

  /** The answer `handleAddAnswer` writes: an id from the clock and the
      caller, the trimmed text, the author's name, no votes, not accepted. */
  function NewAnswer(now: nat, user: AuthUser, profileName: Option<string>, text: string): (a: Answer)
    ensures a.upvotes == [] && !a.accepted && a.authorId == user.uid && a.body == Trim(text)
  {
    Answer(NatToString(now) + "_" + user.uid, Trim(text),
           if profileName.Some? && profileName.value != [] then profileName.value else user.email,
           user.uid, [], false)
  }

  /** `handleAddAnswer`. `now` is the clock reading the answer id is made of. */
  method AddAnswer(st: Store, user: Option<AuthUser>, profileName: Option<string>,
                   questionId: QuestionId, text: string, now: nat) returns (outcome: AnswerOutcome)
    modifies st
    ensures st.classes == old(st.classes) && st.users == old(st.users)
    ensures st.materials == old(st.materials) && st.members == old(st.members)
    ensures !outcome.Answered? ==> st.questions == old(st.questions)
    ensures IsBlank(text) ==> outcome == EmptyAnswer
    ensures !IsBlank(text) && questionId !in old(st.questions) ==> outcome == QuestionNotFound
    ensures !IsBlank(text) && questionId in old(st.questions) ==>
      var q := old(st.questions)[questionId];
      && (user.None? ==> outcome == SignedOut)
      && (user.Some? && q.authorId == user.value.uid ==> outcome == OwnQuestion)
      && (user.Some? && q.authorId != user.value.uid ==>
            var a := NewAnswer(now, user.value, profileName, text);
            && outcome == Answered(a)
            && st.questions == old(st.questions)[questionId := q.(answers := ArrayUnion(q.answers, a))])
  {
    TrimEmptyIffBlank(text);
    if Trim(text) == [] {
      return EmptyAnswer;
    }
    if questionId !in st.questions {
      return QuestionNotFound;
    }
    var q := st.questions[questionId];
    if user.None? {
      return SignedOut;
    }
    if q.authorId == user.value.uid {
      return OwnQuestion;
    }
    var a := NewAnswer(now, user.value, profileName, text);
    st.questions := st.questions[questionId := q.(answers := ArrayUnion(q.answers, a))];
    outcome := Answered(a);
  }

  datatype PostOutcome = ProfileLoading | StudentsOnly | MissingText | Posted

  /** `handlePostQuestion`. `questionId` is the id the store assigns to the
      new document. */
  method PostQuestion(st: Store, classId: ClassId, user: AuthUser, profile: Option<Profile>,
                      title: string, body: string, questionId: QuestionId) returns (outcome: PostOutcome)
    requires questionId !in st.questions
    modifies st
    ensures st.classes == old(st.classes) && st.users == old(st.users)
    ensures st.materials == old(st.materials) && st.members == old(st.members)
    ensures outcome != Posted ==> st.questions == old(st.questions)
    ensures profile.None? ==> outcome == ProfileLoading
    ensures profile.Some? && profile.value.role != "student" ==> outcome == StudentsOnly
    ensures profile.Some? && profile.value.role == "student" && (IsBlank(title) || IsBlank(body)) ==> outcome == MissingText
    ensures profile.Some? && profile.value.role == "student" && !IsBlank(title) && !IsBlank(body) ==>
      && outcome == Posted
      && st.questions == old(st.questions)[questionId := Question(classId, Trim(title), Trim(body),
           if profile.value.name != [] then profile.value.name else user.email, user.uid, [], None)]
  {
    if profile.None? {
      return ProfileLoading;
    }
    if profile.value.role != "student" {
      return StudentsOnly;
    }
    TrimEmptyIffBlank(title);
    TrimEmptyIffBlank(body);
    if Trim(title) == [] || Trim(body) == [] {
      return MissingText;
    }
    var author := if profile.value.name != [] then profile.value.name else user.email;
    st.questions := st.questions[questionId := Question(classId, Trim(title), Trim(body), author, user.uid, [], None)];
    outcome := Posted;
  }

  // ---------------------------------------------------------------------
  // Analytics

  /** The number of answers over a list of questions. */
  function AnswerCount(qs: seq<Question>): nat {
    if qs == [] then 0 else |qs[0].answers| + AnswerCount(qs[1..])
  }

  lemma {:induction false} AnswerCountAppend(a: seq<Question>, b: seq<Question>)
    ensures AnswerCount(a + b) == AnswerCount(a) + AnswerCount(b)
  {
    if a == [] {
      assert a + b == b;
    } else {
      assert (a + b)[0] == a[0];
      assert (a + b)[1..] == a[1..] + b;
      AnswerCountAppend(a[1..], b);
    }
  }

  /** A question without answers adds nothing to the count, and every
      answer of every question is counted. */
  lemma {:induction false} AnswerCountBounds(qs: seq<Question>)
    ensures forall i :: 0 <= i < |qs| ==> |qs[i].answers| <= AnswerCount(qs)
    ensures (forall i :: 0 <= i < |qs| ==> qs[i].answers == []) ==> AnswerCount(qs) == 0
  {
    if qs != [] {
      AnswerCountBounds(qs[1..]);
      assert forall i :: 1 <= i < |qs| ==> qs[i] == qs[1..][i - 1];
    }
  }

  /** The `forEach` that adds up `totalAnswers`. */
  method CountAnswers(qs: seq<Question>) returns (total: nat)
    ensures total == AnswerCount(qs)
  {
    total := 0;
    for i := 0 to |qs|
      invariant total == AnswerCount(qs[..i])
    {
      AnswerCountAppend(qs[..i], [qs[i]]);
      assert qs[..i + 1] == qs[..i] + [qs[i]];
      assert AnswerCount([qs[i]]) == |qs[i].answers| by {
        assert [qs[i]][1..] == [];
      }
      total := total + |qs[i].answers|;
    }
    assert qs[..|qs|] == qs;
  }

  /** One entry of the faculty panel's top-contributor list. */
  datatype Contributor = Contributor(uid: Uid, name: string, points: int)

  /** The contributor name: the member's name, else e-mail, else document
      id, with numbering and anything from the first `@` removed, and
      "Unknown" when nothing is left. */
  function ContributorName(uid: Uid, m: Member): (r: string)
    ensures r != [] && '@' !in r
  {
    var raw := Leaderboard.FirstNonEmpty(m.name, m.email);
    var display := Leaderboard.CutAtSign(Leaderboard.StripNumbering(if raw == [] then uid else raw));
    if display == [] then "Unknown" else display
  }

  function ToContributor(uid: Uid, m: Member): (c: Contributor)
    ensures c.uid == uid && c.points == OrZero(m.points)
  {
    Contributor(uid, ContributorName(uid, m), OrZero(m.points))
  }

  function Contributors(docs: seq<(Uid, Member)>): (r: seq<Contributor>)
    ensures |r| == |docs|
    ensures forall i :: 0 <= i < |docs| ==> r[i] == ToContributor(docs[i].0, docs[i].1)
  {
    seq(|docs|, i requires 0 <= i < |docs| => ToContributor(docs[i].0, docs[i].1))
  }

  /** The comparator `(b.points || 0) - (a.points || 0)`: more points first. */
  predicate MorePoints(a: Contributor, b: Contributor) {
    a.points >= b.points
  }

  lemma MorePointsOrders()
    ensures Sorting.TotalPreorder(MorePoints)
  {
  }

  /** The ten (or fewer) members with the most points, best first: every
      member left out has no more points than anyone listed. */
  function TopContributors(docs: seq<(Uid, Member)>): (r: seq<Contributor>)
    ensures |r| == if |docs| < 10 then |docs| else 10
    ensures forall i, j :: 0 <= i < j < |r| ==> r[i].points >= r[j].points
    ensures multiset(r) <= multiset(Contributors(docs))
    ensures forall c :: c in multiset(Contributors(docs)) - multiset(r) ==>
      forall i :: 0 <= i < |r| ==> c.points <= r[i].points
  {
    MorePointsOrders();
    var sorted := Sorting.Sort(MorePoints, Contributors(docs));
    var n := if |sorted| < 10 then |sorted| else 10;
    SortedPrefixIsTop(Contributors(docs), sorted, n);
    sorted[..n]
  }

  /** The first `n` of a list sorted by points have at least the points of
      every element after them. */
  lemma SortedPrefixIsTop(all: seq<Contributor>, sorted: seq<Contributor>, n: nat)
    requires n <= |sorted| && Sorting.SortedBy(MorePoints, sorted)
    requires multiset(sorted) == multiset(all)
    ensures forall i, j :: 0 <= i < j < n ==> sorted[..n][i].points >= sorted[..n][j].points
    ensures multiset(sorted[..n]) <= multiset(all)
    ensures forall c :: c in multiset(all) - multiset(sorted[..n]) ==>
      forall i :: 0 <= i < |sorted[..n]| ==> c.points <= sorted[..n][i].points
  {
    var top, rest := sorted[..n], sorted[n..];
    assert sorted == top + rest;
    assert multiset(all) - multiset(top) == multiset(rest);
    RestBelowTop(sorted, n);
  }

  /** In a list sorted by points, everything after the first `n` has no
      more points than any of them. */
  lemma RestBelowTop(sorted: seq<Contributor>, n: nat)
    requires n <= |sorted| && Sorting.SortedBy(MorePoints, sorted)
    ensures forall c, i :: c in sorted[n..] && 0 <= i < n ==> c.points <= sorted[i].points
  {
    forall c, i | c in sorted[n..] && 0 <= i < n ensures c.points <= sorted[i].points {
      var j :| 0 <= j < |sorted| - n && sorted[n..][j] == c;
      assert sorted[n + j] == c;
    }
  }
}
