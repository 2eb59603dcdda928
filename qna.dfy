/** The local question-and-answer page: questions with tags, nested reply
    threads, upvotes worth ten class points to the author, tag selection,
    collapsing threads, search and sorting. All state is local to the page
    and replaced wholesale, so every handler is a function from the old
    state to the new one. */
module Qna {
  import opened Text
  import Seqs
  import Sorting

  /** The page's simulated signed-in user. */
  const CurrentUser: string := "You"
  const VotePoints := 10

  datatype Reply = Reply(id: int, author: string, text: string, upvotes: int, replies: seq<Reply>)

  datatype Question = Question(
    id: int, title: string, description: string, tags: seq<string>, author: string,
    image: Option<string>, upvotes: int, replies: seq<Reply>, createdAt: int)

  /** `classPoints`: author name to points; a missing entry counts as 0. */
  type Points = map<string, int>

  function Get(p: Points, author: string): int {
    if author in p then p[author] else 0
  }

  /** `{ ...prev, [author]: (prev[author] || 0) + d }` */
  function Bump(p: Points, author: string, d: int): (r: Points)
    ensures Get(r, author) == Get(p, author) + d
    ensures forall a :: a != author ==> Get(r, a) == Get(p, a)
  {
    p[author := Get(p, author) + d]
  }

  // ---------------------------------------------------------------------
  // Questions

  function MaxId(qs: seq<Question>): (m: int)
    requires qs != []
    ensures forall i :: 0 <= i < |qs| ==> qs[i].id <= m
    ensures exists i :: 0 <= i < |qs| && qs[i].id == m
  {
    if |qs| == 1 then qs[0].id
    else
      var m := MaxId(qs[1..]);
      assert forall i :: 1 <= i < |qs| ==> qs[i] == qs[1..][i - 1];
      if qs[0].id >= m then qs[0].id else m
  }

  /** `nextQuestionId`: 1 for an empty list, otherwise one more than the
      largest id, so never the id of an existing question. */
  function NextQuestionId(qs: seq<Question>): (r: int)
    ensures qs == [] ==> r == 1
    ensures forall i :: 0 <= i < |qs| ==> qs[i].id < r
    ensures qs != [] ==> exists i :: 0 <= i < |qs| && qs[i].id == r - 1
  {
    if qs == [] then 1 else MaxId(qs) + 1
  }

  /** Every piece trimmed: `.map((t) => t.trim())`. */
  function TrimAll(pieces: seq<string>): (r: seq<string>)
    ensures |r| == |pieces|
    ensures forall i :: 0 <= i < |r| ==> r[i] == Trim(pieces[i])
  {
    seq(|pieces|, i requires 0 <= i < |pieces| => Trim(pieces[i]))
  }

  predicate NonEmpty(s: string) {
    s != []
  }

  /** `newTags.split(",").map((t) => t.trim()).filter(Boolean)`: the
      trimmed comma-separated pieces, empty ones dropped. */
  function ParseTags(text: string): (r: seq<string>)
    ensures forall t :: t in r ==> t != [] && ',' !in t && !IsSpace(t[0]) && !IsSpace(t[|t| - 1])
    ensures Seqs.IsSubsequence(r, TrimAll(Split(text, ',')))
    ensures forall t :: multiset(r)[t] == if t != [] then multiset(TrimAll(Split(text, ',')))[t] else 0
  {
    TrimmedPieces(Split(text, ','));
    Seqs.FilterCounts(TrimAll(Split(text, ',')), NonEmpty);
    Seqs.Filter(TrimAll(Split(text, ',')), NonEmpty)
  }

  /** The trimmed pieces of a split have no separator and no white space
      at either end. */
  lemma TrimmedPieces(pieces: seq<string>)
    requires forall i :: 0 <= i < |pieces| ==> ',' !in pieces[i]
    ensures forall t :: t in TrimAll(pieces) ==> ',' !in t && (t == [] || (!IsSpace(t[0]) && !IsSpace(t[|t| - 1])))
  {
    var trimmed := TrimAll(pieces);
    forall t | t in trimmed ensures ',' !in t && (t == [] || (!IsSpace(t[0]) && !IsSpace(t[|t| - 1]))) {
      var i :| 0 <= i < |trimmed| && trimmed[i] == t;
      TrimKeepsOut(pieces[i], ',');
    }
  }

  /** An empty tag box gives no tags; one tag without commas gives it
      trimmed, unless it is blank. */
  lemma ParseOneTag(text: string)
    requires ',' !in text
    ensures IsBlank(text) ==> ParseTags(text) == []
    ensures !IsBlank(text) ==> ParseTags(text) == [Trim(text)]
  {
    SplitNoSeparator(text, ',');
    TrimEmptyIffBlank(text);
    var trimmed := TrimAll([text]);
    assert trimmed == [Trim(text)];
    assert trimmed[1..] == [];
  }

  /** `handlePostQuestion`: refused (`None`) when the title or the
      description is blank; otherwise the new question, with the title and
      description as typed, goes in front of the list. */
  function PostQuestion(qs: seq<Question>, title: string, description: string, tagsText: string,
                        image: Option<string>, now: int): (r: Option<seq<Question>>)
    ensures r.None? <==> IsBlank(title) || IsBlank(description)
    ensures r.Some? ==> |r.value| == |qs| + 1 && r.value[1..] == qs
    ensures r.Some? ==>
      var q := r.value[0];
      && q.id == NextQuestionId(qs) && q.upvotes == 0 && q.replies == []
      && q.title == title && q.description == description && q.tags == ParseTags(tagsText)
      && q.author == CurrentUser && q.image == image && q.createdAt == now
  {
    TrimEmptyIffBlank(title);
    TrimEmptyIffBlank(description);
    if Trim(title) == [] || Trim(description) == [] then None
    else
      var q := Question(NextQuestionId(qs), title, description, ParseTags(tagsText), CurrentUser,
                        image, 0, [], now);
      assert ([q] + qs)[1..] == qs;
      Some([q] + qs)
  }

  /** Posting keeps question ids distinct. */
  lemma PostKeepsIdsDistinct(qs: seq<Question>, title: string, description: string, tagsText: string,
                             image: Option<string>, now: int)
    requires forall i, j :: 0 <= i < j < |qs| ==> qs[i].id != qs[j].id
    requires PostQuestion(qs, title, description, tagsText, image, now).Some?
    ensures var r := PostQuestion(qs, title, description, tagsText, image, now).value;
      forall i, j :: 0 <= i < j < |r| ==> r[i].id != r[j].id
  {
    var r := PostQuestion(qs, title, description, tagsText, image, now).value;
    forall i, j | 0 <= i < j < |r| ensures r[i].id != r[j].id {
      assert r[j] == qs[j - 1];
      if i > 0 {
        assert r[i] == qs[i - 1];
      }
    }
  }

  /** `handleUpvoteQuestion`: nothing happens to one's own question;
      otherwise every question with its id gains one upvote and its author
      ten points. */
  function UpvoteQuestion(qs: seq<Question>, points: Points, q: Question): (r: (seq<Question>, Points))
    ensures q.author == CurrentUser ==> r == (qs, points)
    ensures q.author != CurrentUser ==>
      && |r.0| == |qs|
      && (forall i :: 0 <= i < |qs| && qs[i].id == q.id ==> r.0[i] == qs[i].(upvotes := qs[i].upvotes + 1))
      && (forall i :: 0 <= i < |qs| && qs[i].id != q.id ==> r.0[i] == qs[i])
      && Get(r.1, q.author) == Get(points, q.author) + VotePoints
      && (forall a :: a != q.author ==> Get(r.1, a) == Get(points, a))
  {
    if q.author == CurrentUser then (qs, points)
    else
      (seq(|qs|, i requires 0 <= i < |qs| => if qs[i].id == q.id then qs[i].(upvotes := qs[i].upvotes + 1) else qs[i]),
       Bump(points, q.author, VotePoints))
  }

  // ---------------------------------------------------------------------
  // Reply threads

  /** Every reply id in a thread, at any depth. */
  function IdsOf(rs: seq<Reply>): set<int>
    decreases rs
  {
    if rs == [] then {} else IdsIn(rs[0]) + IdsOf(rs[1..])
  }

  function IdsIn(r: Reply): set<int>
    decreases r
  {
    {r.id} + IdsOf(r.replies)
  }

  /** The upvotes on the replies by `author`, summed over the thread. */
  function VotesOf(rs: seq<Reply>, author: string): int
    decreases rs
  {
    if rs == [] then 0 else VotesIn(rs[0], author) + VotesOf(rs[1..], author)
  }

  function VotesIn(r: Reply, author: string): int
    decreases r
  {
    (if r.author == author then r.upvotes else 0) + VotesOf(r.replies, author)
  }

  /** The number of replies in a thread. */
  function Count(rs: seq<Reply>): nat
    decreases rs
  {
    if rs == [] then 0 else Size(rs[0]) + Count(rs[1..])
  }

  function Size(r: Reply): nat
    decreases r
  {
    1 + Count(r.replies)
  }

  /** The thread with every upvote count set to 0: who wrote what, under
      which reply, in which order. */
  function ShapeOf(rs: seq<Reply>): seq<Reply>
    decreases rs
  {
    if rs == [] then [] else [ShapeIn(rs[0])] + ShapeOf(rs[1..])
  }

  function ShapeIn(r: Reply): Reply
    decreases r
  {
    Reply(r.id, r.author, r.text, 0, ShapeOf(r.replies))
  }

  /** The upvotes on the replies with id `x`, summed over the thread. */
  function VotesAtOf(rs: seq<Reply>, x: int): int
    decreases rs
  {
    if rs == [] then 0 else VotesAtIn(rs[0], x) + VotesAtOf(rs[1..], x)
  }

  function VotesAtIn(r: Reply, x: int): int
    decreases r
  {
    (if r.id == x then r.upvotes else 0) + VotesAtOf(r.replies, x)
  }

  /** The replies the search for `target` stops at (those with the target
      id, not looking inside them). */
  function Hits(rs: seq<Reply>, target: int): nat
    decreases rs
  {
    if rs == [] then 0 else HitsIn(rs[0], target) + Hits(rs[1..], target)
  }

  function HitsIn(r: Reply, target: int): nat
    decreases r
  {
    if r.id == target then 1 else Hits(r.replies, target)
  }

  /** The replies by `author` among those the search for `target` stops at. */
  function HitsByOf(rs: seq<Reply>, target: int, author: string): nat
    decreases rs
  {
    if rs == [] then 0 else HitsByIn(rs[0], target, author) + HitsByOf(rs[1..], target, author)
  }

  function HitsByIn(r: Reply, target: int, author: string): nat
    decreases r
  {
    if r.id == target then (if r.author == author then 1 else 0) else HitsByOf(r.replies, target, author)
  }

  /** `addUpvoteToReplies` on one reply: a reply with the target id gains
      an upvote and its author ten points unless it is the current user's;
      its own replies are not searched. Any other reply passes the search
      on to its replies. The thread keeps its shape; the upvotes on the
      target id grow by the number of replies the search stops at that are
      not the current user's, and each author gains one upvote and ten
      points per such reply of theirs. */
  function UpvoteReply(r: Reply, target: int, points: Points): (res: (Reply, Points))
    ensures ShapeIn(res.0) == ShapeIn(r)
    ensures forall x :: (VotesAtIn(res.0, x)
      == VotesAtIn(r, x) + (if x == target then HitsIn(r, target) - HitsByIn(r, target, CurrentUser) else 0))
    ensures forall a :: VotesIn(res.0, a) == VotesIn(r, a) + (if a == CurrentUser then 0 else HitsByIn(r, target, a))
    ensures forall a :: (Get(res.1, a)
      == Get(points, a) + (if a == CurrentUser then 0 else VotePoints * HitsByIn(r, target, a)))
    decreases r
  {
    if r.id == target then
      if r.author == CurrentUser then (r, points)
      else (r.(upvotes := r.upvotes + 1), Bump(points, r.author, VotePoints))
    else if |r.replies| > 0 then
      var (children, p) := UpvoteReplies(r.replies, target, points);
      (r.(replies := children), p)
    else (r, points)
  }

  /** `addUpvoteToReplies(replies, targetId)`, with the points it credits
      along the way returned instead of set; the same promises over a list. */
  function UpvoteReplies(rs: seq<Reply>, target: int, points: Points): (res: (seq<Reply>, Points))
    ensures ShapeOf(res.0) == ShapeOf(rs)
    ensures forall x :: (VotesAtOf(res.0, x)
      == VotesAtOf(rs, x) + (if x == target then Hits(rs, target) - HitsByOf(rs, target, CurrentUser) else 0))
    ensures forall a :: VotesOf(res.0, a) == VotesOf(rs, a) + (if a == CurrentUser then 0 else HitsByOf(rs, target, a))
    ensures forall a :: (Get(res.1, a)
      == Get(points, a) + (if a == CurrentUser then 0 else VotePoints * HitsByOf(rs, target, a)))
    decreases rs
  {
    if rs == [] then ([], points)
    else
      var (first, p) := UpvoteReply(rs[0], target, points);
      var (rest, p') := UpvoteReplies(rs[1..], target, p);
      assert ([first] + rest)[0] == first && ([first] + rest)[1..] == rest;
      ([first] + rest, p')
  }

  /** The upvoted thread does not depend on the points credited so far. */
  lemma {:induction false} UpvoteReplyThread(r: Reply, target: int, p: Points, q: Points)
    ensures UpvoteReply(r, target, p).0 == UpvoteReply(r, target, q).0
    decreases r
  {
    if r.id != target && |r.replies| > 0 {
      UpvoteRepliesThread(r.replies, target, p, q);
    }
  }

  lemma {:induction false} UpvoteRepliesThread(rs: seq<Reply>, target: int, p: Points, q: Points)
    ensures UpvoteReplies(rs, target, p).0 == UpvoteReplies(rs, target, q).0
    decreases rs
  {
    if rs != [] {
      UpvoteReplyThread(rs[0], target, p, q);
      UpvoteRepliesThread(rs[1..], target, UpvoteReply(rs[0], target, p).1, UpvoteReply(rs[0], target, q).1);
    }
  }

  /** A target id that is nowhere in the thread changes nothing. */
  lemma {:induction false} UpvoteReplyMissing(r: Reply, target: int, points: Points)
    requires target !in IdsIn(r)
    ensures UpvoteReply(r, target, points) == (r, points)
    decreases r
  {
    if |r.replies| > 0 {
      UpvoteRepliesMissing(r.replies, target, points);
    }
  }

  lemma {:induction false} UpvoteRepliesMissing(rs: seq<Reply>, target: int, points: Points)
    requires target !in IdsOf(rs)
    ensures UpvoteReplies(rs, target, points) == (rs, points)
    decreases rs
  {
    if rs != [] {
      UpvoteReplyMissing(rs[0], target, points);
      UpvoteRepliesMissing(rs[1..], target, points);
      assert [rs[0]] + rs[1..] == rs;
    }
  }

  /** The replies by `author` that an upvote of `target` in the selected
      questions stops at. */
  function SelectedHitsBy(qs: seq<Question>, selected: Option<int>, target: int, author: string): nat {
    if selected.None? || qs == [] then 0
    else
      var here := if qs[0].id == selected.value then HitsByOf(qs[0].replies, target, author) else 0;
      here + SelectedHitsBy(qs[1..], selected, target, author)
  }

  /** `handleUpvoteReply`: without a selected question nothing happens;
      otherwise the upvote runs through the replies of every question with
      the selected id, crediting points as it goes; the other questions and
      the current user's points are kept. */
  function UpvoteReplyIn(qs: seq<Question>, points: Points, selected: Option<int>, target: int)
    : (r: (seq<Question>, Points))
    ensures selected.None? ==> r == (qs, points)
    ensures |r.0| == |qs|
    ensures forall i :: 0 <= i < |qs| && (selected.None? || qs[i].id != selected.value) ==> r.0[i] == qs[i]
    decreases |qs|
  {
    if selected.None? || qs == [] then (qs, points)
    else
      var (head, p) := UpvoteHead(qs[0], points, selected.value, target);
      var (rest, p') := UpvoteReplyIn(qs[1..], p, selected, target);
      assert forall i :: 1 <= i < |qs| ==> ([head] + rest)[i] == rest[i - 1] && qs[i] == qs[1..][i - 1];
      ([head] + rest, p')
  }

  /** What `handleUpvoteReply` does to the selected questions: their
      replies become the upvoted thread, and each author other than the
      current user gains ten points per upvoted reply of theirs. */
  lemma {:induction false} UpvoteReplyInSelected(qs: seq<Question>, points: Points, selected: Option<int>, target: int)
    ensures var r := UpvoteReplyIn(qs, points, selected, target);
      && (forall i :: 0 <= i < |qs| && selected.Some? && qs[i].id == selected.value ==>
            r.0[i] == qs[i].(replies := UpvoteReplies(qs[i].replies, target, points).0))
      && (forall a :: Get(r.1, a)
            == Get(points, a) + (if a == CurrentUser then 0 else VotePoints * SelectedHitsBy(qs, selected, target, a)))
    decreases |qs|
  {
    if selected.Some? && qs != [] {
      var (head, p) := UpvoteHead(qs[0], points, selected.value, target);
      UpvoteReplyInSelected(qs[1..], p, selected, target);
      var r := UpvoteReplyIn(qs, points, selected, target);
      var rest := UpvoteReplyIn(qs[1..], p, selected, target);
      assert r.0 == [head] + rest.0 && r.1 == rest.1;
      forall i | 1 <= i < |qs| && qs[i].id == selected.value
        ensures r.0[i] == qs[i].(replies := UpvoteReplies(qs[i].replies, target, points).0)
      {
        assert r.0[i] == rest.0[i - 1] && qs[i] == qs[1..][i - 1];
        UpvoteRepliesThread(qs[i].replies, target, p, points);
      }
    }
  }

  /** One question of `handleUpvoteReply`'s map: the selected one has the
      upvote run through its replies, any other is kept. */
  function UpvoteHead(q: Question, points: Points, selected: int, target: int): (r: (Question, Points))
    ensures q.id != selected ==> r == (q, points)
    ensures q.id == selected ==> r == (q.(replies := UpvoteReplies(q.replies, target, points).0), UpvoteReplies(q.replies, target, points).1)
  {
    if q.id == selected then
      var (rs, p) := UpvoteReplies(q.replies, target, points);
      (q.(replies := rs), p)
    else (q, points)
  }

  /** The thread with every reply whose id is `x` taken out, together
      with the replies under it. */
  function RemoveOf(rs: seq<Reply>, x: int): seq<Reply>
    decreases rs
  {
    if rs == [] then []
    else (if rs[0].id == x then [] else [RemoveIn(rs[0], x)]) + RemoveOf(rs[1..], x)
  }

  function RemoveIn(r: Reply, x: int): Reply
    decreases r
  {
    r.(replies := RemoveOf(r.replies, x))
  }

  /** Removing an id that is nowhere in the thread changes nothing. */
  lemma {:induction false} RemoveFreshIn(r: Reply, x: int)
    requires x !in IdsIn(r)
    ensures RemoveIn(r, x) == r
    decreases r
  {
    RemoveFreshOf(r.replies, x);
  }

  lemma {:induction false} RemoveFreshOf(rs: seq<Reply>, x: int)
    requires x !in IdsOf(rs)
    ensures RemoveOf(rs, x) == rs
    decreases rs
  {
    if rs != [] {
      RemoveFreshIn(rs[0], x);
      RemoveFreshOf(rs[1..], x);
      assert [rs[0]] + rs[1..] == rs;
    }
  }

  lemma {:induction false} RemoveAppend(a: seq<Reply>, b: seq<Reply>, x: int)
    ensures RemoveOf(a + b, x) == RemoveOf(a, x) + RemoveOf(b, x)
    decreases |a|
  {
    if a == [] {
      assert a + b == b;
    } else {
      assert (a + b)[0] == a[0] && (a + b)[1..] == a[1..] + b;
      RemoveAppend(a[1..], b, x);
    }
  }

  /** Appending a reply with a fresh id and removing that id again gives
      back the replies. */
  lemma RemoveAppended(rs: seq<Reply>, newReply: Reply)
    ensures newReply.id !in IdsOf(rs) ==> RemoveOf(rs + [newReply], newReply.id) == rs
  {
    RemoveAppend(rs, [newReply], newReply.id);
    assert RemoveOf([newReply], newReply.id) == [];
    if newReply.id !in IdsOf(rs) {
      RemoveFreshOf(rs, newReply.id);
    }
  }

  /** `addReplyToReplies` on one reply: a reply with the target id gets the
      new reply appended to its replies (its own replies are not searched);
      any other reply passes the search on. Only the replies change, and
      when the new reply's id is fresh, removing it again gives back the
      reply as it was. */
  function AddReplyAt(r: Reply, target: int, newReply: Reply): (res: Reply)
    ensures res == r.(replies := res.replies)
    ensures newReply.id !in IdsIn(r) ==> RemoveIn(res, newReply.id) == r
    decreases r
  {
    if r.id == target then
      RemoveAppended(r.replies, newReply);
      r.(replies := r.replies + [newReply])
    else r.(replies := AddReplyTo(r.replies, target, newReply))
  }

  /** `addReplyToReplies(replies, targetId, newReply)`: the same replies in
      the same order, and with a fresh id for the new reply, removing it
      again gives back the thread as it was. */
  function AddReplyTo(rs: seq<Reply>, target: int, newReply: Reply): (r: seq<Reply>)
    ensures |r| == |rs|
    ensures forall i :: 0 <= i < |rs| ==> r[i].id == rs[i].id
    ensures newReply.id !in IdsOf(rs) ==> RemoveOf(r, newReply.id) == rs
    decreases rs
  {
    if rs == [] then []
    else
      var r := [AddReplyAt(rs[0], target, newReply)] + AddReplyTo(rs[1..], target, newReply);
      assert r[0] == AddReplyAt(rs[0], target, newReply) && r[1..] == AddReplyTo(rs[1..], target, newReply);
      assert [rs[0]] + rs[1..] == rs;
      r
  }

  /** Every reply with the new reply's id is the new reply itself, and it
      sits last among the replies of a reply with the target id (`under`
      says whether `rs` are such replies). */
  predicate PlacedOf(rs: seq<Reply>, newReply: Reply, target: int, under: bool)
    decreases rs
  {
    rs == [] ||
    (&& (rs[0].id == newReply.id ==> under && |rs| == 1 && rs[0] == newReply)
     && (rs[0].id != newReply.id ==> PlacedOf(rs[0].replies, newReply, target, rs[0].id == target))
     && PlacedOf(rs[1..], newReply, target, under))
  }

  /** A thread without the new reply's id places it nowhere wrongly. */
  lemma {:induction false} PlacedFresh(rs: seq<Reply>, newReply: Reply, target: int, under: bool)
    requires newReply.id !in IdsOf(rs)
    ensures PlacedOf(rs, newReply, target, under)
    decreases rs
  {
    if rs != [] {
      PlacedFresh(rs[0].replies, newReply, target, rs[0].id == target);
      PlacedFresh(rs[1..], newReply, target, under);
    }
  }

  lemma {:induction false} PlacedSnoc(rs: seq<Reply>, newReply: Reply, target: int)
    requires newReply.id !in IdsOf(rs)
    ensures PlacedOf(rs + [newReply], newReply, target, true)
    decreases rs
  {
    if rs == [] {
      assert [] + [newReply] == [newReply] && [newReply][1..] == [];
    } else {
      assert (rs + [newReply])[0] == rs[0] && (rs + [newReply])[1..] == rs[1..] + [newReply];
      PlacedFresh(rs[0].replies, newReply, target, rs[0].id == target);
      PlacedSnoc(rs[1..], newReply, target);
    }
  }

  lemma {:induction false} HitsAppend(a: seq<Reply>, b: seq<Reply>, x: int)
    ensures Hits(a + b, x) == Hits(a, x) + Hits(b, x)
    decreases |a|
  {
    if a == [] {
      assert a + b == b;
    } else {
      assert (a + b)[0] == a[0] && (a + b)[1..] == a[1..] + b;
      HitsAppend(a[1..], b, x);
    }
  }

  lemma {:induction false} HitsFresh(rs: seq<Reply>, x: int)
    requires x !in IdsOf(rs)
    ensures Hits(rs, x) == 0
    decreases rs
  {
    if rs != [] {
      HitsFresh(rs[0].replies, x);
      HitsFresh(rs[1..], x);
    }
  }

  /** Where a reply with a fresh id lands: as the last reply under each
      reply the search stops at, once per such reply, and nowhere else. */
  lemma {:induction false} AddReplyAtPlaced(r: Reply, target: int, newReply: Reply)
    requires newReply.id !in IdsIn(r)
    ensures var res := AddReplyAt(r, target, newReply);
      && res.id != newReply.id
      && PlacedOf(res.replies, newReply, target, r.id == target)
      && HitsIn(res, newReply.id) == HitsIn(r, target)
    decreases r
  {
    if r.id == target {
      PlacedSnoc(r.replies, newReply, target);
      HitsAppend(r.replies, [newReply], newReply.id);
      HitsFresh(r.replies, newReply.id);
      assert [newReply][1..] == [];
    } else {
      AddReplyToPlaced(r.replies, target, newReply, false);
    }
  }

  lemma {:induction false} AddReplyToPlaced(rs: seq<Reply>, target: int, newReply: Reply, under: bool)
    requires newReply.id !in IdsOf(rs)
    ensures var res := AddReplyTo(rs, target, newReply);
      && PlacedOf(res, newReply, target, under)
      && Hits(res, newReply.id) == Hits(rs, target)
    decreases rs
  {
    if rs != [] {
      var res := AddReplyTo(rs, target, newReply);
      AddReplyAtPlaced(rs[0], target, newReply);
      AddReplyToPlaced(rs[1..], target, newReply, under);
      assert res[0] == AddReplyAt(rs[0], target, newReply) && res[1..] == AddReplyTo(rs[1..], target, newReply);
    }
  }

  lemma {:induction false} CountAppend(a: seq<Reply>, b: seq<Reply>)
    ensures Count(a + b) == Count(a) + Count(b)
    decreases |a|
  {
    if a == [] {
      assert a + b == b;
    } else {
      assert (a + b)[0] == a[0];
      assert (a + b)[1..] == a[1..] + b;
      CountAppend(a[1..], b);
    }
  }

  /** Each reply the search stops at gains one copy of the new reply, and
      nothing else is added or lost. */
  lemma {:induction false} AddReplyAtCount(r: Reply, target: int, newReply: Reply)
    ensures Size(AddReplyAt(r, target, newReply)) == Size(r) + HitsIn(r, target) * Size(newReply)
    decreases r
  {
    if r.id == target {
      CountAppend(r.replies, [newReply]);
      assert Count([newReply]) == Size(newReply) by {
        assert [newReply][1..] == [];
      }
    } else {
      AddReplyToCount(r.replies, target, newReply);
    }
  }

  lemma {:induction false} AddReplyToCount(rs: seq<Reply>, target: int, newReply: Reply)
    ensures Count(AddReplyTo(rs, target, newReply)) == Count(rs) + Hits(rs, target) * Size(newReply)
    decreases rs
  {
    if rs != [] {
      AddReplyAtCount(rs[0], target, newReply);
      AddReplyToCount(rs[1..], target, newReply);
      var r := AddReplyTo(rs, target, newReply);
      assert r[0] == AddReplyAt(rs[0], target, newReply);
      assert r[1..] == AddReplyTo(rs[1..], target, newReply);
      Distribute(HitsIn(rs[0], target), Hits(rs[1..], target), Size(newReply));
    }
  }

  /** Multiplication distributes over a sum of counts. */
  lemma Distribute(a: nat, b: nat, n: nat)
    ensures (a + b) * n == a * n + b * n
  {
  }

  /** A target id that is nowhere in the thread changes nothing. */
  lemma {:induction false} AddReplyAtMissing(r: Reply, target: int, newReply: Reply)
    requires target !in IdsIn(r)
    ensures AddReplyAt(r, target, newReply) == r
    decreases r
  {
    AddReplyToMissing(r.replies, target, newReply);
  }

  lemma {:induction false} AddReplyToMissing(rs: seq<Reply>, target: int, newReply: Reply)
    requires target !in IdsOf(rs)
    ensures AddReplyTo(rs, target, newReply) == rs
    decreases rs
  {
    if rs != [] {
      AddReplyAtMissing(rs[0], target, newReply);
      AddReplyToMissing(rs[1..], target, newReply);
      assert [rs[0]] + rs[1..] == rs;
    }
  }

  /** The reply `handlePostReply` creates. */
  function NewReply(now: int, text: string): (r: Reply)
    ensures r.author == CurrentUser && r.text == Trim(text) && r.upvotes == 0 && r.replies == []
  {
    Reply(now, CurrentUser, Trim(text), 0, [])
  }

  /** The new replies of the selected question: appended at the top level
      without a reply target, otherwise under every reply with the
      target's id. */
  function PostReplyTo(q: Question, target: Option<int>, newReply: Reply): (r: Question)
    ensures r == q.(replies := r.replies)
    ensures target.None? ==>
      |r.replies| == |q.replies| + 1 && r.replies[..|q.replies|] == q.replies && r.replies[|q.replies|] == newReply
    ensures newReply.id !in IdsOf(q.replies) ==> RemoveOf(r.replies, newReply.id) == q.replies
  {
    RemoveAppended(q.replies, newReply);
    assert (q.replies + [newReply])[..|q.replies|] == q.replies;
    if target.None? then q.(replies := q.replies + [newReply])
    else q.(replies := AddReplyTo(q.replies, target.value, newReply))
  }

  /** `handlePostReply` with the selected question's id: a blank reply
      changes nothing; otherwise only the questions with the selected id
      change. */
  function PostReply(qs: seq<Question>, selectedId: int, target: Option<int>, text: string, now: int)
    : (r: seq<Question>)
    ensures IsBlank(text) ==> r == qs
    ensures |r| == |qs|
    ensures forall i :: 0 <= i < |qs| && qs[i].id != selectedId ==> r[i] == qs[i]
    ensures !IsBlank(text) ==> forall i :: 0 <= i < |qs| && qs[i].id == selectedId ==>
      r[i] == PostReplyTo(qs[i], target, NewReply(now, text))
  {
    TrimEmptyIffBlank(text);
    if Trim(text) == [] then qs
    else
      var n := NewReply(now, text);
      seq(|qs|, i requires 0 <= i < |qs| => if qs[i].id == selectedId then PostReplyTo(qs[i], target, n) else qs[i])
  }

  /** A posted reply lands once at the top level, or once under each reply
      the search stops at; the question keeps all its other replies. With a
      target and a fresh id, every copy of the reply is the last reply under
      a reply with the target id, and there are as many copies as replies
      the search stops at. */
  lemma PostReplyCount(q: Question, target: Option<int>, newReply: Reply)
    ensures target.None? ==> Count(PostReplyTo(q, target, newReply).replies) == Count(q.replies) + Size(newReply)
    ensures target.Some? ==>
      Count(PostReplyTo(q, target, newReply).replies) == Count(q.replies) + Hits(q.replies, target.value) * Size(newReply)
    ensures target.Some? && newReply.id !in IdsOf(q.replies) ==>
      var rs := PostReplyTo(q, target, newReply).replies;
      && PlacedOf(rs, newReply, target.value, false)
      && Hits(rs, newReply.id) == Hits(q.replies, target.value)
  {
    if target.None? {
      CountAppend(q.replies, [newReply]);
      assert [newReply][1..] == [];
    } else {
      AddReplyToCount(q.replies, target.value, newReply);
      if newReply.id !in IdsOf(q.replies) {
        AddReplyToPlaced(q.replies, target.value, newReply, false);
      }
    }
  }

  // ---------------------------------------------------------------------
  // Collapsing, tags, search and order

  /** A thread is collapsed when its flag is set; a missing flag is unset. */
  function Collapsed(p: map<int, bool>, id: int): bool {
    id in p && p[id]
  }

  /** `toggleCollapse(replyId)`: `{ ...p, [replyId]: !p[replyId] }`. */
  function ToggleCollapse(p: map<int, bool>, id: int): (r: map<int, bool>)
    ensures Collapsed(r, id) == !Collapsed(p, id)
    ensures forall x :: x != id ==> Collapsed(r, x) == Collapsed(p, x)
  {
    p[id := !Collapsed(p, id)]
  }

  /** Collapsing twice leaves every thread as it was. */
  lemma ToggleCollapseTwice(p: map<int, bool>, id: int)
    ensures forall x :: Collapsed(ToggleCollapse(ToggleCollapse(p, id), id), x) == Collapsed(p, x)
  {
  }

  /** `questions.flatMap((q) => q.tags)` */
  function FlatTags(qs: seq<Question>): (r: seq<string>)
    ensures forall t :: t in r <==> exists i :: 0 <= i < |qs| && t in qs[i].tags
  {
    if qs == [] then []
    else
      var rest := FlatTags(qs[1..]);
      assert forall i :: 1 <= i < |qs| ==> qs[i] == qs[1..][i - 1];
      qs[0].tags + rest
  }

  /** `Array.from(new Set(s))`: the distinct elements in order of first
      appearance. */
  function Dedup(s: seq<string>): (r: seq<string>)
    ensures forall i, j :: 0 <= i < j < |r| ==> r[i] != r[j]
    ensures forall t :: t in r <==> t in s
  {
    if s == [] then []
    else
      var init := s[..|s| - 1];
      assert s == init + [s[|s| - 1]];
      var d := Dedup(init);
      if s[|s| - 1] in d then d else d + [s[|s| - 1]]
  }

  /** `new Set` keeps the order of first appearance: an element listed
      before another appears in `s` before every occurrence of the other. */
  lemma {:induction false} DedupKeepsFirstOrder(s: seq<string>)
    ensures forall i, j, k :: 0 <= i < j < |Dedup(s)| && 0 <= k < |s| && s[k] == Dedup(s)[j] ==> Dedup(s)[i] in s[..k]
    decreases |s|
  {
    if s != [] {
      var init := s[..|s| - 1];
      var last := s[|s| - 1];
      DedupKeepsFirstOrder(init);
      var d := Dedup(init);
      var r := Dedup(s);
      assert s == init + [last];
      assert r == if last in d then d else d + [last];
      forall i, j, k | 0 <= i < j < |r| && 0 <= k < |s| && s[k] == r[j] ensures r[i] in s[..k] {
        assert k == |s| - 1 || s[k] == init[k];
        if k == |s| - 1 {
          assert s[..k] == init && r[i] == d[i];
        } else if j < |d| {
          assert s[..k] == init[..k] && r[i] == d[i] && r[j] == d[j];
        }
      }
    }
  }

  /** `allTags`: every tag of every question, each once. */
  function AllTags(qs: seq<Question>): (r: seq<string>)
    ensures forall i, j :: 0 <= i < j < |r| ==> r[i] != r[j]
    ensures forall t :: t in r <==> exists i :: 0 <= i < |qs| && t in qs[i].tags
  {
    Dedup(FlatTags(qs))
  }

  /** The search term occurs, ignoring case, in the title, description,
      author or one of the tags. */
  predicate MatchesSearch(q: Question, term: string) {
    var t := Lower(term);
    || Contains(Lower(q.title), t)
    || Contains(Lower(q.description), t)
    || Contains(Lower(q.author), t)
    || exists k :: 0 <= k < |q.tags| && Contains(Lower(q.tags[k]), t)
  }

  /** No tag is selected, or the question has every selected tag. */
  predicate MatchesTags(q: Question, selected: seq<string>) {
    |selected| == 0 || forall k :: 0 <= k < |selected| ==> selected[k] in q.tags
  }

  /** `filtered`: the questions matching both the search and the selected
      tags, in their order. */
  function Filtered(qs: seq<Question>, term: string, selected: seq<string>): (r: seq<Question>)
    ensures forall q :: q in r <==> q in qs && MatchesSearch(q, term) && MatchesTags(q, selected)
    ensures Seqs.IsSubsequence(r, qs)
  {
    Seqs.Filter(qs, (q: Question) => MatchesSearch(q, term) && MatchesTags(q, selected))
  }

  /** With no search term and no selected tag every question is listed. */
  lemma FilterNothing(qs: seq<Question>)
    ensures Filtered(qs, [], []) == qs
  {
    forall i | 0 <= i < |qs| ensures MatchesSearch(qs[i], []) {
      ContainsEmpty(Lower(qs[i].title));
      assert Lower([]) == [];
    }
    Seqs.FilterAll(qs, (q: Question) => MatchesSearch(q, []) && MatchesTags(q, []));
  }

  predicate MoreUpvoted(a: Question, b: Question) {
    a.upvotes >= b.upvotes
  }

  predicate Newer(a: Question, b: Question) {
    a.createdAt >= b.createdAt
  }

  lemma OrdersAreTotal()
    ensures Sorting.TotalPreorder(MoreUpvoted) && Sorting.TotalPreorder(Newer)
  {
  }

  /** `sorted`: by upvotes, most first, under "mostUpvoted"; otherwise by
      creation time, newest first. Nothing is added or lost. */
  function SortedQuestions(qs: seq<Question>, option: string): (r: seq<Question>)
    ensures multiset(r) == multiset(qs)
    ensures option == "mostUpvoted" ==> forall i, j :: 0 <= i < j < |r| ==> r[i].upvotes >= r[j].upvotes
    ensures option != "mostUpvoted" ==> forall i, j :: 0 <= i < j < |r| ==> r[i].createdAt >= r[j].createdAt
  {
    OrdersAreTotal();
    if option == "mostUpvoted" then Sorting.Sort(MoreUpvoted, qs) else Sorting.Sort(Newer, qs)
  }
}
