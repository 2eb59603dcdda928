# CourseConnect page logic in Dafny

CourseConnect is a React front-end for a course community. It works
against a hosted document store and an auth service. This project models
the decision logic inside its page handlers over an abstract store. The
store holds a class list, membership records keyed by (class, uid),
profiles keyed by uid, questions and student materials. The project
proves the properties the pages rely on.

- **Scoring and voting.**
  - The class board toggles answer upvotes and refuses self-votes. It
    credits the answer's author ±1, with a non-negative fallback write.
    Accepting an answer marks exactly one answer and pays +5.
  - The Q&A page upvotes questions and replies at any depth of a nested
    reply tree for +10.
  - The resources page keeps a non-toggling counter worth +20 to the
    uploader.
- **Leaderboard.**
  - display-name clean-up: `name || email`, a leading `N.`/`N)` numbering
    stripped, cut at `@`;
  - the ranking comparator, which is a total preorder;
  - search, pagination, and page stepping kept within range;
  - the jump to one's own rank;
  - the CSV export, quoted as in section 2 of RFC 4180; the model reads
    back the rendered table;
  - e-mail masking.
- **Q&A lists.** Tag parsing, tag and collapse toggles, the distinct tag
  list, the search-and-tag filter, and the two orders.
- **Class membership.**
  - The faculty dashboard creates a class with a faculty membership.
  - The student dashboard joins by exact code, overwriting the membership
    record, and lists joined classes newest first.
  - The profile page joins by code with a set-union into `memberIds`,
    guards name updates and confirms account deletion.
- **Access.**
  - The login page has a domain gate, a sign-up cascade, a sign-in cascade
    and an automatic redirect.
  - There are two route guards. One is a role guard with a settled verdict.
    The other is a session guard whose render is a four-way choice.

Pages that change state step by step are classes over the store:
- `Store.Store`;
- `Leaderboard.LeaderboardView`;
- the two `Dashboard` classes;
- `StudentProfile.Page`;
- the class-board handlers, which are module-level methods that take the
  store as a parameter.

Pure pages are functions and lemmas (Q&A, Login, the guards). `Text`
gives JavaScript's `trim`, `\s`, `toLowerCase`, `includes`, `split` and
`join`. A string is a sequence of Unicode characters; JavaScript strings are UTF-16 code units. `Sorting` is a generic insertion
sort under a total preorder. `Seqs` holds `filter`, removal and toggle.
`Csv` is the RFC 4180 writer and a reader for it.

## Model

| member | source | states |
|---|---|---|
| Text.Trim | client/src/pages/QnaPage.jsx:50 | `trim` never lengthens a string and leaves no white space at either end |
| Text.TrimIsSlice | client/src/pages/QnaPage.jsx:50 | `trim` returns the slice of `s` between a blank prefix and a blank suffix; only white space at the ends is removed |
| Text.TrimEmptyIffBlank | client/src/pages/StudentDashboard.jsx:106 | `!s.trim()` holds exactly when every character of `s` is white space |
| Text.ContainsIff | client/src/pages/LeaderboardPage.jsx:104 | `includes` holds iff the text occurs at some index |
| Text.Split | client/src/pages/QnaPage.jsx:55 | `split(",")` gives at least one piece, and no piece holds the separator |
| Text.JoinSplit | client/src/pages/QnaPage.jsx:54-55 | joining the pieces of `split(",")` gives the string back |
| Text.SplitNoSeparator | client/src/pages/ResourcesPage.jsx:230 | a string without the separator splits into itself alone |
| Text.SplitAfterSeparator | client/src/pages/ResourcesPage.jsx:230 | splitting at the first separator: the text before it, then the pieces of the rest |
| Text.NatToStringValue | client/src/pages/ClassBoard.jsx:264 | the decimal numeral of the clock reading used in answer ids reads back as the number |
| Text.IntToString | client/src/pages/LeaderboardPage.jsx:126 | `String(n)` is the decimal numeral of `n`, with a leading `-` when `n` is negative, and reads back as `n` |
| Sorting.Sort | client/src/pages/LeaderboardPage.jsx:79-84 | `sort` under a total preorder returns a sorted permutation of the input |
| Seqs.Filter | client/src/pages/LeaderboardPage.jsx:104 | `filter` keeps exactly the elements satisfying the predicate, in their original order |
| Seqs.FilterCounts | client/src/pages/QnaPage.jsx:57 | `filter` keeps every copy of each element that satisfies the predicate and drops every copy of the others |
| Seqs.Without | client/src/pages/ClassBoard.jsx:308 | removing a voter removes every occurrence and keeps everything else, counted as a multiset |
| Seqs.Toggle | client/src/pages/QnaPage.jsx:167-171 | afterwards the element is present exactly when it was absent before; an absent one is appended, a present one removed; the others are unaffected |
| Seqs.ToggleTwice | client/src/pages/ClassBoard.jsx:305-311 | toggling twice from absent restores the list exactly; from present it restores the same set of elements |
| Store.Max0 | client/src/pages/ClassBoard.jsx:358 | `Math.max(0, v)` is non-negative, at least `v`, and equal to `v` when `v` is non-negative |
| Store.Incremented | client/src/pages/ResourcesPage.jsx:255 | `increment(d)` on a field writes its old value plus `d`, counting a missing field as 0 |
| Store.ArrayUnion | client/src/pages/StudentProfilePage.jsx:151-153 | `arrayUnion` adds the element at the end only when it is absent |
| Store.ArrayUnionCount | client/src/pages/StudentProfilePage.jsx:151-153 | after a union the added uid occurs once unless it was there already; a second union changes nothing |
| Store.FirstWithCode | client/src/pages/StudentDashboard.jsx:117-125 | the code lookup finds the first class whose code is exactly the trimmed code, and finds none iff no class has that code |
| Store.Renamed | client/src/pages/StudentDashboard.jsx:162 | the local profile takes the new name and keeps its other fields |
| Store.OrElse | client/src/pages/StudentProfilePage.jsx:86 | `x \|\| fallback`: an absent or empty string gives the fallback |
| Store.FallbackProfile | client/src/pages/StudentDashboard.jsx:70 | with no stored profile, the name is the account's display name, or the default when that is absent or empty; the e-mail is the account's and the role the page's |
| Store.Store.MemberClasses | client/src/pages/StudentDashboard.jsx:78-89 | the loop keeps, in newest-first order, exactly the classes with a membership record for the uid |
| Csv.ReadBodyEscape | client/src/pages/LeaderboardPage.jsx:126 | reading an escaped cell body undoes the doubling of quotes |
| Csv.ReadCellQuote | client/src/pages/LeaderboardPage.jsx:126 | a quoted cell reads back as the original text |
| Csv.ReadRecordRender | client/src/pages/LeaderboardPage.jsx:126 | a rendered record reads back as its cells |
| Csv.ReadTableRender | client/src/pages/LeaderboardPage.jsx:126 | the rendered CSV reads back as exactly the rows that were rendered |
| Leaderboard.FirstNonEmpty | client/src/pages/LeaderboardPage.jsx:63 | `name \|\| email`: the name when it is present and non-empty, else the e-mail |
| Leaderboard.StripNumberingMatches | client/src/pages/LeaderboardPage.jsx:66 | with a leading `\s*\d+[.)]\s*` prefix the name becomes the text after it, and a name changes only when it has such a prefix |
| Leaderboard.NumberingUnique | client/src/pages/LeaderboardPage.jsx:66 | the numbering pattern matches a name in at most one way |
| Leaderboard.CutAtSign | client/src/pages/LeaderboardPage.jsx:67 | the result is the prefix before the first `@`, or the whole name when it has no `@`; it never contains `@` |
| Leaderboard.DisplayName | client/src/pages/LeaderboardPage.jsx:63-67 | a displayed name never contains `@` |
| Leaderboard.DisplayNameStripsNumbering | client/src/pages/LeaderboardPage.jsx:63-67 | a numbered name is shown without its numbering, cut at `@` |
| Leaderboard.ToStanding | client/src/pages/LeaderboardPage.jsx:68-75 | a member with no points field is ranked with 0; an empty e-mail becomes null |
| Leaderboard.Standings | client/src/pages/LeaderboardPage.jsx:60-76 | one row per member document, in document order |
| Leaderboard.StrLeTotal | client/src/pages/LeaderboardPage.jsx:83 | the name order is total |
| Leaderboard.StrLeTrans | client/src/pages/LeaderboardPage.jsx:83 | the name order is transitive |
| Leaderboard.StrLeAntisymmetric | client/src/pages/LeaderboardPage.jsx:83 | the name order is antisymmetric |
| Leaderboard.RanksBeforeOrders | client/src/pages/LeaderboardPage.jsx:79-84 | the comparator (points descending, then name) is a total preorder |
| Leaderboard.Ranking | client/src/pages/LeaderboardPage.jsx:79-84 | the ranking is a permutation of the rows with points non-increasing, and names ascending among equal points |
| Leaderboard.SearchFilter | client/src/pages/LeaderboardPage.jsx:97-107 | an empty search keeps everyone; otherwise exactly the members whose lower-cased name contains the trimmed, lower-cased query, in order |
| Leaderboard.BlankSearchKeepsAll | client/src/pages/LeaderboardPage.jsx:103-104 | a query of only white space matches every member |
| Leaderboard.TotalPages | client/src/pages/LeaderboardPage.jsx:110 | the page count is `max(1, ceil(n/15))`: at least 1 and the smallest count whose pages hold `n` rows |
| Leaderboard.Page | client/src/pages/LeaderboardPage.jsx:111 | a page holds at most 15 rows: the rows from `(page-1)*15` on, in order |
| Leaderboard.PageOfIndex | client/src/pages/LeaderboardPage.jsx:146 | the row at `idx` is on page `idx/15+1`, at offset `idx%15`, and that page is in range |
| Leaderboard.PagesInRange | client/src/pages/LeaderboardPage.jsx:110-111 | every page up to the count is non-empty for a non-empty list, and pages past it are empty |
| Leaderboard.FindIndex | client/src/pages/LeaderboardPage.jsx:141 | `findIndex` gives the first row with the uid, or none iff no row has it |
| Leaderboard.LeaderboardView.Load | client/src/pages/LeaderboardPage.jsx:86-88 | the ranked list replaces the members, the filter is recomputed and the page resets to 1 |
| Leaderboard.LeaderboardView.SetSearch | client/src/pages/LeaderboardPage.jsx:97-107 | a new search recomputes the filtered list and resets the page to 1 |
| Leaderboard.LeaderboardView.GoPrev | client/src/pages/LeaderboardPage.jsx:113-115 | one page back, never below 1 |
| Leaderboard.LeaderboardView.GoNext | client/src/pages/LeaderboardPage.jsx:116-118 | one page on, never past the page count |
| Leaderboard.LeaderboardView.ScrollToUser | client/src/pages/LeaderboardPage.jsx:139-147 | signed out or off the board leaves the page unchanged; otherwise the page of the user's rank in the full ranking, which with an empty search shows the user's row |
| Leaderboard.LeaderboardView.Shown | client/src/pages/LeaderboardPage.jsx:111 | `paginated` holds at most 15 rows: the filtered rows from `(page-1)*15` on, in order, and none past the end |
| Leaderboard.ExportRow | client/src/pages/LeaderboardPage.jsx:124 | a row has five cells: the numeral of rank `i+1`, the display name, the signed numeral of the points, the e-mail or "", and the uid |
| Leaderboard.ExportCsv | client/src/pages/LeaderboardPage.jsx:121-126 | the CSV reads back as the header followed by one row per member, with rank `i+1` |
| Leaderboard.LocalPart | client/src/pages/LeaderboardPage.jsx:267 | the local part is the text before the first `@` |
| Leaderboard.LocalPartEmpty | client/src/pages/LeaderboardPage.jsx:267-268 | the local part is empty iff the address is empty or starts with `@` |
| Leaderboard.DomainPart | client/src/pages/LeaderboardPage.jsx:267 | `split("@")[1]` is "undefined" without an `@`; otherwise the text after the first `@` up to the next `@` or the end |
| Leaderboard.ShownChars | client/src/pages/LeaderboardPage.jsx:269-270 | no character is shown for a local part of at most 2; otherwise `min(3, len-2)`: 3, or all but two |
| Leaderboard.MaskEmail | client/src/pages/LeaderboardPage.jsx:265-272 | "" stays ""; an empty local part returns the input; otherwise the shown prefix followed by `**@` or `***@` and the domain |
| Leaderboard.AddressParts | client/src/pages/LeaderboardPage.jsx:267 | `local@domain` with no other `@` splits into exactly `local` and `domain` |
| Leaderboard.MaskOfAddress | client/src/pages/LeaderboardPage.jsx:265-272 | for `local@domain` the mask starts with the first `min(3, len-2)` characters and ends with `@domain` |
| ClassBoard.ToggleTwiceReorders | client/src/pages/ClassBoard.jsx:305-311 | toggling twice from "present" can reorder the voters |
| ClassBoard.FindAnswer | client/src/pages/ClassBoard.jsx:293 | `find` gives the first answer with the id, or none iff there is none |
| ClassBoard.ToggleAnswers | client/src/pages/ClassBoard.jsx:303-314 | only answers with the target id change, by toggling the caller's vote; all others are returned unchanged |
| ClassBoard.ToggleAnswersTwice | client/src/pages/ClassBoard.jsx:305-311 | from "not voted", toggling twice restores the answers exactly |
| ClassBoard.AcceptedAnswers | client/src/pages/ClassBoard.jsx:386-388 | `accepted` is true on exactly the answers with the chosen id, and every other field is kept |
| ClassBoard.ExactlyOneAccepted | client/src/pages/ClassBoard.jsx:386-388 | with distinct ids and the chosen id present, exactly one answer is accepted |
| ClassBoard.ReacceptOverrides | client/src/pages/ClassBoard.jsx:384-389 | accepting again replaces the earlier choice, with no guard |
| ClassBoard.SetDefaultPoints | client/src/pages/ClassBoard.jsx:350-363 | writes `max(0, value)`: it creates a student record when missing, otherwise overwrites only `points`; other records are unchanged |
| ClassBoard.Credit | client/src/pages/ClassBoard.jsx:326-334 | an increment on an existing record adds the delta (a missing field counts as 0); on failure or a missing record the fallback is written |
| ClassBoard.VoteCredit | client/src/pages/ClassBoard.jsx:324-335 | the author's balance moves by +1 when the caller now upvotes and by -1 when not; when the increment fails or the record is missing it is set to 1 or 0 (a missing record is created as a student's); every other record is unchanged |
| ClassBoard.TwoTogglesNetZero | client/src/pages/ClassBoard.jsx:324-335 | with both increments succeeding, a vote and its withdrawal leave the balance unchanged |
| ClassBoard.WithdrawalCanGoNegative | client/src/pages/ClassBoard.jsx:331 | the decrement is not floored: an author at 0 reaches -1 |
| ClassBoard.FallbackNeverNegative | client/src/pages/ClassBoard.jsx:326-334 | every balance the fallback writes is non-negative |
| ClassBoard.AcceptTwicePaysTwice | client/src/pages/ClassBoard.jsx:392 | accepting twice credits +5 twice |
| ClassBoard.ToggleLoop | client/src/pages/ClassBoard.jsx:302-315 | the map loop yields the toggled answers, and `changed` is set iff an answer has the id |
| ClassBoard.ToggleUpvote | client/src/pages/ClassBoard.jsx:283-335 | the handler refuses login-less callers, a missing question or answer, and self-votes, writing nothing; otherwise only the toggled answers and the author's points change |
| ClassBoard.AcceptAnswer | client/src/pages/ClassBoard.jsx:369-395 | a cancelled confirmation, a missing question or a non-author writes nothing; otherwise `acceptedAnswerId` is set, exactly the chosen answers are accepted, and the author gets +5 (set to 5 on failure) |
| ClassBoard.NewAnswer | client/src/pages/ClassBoard.jsx:263-271 | a new answer has the trimmed text, the caller as author, no upvotes and is not accepted |
| ClassBoard.AddAnswer | client/src/pages/ClassBoard.jsx:254-273 | blank text, a missing question or one's own question writes nothing; otherwise the new answer is set-added to the question's answers |
| ClassBoard.PostQuestion | client/src/pages/ClassBoard.jsx:225-241 | a missing profile, a non-student or a blank title or body is refused; otherwise a question with trimmed text, no answers and no accepted answer is added |
| ClassBoard.AnswerCountAppend | client/src/pages/ClassBoard.jsx:186-190 | the answer count of two lists is the sum of their counts |
| ClassBoard.AnswerCountBounds | client/src/pages/ClassBoard.jsx:186-190 | each question's answers are at most the total, and questions without answers count 0 |
| ClassBoard.CountAnswers | client/src/pages/ClassBoard.jsx:186-190 | the `forEach` total equals the answer count |
| ClassBoard.ContributorName | client/src/pages/ClassBoard.jsx:200-206 | a contributor name is never empty and never contains `@` |
| ClassBoard.ToContributor | client/src/pages/ClassBoard.jsx:199-206 | the entry has the document id and points (a missing field counts as 0) |
| ClassBoard.Contributors | client/src/pages/ClassBoard.jsx:198-207 | one entry per member document, in order |
| ClassBoard.MorePointsOrders | client/src/pages/ClassBoard.jsx:208 | the points comparator is a total preorder |
| ClassBoard.TopContributors | client/src/pages/ClassBoard.jsx:198-209 | `min(10, n)` entries with points non-increasing, drawn from the members; anyone left out has no more points than any listed |
| ClassBoard.SortedPrefixIsTop | client/src/pages/ClassBoard.jsx:208-209 | the first `n` of a points-sorted permutation are a sorted sub-multiset, and no element outside them has more points than any element inside |
| Qna.Bump | client/src/pages/QnaPage.jsx:87-90 | one author's points rise by `d` (a missing entry counts as 0); every other author's are unchanged |
| Qna.MaxId | client/src/pages/QnaPage.jsx:40 | the maximum id bounds every id and is one of them |
| Qna.NextQuestionId | client/src/pages/QnaPage.jsx:39-40 | 1 for an empty list; otherwise max+1, greater than every existing id |
| Qna.TrimAll | client/src/pages/QnaPage.jsx:56 | each piece is trimmed |
| Qna.ParseTags | client/src/pages/QnaPage.jsx:54-57 | the tags are the trimmed comma-separated pieces with empty ones dropped: each non-empty piece is kept as many times as it occurs, in order, and no tag is empty, holds a comma or has white space at either end |
| Qna.TrimmedPieces | client/src/pages/QnaPage.jsx:54-56 | trimmed split pieces contain no comma and no surrounding white space |
| Text.TrimKeepsOut | client/src/pages/QnaPage.jsx:56 | trimming adds no character |
| Qna.ParseOneTag | client/src/pages/QnaPage.jsx:54-57 | a blank box gives no tags; a single tag gives itself trimmed |
| Qna.PostQuestion | client/src/pages/QnaPage.jsx:49-69 | refused iff the title or description is blank; otherwise the new question is prepended with the next id, 0 upvotes and no replies |
| Qna.PostKeepsIdsDistinct | client/src/pages/QnaPage.jsx:59-69 | posting keeps question ids distinct |
| Qna.UpvoteQuestion | client/src/pages/QnaPage.jsx:77-91 | one's own question changes nothing; otherwise only that question gains an upvote and its author 10 points |
| Qna.UpvoteReply | client/src/pages/QnaPage.jsx:94-111 | on one reply: the shape (ids, authors, texts, nesting) is kept; the upvotes on the target id grow by the number of replies the search stops at that are not the current user's; every other author gains one upvote and 10 points per such reply of theirs, and the current user gains nothing |
| Qna.UpvoteReplies | client/src/pages/QnaPage.jsx:94-111 | the same over a list of replies at any depth |
| Qna.UpvoteReplyMissing | client/src/pages/QnaPage.jsx:94-111 | a target id nowhere in the thread changes nothing |
| Qna.UpvoteRepliesMissing | client/src/pages/QnaPage.jsx:94-111 | the same over a list of replies |
| Qna.UpvoteReplyThread | client/src/pages/QnaPage.jsx:94-111 | the upvoted reply does not depend on the points credited so far |
| Qna.UpvoteReplyIn | client/src/pages/QnaPage.jsx:113-122 | without a selected question nothing happens; the questions that are not selected are kept |
| Qna.UpvoteReplyInSelected | client/src/pages/QnaPage.jsx:113-122 | each selected question's replies become the upvoted thread, and each author other than the current user gains 10 points per upvoted reply of theirs |
| Qna.AddReplyTo | client/src/pages/QnaPage.jsx:125-131 | the top-level replies keep their number and ids, and with a fresh id for the new reply, removing it again gives back the thread exactly |
| Qna.AddReplyAt | client/src/pages/QnaPage.jsx:125-131 | on one reply: only its replies change, and with a fresh id, removing the new reply gives back the reply exactly |
| Qna.RemoveAppended | client/src/pages/QnaPage.jsx:128 | appending a reply with a fresh id and removing that id again gives back the list |
| Qna.CountAppend | client/src/pages/QnaPage.jsx:128 | the reply count of two lists is the sum of their counts |
| Qna.AddReplyAtCount | client/src/pages/QnaPage.jsx:125-131 | the reply's size grows by the number of replies the search stops at, times the new reply's size |
| Qna.AddReplyToCount | client/src/pages/QnaPage.jsx:125-131 | over a list: the count grows by the number of matching replies times the new reply's size |
| Qna.AddReplyAtMissing | client/src/pages/QnaPage.jsx:125-131 | with no match the reply is returned unchanged |
| Qna.AddReplyToMissing | client/src/pages/QnaPage.jsx:125-131 | with no match the thread is returned unchanged |
| Qna.AddReplyAtPlaced | client/src/pages/QnaPage.jsx:125-131 | with a fresh id, every copy of the new reply is the new reply itself, sitting last under a reply with the target id, and there is one copy per reply the search stops at |
| Qna.AddReplyToPlaced | client/src/pages/QnaPage.jsx:125-131 | the same over a list of replies |
| Qna.NewReply | client/src/pages/QnaPage.jsx:135-141 | a new reply has the current user as author, the trimmed text, 0 upvotes and no replies |
| Qna.PostReplyTo | client/src/pages/QnaPage.jsx:144-152 | only the replies change; with no target the new reply is appended after the old ones; with a fresh id, removing it gives back the old replies |
| Qna.PostReply | client/src/pages/QnaPage.jsx:133-156 | a blank reply changes nothing; only the selected question changes |
| Qna.PostReplyCount | client/src/pages/QnaPage.jsx:142-152 | the reply count grows by the new reply's size with no target, else by that times the number of replies the search stops at; with a target and a fresh id each copy sits last under a reply with the target id, one per such reply, and none at the top level |
| Qna.ToggleCollapse | client/src/pages/QnaPage.jsx:162-163 | one flag flips and the others are kept |
| Qna.ToggleCollapseTwice | client/src/pages/QnaPage.jsx:162-163 | collapsing twice restores every flag |
| Qna.FlatTags | client/src/pages/QnaPage.jsx:166 | `flatMap` holds exactly the tags of all questions |
| Qna.Dedup | client/src/pages/QnaPage.jsx:166 | `Array.from(new Set(s))` has no duplicates and the same elements |
| Qna.DedupKeepsFirstOrder | client/src/pages/QnaPage.jsx:166 | the distinct tags keep the order of first appearance: a tag listed before another occurs in the input before every occurrence of the other |
| Qna.AllTags | client/src/pages/QnaPage.jsx:166 | every tag of every question, each once |
| Qna.Filtered | client/src/pages/QnaPage.jsx:173-183 | exactly the questions that match the search and carry every selected tag, in order |
| Qna.FilterNothing | client/src/pages/QnaPage.jsx:173-183 | with no search term and no selected tag every question is listed |
| Qna.OrdersAreTotal | client/src/pages/QnaPage.jsx:185-187 | both comparators are total preorders |
| Qna.SortedQuestions | client/src/pages/QnaPage.jsx:185-187 | a permutation sorted by upvotes or by creation time, descending |
| Resources.UploadResourceGate | client/src/pages/ResourcesPage.jsx:186-188 | an upload needs a file and then the faculty role; a non-faculty caller is rejected |
| Resources.ParseMaterialTags | client/src/pages/ResourcesPage.jsx:230 | no tags for an empty box; otherwise one lower-cased trimmed tag per piece, empty pieces kept |
| Resources.LowerKeepsComma | client/src/pages/ResourcesPage.jsx:230 | a tag holds no comma |
| Resources.EmptyPiecesKept | client/src/pages/ResourcesPage.jsx:230 | a lone comma gives two empty tags |
| Resources.UploadStudentMaterial | client/src/pages/ResourcesPage.jsx:215-231 | a missing file or title writes nothing; otherwise a material with 0 upvotes and the parsed tags is added |
| Resources.AddUpvote | client/src/pages/ResourcesPage.jsx:251-252 | only the material's count changes, by one |
| Resources.AddUploaderPoints | client/src/pages/ResourcesPage.jsx:254-255 | only the uploader's points change, by 20 (a missing field counts as 0) |
| Resources.UpvotesAccumulate | client/src/pages/ResourcesPage.jsx:247-255 | upvotes do not toggle: two upvotes add 2 and 40 points |
| Resources.LocalUpvote | client/src/pages/ResourcesPage.jsx:257-259 | in the local list only the upvoted material changes, by exactly one |
| Resources.Upvote | client/src/pages/ResourcesPage.jsx:247-259 | one's own material writes nothing; otherwise the two increments run in order and a failure stops the rest |
| Resources.FilteredMaterials | client/src/pages/ResourcesPage.jsx:266-270 | a material is shown iff its title contains the search (ignoring case) and no tag is selected or it has a selected tag |
| Resources.FilterNothingShowsAll | client/src/pages/ResourcesPage.jsx:266-270 | an empty search with no tags shows every material |
| StudentDashboard.Dashboard.constructor | client/src/pages/StudentDashboard.jsx:35-43 | the page starts signed out, with no classes and no active class |
| StudentDashboard.Dashboard.LoadUserProfile | client/src/pages/StudentDashboard.jsx:62-75 | the stored profile, else one built from the auth account with the student role |
| StudentDashboard.Dashboard.FetchJoinedClasses | client/src/pages/StudentDashboard.jsx:78-95 | the classes with a membership record, newest first; the first becomes active only when none is |
| StudentDashboard.Dashboard.SignIn | client/src/pages/StudentDashboard.jsx:46-56 | the account is remembered; the profile is the stored one or the student fallback; the joined classes are the membership filter; the first becomes active only when none was, and an empty list leaves the active class alone |
| StudentDashboard.Dashboard.JoinByCode | client/src/pages/StudentDashboard.jsx:103-141 | a blank code, a missing account or no class with that exact code each set their error and write nothing; otherwise the first match's record is overwritten without points, the class is listed and becomes active |
| StudentDashboard.Dashboard.EditName | client/src/pages/StudentDashboard.jsx:152-168 | a cancel or a blank name writes nothing, and the update of a missing profile fails; otherwise the trimmed name is stored and mirrored locally |
| FacultyDashboard.NewClass | client/src/pages/FacultyDashboard.jsx:110-117 | the new class has `memberIds = [uid]` and `facultyId = uid` |
| Store.RoleMember | client/src/pages/FacultyDashboard.jsx:120-126 | the membership record holds the account's uid and e-mail and the page's role (student on joining, faculty on creating), with no points field |
| FacultyDashboard.NewestMemberClassFirst | client/src/pages/FacultyDashboard.jsx:76-86 | a newest class with a membership heads the filtered list |
| FacultyDashboard.Dashboard.constructor | client/src/pages/FacultyDashboard.jsx:32-35 | the page starts signed out, with no classes and no active class |
| FacultyDashboard.Dashboard.LoadUserProfile | client/src/pages/FacultyDashboard.jsx:59-71 | the stored profile, else one built from the auth account with the faculty role |
| FacultyDashboard.Dashboard.FetchMyClasses | client/src/pages/FacultyDashboard.jsx:74-91 | the classes with a membership record, newest first; the first becomes active only when none is |
| FacultyDashboard.Dashboard.SignIn | client/src/pages/FacultyDashboard.jsx:43-53 | the account is remembered; the profile is the stored one or the faculty fallback; the classes are the membership filter; the first becomes active only when none was, and an empty list leaves the active class alone |
| FacultyDashboard.Dashboard.CreateClass | client/src/pages/FacultyDashboard.jsx:94-131 | signed out, or a blank trimmed code or title, writes nothing; otherwise the class is added newest, with a faculty membership; it heads the list and becomes active |
| FacultyDashboard.Dashboard.EditName | client/src/pages/FacultyDashboard.jsx:143-156 | a cancel or a blank name writes nothing; otherwise the name is updated, or a faculty profile is created when missing |
| StudentProfile.JoinedClasses | client/src/pages/StudentProfilePage.jsx:105-114 | exactly the classes whose `memberIds` holds the uid, newest first |
| StudentProfile.JoiningMember | client/src/pages/StudentProfilePage.jsx:142-149 | the record has the student role and the profile name, or "Student" |
| StudentProfile.DeleteFailureMessage | client/src/pages/StudentProfilePage.jsx:249-253 | a recent-login failure gets its own message; any other failure shows its message |
| StudentProfile.OnlyExactWordConfirms | client/src/pages/StudentProfilePage.jsx:238-241 | only the exact word "DELETE" confirms |
| StudentProfile.Page.constructor | client/src/pages/StudentProfilePage.jsx:60-72 | the page starts with no account, no profile and no messages |
| StudentProfile.Page.LoadUserProfile | client/src/pages/StudentProfilePage.jsx:75-102 | the stored profile; when it is missing or the lookup fails, a student profile named after the account or "Student" (a failure also sets an error) |
| StudentProfile.Page.FetchJoinedClasses | client/src/pages/StudentProfilePage.jsx:105-119 | the list is the `memberIds` query |
| StudentProfile.Page.JoinByCode | client/src/pages/StudentProfilePage.jsx:128-156 | a blank code, no account or no class with the code throws and writes nothing; otherwise the record is written, the uid is set-added to `memberIds` (at most one copy) and the class is listed |
| StudentProfile.Page.NameUpdate | client/src/pages/StudentProfilePage.jsx:194-216 | with no profile or an unchanged trimmed name the editor closes with no write; otherwise the trimmed name is written and mirrored locally, or an error is shown |
| StudentProfile.Page.DeleteAccount | client/src/pages/StudentProfilePage.jsx:234-255 | nothing is deleted unless the confirmation is exactly "DELETE" |
| Login.LowerIdempotent | client/src/pages/Login.jsx:65 | lower-casing twice is lower-casing once |
| Login.AllowedEmail | client/src/pages/Login.jsx:65 | the gate passes an address exactly when its last 11 characters lower-case to `@thapar.edu` |
| Login.AllowedEmailIgnoresCase | client/src/pages/Login.jsx:65 | the domain gate passes an address iff it passes its lower-case form |
| Login.Home | client/src/pages/Login.jsx:163-164 | faculty go to "/faculty-dashboard", everyone else to "/student-dashboard" |
| Login.MessageOr | client/src/pages/Login.jsx:114 | `err.message \|\| fallback` |
| Login.LoginFailureMessage | client/src/pages/Login.jsx:168-176 | user-not-found, wrong-password and invalid-credential share one message; other failures show their message or "Login failed" |
| Login.Signup | client/src/pages/Login.jsx:59-118 | an off-domain e-mail or a blank name is refused before auth; a registration stores the trimmed name and the selected role; auth failures map to their messages |
| Login.SignIn | client/src/pages/Login.jsx:123-179 | an off-domain e-mail, a rejected login, an unverified e-mail, a missing profile, a failed profile lookup and a role mismatch each give their own error; navigation happens iff none of these, to that role's dashboard |
| Login.AutoRedirect | client/src/pages/Login.jsx:34-52 | only a verified account whose stored role is faculty or student is redirected; a failed lookup shows an error |
| Login.DomainGateShared | client/src/pages/Login.jsx:59-132 | both forms refuse an off-domain address with the same message |
| Login.SignupThenSignIn | client/src/pages/Login.jsx:90-164 | the profile sign-up writes lets the same role in once verified, and refuses any other role |
| Login.SignInAgreesWithRedirect | client/src/pages/Login.jsx:39-45 | a verified faculty or student account reaches the same dashboard by signing in and by redirect |
| RouteGuard.Allowed | client/src/components/ProtectedRoute.jsx:24-44 | no account: denied; no required role: allowed; otherwise allowed iff the stored role equals the required one (a missing profile or a failed lookup denies) |
| RouteGuard.Settle | client/src/components/ProtectedRoute.jsx:37-46 | the callback records the verdict and stops checking |
| RouteGuard.Render | client/src/components/ProtectedRoute.jsx:52-54 | loading while checking, home when denied, the page otherwise |
| RouteGuard.GuardLifecycle | client/src/components/ProtectedRoute.jsx:20-54 | before the answer only the loading view shows; after it the page shows exactly to an allowed account |
| SessionGuard.RoleOf | client/src/ProtectedRoute.jsx:29-39 | the stored role, or null for a missing profile or a failed lookup |
| SessionGuard.Effect | client/src/ProtectedRoute.jsx:20-45 | a known visitor stops the role loading; an account has its role read; nothing happens while the session loads |
| SessionGuard.Render | client/src/ProtectedRoute.jsx:48-69 | loading while either part loads; the page only for an account whose role equals the required role |
| SessionGuard.SettledSession | client/src/ProtectedRoute.jsx:48-69 | once settled the page shows exactly to an account whose stored role is the required one |
| SessionGuard.NoRequiredRoleShowsNothing | client/src/ProtectedRoute.jsx:62 | without a required role this guard shows the page to no one |
| SessionGuard.GuardsAgree | client/src/ProtectedRoute.jsx:62-69 | with a non-empty required role both guards decide alike once settled |

## Left out

- Store and auth I/O are left out: network errors, security rules, retries and concurrency. Each write is a sequential map update. A transient increment failure is an explicit input where the handler has a fallback (`incrementFails`). Auth answers and profile lookups are parameters (`AuthAttempt`, `ProfileLookup`).
- Clocks and blobs become parameters or are left out. `Date.now`, `serverTimestamp` and the `createdAt`/`joinedAt`/`uploadedAt` fields are covered this way. So are file uploads to storage, download URLs, `URL.createObjectURL` and the Blob download of the CSV.
- The race between reading a question and writing its answers and points in `handleToggleUpvote` is not modelled.
- `alert`, `confirm` and `prompt` are modelled as inputs or outcomes. Rendering, styling and the `setTimeout` scroll are left out.
- `localeCompare` is modelled as code-point (Unicode scalar value) order, which is proved total. Collation rules are not modelled. Code-point order differs from UTF-16 code-unit order when a character in U+E000–U+FFFF is compared with one outside the Basic Multilingual Plane: the model puts `Ａ` (U+FF21) before `😀` (U+1F600), while code units (0xFF21 against 0xD83D) put it after.
- `toLowerCase` is modelled on ASCII letters only.
- Text.Trim: its own contract states only the ends of the result; that the result is `s` with the white space at its ends removed is the lemma Text.TrimIsSlice.
- Strings are sequences of Unicode characters, while JavaScript's `length`, `slice` and indices count UTF-16 code units. They differ for characters outside the Basic Multilingual Plane: for `"😀😀@x"` the model's `maskEmail` gives `**@x`, where JavaScript shows two code units, `😀***@x`.
- Sorting.Sort: proved sorted and a permutation, but not stable. `Array.prototype.sort` is stable.
- Qna.AddReplyTo: placement is stated for a new reply whose id occurs nowhere in the thread (the source uses `Date.now()`); with a reused id the copies cannot be told apart from the existing replies.
- Store.FirstWithCode: takes the first matching class in list order (newest first). The store's own order of query results is not modelled.
- Store.Renamed: a missing previous profile gives empty email and role strings. In the source these fields are undefined.
- StudentDashboard.Dashboard.JoinByCode: does not model a failed membership write ("Failed to join class. See console.").
- The `activeClassId` read inside `fetchJoinedClasses`/`fetchMyClasses` is modelled as the current value. In the source it is the value captured by the closure.
- FacultyDashboard.Dashboard.CreateClass: does not model a failed class or membership write. The store's new document id is an input, required to be unused.
- FacultyDashboard.Dashboard.EditName: does not model a failure of the fallback profile write.
- StudentProfile.Page.NameUpdate: does not model the auth display-name update (`updateProfile`).
- StudentProfile.Page.DeleteAccount: the account deletion itself is the auth service's; only its outcome is an input.
- `handleImageUpload` and `handlePasswordReset` on the profile page are storage and auth I/O and are not modelled.
- Login.Signup: does not model a failed verification e-mail or profile write. It also does not model the `emailVerified` field stored with the profile.
- Rejoining a class through the student dashboard drops the member's points, because the record is overwritten.
- A withdrawn upvote can drive a balance negative: the decrement is not floored, only the fallback write is.
- These are modelled as written and stated as lemmas and contracts (`WithdrawalCanGoNegative`, `JoinByCode`), not claimed as defects.
- `client/src/pages/AnnouncementsPage.jsx` is not part of this model. It is upload-and-post I/O.
- `client/src/pages/Dashboard.jsx` is not part of this model. It generates random class codes and is not routed.
- `client/src/pages/Leaderboard.jsx` is not part of this model. Its order comes from the store query.
- Routing, app wiring, the current-user hook and configuration are not part of this model.
