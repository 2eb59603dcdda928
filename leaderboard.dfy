/** The class leaderboard page: the display name built for each member
    record, the ranking (points descending, then name), the search box,
    pagination by fifteen, the jump to the signed-in user's rank, the CSV
    export and the e-mail mask. */
module Leaderboard {
  import opened Text
  import opened Store
  import Seqs
  import Sorting
  import Csv

  const PerPage: nat := 15

  // ---------------------------------------------------------------------
  // Display names

  /** `name || email || ""`: the first of the two that is present and
      non-empty. */
  function FirstNonEmpty(name: Option<string>, email: string): (r: string)
    ensures name.Some? && name.value != [] ==> r == name.value
    ensures (name.None? || name.value == []) ==> r == email
  {
    if name.Some? && name.value != [] then name.value else email
  }

  /** `s` starts with a numbering artefact matched by `^\s*\d+[.)]\s*`:
      white space up to `i`, digits up to `j`, a `.` or `)` at `j`, then
      white space up to `k`, taken as far as it goes. */
  predicate NumberingPrefix(s: string, i: int, j: int, k: int) {
    && 0 <= i < j < k <= |s|
    && (forall d :: 0 <= d < i ==> IsSpace(s[d]))
    && (forall d :: i <= d < j ==> IsDigit(s[d]))
    && (s[j] == '.' || s[j] == ')')
    && (forall d :: j < d < k ==> IsSpace(s[d]))
    && (k == |s| || !IsSpace(s[k]))
  }

  /** The `replace` of the numbering pattern by "" on the display name:
      the leading white space, digits, mark and white space are cut off
      when the mark is there; otherwise `s` is unchanged. What this means
      is stated by `StripNumberingMatches`. */
  function StripNumbering(s: string): (r: string)
    ensures |r| <= |s|
  {
    var i := SpaceEnd(s, 0);
    var j := DigitEnd(s, i);
    if i < j < |s| && (s[j] == '.' || s[j] == ')') then s[SpaceEnd(s, j + 1)..] else s
  }

  /** The regular expression's match: with a numbering prefix the name is
      cut after it, and the name changes only when it has one. */
  lemma StripNumberingMatches(s: string)
    ensures forall i, j, k :: NumberingPrefix(s, i, j, k) ==> StripNumbering(s) == s[k..]
    ensures StripNumbering(s) != s ==> exists i, j, k :: NumberingPrefix(s, i, j, k)
  {
    forall i, j, k | NumberingPrefix(s, i, j, k) ensures StripNumbering(s) == s[k..] {
      MatchIsCanonical(s, i, j, k);
    }
    var i := SpaceEnd(s, 0);
    var j := DigitEnd(s, i);
    if i < j < |s| && (s[j] == '.' || s[j] == ')') {
      assert NumberingPrefix(s, i, j, SpaceEnd(s, j + 1));
    }
  }

  /** A match is the one the scan finds: all the leading white space, all
      the digits after it, all the white space after the mark. */
  lemma MatchIsCanonical(s: string, i: int, j: int, k: int)
    requires NumberingPrefix(s, i, j, k)
    ensures i == SpaceEnd(s, 0) && j == DigitEnd(s, i) && k == SpaceEnd(s, j + 1)
  {
    SpaceEndAt(s, 0, i);
    DigitEndAt(s, i, j);
    SpaceEndAt(s, j + 1, k);
  }

  /** The regular expression matches the numbering prefix in one way only. */
  lemma NumberingUnique(s: string, i: int, j: int, k: int)
    requires NumberingPrefix(s, i, j, k)
    ensures forall i', j', k' :: NumberingPrefix(s, i', j', k') ==> i' == i && j' == j && k' == k
  {
    forall i', j', k' | NumberingPrefix(s, i', j', k') ensures i' == i && j' == j && k' == k {
      MatchIsCanonical(s, i, j, k);
      MatchIsCanonical(s, i', j', k');
    }
  }

  /** `if (display.includes("@")) display = display.split("@")[0]`: the
      text before the first `@`. */
  function CutAtSign(s: string): (r: string)
    ensures '@' !in r
    ensures StartsWith(s, r)
    ensures '@' !in s ==> r == s
    ensures '@' in s ==> s[|r|] == '@'
  {
    if '@' in s then
      SplitFirstPiece(s, '@');
      var r := Split(s, '@')[0];
      r
    else s
  }

  /** The name a leaderboard row shows for a member record. */
  function DisplayName(m: Member): (r: string)
    ensures '@' !in r
  {
    CutAtSign(StripNumbering(FirstNonEmpty(m.name, m.email)))
  }

  /** Numbering is gone from the shown name: a name typed as "1. alice"
      shows as "alice". */
  lemma DisplayNameStripsNumbering(m: Member, i: int, j: int, k: int)
    requires var raw := FirstNonEmpty(m.name, m.email); NumberingPrefix(raw, i, j, k)
    ensures DisplayName(m) == CutAtSign(FirstNonEmpty(m.name, m.email)[k..])
  {
    StripNumberingMatches(FirstNonEmpty(m.name, m.email));
  }

  // ---------------------------------------------------------------------
  // Ranking

  /** One row of the leaderboard. `email` is absent when the record's
      e-mail is missing or empty (`data.email || null`). */
  datatype Standing = Standing(uid: Uid, display: string, email: Option<string>, points: int)

  /** The row built from the member document `uid`. */
  function ToStanding(uid: Uid, m: Member): (r: Standing)
    ensures r.uid == uid && r.display == DisplayName(m)
    ensures m.points.None? ==> r.points == 0
    ensures m.points.Some? ==> r.points == m.points.value
    ensures r.email.Some? <==> m.email != []
    ensures r.email.Some? ==> r.email.value == m.email
  {
    Standing(uid, DisplayName(m), if m.email == [] then None else Some(m.email), OrZero(m.points))
  }

  /** `mSnap.docs.map(...)` */
  function Standings(docs: seq<(Uid, Member)>): (r: seq<Standing>)
    ensures |r| == |docs|
    ensures forall i :: 0 <= i < |docs| ==> r[i] == ToStanding(docs[i].0, docs[i].1)
  {
    seq(|docs|, i requires 0 <= i < |docs| => ToStanding(docs[i].0, docs[i].1))
  }

  /** Code-point order on strings: `a` is a prefix of `b` or has the
      smaller character at the first difference. */
  predicate StrLe(a: string, b: string)
    decreases |a|
  {
    a == [] || (b != [] && (a[0] < b[0] || (a[0] == b[0] && StrLe(a[1..], b[1..]))))
  }

  lemma {:induction false} StrLeTotal(a: string, b: string)
    ensures StrLe(a, b) || StrLe(b, a)
    decreases |a|
  {
    if a != [] && b != [] && a[0] == b[0] {
      StrLeTotal(a[1..], b[1..]);
    }
  }

  lemma {:induction false} StrLeTrans(a: string, b: string, c: string)
    requires StrLe(a, b) && StrLe(b, c)
    ensures StrLe(a, c)
    decreases |a|
  {
    if a != [] && a[0] == b[0] && b[0] == c[0] {
      StrLeTrans(a[1..], b[1..], c[1..]);
    }
  }

  lemma {:induction false} StrLeAntisymmetric(a: string, b: string)
    requires StrLe(a, b) && StrLe(b, a)
    ensures a == b
    decreases |a|
  {
    if a != [] {
      StrLeAntisymmetric(a[1..], b[1..]);
      assert a == [a[0]] + a[1..];
      assert b == [b[0]] + b[1..];
    }
  }

  /** The comparator of `arr.sort`: more points first, then the name. */
  predicate RanksBefore(a: Standing, b: Standing) {
    a.points > b.points || (a.points == b.points && StrLe(a.display, b.display))
  }

  lemma RanksBeforeOrders()
    ensures Sorting.TotalPreorder(RanksBefore)
  {
    forall x: Standing, y: Standing ensures RanksBefore(x, y) || RanksBefore(y, x) {
      StrLeTotal(x.display, y.display);
    }
    forall x: Standing, y: Standing, z: Standing | RanksBefore(x, y) && RanksBefore(y, z)
      ensures RanksBefore(x, z)
    {
      if x.points == y.points == z.points {
        StrLeTrans(x.display, y.display, z.display);
      }
    }
  }

  /** The leaderboard in rank order: the member rows sorted by points,
      highest first, ties by name. */
  function Ranking(docs: seq<(Uid, Member)>): (r: seq<Standing>)
    ensures multiset(r) == multiset(Standings(docs))
    ensures |r| == |docs|
    ensures forall i, j :: 0 <= i < j < |r| ==> r[i].points >= r[j].points
    ensures forall i, j :: 0 <= i < j < |r| && r[i].points == r[j].points ==> StrLe(r[i].display, r[j].display)
  {
    RanksBeforeOrders();
    Sorting.Sort(RanksBefore, Standings(docs))
  }

  // ---------------------------------------------------------------------
  // Search and pagination

  /** The search effect: with an empty box every member is listed;
      otherwise the members whose lower-cased name includes the trimmed,
      lower-cased query, in rank order. */
  function SearchFilter(members: seq<Standing>, search: string): (r: seq<Standing>)
    ensures search == [] ==> r == members
    ensures forall m :: m in r <==> m in members && (search == [] || Contains(Lower(m.display), Lower(Trim(search))))
    ensures Seqs.IsSubsequence(r, members)
  {
    if search == [] then
      IsSubsequenceRefl(members);
      members
    else
      var q := Lower(Trim(search));
      Seqs.Filter(members, (m: Standing) => Contains(Lower(m.display), q))
  }

  lemma {:induction false} IsSubsequenceRefl(s: seq<Standing>)
    ensures Seqs.IsSubsequence(s, s)
  {
    if s != [] {
      IsSubsequenceRefl(s[1..]);
    }
  }

  /** A query of only white space matches everyone. */
  lemma BlankSearchKeepsAll(members: seq<Standing>, search: string)
    requires IsBlank(search)
    ensures SearchFilter(members, search) == members
  {
    if search != [] {
      TrimEmptyIffBlank(search);
      var q := Lower(Trim(search));
      assert q == [];
      forall i | 0 <= i < |members| ensures Contains(Lower(members[i].display), q) {
        ContainsEmpty(Lower(members[i].display));
      }
      Seqs.FilterAll(members, (m: Standing) => Contains(Lower(m.display), q));
    }
  }

  /** `Math.max(1, Math.ceil(n / PER_PAGE))` */
  function TotalPages(n: nat): (t: nat)
    ensures t >= 1
    ensures n <= t * PerPage
    ensures t == 1 || (t - 1) * PerPage < n
  {
    if n == 0 then 1 else (n + PerPage - 1) / PerPage
  }

  /** `filtered.slice((page - 1) * PER_PAGE, page * PER_PAGE)` for the
      pages the view can be on (page 1 and up). */
  function Page<T>(s: seq<T>, page: int): (r: seq<T>)
    requires page >= 1
    ensures |r| == if (page - 1) * PerPage >= |s| then 0 else Min(PerPage, |s| - (page - 1) * PerPage)
    ensures |r| <= PerPage
    ensures forall k :: 0 <= k < |r| ==> r[k] == s[(page - 1) * PerPage + k]
  {
    var lo := Min((page - 1) * PerPage, |s|);
    var hi := Min(page * PerPage, |s|);
    s[lo..hi]
  }

  function Min(a: int, b: int): int {
    if a <= b then a else b
  }

  /** Every row is on exactly the page `index / 15 + 1`, at offset
      `index % 15`, and that page is one of the numbered pages. */
  lemma PageOfIndex<T>(s: seq<T>, index: nat)
    requires index < |s|
    ensures 1 <= index / PerPage + 1 <= TotalPages(|s|)
    ensures index % PerPage < |Page(s, index / PerPage + 1)|
    ensures Page(s, index / PerPage + 1)[index % PerPage] == s[index]
  {
  }

  /** The pages after the last numbered one are empty, and every numbered
      page of a non-empty list holds a row. */
  lemma PagesInRange<T>(s: seq<T>, page: int)
    requires page >= 1
    ensures page > TotalPages(|s|) ==> Page(s, page) == []
    ensures |s| > 0 && page <= TotalPages(|s|) ==> Page(s, page) != []
  {
  }

  /** The first index of the row of `uid`: `members.findIndex(...)`. */
  function FindIndex(members: seq<Standing>, uid: Uid): (r: Option<nat>)
    ensures r.Some? ==> r.value < |members| && members[r.value].uid == uid
    ensures r.Some? ==> forall i :: 0 <= i < r.value ==> members[i].uid != uid
    ensures r.None? ==> forall i :: 0 <= i < |members| ==> members[i].uid != uid
  {
    if members == [] then None
    else if members[0].uid == uid then Some(0)
    else match FindIndex(members[1..], uid)
      case None => None
      case Some(i) => Some(i + 1)
  }

  /** What the "My rank" button did. */
  datatype JumpOutcome = SignedOut | NotOnBoard | Jumped(index: nat)

  /** The page's state. `filtered` is kept equal to the search applied to
      `members` (the effect on `[search, members]`). */
  class LeaderboardView {
    var members: seq<Standing>
    var filtered: seq<Standing>
    var search: string
    var page: int

    ghost predicate Valid()
      reads this
    {
      page >= 1 && filtered == SearchFilter(members, search)
    }

    constructor ()
      ensures Valid() && members == [] && search == [] && page == 1
    {
      members, filtered, search, page := [], [], [], 1;
    }

    /** `loadAll`: the ranked members replace the list and the view goes
        back to page 1 under the current search. */
    method Load(docs: seq<(Uid, Member)>)
      modifies this
      ensures Valid()
      ensures members == Ranking(docs) && search == old(search) && page == 1
    {
      members := Ranking(docs);
      filtered := members;
      page := 1;
      filtered := SearchFilter(members, search);
      page := 1;
    }

    /** Typing in the search box: the filter is recomputed and the view
        goes back to page 1. */
    method SetSearch(s: string)
      modifies this
      ensures Valid()
      ensures members == old(members) && search == s && page == 1
    {
      search := s;
      filtered := SearchFilter(members, search);
      page := 1;
    }

    /** `paginated`: the rows shown. */
    function Shown(): (r: seq<Standing>)
      reads this
      requires page >= 1
      ensures |r| <= PerPage
      ensures (page - 1) * PerPage < |filtered| ==> |r| == Min(PerPage, |filtered| - (page - 1) * PerPage)
      ensures (page - 1) * PerPage >= |filtered| ==> r == []
      ensures forall k :: 0 <= k < |r| ==> r[k] == filtered[(page - 1) * PerPage + k]
    {
      Page(filtered, page)
    }

    /** `goPrev`: one page back, never before page 1. */
    method GoPrev()
      requires Valid()
      modifies this`page
      ensures Valid()
      ensures page == if old(page) > 1 then old(page) - 1 else 1
    {
      page := if page - 1 > 1 then page - 1 else 1;
    }

    /** `goNext`: one page on, never past the last page. */
    method GoNext()
      requires Valid()
      modifies this`page
      ensures Valid()
      ensures page <= TotalPages(|filtered|)
      ensures old(page) < TotalPages(|filtered|) ==> page == old(page) + 1
      ensures old(page) >= TotalPages(|filtered|) ==> page == TotalPages(|filtered|)
    {
      var t := TotalPages(|filtered|);
      page := if t < page + 1 then t else page + 1;
    }

    /** `scrollToUser`: the page of the user's rank in the full ranking.
        With an empty search box that is the page showing their row. */
    method ScrollToUser(user: Option<Uid>) returns (outcome: JumpOutcome)
      requires Valid()
      modifies this`page
      ensures Valid()
      ensures user.None? ==> outcome == SignedOut && page == old(page)
      ensures user.Some? && FindIndex(members, user.value).None? ==> outcome == NotOnBoard && page == old(page)
      ensures user.Some? && FindIndex(members, user.value).Some? ==>
        outcome == Jumped(FindIndex(members, user.value).value)
      ensures outcome.Jumped? ==>
        (members[outcome.index].uid == user.value
         && page == outcome.index / PerPage + 1 && page <= TotalPages(|members|))
      ensures outcome.Jumped? && search == [] ==> Shown()[outcome.index % PerPage] == members[outcome.index]
    {
      if user.None? {
        return SignedOut;
      }
      var idx := FindIndex(members, user.value);
      if idx.None? {
        return NotOnBoard;
      }
      page := idx.value / PerPage + 1;
      PageOfIndex(members, idx.value);
      outcome := Jumped(idx.value);
    }
  }

  // ---------------------------------------------------------------------
  // CSV export

  const Header: seq<string> := ["Rank", "Name", "Points", "Email", "UID"]

  /** `[i + 1, m.display, m.points, m.email || "", m.uid]`, each cell as
      `String(c)`. */
  function ExportRow(i: nat, m: Standing): (r: seq<string>)
    ensures |r| == |Header|
    ensures IsNumeral(r[0], i + 1)
    ensures r[1] == m.display
    ensures IsSignedNumeral(r[2], m.points)
    ensures r[3] == OrElse(m.email, "")
    ensures r[4] == m.uid
  {
    NatToStringValue(i + 1);
    [NatToString(i + 1), m.display, IntToString(m.points), if m.email.Some? then m.email.value else [], m.uid]
  }

  /** `exportCSV`: the header, then one row per member in rank order,
      rendered as quoted CSV. Reading the text back gives the header and
      exactly those rows. */
  method ExportCsv(members: seq<Standing>) returns (csv: string)
    ensures Csv.ReadTable(csv).Some?
    ensures var t := Csv.ReadTable(csv).value;
      && |t| == |members| + 1
      && t[0] == Header
      && forall i :: 0 <= i < |members| ==> t[i + 1] == ExportRow(i, members[i])
  {
    var rows := [Header];
    for i := 0 to |members|
      invariant |rows| == i + 1 && rows[0] == Header
      invariant forall k :: 0 <= k < |rows| ==> |rows[k]| >= 1
      invariant forall k :: 0 <= k < i ==> rows[k + 1] == ExportRow(k, members[k])
    {
      var row := ExportRow(i, members[i]);
      assert |row| == |Header|;
      rows := rows + [row];
    }
    csv := Csv.Render(rows);
    Csv.ReadTableRender(rows);
  }

  // ---------------------------------------------------------------------
  // E-mail mask

  /** The text before the first `@` (`email.split("@")[0]`). */
  function LocalPart(email: string): (r: string)
    ensures '@' !in r && StartsWith(email, r)
    ensures |r| < |email| ==> email[|r|] == '@'
  {
    SplitFirstPiece(email, '@');
    Split(email, '@')[0]
  }

  /** `email.split("@")[1]`, which is `undefined` (and prints as such)
      when there is no `@`; otherwise the text after the first `@` up to
      the next one, or the end. */
  function DomainPart(email: string): (r: string)
    ensures |LocalPart(email)| == |email| ==> r == "undefined"
    ensures |LocalPart(email)| < |email| ==> r == LocalPart(email[|LocalPart(email)| + 1..])
  {
    var parts := Split(email, '@');
    var local := LocalPart(email);
    if |local| == |email| then
      assert email == local;
      SplitNoSeparator(email, '@');
      "undefined"
    else
      var rest := email[|local| + 1..];
      assert email == email[..|local|] + [email[|local|]] + rest;
      SplitAfterSeparator(local, rest, '@');
      parts[1]
  }

  /** The local part is empty exactly when the address is empty or starts
      with `@`. */
  lemma LocalPartEmpty(email: string)
    ensures LocalPart(email) == [] <==> email == [] || email[0] == '@'
  {
    if email != [] && LocalPart(email) == [] {
      assert email[0] == '@';
    }
  }

  /** How many leading characters of the local part stay visible: none for
      one or two characters, otherwise up to three but always leaving at
      least two hidden. */
  function ShownChars(local: string): (v: nat)
    ensures v <= 3
    ensures |local| <= 2 ==> v == 0
    ensures |local| > 2 ==> 1 <= v && v + 2 <= |local|
    ensures |local| > 2 ==> v == 3 || v + 2 == |local|
    ensures |local| >= 5 ==> v == 3
  {
    if |local| <= 2 then 0 else Min(3, |local| - 2)
  }

  /** `maskEmail` */
  function MaskEmail(email: string): (r: string)
    ensures email == [] ==> r == []
    ensures email != [] && LocalPart(email) == [] ==> r == email
    ensures LocalPart(email) != [] ==>
      r == LocalPart(email)[..ShownChars(LocalPart(email))]
        + (if |LocalPart(email)| <= 2 then "**" else "***") + "@" + DomainPart(email)
  {
    if email == [] then []
    else
      var local := LocalPart(email);
      if local == [] then email
      else if |local| <= 2 then "**@" + DomainPart(email)
      else local[..Min(3, |local| - 2)] + "***@" + DomainPart(email)
  }

  /** `local@domain` splits into `local` and `domain`. */
  lemma AddressParts(local: string, domain: string)
    requires '@' !in local && '@' !in domain
    ensures LocalPart(local + "@" + domain) == local && DomainPart(local + "@" + domain) == domain
  {
    var email := local + "@" + domain;
    SplitAfterSeparator(local, domain, '@');
    SplitNoSeparator(domain, '@');
    assert Split(email, '@') == [local, domain];
  }

  /** The mask of an address with a non-empty local part, from its parts. */
  lemma MaskOfParts(email: string, local: string, domain: string)
    requires local != [] && LocalPart(email) == local && DomainPart(email) == domain
    ensures MaskEmail(email) == local[..ShownChars(local)] + (if |local| <= 2 then "**" else "***") + "@" + domain
  {
    assert email != [];
  }

  /** For an address `local@domain` the mask keeps the domain and shows
      only the first `ShownChars` characters of `local`. */
  lemma MaskOfAddress(local: string, domain: string)
    requires local != [] && '@' !in local && '@' !in domain
    ensures var m := MaskEmail(local + "@" + domain);
      && LocalPart(local + "@" + domain) == local
      && StartsWith(m, local[..ShownChars(local)])
      && EndsWith(m, "@" + domain)
  {
    var email := local + "@" + domain;
    AddressParts(local, domain);
    var m := MaskEmail(email);
    var shown := local[..ShownChars(local)];
    var stars: string := if |local| <= 2 then "**" else "***";
    MaskOfParts(email, local, domain);
    assert m == shown + (stars + "@" + domain);
    assert m == (shown + stars) + ("@" + domain);
  }
}
