/** The resources page: faculty uploads to the official sections, student
    materials with tags, upvotes on student materials (one upvote to the
    material and twenty points to its uploader, every time), and the
    material search. */
module Resources {
  import opened Text
  import opened Store
  import Seqs

  const UploaderPoints := 20

  datatype UploadGate = NoFile | FacultyOnly | MayUpload

  /** The checks of `uploadResource`: a file must be chosen, then the
      caller must be faculty. */
  function UploadResourceGate(hasFile: bool, role: Option<string>): (r: UploadGate)
    ensures r == MayUpload <==> hasFile && role == Some("faculty")
    ensures !hasFile ==> r == NoFile
    ensures hasFile && role != Some("faculty") ==> r == FacultyOnly
  {
    if !hasFile then NoFile
    else if role != Some("faculty") then FacultyOnly
    else MayUpload
  }

  /** `tags ? tags.split(",").map((t) => t.trim().toLowerCase()) : []`:
      one lower-cased, trimmed tag per comma-separated piece, empty pieces
      included; no tags for an empty box. */
  function ParseMaterialTags(text: string): (r: seq<string>)
    ensures text == [] ==> r == []
    ensures text != [] ==> |r| == |Split(text, ',')|
    ensures text != [] ==> forall i :: 0 <= i < |r| ==> r[i] == Lower(Trim(Split(text, ',')[i]))
    ensures forall i :: 0 <= i < |r| ==> ',' !in r[i] && forall k :: 0 <= k < |r[i]| ==> !('A' <= r[i][k] <= 'Z')
  {
    if text == [] then []
    else
      var pieces := Split(text, ',');
      forall i | 0 <= i < |pieces| ensures ',' !in Lower(Trim(pieces[i])) {
        LowerKeepsComma(Trim(pieces[i]), pieces[i]);
      }
      seq(|pieces|, i requires 0 <= i < |pieces| => Lower(Trim(pieces[i])))
  }

  lemma LowerKeepsComma(t: string, s: string)
    requires ',' !in s && t == Trim(s)
    ensures ',' !in Lower(t)
  {
    TrimKeepsOut(s, ',');
  }

  /** A lone comma gives two empty tags: empty pieces are kept. */
  lemma EmptyPiecesKept()
    ensures ParseMaterialTags(",") == ["", ""]
  {
    assert [','][1..] == [];
    assert Split(",", ',') == [[], []];
  }

  datatype UploadOutcome = MissingInput | Uploaded(id: MaterialId)

  /** `uploadStudentMaterial`. `file` is the chosen file's name; `id` is
      the id the store gives the new document. */
  method UploadStudentMaterial(st: Store, file: Option<string>, title: string, tagsText: string,
                               userId: Uid, id: MaterialId) returns (outcome: UploadOutcome)
    requires id !in st.materials
    modifies st
    ensures st.classes == old(st.classes) && st.members == old(st.members)
    ensures st.users == old(st.users) && st.questions == old(st.questions)
    ensures file.None? || title == [] ==> outcome == MissingInput && st.materials == old(st.materials)
    ensures file.Some? && title != [] ==>
      && outcome == Uploaded(id)
      && st.materials == old(st.materials)[id := Material(title, userId, 0, ParseMaterialTags(tagsText))]
  {
    if file.None? || title == [] {
      return MissingInput;
    }
    st.materials := st.materials[id := Material(title, userId, 0, ParseMaterialTags(tagsText))];
    outcome := Uploaded(id);
  }

  /** `updateDoc(matRef, { upvotes: increment(1) })` on an existing
      material: its count rises by one and nothing else changes. */
  function AddUpvote(materials: map<MaterialId, Material>, id: MaterialId): (r: map<MaterialId, Material>)
    requires id in materials
    ensures r.Keys == materials.Keys
    ensures r[id] == materials[id].(upvotes := materials[id].upvotes + 1)
    ensures forall k :: k in materials && k != id ==> r[k] == materials[k]
  {
    materials[id := materials[id].(upvotes := materials[id].upvotes + 1)]
  }

  /** `updateDoc(uploaderRef, { points: increment(20) })` on an existing
      profile. */
  function AddUploaderPoints(users: map<Uid, Profile>, uid: Uid): (r: map<Uid, Profile>)
    requires uid in users
    ensures r.Keys == users.Keys
    ensures r[uid] == users[uid].(points := Some(OrZero(users[uid].points) + UploaderPoints))
    ensures forall k :: k in users && k != uid ==> r[k] == users[k]
  {
    users[uid := users[uid].(points := Incremented(users[uid].points, UploaderPoints))]
  }

  /** An upvote is not a toggle: each one adds again. */
  lemma UpvotesAccumulate(materials: map<MaterialId, Material>, users: map<Uid, Profile>,
                          id: MaterialId, uploader: Uid)
    requires id in materials && uploader in users
    ensures AddUpvote(AddUpvote(materials, id), id)[id].upvotes == materials[id].upvotes + 2
    ensures OrZero(AddUploaderPoints(AddUploaderPoints(users, uploader), uploader)[uploader].points)
      == OrZero(users[uploader].points) + 2 * UploaderPoints
  {
  }

  /** The local list entry of a material: its id and its data. */
  type Entry = (MaterialId, Material)

  /** The `setStudentMaterials(prev.map(...))` after a successful upvote:
      only the upvoted material's count changes, by exactly one. */
  function LocalUpvote(list: seq<Entry>, id: MaterialId): (r: seq<Entry>)
    ensures |r| == |list|
    ensures forall i :: 0 <= i < |list| && list[i].0 == id ==>
      r[i] == (id, list[i].1.(upvotes := list[i].1.upvotes + 1))
    ensures forall i :: 0 <= i < |list| && list[i].0 != id ==> r[i] == list[i]
  {
    seq(|list|, i requires 0 <= i < |list| =>
      if list[i].0 == id then (id, list[i].1.(upvotes := list[i].1.upvotes + 1)) else list[i])
  }

  datatype UpvoteOutcome = OwnMaterial | Failed | Upvoted

  /** `handleUpvote`. The two increments run one after the other; an
      increment on a missing document fails and ends the handler, so a
      missing uploader profile leaves the material's upvote written and the
      local list as it was. */
  method Upvote(st: Store, userId: Uid, materialId: MaterialId, uploaderId: Uid, local: seq<Entry>)
    returns (outcome: UpvoteOutcome, newLocal: seq<Entry>)
    modifies st
    ensures st.classes == old(st.classes) && st.members == old(st.members) && st.questions == old(st.questions)
    ensures uploaderId == userId ==>
      outcome == OwnMaterial && st.materials == old(st.materials) && st.users == old(st.users)
    ensures uploaderId != userId && materialId !in old(st.materials) ==>
      outcome == Failed && st.materials == old(st.materials) && st.users == old(st.users)
    ensures uploaderId != userId && materialId in old(st.materials) ==>
      && st.materials == AddUpvote(old(st.materials), materialId)
      && (uploaderId !in old(st.users) ==> outcome == Failed && st.users == old(st.users))
      && (uploaderId in old(st.users) ==> outcome == Upvoted && st.users == AddUploaderPoints(old(st.users), uploaderId))
    ensures newLocal == if outcome == Upvoted then LocalUpvote(local, materialId) else local
  {
    newLocal := local;
    if uploaderId == userId {
      return OwnMaterial, newLocal;
    }
    if materialId !in st.materials {
      return Failed, newLocal;
    }
    st.materials := AddUpvote(st.materials, materialId);
    if uploaderId !in st.users {
      return Failed, newLocal;
    }
    st.users := AddUploaderPoints(st.users, uploaderId);
    newLocal := LocalUpvote(local, materialId);
    outcome := Upvoted;
  }

  /** The material is shown: its lower-cased title includes the lower-cased
      search, and no tag is selected or it has one of the selected tags. */
  predicate Shown(m: Material, search: string, selected: seq<string>) {
    && Contains(Lower(m.title), Lower(search))
    && (|selected| == 0 || exists k :: 0 <= k < |selected| && selected[k] in m.tags)
  }

  /** `filteredMaterials`: the shown materials, in list order. */
  function FilteredMaterials(list: seq<Entry>, search: string, selected: seq<string>): (r: seq<Entry>)
    ensures forall e :: e in r <==> e in list && Shown(e.1, search, selected)
    ensures Seqs.IsSubsequence(r, list)
  {
    Seqs.Filter(list, (e: Entry) => Shown(e.1, search, selected))
  }

  /** With an empty search and no selected tag every material is shown. */
  lemma FilterNothingShowsAll(list: seq<Entry>)
    ensures FilteredMaterials(list, [], []) == list
  {
    forall i | 0 <= i < |list| ensures Shown(list[i].1, [], []) {
      ContainsEmpty(Lower(list[i].1.title));
      assert Lower([]) == [];
    }
    Seqs.FilterAll(list, (e: Entry) => Shown(e.1, [], []));
  }
}
