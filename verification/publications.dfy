/** The publications editor of the admin about screen: the list, the form,
    and which entry (if any) the form is editing. The backend's answers are
    parameters. */
module Publications {
  import opened Core
  import JsArray

  /** `Publication`; records that were never saved have no id. */
  datatype Publication = Publication(id: Option<string>, year: string, publication: string, article: string)

  const EmptyForm: Publication := Publication(None, [], [], [])

  datatype Admin = Admin(pubs: seq<Publication>, editingId: Option<string>, form: Publication, isAdding: bool)

  /** `handleAddPublication`: an empty form for a new entry. */
  function StartAdd(a: Admin): (r: Admin)
    ensures r.pubs == a.pubs && r.isAdding && r.editingId.None? && r.form == EmptyForm
  {
    a.(isAdding := true, editingId := None, form := EmptyForm)
  }

  /** `handleEditPublication`: the form takes a copy of the entry, and the
      entry's id (when it has a non-empty one) becomes the one being edited. */
  function StartEdit(a: Admin, pub: Publication): (r: Admin)
    ensures r.pubs == a.pubs && !r.isAdding && r.form == pub
    ensures Truthy(pub.id) ==> r.editingId == pub.id
    ensures !Truthy(pub.id) ==> r.editingId.None?
  {
    a.(isAdding := false, editingId := if Truthy(pub.id) then pub.id else None, form := pub)
  }

  /** `handleCancelEdit`: back to an idle, empty form. */
  function CancelEdit(a: Admin): (r: Admin)
    ensures r.pubs == a.pubs && !r.isAdding && r.editingId.None? && r.form == EmptyForm
  {
    Admin(a.pubs, None, EmptyForm, false)
  }

  predicate FormComplete(f: Publication)
  {
    f.year != [] && f.publication != [] && f.article != []
  }

  /** Why a save did nothing, or the state after it. */
  datatype SaveOutcome = Incomplete | Failed(message: string) | Saved(admin: Admin)

  /** `handleSavePublication`. `reply` is what the backend returns for the
      update (when an id is being edited) or for the insert. */
  function Save(a: Admin, reply: Result<Publication, string>): (r: SaveOutcome)
    ensures r.Incomplete? <==> !FormComplete(a.form)
    ensures r.Failed? <==> FormComplete(a.form) && reply.Err?
    ensures r.Saved? ==> r.admin.form == EmptyForm && r.admin.editingId.None? && !r.admin.isAdding
    ensures r.Saved? && Truthy(a.editingId) ==>
              && |r.admin.pubs| == |a.pubs|
              && forall k :: 0 <= k < |a.pubs| ==>
                   && (a.pubs[k].id == a.editingId ==> r.admin.pubs[k] == reply.value)
                   && (a.pubs[k].id != a.editingId ==> r.admin.pubs[k] == a.pubs[k])
    ensures r.Saved? && !Truthy(a.editingId) ==>
              && |r.admin.pubs| == |a.pubs| + 1
              && r.admin.pubs[..|a.pubs|] == a.pubs
              && r.admin.pubs[|a.pubs|] == reply.value
  {
    if !FormComplete(a.form) then Incomplete
    else
      match reply
      case Err(_) => Failed("Failed to save publication")
      case Ok(saved) =>
        var pubs := if Truthy(a.editingId) then
                      seq(|a.pubs|, k requires 0 <= k < |a.pubs| =>
                            if a.pubs[k].id == a.editingId then saved else a.pubs[k])
                    else a.pubs + [saved];
        Saved(CancelEdit(a.(pubs := pubs)))
  }

  /** Editing an entry and saving it replaces every entry with its id by the
      backend's record and closes the form. */
  lemma EditThenSaveReplaces(a: Admin, pub: Publication, saved: Publication)
    requires Truthy(pub.id) && FormComplete(pub)
    ensures var r := Save(StartEdit(a, pub), Ok(saved));
            && r.Saved?
            && |r.admin.pubs| == |a.pubs|
            && (forall k :: 0 <= k < |a.pubs| && a.pubs[k].id == pub.id ==> r.admin.pubs[k] == saved)
            && (forall k :: 0 <= k < |a.pubs| && a.pubs[k].id != pub.id ==> r.admin.pubs[k] == a.pubs[k])
            && r.admin.form == EmptyForm
  {
  }

  /** `handleDeletePublication`: after confirmation and a successful backend
      delete, every entry with the id is gone and the rest keep their order;
      otherwise nothing changes. */
  function Delete(a: Admin, id: string, confirmed: bool, deleted: bool): (r: Admin)
    ensures !confirmed || !deleted ==> r == a
    ensures confirmed && deleted ==>
              && r.editingId == a.editingId && r.form == a.form && r.isAdding == a.isAdding
              && (forall p :: p in r.pubs <==> p in a.pubs && p.id != Some(id))
              && (forall p :: multiset(r.pubs)[p] == if p.id != Some(id) then multiset(a.pubs)[p] else 0)
              && JsArray.IsSubsequence(r.pubs, a.pubs)
  {
    if !confirmed || !deleted then a
    else a.(pubs := JsArray.Filter(a.pubs, (p: Publication) => p.id != Some(id)))
  }

  datatype Direction = Up | Down

  /** The position `Move` sends the entry at `index` to. */
  function Target(index: nat, dir: Direction): (t: int)
  {
    if dir == Up then index - 1 else index + 1
  }

  /** The two splices of `movePublication`: take the entry out at `index`,
      put it back in at `t`. */
  function SpliceMove(pubs: seq<Publication>, index: nat, t: nat): (r: seq<Publication>)
    requires index < |pubs| && t < |pubs| && (t == index + 1 || t + 1 == index)
    ensures r == JsArray.Swap(pubs, index, t)
    ensures multiset(r) == multiset(pubs)
  {
    JsArray.RemoveInsertNeighbourIsSwap(pubs, index, t);
    JsArray.SpliceInsert(JsArray.SpliceRemoveOne(pubs, index), t, pubs[index])
  }

  /** `up` on the first entry or `down` on the last. */
  predicate AtBoundary(a: Admin, index: nat, dir: Direction)
  {
    (dir == Up && index == 0) || (dir == Down && index == |a.pubs| - 1)
  }

  /** `movePublication`: at a boundary nothing happens; otherwise the entry
      and its neighbour exchange places. The index always comes from the
      rendered list, so it is in range. */
  function Move(a: Admin, index: nat, dir: Direction): (r: Admin)
    requires index < |a.pubs|
    ensures AtBoundary(a, index, dir) ==> r == a
    ensures !AtBoundary(a, index, dir) ==>
              && 0 <= Target(index, dir) < |a.pubs|
              && r == a.(pubs := JsArray.Swap(a.pubs, index, Target(index, dir)))
    ensures multiset(r.pubs) == multiset(a.pubs)
  {
    if AtBoundary(a, index, dir) then a
    else a.(pubs := SpliceMove(a.pubs, index, Target(index, dir)))
  }

  /** Away from the boundary, the entry and its neighbour exchange places,
      every other entry stays where it was, and the form is untouched. */
  lemma MoveSwapsNeighbours(a: Admin, index: nat, dir: Direction)
    requires index < |a.pubs| && !AtBoundary(a, index, dir)
    ensures var t := Target(index, dir);
            var r := Move(a, index, dir);
            && 0 <= t < |a.pubs|
            && |r.pubs| == |a.pubs|
            && r.pubs[index] == a.pubs[t] && r.pubs[t] == a.pubs[index]
            && (forall k :: 0 <= k < |a.pubs| && k != index && k != t ==> r.pubs[k] == a.pubs[k])
            && r.editingId == a.editingId && r.form == a.form && r.isAdding == a.isAdding
  {
  }

  /** Moving an entry down and then moving it back up restores the list. */
  lemma MoveDownThenUpRestores(a: Admin, index: nat)
    requires index + 1 < |a.pubs|
    ensures Move(Move(a, index, Down), index + 1, Up) == a
  {
    var b := Move(a, index, Down);
    assert b.pubs == JsArray.Swap(a.pubs, index, index + 1);
    var c := Move(b, index + 1, Up);
    assert c.pubs == JsArray.Swap(b.pubs, index + 1, index);
    JsArray.SwapTwice(a.pubs, index, index + 1);
    assert c.pubs == a.pubs;
  }

}
