/** The datapoint manager hook: a local list of `{id, name}` datapoints for one
    asset, the new-name validation, and the add, remove and edit handlers that
    keep the local list and push changes to the asset through the upsert
    command. The `onUpdateDatapoints` callback is the caller's; each handler
    returns the list it hands to it. */
module DatapointManager {
  import opened Wrappers
  import opened Seqs
  import opened Text
  import opened Tree
  import opened TreeManager

  datatype Form = Form(local: seq<DatapointInput>, newName: string, error: string, adding: bool)

  /** One handler run: the new local state, the session after the upsert, and
      the list handed to `onUpdateDatapoints`, if any. */
  datatype Step = Step(form: Form, session: Session, notified: Option<seq<DatapointInput>>)

  const NameEmpty := "Datapoint name cannot be empty"
  const NameTaken := "Datapoint name must be unique"

  /** Some existing name equals the candidate, ignoring ASCII case. */
  predicate NameInUse(local: seq<DatapointInput>, candidate: string)
  {
    exists i :: 0 <= i < |local| && Lower(local[i].name) == Lower(candidate)
  }

  /** No two names of the list are equal ignoring ASCII case. */
  ghost predicate NamesUnique(local: seq<DatapointInput>)
  {
    forall i, j :: 0 <= i < j < |local| ==> Lower(local[i].name) != Lower(local[j].name)
  }

  /** The check of `handleDatapointNameChange`: blank, taken, or fine (""). */
  function ValidateName(local: seq<DatapointInput>, val: string): (err: string)
    ensures err == NameEmpty <==> IsBlank(val)
    ensures err == NameTaken <==> !IsBlank(val) && NameInUse(local, Trim(val))
    ensures err == "" <==> !IsBlank(val) && !NameInUse(local, Trim(val))
  {
    if IsBlank(val) then NameEmpty
    else if NameInUse(local, Trim(val)) then NameTaken
    else ""
  }

  /** `handleDatapointNameChange`: the field takes the typed text, untrimmed,
      and the error is recomputed. */
  function NameChange(f: Form, val: string): (r: Form)
    ensures r.newName == val && r.local == f.local && r.adding == f.adding
    ensures r.error == "" <==> !IsBlank(val) && !NameInUse(f.local, Trim(val))
  {
    f.(newName := val, error := ValidateName(f.local, val))
  }

  /** `handleAddDatapoint`: the new datapoint goes at the end of the local list
      and is upserted alone onto the asset; the add form closes. The id is
      `datapoint-` followed by a clock-and-random suffix, which is the
      parameter `stamp` here. */
  function AddDatapoint(f: Form, s: Session, parentId: string, name: string, stamp: string): (r: Step)
    ensures r.form.local == f.local + [DatapointInput("datapoint-" + stamp, name)]
    ensures !r.form.adding && r.form.newName == f.newName && r.form.error == f.error
    ensures r.notified == Some(r.form.local)
    ensures r.session == ManageDatapoints(s, parentId, One(DatapointInput("datapoint-" + stamp, name)))
  {
    var dp := DatapointInput("datapoint-" + stamp, name);
    var updated := f.local + [dp];
    Step(f.(local := updated, adding := false), ManageDatapoints(s, parentId, One(dp)), Some(updated))
  }

  /** `confirmAddDatapoint`: refused while the name is blank or an error is
      shown (a blank name also sets the empty-name error); otherwise the trimmed
      name is added and the field and the error are cleared. */
  function ConfirmAdd(f: Form, s: Session, parentId: string, stamp: string): (r: Step)
    ensures IsBlank(f.newName) ==> r == Step(f.(error := NameEmpty), s, None)
    ensures !IsBlank(f.newName) && f.error != "" ==> r == Step(f, s, None)
    ensures !IsBlank(f.newName) && f.error == "" ==>
      && r.form.local == f.local + [DatapointInput("datapoint-" + stamp, Trim(f.newName))]
      && r.form.newName == "" && r.form.error == "" && !r.form.adding
      && r.notified == Some(r.form.local)
      && r.session == ManageDatapoints(s, parentId, One(DatapointInput("datapoint-" + stamp, Trim(f.newName))))
  {
    if IsBlank(f.newName) then Step(f.(error := NameEmpty), s, None)
    else if f.error != "" then Step(f, s, None)
    else
      var step := AddDatapoint(f, s, parentId, Trim(f.newName), stamp);
      step.(form := step.form.(newName := "", error := ""))
  }

  /** While the shown error is the one the current name produces, a confirmed
      add keeps the names unique ignoring case. */
  lemma ConfirmKeepsNamesUnique(f: Form, s: Session, parentId: string, stamp: string)
    requires NamesUnique(f.local) && f.error == ValidateName(f.local, f.newName)
    ensures NamesUnique(ConfirmAdd(f, s, parentId, stamp).form.local)
  {
    var r := ConfirmAdd(f, s, parentId, stamp);
    if !IsBlank(f.newName) && f.error == "" {
      var name := Trim(f.newName);
      forall i, j | 0 <= i < j < |r.form.local|
        ensures Lower(r.form.local[i].name) != Lower(r.form.local[j].name)
      {
        assert r.form.local[i] == f.local[i];
        if j == |f.local| {
          assert r.form.local[j].name == name;
          assert !NameInUse(f.local, name);
        } else {
          assert r.form.local[j] == f.local[j];
        }
      }
    }
  }

  /** Whether a datapoint has the id `id`. */
  function IdIs(id: string): DatapointInput -> bool
  {
    (dp: DatapointInput) => dp.id == id
  }

  /** The entries whose id is not `id`, in order. */
  function WithoutId(local: seq<DatapointInput>, id: string): (r: seq<DatapointInput>)
    ensures forall dp :: dp in r <==> dp in local && dp.id != id
    ensures |r| <= |local|
  {
    Select(local, IdIs(id), false)
  }

  /** Removal keeps the order of what stays: the kept and the removed entries
      interleave to the old list. */
  lemma {:induction false} WithoutIdInOrder(local: seq<DatapointInput>, id: string)
    ensures Merge(local, WithoutId(local, id), Select(local, IdIs(id), true))
  {
    SelectInOrder(local, IdIs(id));
  }

  /** `handleRemoveDatapoint`: the entries with other ids stay, in order, and
      that remaining list is upserted onto the asset. */
  function RemoveDatapoint(f: Form, s: Session, parentId: string, id: string): (r: Step)
    ensures forall dp :: dp in r.form.local <==> dp in f.local && dp.id != id
    ensures r.form.local == WithoutId(f.local, id)
    ensures r.form == f.(local := r.form.local)
    ensures r.notified == Some(r.form.local)
    ensures r.session == ManageDatapoints(s, parentId, Many(r.form.local))
  {
    var updated := WithoutId(f.local, id);
    Step(f.(local := updated), ManageDatapoints(s, parentId, Many(updated)), Some(updated))
  }

  /** The upsert keeps every child no update names, so the datapoint that was
      removed from the local list stays in the asset. */
  lemma RemovedDatapointStays(f: Form, s: Session, parentId: string, id: string, k: nat)
    requires UniqueIds(s.forest) && parentId in Ids(s.forest)
    requires At(s.forest, FirstAddr(s.forest, parentId)).kind == Asset
    requires k < |At(s.forest, FirstAddr(s.forest, parentId)).children|
    requires At(s.forest, FirstAddr(s.forest, parentId)).children[k].id == id
    ensures var a := FirstAddr(s.forest, parentId); var r := RemoveDatapoint(f, s, parentId, id).session;
      ValidAddr(r.forest, a) && At(s.forest, a).children[k] in At(r.forest, a).children
  {
    var a := FirstAddr(s.forest, parentId);
    var c := At(s.forest, a).children[k];
    var updated := WithoutId(f.local, id);
    ManageDatapointsUnique(s, parentId, Many(updated));
    assert !Updated(updated, c.id);
    assert c in Untouched(At(s.forest, a).children, updated);
  }

  /** `handleEditDatapoint`: entries with the id take the new name, all else in
      the local list stays; the single renamed entry is upserted onto the asset. */
  function EditDatapoint(f: Form, s: Session, parentId: string, id: string, newName: string): (r: Step)
    ensures |r.form.local| == |f.local|
    ensures forall i :: 0 <= i < |f.local| ==>
      && r.form.local[i].id == f.local[i].id
      && r.form.local[i].name == (if f.local[i].id == id then newName else f.local[i].name)
    ensures r.form == f.(local := r.form.local)
    ensures r.notified == Some(r.form.local)
    ensures r.session == ManageDatapoints(s, parentId, One(DatapointInput(id, newName)))
  {
    var updated := seq(|f.local|, i requires 0 <= i < |f.local| =>
      if f.local[i].id == id then f.local[i].(name := newName) else f.local[i]);
    Step(f.(local := updated), ManageDatapoints(s, parentId, One(DatapointInput(id, newName))), Some(updated))
  }

  /** With unique ids, an edited datapoint moves to the front of the asset's
      children, with the new name and no labels. */
  lemma EditedDatapointFirst(f: Form, s: Session, parentId: string, id: string, newName: string)
    requires UniqueIds(s.forest) && parentId in Ids(s.forest)
    requires At(s.forest, FirstAddr(s.forest, parentId)).kind == Asset
    ensures var a := FirstAddr(s.forest, parentId); var r := EditDatapoint(f, s, parentId, id, newName).session;
      && ValidAddr(r.forest, a)
      && |At(r.forest, a).children| > 0
      && At(r.forest, a).children[0] == Node(id, newName, Datapoint, [], [])
      && (forall c :: c in At(r.forest, a).children[1..] ==> c in At(s.forest, a).children && c.id != id)
  {
    var a := FirstAddr(s.forest, parentId);
    ManageDatapointsUnique(s, parentId, One(DatapointInput(id, newName)));
    var updates := [DatapointInput(id, newName)];
    var kept := Untouched(At(s.forest, a).children, updates);
    assert DatapointNodes(updates) == [Node(id, newName, Datapoint, [], [])];
    assert At(EditDatapoint(f, s, parentId, id, newName).session.forest, a).children[1..] == kept;
    forall c | c in kept
      ensures c.id != id
    {
      assert !Updated(updates, c.id);
      assert updates[0] in updates;
    }
  }
}
