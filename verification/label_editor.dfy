/** The label editor's list edits: adding, deleting and editing labels under
    the rule that keys are unique (compared exactly, after trimming the input). */
module LabelEditor {
  import Seqs
  import opened Text
  import opened Tree
  import opened TreeManager

  /** The editor's state: the edited list, the two input fields and the key error. */
  datatype Form = Form(labels: seq<Label>, newKey: string, newValue: string, keyError: string)

  const KeyEmpty := "Key cannot be empty"
  const KeyTaken := "Key already exists"

  predicate HasKey(labels: seq<Label>, key: string)
  {
    exists i :: 0 <= i < |labels| && labels[i].key == key
  }

  /** No two labels share a key. */
  ghost predicate UniqueKeys(labels: seq<Label>)
  {
    forall i, j :: 0 <= i < j < |labels| ==> labels[i].key != labels[j].key
  }

  /** `handleAddLabel`: a blank key or a key already present is refused with an
      error and nothing else changes; otherwise the trimmed pair is appended and
      the inputs and the error are cleared. */
  function AddLabel(e: Form): (r: Form)
    ensures r.keyError == KeyEmpty <==> IsBlank(e.newKey)
    ensures r.keyError == KeyTaken <==> !IsBlank(e.newKey) && HasKey(e.labels, Trim(e.newKey))
    ensures r.keyError == "" <==> !IsBlank(e.newKey) && !HasKey(e.labels, Trim(e.newKey))
    ensures r.keyError != "" ==> r == e.(keyError := r.keyError)
    ensures r.keyError == "" ==>
      && r.labels == e.labels + [Label(Trim(e.newKey), Trim(e.newValue))]
      && r.newKey == "" && r.newValue == ""
  {
    if IsBlank(e.newKey) then e.(keyError := KeyEmpty)
    else if HasKey(e.labels, Trim(e.newKey)) then e.(keyError := KeyTaken)
    else Form(e.labels + [Label(Trim(e.newKey), Trim(e.newValue))], "", "", "")
  }

  lemma AddKeepsUnique(e: Form)
    requires UniqueKeys(e.labels)
    ensures UniqueKeys(AddLabel(e).labels)
  {
    var r := AddLabel(e);
    if r.keyError == "" {
      forall i, j | 0 <= i < j < |r.labels|
        ensures r.labels[i].key != r.labels[j].key
      {
        if j == |e.labels| {
          var key := Trim(e.newKey);
          assert r.labels[j].key == key && r.labels[i] == e.labels[i];
          assert !HasKey(e.labels, key);
          assert e.labels[i].key != key;
        } else {
          assert r.labels[i] == e.labels[i] && r.labels[j] == e.labels[j];
        }
      }
    }
  }

  /** Whether a label has the key `key`. */
  function KeyIs(key: string): Label -> bool
  {
    (l: Label) => l.key == key
  }

  /** The labels whose key is not `key`, in order. */
  function WithoutKey(labels: seq<Label>, key: string): (r: seq<Label>)
    ensures forall l :: l in r <==> l in labels && l.key != key
    ensures |r| <= |labels|
  {
    Seqs.Select(labels, KeyIs(key), false)
  }

  /** `handleDeleteLabel`: every label with that key goes, the rest stay. */
  function DeleteLabel(e: Form, keyToDelete: string): (r: Form)
    ensures r == e.(labels := r.labels)
    ensures forall l :: l in r.labels <==> l in e.labels && l.key != keyToDelete
    ensures r.labels == WithoutKey(e.labels, keyToDelete)
  {
    e.(labels := WithoutKey(e.labels, keyToDelete))
  }

  /** Deletion keeps the order of what stays: the kept and the deleted labels
      interleave to the old list. */
  lemma {:induction false} DeleteInOrder(labels: seq<Label>, key: string)
    ensures Seqs.Merge(labels, WithoutKey(labels, key), Seqs.Select(labels, KeyIs(key), true))
  {
    Seqs.SelectInOrder(labels, KeyIs(key));
  }

  lemma {:induction false} DeleteKeepsUnique(labels: seq<Label>, key: string)
    requires UniqueKeys(labels)
    ensures UniqueKeys(WithoutKey(labels, key))
    decreases |labels|
  {
    if labels != [] {
      assert UniqueKeys(labels[1..]) by {
        forall i, j | 0 <= i < j < |labels[1..]|
          ensures labels[1..][i].key != labels[1..][j].key
        {
          assert labels[1..][i] == labels[i + 1] && labels[1..][j] == labels[j + 1];
        }
      }
      DeleteKeepsUnique(labels[1..], key);
      var rest := WithoutKey(labels[1..], key);
      if labels[0].key != key {
        forall j | 0 <= j < |rest|
          ensures labels[0].key != rest[j].key
        {
          assert rest[j] in labels[1..];
          var k :| 0 <= k < |labels[1..]| && labels[1..][k] == rest[j];
          assert labels[k + 1] == rest[j];
        }
        var r := [labels[0]] + rest;
        forall i, j | 0 <= i < j < |r|
          ensures r[i].key != r[j].key
        {
          assert r[j] == rest[j - 1];
          if i > 0 {
            assert r[i] == rest[i - 1];
          }
        }
      }
    }
  }

  datatype Field = Key | Value

  /** The label with the chosen field replaced. */
  function SetField(l: Label, field: Field, v: string): Label
  {
    if field == Key then l.(key := v) else l.(value := v)
  }

  /** A key edit that would give the label another label's key. */
  predicate KeyClash(labels: seq<Label>, index: nat, field: Field, v: string)
    requires index < |labels|
  {
    field == Key && v != labels[index].key && HasKey(labels, v)
  }

  /** `handleEditLabel`: renaming a key to another label's key is refused with an
      error; otherwise the chosen field of the label at `index` takes the trimmed
      value and the error is cleared. */
  function EditLabel(e: Form, index: nat, field: Field, newValue: string): (r: Form)
    requires index < |e.labels|
    ensures r.newKey == e.newKey && r.newValue == e.newValue
    ensures r.keyError == KeyTaken <==>
      field == Key && Trim(newValue) != e.labels[index].key && HasKey(e.labels, Trim(newValue))
    ensures r.keyError == "" <==>
      !(field == Key && Trim(newValue) != e.labels[index].key && HasKey(e.labels, Trim(newValue)))
    ensures r.keyError != "" ==> r.labels == e.labels
    ensures r.keyError == "" ==>
      && |r.labels| == |e.labels|
      && (forall j :: 0 <= j < |e.labels| && j != index ==> r.labels[j] == e.labels[j])
      && r.labels[index] == if field == Key then e.labels[index].(key := Trim(newValue))
                            else e.labels[index].(value := Trim(newValue))
  {
    var v := Trim(newValue);
    if KeyClash(e.labels, index, field, v) then e.(keyError := KeyTaken)
    else e.(labels := e.labels[index := SetField(e.labels[index], field, v)], keyError := "")
  }

  /** Overwriting one label keeps the keys unique when the new key is the old
      one or is not in use. */
  lemma UpdateKeepsUnique(labels: seq<Label>, index: nat, l: Label)
    requires index < |labels| && UniqueKeys(labels)
    requires l.key == labels[index].key || !HasKey(labels, l.key)
    ensures UniqueKeys(labels[index := l])
  {
    var r := labels[index := l];
    forall i, j | 0 <= i < j < |r|
      ensures r[i].key != r[j].key
    {
      if i != index && j != index {
        assert r[i] == labels[i] && r[j] == labels[j];
      } else if l.key == labels[index].key {
        assert r[i].key == labels[i].key && r[j].key == labels[j].key;
      } else {
        var other := if i == index then j else i;
        assert r[other] == labels[other];
      }
    }
  }

  lemma EditKeepsUnique(e: Form, index: nat, field: Field, newValue: string)
    requires index < |e.labels| && UniqueKeys(e.labels)
    ensures UniqueKeys(EditLabel(e, index, field, newValue).labels)
  {
    var v := Trim(newValue);
    if !KeyClash(e.labels, index, field, v) {
      UpdateKeepsUnique(e.labels, index, SetField(e.labels[index], field, v));
    }
  }

  /** `handleSaveLabels`, through the label manager's save: the node's labels
      become the edited list. */
  function SaveLabels(e: Form, s: Session, nodeId: string): (r: Session)
    ensures r.selectedId == s.selectedId
    ensures nodeId !in Ids(s.forest) ==> r == s
    ensures nodeId in Ids(s.forest) ==>
      var a := FirstAddr(s.forest, nodeId);
      && r.forest == Replace(s.forest, a, At(s.forest, a).(labels := e.labels))
      && ValidAddr(r.forest, a) && At(r.forest, a).labels == e.labels && At(r.forest, a).id == nodeId
  {
    if nodeId in Ids(s.forest) then
      var a := FirstAddr(s.forest, nodeId);
      ReplaceAt(s.forest, a, At(s.forest, a).(labels := e.labels));
      UpdateLabels(s, nodeId, e.labels)
    else UpdateLabels(s, nodeId, e.labels)
  }

  /** Saving touches only the node the id first names: the forest keeps its
      shape, that node keeps its other fields and children, and every other
      node keeps its id, name, type and labels. */
  lemma SaveOnlyThatNode(e: Form, s: Session, nodeId: string, b: Addr)
    requires nodeId in Ids(s.forest)
    ensures var a := FirstAddr(s.forest, nodeId); var r := SaveLabels(e, s, nodeId).forest;
      && (ValidAddr(r, b) <==> ValidAddr(s.forest, b))
      && ValidAddr(r, a)
      && HeadOf(At(r, a)) == HeadOf(At(s.forest, a)).(labels := e.labels)
      && At(r, a).children == At(s.forest, a).children
      && (ValidAddr(s.forest, b) && b != a ==> HeadOf(At(r, b)) == HeadOf(At(s.forest, b)))
  {
    UpdateLabelsOnlyThatNode(s, nodeId, e.labels, b);
  }
}
