/** The session commands of the tree manager hook. A session is the forest
    plus the selected id; each command reads the forest, transforms it with
    the tree operations and writes the result back. */
module TreeManager {
  import opened Wrappers
  import opened Seqs
  import opened Tree
  import opened TreeOps

  datatype Session = Session(forest: Forest, selectedId: Option<string>)

  predicate IsKind(n: Option<Node>, k: NodeType)
  {
    n.Some? && n.value.kind == k
  }

  // ---------------------------------------------------------------------
  // Selection

  /** `selectedNode`: the first node with the selected id, when the id is truthy. */
  function SelectedNode(s: Session): (r: Option<Node>)
    ensures r.Some? <==> Truthy(s.selectedId) && s.selectedId.value in Ids(s.forest)
    ensures r.Some? ==> r.value.id == s.selectedId.value
    ensures r.Some? ==> r.value == At(s.forest, FirstAddr(s.forest, s.selectedId.value))
  {
    if Truthy(s.selectedId) then FindNodeById(s.forest, s.selectedId.value) else None
  }

  datatype Boot = Boot(selectedId: Option<string>, didInit: bool)

  /** The first-load effect: once, on the first non-empty forest, keep the stored
      selection if it resolves to a node and otherwise select the first root. */
  function InitialSelection(forest: Forest, stored: Option<string>, didInit: bool): (r: Boot)
    ensures didInit || forest == [] ==> r == Boot(stored, didInit)
    ensures !didInit && forest != [] ==>
      && r.didInit
      && r.selectedId.Some? && r.selectedId.value in Ids(forest)
      && (Truthy(stored) && stored.value in Ids(forest) ==> r.selectedId == stored)
      && (!(Truthy(stored) && stored.value in Ids(forest)) ==> r.selectedId == Some(forest[0].id))
  {
    if didInit || forest == [] then Boot(stored, didInit)
    else
      IdsOfElement(forest, 0);
      var target := if Truthy(stored) && FindNodeById(forest, stored.value).Some? then stored.value else forest[0].id;
      Boot(Some(target), true)
  }

  // ---------------------------------------------------------------------
  // handleMove

  /** The guard of `handleMove`: no drop into an asset, and no asset dropped at the root. */
  predicate MoveBlocked(f: Forest, dragIds: seq<string>, parentId: Option<string>)
  {
    || (Truthy(parentId) && IsKind(FindNodeById(f, parentId.value), Asset))
    || (parentId.None? && exists i :: 0 <= i < |dragIds| && IsKind(FindNodeById(f, dragIds[i]), Asset))
  }

  /** `handleMove`: unless the guard refuses it, the dragged nodes are taken out
      and inserted as one block under the destination, and the first dragged id
      becomes the selection. */
  function Move(s: Session, dragIds: seq<string>, parentId: Option<string>, index: int): (r: Session)
    ensures MoveBlocked(s.forest, dragIds, parentId) ==> r == s
    ensures !MoveBlocked(s.forest, dragIds, parentId) ==>
      r.selectedId == if |dragIds| > 0 then Some(dragIds[0]) else s.selectedId
    ensures !MoveBlocked(s.forest, dragIds, parentId) ==>
      forall x :: x in Ids(r.forest) ==> x in Ids(s.forest)
  {
    if MoveBlocked(s.forest, dragIds, parentId) then s
    else
      var removal := RemoveNodesById(s.forest, dragIds);
      var forest := InsertNodes(removal.updatedTree, removal.removedNodes, parentId, index);
      InsertConserves(removal.updatedTree, removal.removedNodes, parentId, index);
      RemoveIds(s.forest, dragIds);
      MoveIds(forest, removal.updatedTree, removal.removedNodes, parentId.None? || parentId.value in Ids(removal.updatedTree));
      Session(forest, if |dragIds| > 0 then Some(dragIds[0]) else s.selectedId)
  }

  /** A permitted move loses nothing when the destination is the root list or
      a parent that survives the removal: the forest's pre-order heads are kept. */
  lemma MoveConserves(s: Session, dragIds: seq<string>, parentId: Option<string>, index: int)
    requires !MoveBlocked(s.forest, dragIds, parentId)
    requires parentId.None? || parentId.value in Ids(RemoveNodesById(s.forest, dragIds).updatedTree)
    ensures multiset(Preorder(Move(s, dragIds, parentId, index).forest)) == multiset(Preorder(s.forest))
  {
    var removal := RemoveNodesById(s.forest, dragIds);
    RemoveConserves(s.forest, dragIds);
    MergeMultiset(Preorder(s.forest), Preorder(removal.updatedTree), Preorder(removal.removedNodes));
    InsertConserves(removal.updatedTree, removal.removedNodes, parentId, index);
  }

  /** A permitted move to the root list puts the taken-out nodes, in the order
      they were met, as one block of roots at the clamped index; the remaining
      roots keep their order around it. */
  lemma MoveToRootBlock(s: Session, dragIds: seq<string>, index: int)
    requires !MoveBlocked(s.forest, dragIds, None)
    ensures var removal := RemoveNodesById(s.forest, dragIds);
      var r := Move(s, dragIds, None, index).forest;
      var k := SpliceIndex(|removal.updatedTree|, index);
      && |r| == |removal.updatedTree| + |removal.removedNodes|
      && r[k..k + |removal.removedNodes|] == removal.removedNodes
      && r[..k] + r[k + |removal.removedNodes|..] == removal.updatedTree
  {
    var removal := RemoveNodesById(s.forest, dragIds);
    var k := SpliceIndex(|removal.updatedTree|, index);
    assert removal.updatedTree == removal.updatedTree[..k] + removal.updatedTree[k..];
  }

  /** With unique ids, the guard's promise for root moves: no asset becomes a root. */
  lemma MoveToRootNoAsset(s: Session, dragIds: seq<string>, index: int)
    requires !MoveBlocked(s.forest, dragIds, None) && UniqueIds(s.forest)
    ensures var removal := RemoveNodesById(s.forest, dragIds);
      forall j :: 0 <= j < |removal.removedNodes| ==> removal.removedNodes[j].kind != Asset
  {
    var removal := RemoveNodesById(s.forest, dragIds);
    forall j | 0 <= j < |removal.removedNodes|
      ensures removal.removedNodes[j].kind != Asset
    {
      RemovedAreOutermost(s.forest, dragIds, j);
      var a :| Outermost(s.forest, dragIds, a) && At(s.forest, a) == removal.removedNodes[j];
      UniqueFirst(s.forest, a);
      var i :| 0 <= i < |dragIds| && dragIds[i] == At(s.forest, a).id;
      assert FindNodeById(s.forest, dragIds[i]) == Some(At(s.forest, a));
    }
  }

  /** A permitted move into a parent that survives the removal puts the block
      into that parent's children at the clamped index. The parent's other
      children keep their order around the block, and the rest of the forest
      is what the removal left. */
  lemma MoveIntoParent(s: Session, dragIds: seq<string>, p: string, index: int)
    requires !MoveBlocked(s.forest, dragIds, Some(p))
    requires p in Ids(RemoveNodesById(s.forest, dragIds).updatedTree)
    ensures var removal := RemoveNodesById(s.forest, dragIds);
      var a := FirstAddr(removal.updatedTree, p);
      var r := Move(s, dragIds, Some(p), index).forest;
      var k := SpliceIndex(|At(removal.updatedTree, a).children|, index);
      && ValidAddr(r, a)
      && At(r, a).id == p
      && |At(r, a).children| == |At(removal.updatedTree, a).children| + |removal.removedNodes|
      && At(r, a).children[k..k + |removal.removedNodes|] == removal.removedNodes
      && At(r, a).children[..k] + At(r, a).children[k + |removal.removedNodes|..] == At(removal.updatedTree, a).children
      && HeadOf(At(r, a)) == HeadOf(At(removal.updatedTree, a))
      && r == Replace(removal.updatedTree, a, SpliceChildren(At(removal.updatedTree, a), index, removal.removedNodes))
  {
    var removal := RemoveNodesById(s.forest, dragIds);
    InsertPlacesBlock(removal.updatedTree, removal.removedNodes, p, index);
  }

  /** A permitted move whose destination parent did not survive the removal
      drops the dragged nodes: the forest is what the removal left. */
  lemma MoveDrops(s: Session, dragIds: seq<string>, p: string, index: int)
    requires !MoveBlocked(s.forest, dragIds, Some(p))
    requires p !in Ids(RemoveNodesById(s.forest, dragIds).updatedTree)
    ensures var removal := RemoveNodesById(s.forest, dragIds);
      var r := Move(s, dragIds, Some(p), index).forest;
      && r == removal.updatedTree
      && multiset(Preorder(r)) + multiset(Preorder(removal.removedNodes)) == multiset(Preorder(s.forest))
  {
    var removal := RemoveNodesById(s.forest, dragIds);
    RemoveConserves(s.forest, dragIds);
    MergeMultiset(Preorder(s.forest), Preorder(removal.updatedTree), Preorder(removal.removedNodes));
  }

  /** With unique ids, dropping dragged nodes into one of their own descendants
      drops them all. */
  lemma MoveIntoOwnDescendant(s: Session, dragIds: seq<string>, p: string, index: int)
    requires !MoveBlocked(s.forest, dragIds, Some(p)) && UniqueIds(s.forest)
    requires p in Ids(RemoveNodesById(s.forest, dragIds).removedNodes)
    ensures Move(s, dragIds, Some(p), index).forest == RemoveNodesById(s.forest, dragIds).updatedTree
  {
    RemoveDisjoint(s.forest, dragIds);
    MoveDrops(s, dragIds, p, index);
  }

  /** An illustration of `MoveIntoOwnDescendant` on one small forest: dropping a
      root folder into its own child loses both, and the moved id stays selected. */
  lemma MoveIntoChildExample()
    ensures var child := Node("b", "B", Folder, [], []);
      var s := Session([Node("a", "A", Folder, [], [child])], None);
      Move(s, ["a"], Some("b"), 0) == Session([], Some("a"))
  {
    var child := Node("b", "B", Folder, [], []);
    var f := [Node("a", "A", Folder, [], [child])];
    assert FindNodeById(f, "b") == Some(child) by {
      assert f[0].children[0..] == f[0].children;
    }
    assert RemoveNodes(f, ["a"]) == Removal([], f);
  }

  // ---------------------------------------------------------------------
  // handleDelete

  /** `handleDelete`: with no ids nothing happens; otherwise `deleteNodesById`. */
  function Delete(s: Session, ids: seq<string>): (r: Session)
    ensures ids == [] ==> r == s
    ensures r.selectedId == s.selectedId
    ensures forall x :: x in ids ==> x !in Ids(r.forest)
    ensures Ids(r.forest) <= Ids(s.forest)
    ensures Pruned(r.forest, s.forest)
  {
    if |ids| > 0 then Session(DeleteNodesById(s.forest, ids), s.selectedId)
    else
      PrunedSelf(s.forest);
      s
  }

  /** What `handleDelete` keeps and what it discards interleave to the old forest,
      and what it discards is exactly the outermost listed nodes. */
  lemma DeleteConserves(s: Session, ids: seq<string>)
    requires ids != []
    ensures var gone := RemoveNodesById(s.forest, ids).removedNodes;
      Merge(Preorder(s.forest), Preorder(Delete(s, ids).forest), Preorder(gone))
  {
    DeleteIsRemove(s.forest, ids);
    RemoveConserves(s.forest, ids);
  }

  // ---------------------------------------------------------------------
  // handleCreateFolder

  datatype FolderCreation = FolderCreation(session: Session, newId: Option<string>)

  /** `handleCreateFolder`: only when the selected node is a folder, a new empty
      folder becomes its first child and the new id is returned. */
  function CreateFolder(s: Session, stamp: string): (r: FolderCreation)
    ensures !IsKind(SelectedNode(s), Folder) ==> r == FolderCreation(s, None)
    ensures IsKind(SelectedNode(s), Folder) ==>
      var a := FirstAddr(s.forest, s.selectedId.value);
      var p := At(s.forest, a);
      var folder := CreateFolderNode(stamp, DefaultFolderName);
      && r.newId == Some(folder.id)
      && r.session.selectedId == s.selectedId
      && r.session.forest == Replace(s.forest, a, p.(children := [folder] + p.children))
  {
    if !IsKind(SelectedNode(s), Folder) then FolderCreation(s, None)
    else
      var folder := CreateFolderNode(stamp, DefaultFolderName);
      FolderCreation(Session(AddNodeToParent(s.forest, folder, s.selectedId).tree, s.selectedId), Some(folder.id))
  }

  /** The only thing `handleCreateFolder` adds is the one new folder. */
  lemma CreateFolderAddsOne(s: Session, stamp: string)
    requires IsKind(SelectedNode(s), Folder)
    ensures multiset(Preorder(CreateFolder(s, stamp).session.forest))
      == multiset(Preorder(s.forest)) + multiset{HeadOf(CreateFolderNode(stamp, DefaultFolderName))}
  {
    var folder := CreateFolderNode(stamp, DefaultFolderName);
    PrependConserves(s.forest, FirstAddr(s.forest, s.selectedId.value), folder);
    PreorderSingle(folder);
  }

  // ---------------------------------------------------------------------
  // handleNodeRename, handleUpdateLabels

  function Renamed(newName: string): Node -> Node
  {
    (n: Node) => n.(name := newName)
  }

  function Relabelled(newLabels: seq<Label>): Node -> Node
  {
    (n: Node) => n.(labels := newLabels)
  }

  /** `handleNodeRename`: the first node with the id gets the new name. */
  function Rename(s: Session, nodeId: string, newName: string): (r: Session)
    ensures r.selectedId == s.selectedId
    ensures nodeId !in Ids(s.forest) ==> r == s
    ensures nodeId in Ids(s.forest) ==>
      var a := FirstAddr(s.forest, nodeId);
      r.forest == Replace(s.forest, a, At(s.forest, a).(name := newName))
  {
    Session(TraverseTree(s.forest, nodeId, Renamed(newName)).forest, s.selectedId)
  }

  /** `handleUpdateLabels`: the first node with the id gets the new label list. */
  function UpdateLabels(s: Session, nodeId: string, newLabels: seq<Label>): (r: Session)
    ensures r.selectedId == s.selectedId
    ensures nodeId !in Ids(s.forest) ==> r == s
    ensures nodeId in Ids(s.forest) ==>
      var a := FirstAddr(s.forest, nodeId);
      r.forest == Replace(s.forest, a, At(s.forest, a).(labels := newLabels))
  {
    Session(TraverseTree(s.forest, nodeId, Relabelled(newLabels)).forest, s.selectedId)
  }

  /** A rename changes the name of one node and nothing else: every address
      stays valid, the renamed node keeps everything but its name, and every
      other node keeps its head. */
  lemma RenameOnlyThatNode(s: Session, nodeId: string, newName: string, b: Addr)
    requires nodeId in Ids(s.forest)
    ensures var a := FirstAddr(s.forest, nodeId); var r := Rename(s, nodeId, newName).forest;
      && (ValidAddr(r, b) <==> ValidAddr(s.forest, b))
      && ValidAddr(r, a) && At(r, a).name == newName
      && HeadOf(At(r, a)) == HeadOf(At(s.forest, a)).(name := newName)
      && At(r, a).children == At(s.forest, a).children
      && (ValidAddr(s.forest, b) && b != a ==> HeadOf(At(r, b)) == HeadOf(At(s.forest, b)))
  {
    var a := FirstAddr(s.forest, nodeId);
    var m := At(s.forest, a).(name := newName);
    ReplaceAt(s.forest, a, m);
    ReplaceHeadOnly(s.forest, a, m, b);
  }

  /** A label update changes the labels of one node and nothing else. */
  lemma UpdateLabelsOnlyThatNode(s: Session, nodeId: string, newLabels: seq<Label>, b: Addr)
    requires nodeId in Ids(s.forest)
    ensures var a := FirstAddr(s.forest, nodeId); var r := UpdateLabels(s, nodeId, newLabels).forest;
      && (ValidAddr(r, b) <==> ValidAddr(s.forest, b))
      && ValidAddr(r, a) && At(r, a).labels == newLabels
      && HeadOf(At(r, a)) == HeadOf(At(s.forest, a)).(labels := newLabels)
      && At(r, a).children == At(s.forest, a).children
      && (ValidAddr(s.forest, b) && b != a ==> HeadOf(At(r, b)) == HeadOf(At(s.forest, b)))
  {
    var a := FirstAddr(s.forest, nodeId);
    var m := At(s.forest, a).(labels := newLabels);
    ReplaceAt(s.forest, a, m);
    ReplaceHeadOnly(s.forest, a, m, b);
  }

  // ---------------------------------------------------------------------
  // handleCreateAsset

  datatype DatapointInput = DatapointInput(id: string, name: string)

  /** A datapoint node built from an `{id, name}` input: no labels, no children. */
  function DatapointNode(dp: DatapointInput): (n: Node)
    ensures n.id == dp.id && n.name == dp.name && n.kind == Datapoint && n.labels == [] && n.children == []
  {
    Node(dp.id, dp.name, Datapoint, [], [])
  }

  function DatapointNodes(dps: seq<DatapointInput>): (r: seq<Node>)
    ensures |r| == |dps|
    ensures forall i :: 0 <= i < |dps| ==> r[i] == DatapointNode(dps[i])
  {
    seq(|dps|, i requires 0 <= i < |dps| => DatapointNode(dps[i]))
  }

  /** The asset `handleCreateAsset` builds. The source stamps its id as `asset-`
      followed by the clock; the stamp is a parameter here. */
  function NewAsset(stamp: string, assetName: string, datapoints: seq<DatapointInput>): (n: Node)
    ensures n.kind == Asset && n.name == assetName && n.labels == []
    ensures |n.id| == 6 + |stamp| && n.id[..6] == "asset-" && n.id[6..] == stamp
    ensures |n.children| == |datapoints|
    ensures forall i :: 0 <= i < |datapoints| ==>
      && n.children[i].id == datapoints[i].id && n.children[i].name == datapoints[i].name
      && n.children[i].kind == Datapoint && n.children[i].labels == [] && n.children[i].children == []
  {
    Node("asset-" + stamp, assetName, Asset, [], DatapointNodes(datapoints))
  }

  /** `handleCreateAsset`: the new asset becomes the first child of the first
      node with the parent id; an unknown parent leaves the forest unchanged. */
  function CreateAsset(s: Session, parentId: string, assetName: string, datapoints: seq<DatapointInput>, stamp: string): (r: Session)
    ensures r.selectedId == s.selectedId
    ensures parentId !in Ids(s.forest) ==> r == s
    ensures parentId in Ids(s.forest) ==>
      var a := FirstAddr(s.forest, parentId);
      var p := At(s.forest, a);
      r.forest == Replace(s.forest, a, p.(children := [NewAsset(stamp, assetName, datapoints)] + p.children))
  {
    Session(TraverseTree(s.forest, parentId, PrependChild(NewAsset(stamp, assetName, datapoints))).forest, s.selectedId)
  }

  /** `handleCreateAsset` adds the asset and its datapoints and nothing else. */
  lemma CreateAssetAdds(s: Session, parentId: string, assetName: string, datapoints: seq<DatapointInput>, stamp: string)
    requires parentId in Ids(s.forest)
    ensures var asset := NewAsset(stamp, assetName, datapoints);
      multiset(Preorder(CreateAsset(s, parentId, assetName, datapoints, stamp).forest))
        == multiset(Preorder(s.forest)) + multiset(Preorder([asset]))
  {
    PrependConserves(s.forest, FirstAddr(s.forest, parentId), NewAsset(stamp, assetName, datapoints));
  }

  // ---------------------------------------------------------------------
  // handleManageDatapoints

  /** The position of the first node with id `id`, or -1. */
  function IndexOfId(m: seq<Node>, id: string): (k: int)
    ensures -1 <= k < |m|
    ensures k >= 0 ==> m[k].id == id && forall j :: 0 <= j < k ==> m[j].id != id
    ensures k < 0 ==> forall j :: 0 <= j < |m| ==> m[j].id != id
  {
    if m == [] then -1
    else if m[0].id == id then 0
    else
      var k := IndexOfId(m[1..], id);
      if k < 0 then -1 else k + 1
  }

  /** The ids present in a list of nodes. */
  ghost function IdSet(cs: seq<Node>): set<string>
  {
    set x | x in cs :: x.id
  }

  /** `Map.prototype.set` keyed by node id: an existing key keeps its position
      and takes the new value; a new key goes at the end. */
  function MapSet(m: seq<Node>, c: Node): (r: seq<Node>)
    requires DistinctIds(m)
    ensures DistinctIds(r)
    ensures IdSet(r) == IdSet(m) + {c.id}
    ensures forall x :: x in r ==> x in m || x == c
  {
    var k := IndexOfId(m, c.id);
    if k < 0 then
      assert IdSet(m + [c]) == IdSet(m) + {c.id} by {
        assert forall x :: x in m + [c] <==> x in m || x == c;
      }
      m + [c]
    else
      MapSetAt(m, k, c);
      m[k := c]
  }

  lemma MapSetAt(m: seq<Node>, k: nat, c: Node)
    requires DistinctIds(m) && k < |m| && m[k].id == c.id
    ensures DistinctIds(m[k := c])
    ensures IdSet(m[k := c]) == IdSet(m) + {c.id}
    ensures forall x :: x in m[k := c] ==> x in m || x == c
  {
    var r := m[k := c];
    assert r[k] == c;
    forall x | x in m
      ensures x in r || x.id == c.id
    {
      var j :| 0 <= j < |m| && m[j] == x;
      if j != k {
        assert r[j] == x;
      }
    }
    assert m[k] in m;
  }

  /** The values of `new Map(children.map(c => [c.id, c]))`: one node per id,
      in order of the id's first occurrence, holding its last occurrence. */
  function MapValues(cs: seq<Node>): (r: seq<Node>)
    ensures DistinctIds(r)
    ensures IdSet(r) == IdSet(cs)
    ensures forall x :: x in r ==> x in cs
    decreases |cs|
  {
    if cs == [] then []
    else
      var init := cs[..|cs| - 1];
      assert cs == init + [cs[|cs| - 1]];
      assert IdSet(cs) == IdSet(init) + {cs[|cs| - 1].id} by {
        assert forall x :: x in cs <==> x in init || x == cs[|cs| - 1];
      }
      MapSet(MapValues(init), cs[|cs| - 1])
  }

  lemma DistinctParts(cs: seq<Node>)
    requires DistinctIds(cs) && cs != []
    ensures DistinctIds(cs[..|cs| - 1])
    ensures IndexOfId(cs[..|cs| - 1], cs[|cs| - 1].id) < 0
  {
    var init := cs[..|cs| - 1];
    forall i, j | 0 <= i < j < |init|
      ensures init[i].id != init[j].id
    {
      assert init[i] == cs[i] && init[j] == cs[j];
    }
    forall j | 0 <= j < |init|
      ensures init[j].id != cs[|cs| - 1].id
    {
      assert init[j] == cs[j];
    }
  }

  /** When the ids are already distinct, the map gives back the list itself. */
  lemma {:induction false} MapValuesOfDistinct(cs: seq<Node>)
    requires DistinctIds(cs)
    ensures MapValues(cs) == cs
    decreases |cs|
  {
    if cs != [] {
      var init := cs[..|cs| - 1];
      var last := cs[|cs| - 1];
      DistinctParts(cs);
      MapValuesOfDistinct(init);
      assert MapValues(cs) == MapSet(init, last);
      assert MapSet(init, last) == init + [last];
      assert init + [last] == cs;
    }
  }

  predicate Updated(updates: seq<DatapointInput>, id: string)
  {
    exists u :: u in updates && u.id == id
  }

  /** Whether some update names the child. */
  function NamedBy(updates: seq<DatapointInput>): Node -> bool
  {
    (x: Node) => Updated(updates, x.id)
  }

  /** The existing children that no update names, in their order. */
  function Untouched(cs: seq<Node>, updates: seq<DatapointInput>): (r: seq<Node>)
    ensures forall x :: x in r <==> x in cs && !Updated(updates, x.id)
  {
    Select(cs, NamedBy(updates), false)
  }

  /** The untouched children keep their relative order: with the ones some
      update names they interleave to the whole list. */
  lemma {:induction false} UntouchedInOrder(cs: seq<Node>, updates: seq<DatapointInput>)
    ensures Merge(cs, Untouched(cs, updates), Select(cs, NamedBy(updates), true))
  {
    SelectInOrder(cs, NamedBy(updates));
  }

  /** The upsert applied to an asset: the updates as fresh datapoints, in the
      given order, then the de-duplicated existing children no update names. */
  function Upsert(n: Node, updates: seq<DatapointInput>): (m: Node)
    ensures HeadOf(m) == HeadOf(n)
    ensures |m.children| >= |updates|
    ensures m.children[..|updates|] == DatapointNodes(updates)
    ensures m.children[|updates|..] == Untouched(MapValues(n.children), updates)
  {
    var added := DatapointNodes(updates);
    var kept := Untouched(MapValues(n.children), updates);
    assert (added + kept)[..|updates|] == added && (added + kept)[|updates|..] == kept;
    n.(children := added + kept)
  }

  function UpsertIfAsset(updates: seq<DatapointInput>): Node -> Node
  {
    (n: Node) => if n.kind == Asset then Upsert(n, updates) else n
  }

  /** The argument of `handleManageDatapoints`: a list or a single entry. */
  datatype DatapointArg = Many(items: seq<DatapointInput>) | One(item: DatapointInput)

  function AsList(arg: DatapointArg): (r: seq<DatapointInput>)
    ensures arg.Many? ==> r == arg.items
    ensures arg.One? ==> r == [arg.item]
  {
    match arg
    case Many(items) => items
    case One(item) => [item]
  }

  /** `handleManageDatapoints`: on the first node with the id, when it is an
      asset, the children become the updates followed by the children no update
      names; any other target leaves the forest unchanged. */
  function ManageDatapoints(s: Session, nodeId: string, datapoints: DatapointArg): (r: Session)
    ensures r.selectedId == s.selectedId
    ensures nodeId !in Ids(s.forest) ==> r == s
    ensures nodeId in Ids(s.forest) && At(s.forest, FirstAddr(s.forest, nodeId)).kind != Asset ==> r == s
    ensures nodeId in Ids(s.forest) && At(s.forest, FirstAddr(s.forest, nodeId)).kind == Asset ==>
      var a := FirstAddr(s.forest, nodeId);
      r.forest == Replace(s.forest, a, Upsert(At(s.forest, a), AsList(datapoints)))
  {
    var updates := AsList(datapoints);
    var t := TraverseTree(s.forest, nodeId, UpsertIfAsset(updates));
    if t.found then
      var a := FirstAddr(s.forest, nodeId);
      ReplaceSelf(s.forest, a);
      Session(t.forest, s.selectedId)
    else Session(t.forest, s.selectedId)
  }

  /** With unique ids, the asset's new children are exactly the updates, then its
      old children that no update names, in their old order. */
  lemma ManageDatapointsUnique(s: Session, nodeId: string, datapoints: DatapointArg)
    requires UniqueIds(s.forest) && nodeId in Ids(s.forest)
    requires At(s.forest, FirstAddr(s.forest, nodeId)).kind == Asset
    ensures var a := FirstAddr(s.forest, nodeId); var r := ManageDatapoints(s, nodeId, datapoints).forest;
      var updates := AsList(datapoints);
      && ValidAddr(r, a)
      && HeadOf(At(r, a)) == HeadOf(At(s.forest, a))
      && At(r, a).children == DatapointNodes(updates) + Untouched(At(s.forest, a).children, updates)
  {
    var a := FirstAddr(s.forest, nodeId);
    var n := At(s.forest, a);
    var m := Upsert(n, AsList(datapoints));
    ReplaceAt(s.forest, a, m);
    UniqueBelow(s.forest, a);
    UniqueRoots(n.children);
    MapValuesOfDistinct(n.children);
    assert m.children == m.children[..|AsList(datapoints)|] + m.children[|AsList(datapoints)|..];
  }

  lemma HeadInIds(f: Forest, h: Head)
    requires h in multiset(Preorder(f))
    ensures h.id in Ids(f)
  {
    var j :| 0 <= j < |Preorder(f)| && Preorder(f)[j] == h;
    IdsArePreorderIds(f, h.id);
  }

  lemma IdHasHead(f: Forest, x: string) returns (h: Head)
    requires x in Ids(f)
    ensures h in multiset(Preorder(f)) && h.id == x
  {
    IdsArePreorderIds(f, x);
    var k :| 0 <= k < |Preorder(f)| && Preorder(f)[k].id == x;
    h := Preorder(f)[k];
  }

  lemma MoveIds(r: Forest, u: Forest, m: Forest, inserted: bool)
    requires multiset(Preorder(r)) == multiset(Preorder(u)) + (if inserted then multiset(Preorder(m)) else multiset{})
    ensures Ids(r) <= Ids(u) + Ids(m)
  {
    forall x | x in Ids(r)
      ensures x in Ids(u) + Ids(m)
    {
      var h := IdHasHead(r, x);
      if h in multiset(Preorder(u)) {
        HeadInIds(u, h);
      } else {
        HeadInIds(m, h);
      }
    }
  }
}
