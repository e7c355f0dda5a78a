/** The inherited-labels panel: for a node, the labels of those of its
    ancestors that carry any, nearest root first. */
module ParentLabels {
  import opened Wrappers
  import opened Seqs
  import opened Tree
  import opened TreeOps

  datatype ParentLabel = ParentLabel(id: string, name: string, labels: seq<Label>)

  function LabelOf(n: Node): ParentLabel
  {
    ParentLabel(n.id, n.name, n.labels)
  }

  /** `path.slice(0, -1)`: every entry but the last; nothing from nothing. */
  function DropLast<T>(s: seq<T>): (r: seq<T>)
    ensures |r| == if s == [] then 0 else |s| - 1
    ensures forall i :: 0 <= i < |r| ==> r[i] == s[i]
  {
    if s == [] then [] else s[..|s| - 1]
  }

  /** The node an id first names, when it carries at least one label. */
  ghost predicate Labelled(tree: Forest, id: string)
  {
    id in Ids(tree) && |At(tree, FirstAddr(tree, id)).labels| > 0
  }

  /** The filter and map over the ancestors: an entry is kept when the node
      its id names carries labels, and takes those labels. */
  function Collect(tree: Forest, parents: seq<PathItem>): (r: seq<ParentLabel>)
    ensures |r| <= |parents|
    ensures forall e :: e in r ==>
      && PathItem(e.id, e.name) in parents
      && Labelled(tree, e.id)
      && e.labels == At(tree, FirstAddr(tree, e.id)).labels
    ensures forall p :: p in parents && Labelled(tree, p.id) ==>
      ParentLabel(p.id, p.name, At(tree, FirstAddr(tree, p.id)).labels) in r
  {
    if parents == [] then []
    else
      var rest := Collect(tree, parents[1..]);
      assert forall p :: p in parents[1..] ==> p in parents;
      match FindNodeById(tree, parents[0].id)
      case Some(n) =>
        if |n.labels| > 0 then [ParentLabel(parents[0].id, parents[0].name, n.labels)] + rest else rest
      case None => rest
  }

  /** The `{id, name}` each entry was built from. */
  function Items(r: seq<ParentLabel>): (items: seq<PathItem>)
    ensures |items| == |r| && forall i :: 0 <= i < |r| ==> items[i] == PathItem(r[i].id, r[i].name)
  {
    seq(|r|, i requires 0 <= i < |r| => PathItem(r[i].id, r[i].name))
  }

  /** One step of the filter: the first ancestor is kept exactly when it is labelled. */
  lemma CollectStep(tree: Forest, parents: seq<PathItem>)
    requires parents != []
    ensures var p := parents[0];
      Collect(tree, parents) == if Labelled(tree, p.id)
        then [ParentLabel(p.id, p.name, At(tree, FirstAddr(tree, p.id)).labels)] + Collect(tree, parents[1..])
        else Collect(tree, parents[1..])
  {
  }

  /** An entry of the filter's output comes from position `i` of its input. */
  lemma CollectedFrom(tree: Forest, parents: seq<PathItem>, e: ParentLabel) returns (i: nat)
    requires e in Collect(tree, parents)
    ensures i < |parents| && parents[i] == PathItem(e.id, e.name)
    ensures e.labels == At(tree, FirstAddr(tree, e.id)).labels
  {
    i :| 0 <= i < |parents| && parents[i] == PathItem(e.id, e.name);
  }

  /** The ancestors the filter drops, in order. */
  ghost function Skipped(tree: Forest, parents: seq<PathItem>): seq<PathItem>
  {
    if parents == [] then []
    else if Labelled(tree, parents[0].id) then Skipped(tree, parents[1..])
    else [parents[0]] + Skipped(tree, parents[1..])
  }

  /** The listed entries keep the order of the ancestors they come from: the
      ancestors are an interleaving of the listed and the skipped ones. */
  lemma {:induction false} CollectInOrder(tree: Forest, parents: seq<PathItem>)
    ensures Merge(parents, Items(Collect(tree, parents)), Skipped(tree, parents))
    decreases |parents|
  {
    if parents != [] {
      CollectInOrder(tree, parents[1..]);
      CollectStep(tree, parents);
      var r := Collect(tree, parents);
      var rest := Collect(tree, parents[1..]);
      if Labelled(tree, parents[0].id) {
        assert Items(r)[0] == parents[0] && Items(r)[1..] == Items(rest);
      }
    }
  }

  /** The entries the panel lists for the node with id `nodeId`. */
  function ParentLabelsOf(tree: Forest, nodeId: string): (r: seq<ParentLabel>)
    ensures nodeId !in Ids(tree) ==> r == []
    ensures nodeId in Ids(tree) ==> |r| < |FirstAddr(tree, nodeId)|
    ensures forall e :: e in r ==> Labelled(tree, e.id) && e.labels == At(tree, FirstAddr(tree, e.id)).labels
  {
    Collect(tree, DropLast(FindPathToNode(tree, nodeId)))
  }

  /** With unique ids, every entry the panel lists is a proper ancestor of the
      node, with that ancestor's own name and labels; `k` is its depth. */
  lemma ListedAreAncestors(tree: Forest, nodeId: string, e: ParentLabel) returns (k: nat)
    requires UniqueIds(tree) && nodeId in Ids(tree) && e in ParentLabelsOf(tree, nodeId)
    ensures var a := FirstAddr(tree, nodeId);
      0 < k < |a| && ValidAddr(tree, a[..k]) && e == LabelOf(At(tree, a[..k]))
  {
    var a := FirstAddr(tree, nodeId);
    var p := FindPathToNode(tree, nodeId);
    var i := CollectedFrom(tree, DropLast(p), e);
    PathAlongEntries(tree, a, i);
    UniqueFirst(tree, a[..i + 1]);
    k := i + 1;
  }

  /** With unique ids, every proper ancestor of the node that carries labels is
      listed, with its own name and labels. */
  lemma AncestorsAreListed(tree: Forest, nodeId: string, k: nat)
    requires UniqueIds(tree) && nodeId in Ids(tree) && 0 < k < |FirstAddr(tree, nodeId)|
    ensures var a := FirstAddr(tree, nodeId);
      && ValidAddr(tree, a[..k])
      && (|At(tree, a[..k]).labels| > 0 <==> LabelOf(At(tree, a[..k])) in ParentLabelsOf(tree, nodeId))
  {
    var a := FirstAddr(tree, nodeId);
    var p := FindPathToNode(tree, nodeId);
    var parents := DropLast(p);
    PathAlongEntries(tree, a, k - 1);
    var n := At(tree, a[..k]);
    assert parents[k - 1] == p[k - 1] == ItemOf(n);
    UniqueFirst(tree, a[..k]);
    assert ItemOf(n) in parents;
  }
}
