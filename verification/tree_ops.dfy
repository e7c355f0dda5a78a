/** The pure tree operations library: search, path, filter, removal,
    insertion and the update-first-match primitive, over a forest
    treated as a value (every source operation works on a deep copy). */
module TreeOps {
  import opened Wrappers
  import opened Seqs
  import opened Text
  import opened Tree

  // ---------------------------------------------------------------------
  // traverseTree

  datatype Traversal = Traversal(found: bool, forest: Forest)

  /** `traverseTree`: applies `edit` to the first node, in depth-first pre-order,
      whose id is `id`, and reports whether there was one. */
  function TraverseTree(nodes: Forest, id: string, edit: Node -> Node): (r: Traversal)
    ensures r.found <==> id in Ids(nodes)
    ensures !r.found ==> r.forest == nodes
    ensures r.found ==>
      var a := FirstAddr(nodes, id);
      r.forest == Replace(nodes, a, edit(At(nodes, a)))
    decreases nodes
  {
    if nodes == [] then Traversal(false, nodes)
    else if nodes[0].id == id then
      ReplaceHead(nodes, edit(nodes[0]));
      Traversal(true, [edit(nodes[0])] + nodes[1..])
    else
      var sub := if |nodes[0].children| > 0 then TraverseTree(nodes[0].children, id, edit)
                 else Traversal(false, nodes[0].children);
      if sub.found then
        var a := FirstAddr(nodes[0].children, id);
        ReplaceChild(nodes, a, edit(At(nodes[0].children, a)));
        Traversal(true, [nodes[0].(children := sub.forest)] + nodes[1..])
      else
        var rest := TraverseTree(nodes[1..], id, edit);
        if rest.found then
          var a := FirstAddr(nodes[1..], id);
          ReplaceShift(nodes, a, edit(At(nodes[1..], a)));
          Traversal(true, [nodes[0]] + rest.forest)
        else
          Traversal(false, [nodes[0]] + rest.forest)
  }

  // ---------------------------------------------------------------------
  // findNodeWithParent, findNodeById

  /** A search result: the node, its immediate container (`None` for a root)
      and its position in that container; `index` is -1 when nothing was found. */
  datatype Located = Located(node: Option<Node>, parent: Option<Node>, index: int)

  /** The loop of `findNodeWithParent`'s inner `search`, from position `i` of `nodes`,
      whose container is `parent`. Addresses are relative to `nodes[i..]`. */
  function Search(nodes: Forest, parent: Option<Node>, id: string, i: nat): (r: Located)
    requires i <= |nodes|
    ensures r.node.None? <==> id !in Ids(nodes[i..])
    ensures r.node.None? ==> r == Located(None, None, -1)
    ensures r.node.Some? ==>
      var a := FirstAddr(nodes[i..], id);
      && r.node.value == At(nodes[i..], a)
      && r.index == (if |a| == 1 then a[0] + i else a[|a| - 1])
      && r.parent == (if |a| == 1 then parent else Some(Container(nodes[i..], a)))
    decreases nodes, |nodes| - i
  {
    if i == |nodes| then Located(None, None, -1)
    else
      assert nodes[i..][0] == nodes[i] && nodes[i..][1..] == nodes[i + 1..];
      if nodes[i].id == id then Located(Some(nodes[i]), parent, i)
      else
        var sub := if |nodes[i].children| > 0 then Search(nodes[i].children, Some(nodes[i]), id, 0)
                   else Located(None, None, -1);
        assert nodes[i].children[0..] == nodes[i].children;
        if sub.node.Some? then
          ChildAddr(nodes[i..], FirstAddr(nodes[i].children, id));
          sub
        else
          var r := Search(nodes, parent, id, i + 1);
          if r.node.Some? then
            TailAddr(nodes[i..], FirstAddr(nodes[i + 1..], id));
            r
          else r
  }

  lemma ChildAddr(f: Forest, a: Addr)
    requires f != [] && ValidAddr(f[0].children, a)
    ensures ValidAddr(f, [0] + a) && At(f, [0] + a) == At(f[0].children, a)
    ensures Container(f, [0] + a) == if |a| == 1 then f[0] else Container(f[0].children, a)
  {
    AtChild(f, 0, a);
    assert ([0] + a)[1..] == a;
  }

  lemma TailAddr(f: Forest, a: Addr)
    requires f != [] && ValidAddr(f[1..], a)
    ensures ValidAddr(f, Shift(a)) && At(f, Shift(a)) == At(f[1..], a)
    ensures |a| > 1 ==> Container(f, Shift(a)) == Container(f[1..], a)
  {
    AtShift(f, a);
    assert Shift(a)[1..] == a[1..];
    assert f[1..][a[0]] == f[a[0] + 1];
  }

  /** `findNodeWithParent`: the first node in depth-first pre-order with id `id`,
      its immediate container (`None` for a root) and its index there;
      `(None, None, -1)` when no node has the id. */
  function FindNodeWithParent(nodes: Forest, id: string): (r: Located)
    ensures id !in Ids(nodes) ==> r == Located(None, None, -1)
    ensures id in Ids(nodes) ==>
      var a := FirstAddr(nodes, id);
      && r.node == Some(At(nodes, a))
      && r.index == a[|a| - 1]
      && r.parent == (if |a| == 1 then None else Some(Container(nodes, a)))
  {
    assert nodes[0..] == nodes;
    Search(nodes, None, id, 0)
  }

  /** `findNodeById`: the first node in depth-first pre-order with id `id`, if any. */
  function FindNodeById(nodes: Forest, id: string): (r: Option<Node>)
    ensures r.Some? <==> id in Ids(nodes)
    ensures r.Some? ==> r.value == At(nodes, FirstAddr(nodes, id))
  {
    FindNodeWithParent(nodes, id).node
  }

  // ---------------------------------------------------------------------
  // findPathToNode

  datatype PathItem = PathItem(id: string, name: string)

  function ItemOf(n: Node): PathItem
  {
    PathItem(n.id, n.name)
  }

  /** The `{id, name}` of every node along an address, root first, addressed node last. */
  ghost function PathAlong(f: Forest, a: Addr): (p: seq<PathItem>)
    requires ValidAddr(f, a)
    ensures |p| == |a|
    decreases |a|
  {
    [ItemOf(f[a[0]])] + (if |a| == 1 then [] else PathAlong(f[a[0]].children, a[1..]))
  }

  /** The recursive `findPath` of `findPathToNode`, with the path walked so far. */
  function FindPath(nodes: Forest, id: string, current: seq<PathItem>): (r: Option<seq<PathItem>>)
    ensures r.None? <==> id !in Ids(nodes)
    ensures r.Some? ==> r.value == current + PathAlong(nodes, FirstAddr(nodes, id))
    decreases nodes
  {
    if nodes == [] then None
    else
      var item := ItemOf(nodes[0]);
      if nodes[0].id == id then
        Some(current + [item])
      else
        var sub := if |nodes[0].children| > 0 then FindPath(nodes[0].children, id, current + [item]) else None;
        if sub.Some? then
          ReplaceChild(nodes, FirstAddr(nodes[0].children, id), nodes[0]);
          assert ([0] + FirstAddr(nodes[0].children, id))[1..] == FirstAddr(nodes[0].children, id);
          sub
        else
          var rest := FindPath(nodes[1..], id, current);
          if rest.Some? then
            var a := FirstAddr(nodes[1..], id);
            ReplaceShift(nodes, a, nodes[0]);
            PathAlongShift(nodes, a);
            rest
          else rest
  }

  lemma PathAlongShift(f: Forest, a: Addr)
    requires f != [] && ValidAddr(f[1..], a)
    ensures ValidAddr(f, Shift(a)) && PathAlong(f, Shift(a)) == PathAlong(f[1..], a)
  {
    AtShift(f, a);
    assert Shift(a)[1..] == a[1..];
    assert f[1..][a[0]] == f[a[0] + 1];
  }

  /** `findPathToNode`: the `{id, name}` pairs from a root down to the first node
      (in depth-first pre-order) with id `nodeId`, that node included; empty when
      no node has the id. */
  function FindPathToNode(tree: Forest, nodeId: string): (r: seq<PathItem>)
    ensures r == [] <==> nodeId !in Ids(tree)
    ensures nodeId in Ids(tree) ==> r == PathAlong(tree, FirstAddr(tree, nodeId))
  {
    match FindPath(tree, nodeId, [])
    case Some(p) => p
    case None => []
  }

  /** Each entry of a path is the node at the matching prefix of the address. */
  lemma {:induction false} PathAlongEntries(f: Forest, a: Addr, k: nat)
    requires ValidAddr(f, a) && k < |a|
    ensures ValidAddr(f, a[..k + 1]) && PathAlong(f, a)[k] == ItemOf(At(f, a[..k + 1]))
    decreases |a|
  {
    if k == 0 {
      assert a[..1] == [a[0]];
    } else {
      PathAlongEntries(f[a[0]].children, a[1..], k - 1);
      assert a[1..][..k] == a[..k + 1][1..];
    }
  }

  lemma PathEntry(f: Forest, a: Addr, k: nat)
    requires ValidAddr(f, a) && k + 1 < |a|
    ensures ValidAddr(f, a[..k + 2]) && PathAlong(f, a)[k] == ItemOf(Container(f, a[..k + 2]))
  {
    PathAlongEntries(f, a, k);
    AtPrefixStep(f, a, k + 1);
    ContainerIsPrefix(f, a[..k + 2]);
    assert a[..k + 2][..k + 1] == a[..k + 1];
  }

  /** A path along an address ends at the addressed node, and each entry is
      the immediate container of the next one. */
  lemma {:induction false} PathAlongShape(f: Forest, a: Addr)
    requires ValidAddr(f, a)
    ensures PathAlong(f, a)[|a| - 1] == ItemOf(At(f, a))
    ensures forall k :: 0 < k <= |a| ==> ValidAddr(f, a[..k]) && PathAlong(f, a)[k - 1] == ItemOf(At(f, a[..k]))
    ensures forall k :: 1 < k <= |a| ==> ValidAddr(f, a[..k]) && PathAlong(f, a)[k - 2] == ItemOf(Container(f, a[..k]))
  {
    forall k | 0 < k <= |a|
      ensures ValidAddr(f, a[..k]) && PathAlong(f, a)[k - 1] == ItemOf(At(f, a[..k]))
    {
      PathAlongEntries(f, a, k - 1);
    }
    forall k | 1 < k <= |a|
      ensures ValidAddr(f, a[..k]) && PathAlong(f, a)[k - 2] == ItemOf(Container(f, a[..k]))
    {
      PathEntry(f, a, k - 2);
    }
    assert a[..|a|] == a;
  }

  /** The path to a nested node is its parent's path with the node appended. */
  lemma {:induction false} PathAlongSnoc(f: Forest, a: Addr)
    requires ValidAddr(f, a) && |a| > 1
    ensures ValidAddr(f, a[..|a| - 1])
    ensures PathAlong(f, a) == PathAlong(f, a[..|a| - 1]) + [ItemOf(At(f, a))]
    decreases |a|
  {
    AtPrefixStep(f, a, |a| - 1);
    var c := f[a[0]].children;
    if |a| == 2 {
      assert a[..1] == [a[0]];
      assert a[1..] == [a[1]];
    } else {
      PathAlongSnoc(c, a[1..]);
      assert a[1..][..|a| - 2] == a[..|a| - 1][1..];
    }
  }

  /** `findPathToNode` runs from a root to the node it was asked for, and each
      entry is the immediate container of the next one. */
  lemma PathToNodeShape(tree: Forest, nodeId: string, a: Addr)
    requires IsFirst(tree, nodeId, a)
    ensures |FindPathToNode(tree, nodeId)| == |a|
    ensures FindPathToNode(tree, nodeId)[|a| - 1].id == nodeId
    ensures FindPathToNode(tree, nodeId)[0] == ItemOf(tree[a[0]])
    ensures forall k :: 1 < k <= |a| ==>
      ValidAddr(tree, a[..k]) && FindPathToNode(tree, nodeId)[k - 2] == ItemOf(Container(tree, a[..k]))
  {
    FirstUnique(tree, nodeId, a);
    PathAlongShape(tree, a);
  }

  // ---------------------------------------------------------------------
  // filterTree

  predicate LabelMatches(l: Label, q: string)
  {
    Includes(Lower(l.key), q) || Includes(Lower(l.value), q)
  }

  /** A node matches a lower-cased query when its lower-cased name, or the
      lower-cased key or value of one of its labels, contains the query. */
  predicate Matches(n: Node, q: string)
  {
    Includes(Lower(n.name), q) || exists i :: 0 <= i < |n.labels| && LabelMatches(n.labels[i], q)
  }

  /** `r` is `f` with some nodes left out: what is kept stays in order, keeps
      its head (id, name, type, labels) and has pruned children. */
  ghost predicate Pruned(r: Forest, f: Forest)
    decreases f
  {
    if r == [] then true
    else if f == [] then false
    else
      || (HeadOf(r[0]) == HeadOf(f[0]) && Pruned(r[0].children, f[0].children) && Pruned(r[1..], f[1..]))
      || Pruned(r, f[1..])
  }

  /** Leaving nothing out is a pruning. */
  lemma {:induction false} PrunedSelf(f: Forest)
    ensures Pruned(f, f)
    decreases f
  {
    if f != [] {
      PrunedSelf(f[0].children);
      PrunedSelf(f[1..]);
    }
  }

  /** Every node of `r` matches the query or still has children to lead to a match. */
  ghost predicate Justified(r: Forest, q: string)
  {
    r != [] ==>
      && (Matches(r[0], q) || r[0].children != [])
      && Justified(r[0].children, q)
      && Justified(r[1..], q)
  }

  /** The `recurse` of `filterTree`, with the query already lower-cased. */
  function FilterNodes(f: Forest, q: string): (r: Forest)
    ensures Pruned(r, f)
    ensures Justified(r, q)
    ensures |r| <= |f|
    decreases f
  {
    if f == [] then []
    else
      var kids := FilterNodes(f[0].children, q);
      var rest := FilterNodes(f[1..], q);
      if Matches(f[0], q) || |kids| > 0 then
        assert ([f[0].(children := kids)] + rest)[1..] == rest;
        [f[0].(children := kids)] + rest
      else rest
  }

  /** `filterTree`: a blank query leaves the tree alone; otherwise only the nodes
      that match the lower-cased query, and their ancestors, are kept. */
  function FilterTree(treeData: Forest, query: string): (r: Forest)
    ensures IsBlank(query) ==> r == treeData
    ensures !IsBlank(query) ==> Pruned(r, treeData) && Justified(r, Lower(query))
  {
    if IsBlank(query) then treeData else FilterNodes(treeData, Lower(query))
  }

  lemma HeadsAlongShift(x: Node, f: Forest, a: Addr)
    requires ValidAddr(f, a)
    ensures ValidAddr([x] + f, Shift(a)) && HeadsAlong([x] + f, Shift(a)) == HeadsAlong(f, a)
  {
    AtShift([x] + f, a);
    assert ([x] + f)[1..] == f;
    assert Shift(a)[1..] == a[1..];
  }

  lemma HeadsAlongChild(f: Forest, a: Addr)
    requires f != [] && ValidAddr(f[0].children, a)
    ensures ValidAddr(f, [0] + a) && HeadsAlong(f, [0] + a) == [HeadOf(f[0])] + HeadsAlong(f[0].children, a)
  {
    AtChild(f, 0, a);
    assert ([0] + a)[1..] == a;
  }

  lemma FilterTailWitness(f: Forest, q: string, b': Addr) returns (b: Addr)
    requires f != [] && ValidAddr(FilterNodes(f[1..], q), b')
    ensures ValidAddr(FilterNodes(f, q), b) && HeadsAlong(FilterNodes(f, q), b) == HeadsAlong(FilterNodes(f[1..], q), b')
  {
    var kids := FilterNodes(f[0].children, q);
    var rest := FilterNodes(f[1..], q);
    if Matches(f[0], q) || |kids| > 0 {
      HeadsAlongShift(f[0].(children := kids), rest, b');
      assert FilterNodes(f, q) == [f[0].(children := kids)] + rest;
      b := Shift(b');
    } else {
      assert FilterNodes(f, q) == rest;
      b := b';
    }
  }

  lemma FilterChildWitness(f: Forest, q: string, b': Addr)
    requires f != [] && ValidAddr(FilterNodes(f[0].children, q), b')
    ensures ValidAddr(FilterNodes(f, q), [0] + b')
    ensures HeadsAlong(FilterNodes(f, q), [0] + b') == [HeadOf(f[0])] + HeadsAlong(FilterNodes(f[0].children, q), b')
  {
    HeadsAlongChild(FilterNodes(f, q), b');
  }

  /** Completeness of the filter: every matching node survives, at the end of
      a path whose nodes have the same heads as the path to it in the input. */
  lemma {:induction false} FilterKeepsMatches(f: Forest, q: string, a: Addr) returns (b: Addr)
    requires ValidAddr(f, a) && Matches(At(f, a), q)
    ensures ValidAddr(FilterNodes(f, q), b) && HeadsAlong(FilterNodes(f, q), b) == HeadsAlong(f, a)
    decreases f
  {
    if a[0] > 0 {
      var a' := [a[0] - 1] + a[1..];
      assert Shift(a') == a;
      AtShift(f, a');
      HeadsAlongShift(f[0], f[1..], a');
      assert [f[0]] + f[1..] == f;
      var b' := FilterKeepsMatches(f[1..], q, a');
      b := FilterTailWitness(f, q, b');
    } else if |a| == 1 {
      b := [0];
      assert HeadsAlong(FilterNodes(f, q), b) == HeadsAlong(f, a);
    } else {
      AtChild(f, 0, a[1..]);
      assert [0] + a[1..] == a;
      HeadsAlongChild(f, a[1..]);
      var b' := FilterKeepsMatches(f[0].children, q, a[1..]);
      FilterChildWitness(f, q, b');
      b := [0] + b';
    }
  }

  /** `filterTree` keeps every node whose lower-cased name or label contains the
      lower-cased query, with the heads of all its ancestors. */
  lemma FilterTreeKeepsMatches(treeData: Forest, query: string, a: Addr)
    requires ValidAddr(treeData, a) && Matches(At(treeData, a), Lower(query))
    ensures exists b :: ValidAddr(FilterTree(treeData, query), b) && HeadsAlong(FilterTree(treeData, query), b) == HeadsAlong(treeData, a)
  {
    if !IsBlank(query) {
      var b := FilterKeepsMatches(treeData, Lower(query), a);
      assert FilterTree(treeData, query) == FilterNodes(treeData, Lower(query));
    } else {
      assert HeadsAlong(FilterTree(treeData, query), a) == HeadsAlong(treeData, a);
    }
  }

  /** Filtering a filtered forest again with the same query changes nothing. */
  lemma {:induction false} FilterIdempotent(f: Forest, q: string)
    ensures FilterNodes(FilterNodes(f, q), q) == FilterNodes(f, q)
    decreases f
  {
    if f != [] {
      var kids := FilterNodes(f[0].children, q);
      var rest := FilterNodes(f[1..], q);
      FilterIdempotent(f[0].children, q);
      FilterIdempotent(f[1..], q);
      if Matches(f[0], q) || |kids| > 0 {
        var r := [f[0].(children := kids)] + rest;
        assert r[0] == f[0].(children := kids) && r[1..] == rest;
        assert Matches(r[0], q) == Matches(f[0], q);
      }
    }
  }

  // ---------------------------------------------------------------------
  // removeNodesById, deleteNodesById

  datatype Removal = Removal(updatedTree: Forest, removedNodes: Forest)

  /** The recursive `removeNodes` of `removeNodesById`: a listed node is taken out
      whole, with its subtree unexamined; the others keep their place and are
      searched below. Taken-out nodes are collected in the order they are met. */
  function RemoveNodes(f: Forest, ids: seq<string>): (r: Removal)
    ensures forall x :: x in Ids(r.updatedTree) ==> x in Ids(f) && x !in ids
    ensures Pruned(r.updatedTree, f)
    ensures forall i :: 0 <= i < |r.removedNodes| ==> r.removedNodes[i].id in ids
    decreases f
  {
    if f == [] then Removal([], [])
    else
      var rest := RemoveNodes(f[1..], ids);
      if f[0].id in ids then
        Removal(rest.updatedTree, [f[0]] + rest.removedNodes)
      else
        var kids := RemoveNodes(f[0].children, ids);
        var u := [f[0].(children := kids.updatedTree)] + rest.updatedTree;
        assert u[1..] == rest.updatedTree;
        Removal(u, kids.removedNodes + rest.removedNodes)
  }

  /** `removeNodesById`. */
  function RemoveNodesById(tree: Forest, idsToRemove: seq<string>): (r: Removal)
    ensures forall x :: x in idsToRemove ==> x !in Ids(r.updatedTree)
    ensures Ids(r.updatedTree) <= Ids(tree)
    ensures Pruned(r.updatedTree, tree)
    ensures forall i :: 0 <= i < |r.removedNodes| ==> r.removedNodes[i].id in idsToRemove
  {
    RemoveNodes(tree, idsToRemove)
  }

  lemma RemoveTailWitness(f: Forest, ids: seq<string>, b': Addr) returns (b: Addr)
    requires f != [] && ValidAddr(RemoveNodes(f[1..], ids).updatedTree, b')
    ensures ValidAddr(RemoveNodes(f, ids).updatedTree, b)
    ensures HeadsAlong(RemoveNodes(f, ids).updatedTree, b) == HeadsAlong(RemoveNodes(f[1..], ids).updatedTree, b')
  {
    var rest := RemoveNodes(f[1..], ids);
    if f[0].id in ids {
      b := b';
    } else {
      var n := f[0].(children := RemoveNodes(f[0].children, ids).updatedTree);
      HeadsAlongShift(n, rest.updatedTree, b');
      b := Shift(b');
    }
  }

  lemma RemoveChildWitness(f: Forest, ids: seq<string>, b': Addr) returns (b: Addr)
    requires f != [] && f[0].id !in ids && ValidAddr(RemoveNodes(f[0].children, ids).updatedTree, b')
    ensures ValidAddr(RemoveNodes(f, ids).updatedTree, b)
    ensures HeadsAlong(RemoveNodes(f, ids).updatedTree, b) == [HeadOf(f[0])] + HeadsAlong(RemoveNodes(f[0].children, ids).updatedTree, b')
  {
    HeadsAlongChild(RemoveNodes(f, ids).updatedTree, b');
    b := [0] + b';
  }

  /** Removal keeps the survivors where they were: a node with no listed id on
      its path from the root is still there, at the end of a path whose nodes
      have the same heads as the path to it in the input. */
  lemma {:induction false} RemoveKeepsUnlisted(f: Forest, ids: seq<string>, a: Addr) returns (b: Addr)
    requires ValidAddr(f, a)
    requires forall k :: 0 <= k < |a| ==> HeadsAlong(f, a)[k].id !in ids
    ensures ValidAddr(RemoveNodes(f, ids).updatedTree, b)
    ensures HeadsAlong(RemoveNodes(f, ids).updatedTree, b) == HeadsAlong(f, a)
    decreases f
  {
    if a[0] > 0 {
      var a' := [a[0] - 1] + a[1..];
      assert Shift(a') == a;
      AtShift(f, a');
      HeadsAlongShift(f[0], f[1..], a');
      assert [f[0]] + f[1..] == f;
      var b' := RemoveKeepsUnlisted(f[1..], ids, a');
      b := RemoveTailWitness(f, ids, b');
    } else if |a| == 1 {
      assert HeadsAlong(f, a) == [HeadOf(f[0])];
      b := [0];
    } else {
      assert HeadsAlong(f, a)[0] == HeadOf(f[0]);
      AtChild(f, 0, a[1..]);
      assert [0] + a[1..] == a;
      HeadsAlongChild(f, a[1..]);
      var hs := HeadsAlong(f[0].children, a[1..]);
      forall k | 0 <= k < |a[1..]|
        ensures hs[k].id !in ids
      {
        assert hs[k] == HeadsAlong(f, a)[k + 1];
      }
      var b' := RemoveKeepsUnlisted(f[0].children, ids, a[1..]);
      b := RemoveChildWitness(f, ids, b');
    }
  }

  /** Removal loses and invents nothing: the pre-order listing of the input is
      an interleaving of what is kept and what is taken out, each in its order. */
  lemma {:induction false} RemoveConserves(f: Forest, ids: seq<string>)
    ensures var r := RemoveNodes(f, ids);
      Merge(Preorder(f), Preorder(r.updatedTree), Preorder(r.removedNodes))
    decreases f
  {
    if f != [] {
      var rest := RemoveNodes(f[1..], ids);
      RemoveConserves(f[1..], ids);
      assert Preorder(f) == Preorder([f[0]]) + Preorder(f[1..]) by {
        PreorderConcat([f[0]], f[1..]);
        assert [f[0]] + f[1..] == f;
      }
      if f[0].id in ids {
        MergeAllRight(Preorder([f[0]]));
        MergeConcat(Preorder([f[0]]), [], Preorder([f[0]]), Preorder(f[1..]), Preorder(rest.updatedTree), Preorder(rest.removedNodes));
        PreorderConcat([f[0]], rest.removedNodes);
        assert [] + Preorder(rest.updatedTree) == Preorder(rest.updatedTree);
      } else {
        var kids := RemoveNodes(f[0].children, ids);
        RemoveConserves(f[0].children, ids);
        var n := f[0].(children := kids.updatedTree);
        var h := [HeadOf(f[0])];
        MergeAllLeft(h);
        MergeConcat(h, h, [], Preorder(f[0].children), Preorder(kids.updatedTree), Preorder(kids.removedNodes));
        PreorderSingle(f[0]);
        PreorderSingle(n);
        assert h + Preorder(kids.updatedTree) == Preorder([n]);
        assert [] + Preorder(kids.removedNodes) == Preorder(kids.removedNodes);
        MergeConcat(Preorder([f[0]]), Preorder([n]), Preorder(kids.removedNodes),
                    Preorder(f[1..]), Preorder(rest.updatedTree), Preorder(rest.removedNodes));
        PreorderConcat([n], rest.updatedTree);
        PreorderConcat(kids.removedNodes, rest.removedNodes);
      }
    }
  }

  /** The ids of the input are the ids kept plus the ids of the taken-out subtrees. */
  lemma {:induction false} RemoveIds(f: Forest, ids: seq<string>)
    ensures var r := RemoveNodes(f, ids);
      Ids(f) == Ids(r.updatedTree) + Ids(r.removedNodes)
    decreases f
  {
    if f != [] {
      var rest := RemoveNodes(f[1..], ids);
      RemoveIds(f[1..], ids);
      if f[0].id in ids {
        IdsConcat([f[0]], rest.removedNodes);
        assert Ids([f[0]]) == {f[0].id} + Ids(f[0].children) by {
          assert [f[0]][1..] == [];
        }
      } else {
        var kids := RemoveNodes(f[0].children, ids);
        RemoveIds(f[0].children, ids);
        IdsConcat(kids.removedNodes, rest.removedNodes);
      }
    }
  }

  /** With unique ids, no id is both kept and taken out. */
  lemma {:induction false} RemoveDisjoint(f: Forest, ids: seq<string>)
    requires UniqueIds(f)
    ensures var r := RemoveNodes(f, ids);
      Ids(r.updatedTree) !! Ids(r.removedNodes)
    decreases f
  {
    if f != [] {
      RemoveDisjoint(f[1..], ids);
      RemoveIds(f[1..], ids);
      if f[0].id in ids {
        RemoveDisjointTaken(f, ids);
      } else {
        RemoveDisjoint(f[0].children, ids);
        RemoveIds(f[0].children, ids);
        RemoveDisjointKept(f, ids);
      }
    }
  }

  lemma RemoveDisjointTaken(f: Forest, ids: seq<string>)
    requires f != [] && UniqueIds(f) && f[0].id in ids
    requires var rest := RemoveNodes(f[1..], ids);
      Ids(rest.updatedTree) !! Ids(rest.removedNodes) && Ids(f[1..]) == Ids(rest.updatedTree) + Ids(rest.removedNodes)
    ensures var r := RemoveNodes(f, ids);
      Ids(r.updatedTree) !! Ids(r.removedNodes)
  {
    var rest := RemoveNodes(f[1..], ids);
    IdsConcat([f[0]], rest.removedNodes);
    assert Ids([f[0]]) == {f[0].id} + Ids(f[0].children) by {
      assert [f[0]][1..] == [];
    }
    DisjointTaken(f[0].id, Ids(f[0].children), Ids(f[1..]), Ids(rest.updatedTree), Ids(rest.removedNodes));
  }

  lemma RemoveDisjointKept(f: Forest, ids: seq<string>)
    requires f != [] && UniqueIds(f) && f[0].id !in ids
    requires var rest := RemoveNodes(f[1..], ids);
      Ids(rest.updatedTree) !! Ids(rest.removedNodes) && Ids(f[1..]) == Ids(rest.updatedTree) + Ids(rest.removedNodes)
    requires var kids := RemoveNodes(f[0].children, ids);
      Ids(kids.updatedTree) !! Ids(kids.removedNodes) && Ids(f[0].children) == Ids(kids.updatedTree) + Ids(kids.removedNodes)
    ensures var r := RemoveNodes(f, ids);
      Ids(r.updatedTree) !! Ids(r.removedNodes)
  {
    var rest := RemoveNodes(f[1..], ids);
    var kids := RemoveNodes(f[0].children, ids);
    var r := RemoveNodes(f, ids);
    assert Ids(r.updatedTree) == {f[0].id} + Ids(kids.updatedTree) + Ids(rest.updatedTree) by {
      var n := f[0].(children := kids.updatedTree);
      assert r.updatedTree == [n] + rest.updatedTree;
      IdsConcat([n], rest.updatedTree);
      assert [n][1..] == [];
    }
    assert Ids(r.removedNodes) == Ids(kids.removedNodes) + Ids(rest.removedNodes) by {
      assert r.removedNodes == kids.removedNodes + rest.removedNodes;
      IdsConcat(kids.removedNodes, rest.removedNodes);
    }
    DisjointKept(f[0].id, Ids(f[0].children), Ids(f[1..]), Ids(kids.updatedTree), Ids(kids.removedNodes),
                 Ids(rest.updatedTree), Ids(rest.removedNodes));
  }


  lemma DisjointTaken(x: string, c: set<string>, t: set<string>, ut: set<string>, rt: set<string>)
    requires x !in c && x !in t && c !! t && ut + rt == t && ut !! rt
    ensures ut !! ({x} + c + rt)
  {
  }

  lemma DisjointKept(x: string, c: set<string>, t: set<string>, uc: set<string>, rc: set<string>, ut: set<string>, rt: set<string>)
    requires x !in c && x !in t && c !! t && uc + rc == c && uc !! rc && ut + rt == t && ut !! rt
    ensures ({x} + uc + ut) !! (rc + rt)
  {
  }

  /** The node at `a` is listed, and none of its ancestors is. */
  ghost predicate Outermost(f: Forest, ids: seq<string>, a: Addr)
  {
    && ValidAddr(f, a)
    && At(f, a).id in ids
    && forall k :: 0 <= k < |a| - 1 ==> HeadsAlong(f, a)[k].id !in ids
  }

  lemma {:induction false} OutermostShift(f: Forest, ids: seq<string>, a: Addr)
    requires f != [] && Outermost(f[1..], ids, a)
    ensures Outermost(f, ids, Shift(a)) && At(f, Shift(a)) == At(f[1..], a)
  {
    AtShift(f, a);
    assert [f[0]] + f[1..] == f;
    HeadsAlongShift(f[0], f[1..], a);
  }

  lemma {:induction false} OutermostChild(f: Forest, ids: seq<string>, a: Addr)
    requires f != [] && f[0].id !in ids && Outermost(f[0].children, ids, a)
    ensures Outermost(f, ids, [0] + a) && At(f, [0] + a) == At(f[0].children, a)
  {
    AtChild(f, 0, a);
    HeadsAlongChild(f, a);
    var hs := HeadsAlong(f, [0] + a);
    var tail := HeadsAlong(f[0].children, a);
    assert hs == [HeadOf(f[0])] + tail;
    assert forall k :: 0 < k < |a| ==> hs[k] == tail[k - 1];
  }

  /** Every taken-out node is a listed node with no listed ancestor. */
  lemma {:induction false} RemovedAreOutermost(f: Forest, ids: seq<string>, i: nat)
    requires i < |RemoveNodes(f, ids).removedNodes|
    ensures exists a :: Outermost(f, ids, a) && At(f, a) == RemoveNodes(f, ids).removedNodes[i]
    decreases f
  {
    var rest := RemoveNodes(f[1..], ids);
    var removed := RemoveNodes(f, ids).removedNodes;
    if f[0].id in ids {
      if i == 0 {
        assert Outermost(f, ids, [0]) && At(f, [0]) == removed[0];
      } else {
        RemovedAreOutermost(f[1..], ids, i - 1);
        var a :| Outermost(f[1..], ids, a) && At(f[1..], a) == rest.removedNodes[i - 1];
        OutermostShift(f, ids, a);
      }
    } else {
      var kids := RemoveNodes(f[0].children, ids);
      if i < |kids.removedNodes| {
        RemovedAreOutermost(f[0].children, ids, i);
        var a :| Outermost(f[0].children, ids, a) && At(f[0].children, a) == kids.removedNodes[i];
        OutermostChild(f, ids, a);
      } else {
        RemovedAreOutermost(f[1..], ids, i - |kids.removedNodes|);
        var a :| Outermost(f[1..], ids, a) && At(f[1..], a) == rest.removedNodes[i - |kids.removedNodes|];
        OutermostShift(f, ids, a);
      }
    }
  }

  /** Every listed node with no listed ancestor is taken out. */
  lemma {:induction false} OutermostAreRemoved(f: Forest, ids: seq<string>, a: Addr)
    requires Outermost(f, ids, a)
    ensures At(f, a) in RemoveNodes(f, ids).removedNodes
    decreases f
  {
    var rest := RemoveNodes(f[1..], ids);
    if a[0] > 0 {
      var a' := [a[0] - 1] + a[1..];
      assert Shift(a') == a;
      AtShift(f, a');
      HeadsAlongShift(f[0], f[1..], a');
      assert [f[0]] + f[1..] == f;
      OutermostAreRemoved(f[1..], ids, a');
    } else if |a| > 1 {
      assert HeadsAlong(f, a)[0] == HeadOf(f[0]);
      assert f[0].id !in ids;
      AtChild(f, 0, a[1..]);
      assert [0] + a[1..] == a;
      HeadsAlongChild(f, a[1..]);
      var hs := HeadsAlong(f[0].children, a[1..]);
      forall k | 0 <= k < |a[1..]| - 1
        ensures hs[k].id !in ids
      {
        assert hs[k] == HeadsAlong(f, a)[k + 1];
      }
      OutermostAreRemoved(f[0].children, ids, a[1..]);
    }
  }

  /** The set-based `removeNodes` of `deleteNodesById`. */
  function DeleteNodes(f: Forest, ids: set<string>): (r: Forest)
    ensures forall x :: x in Ids(r) ==> x in Ids(f) && x !in ids
    ensures Pruned(r, f)
    decreases f
  {
    if f == [] then []
    else if f[0].id in ids then DeleteNodes(f[1..], ids)
    else
      var u := [f[0].(children := DeleteNodes(f[0].children, ids))] + DeleteNodes(f[1..], ids);
      assert u[1..] == DeleteNodes(f[1..], ids);
      u
  }

  /** `deleteNodesById`. */
  function DeleteNodesById(tree: Forest, idsToDelete: seq<string>): (r: Forest)
    ensures forall x :: x in idsToDelete ==> x !in Ids(r)
    ensures Ids(r) <= Ids(tree)
    ensures Pruned(r, tree)
  {
    DeleteNodes(tree, set x | x in idsToDelete)
  }

  /** Deleting through a set of ids leaves exactly the forest that `removeNodesById`
      leaves, without collecting the taken-out nodes. */
  lemma {:induction false} DeleteIsRemove(f: Forest, ids: seq<string>)
    ensures DeleteNodesById(f, ids) == RemoveNodesById(f, ids).updatedTree
    decreases f
  {
    var s := set x | x in ids;
    assert f != [] ==> (f[0].id in s <==> f[0].id in ids);
    if f != [] {
      DeleteIsRemove(f[1..], ids);
      DeleteIsRemove(f[0].children, ids);
    }
  }
  /** `deleteNodesById` keeps every node with no listed id on its path from the
      root, under ancestors with the same heads. */
  lemma DeleteKeepsUnlisted(tree: Forest, idsToDelete: seq<string>, a: Addr) returns (b: Addr)
    requires ValidAddr(tree, a)
    requires forall k :: 0 <= k < |a| ==> HeadsAlong(tree, a)[k].id !in idsToDelete
    ensures ValidAddr(DeleteNodesById(tree, idsToDelete), b)
    ensures HeadsAlong(DeleteNodesById(tree, idsToDelete), b) == HeadsAlong(tree, a)
  {
    DeleteIsRemove(tree, idsToDelete);
    b := RemoveKeepsUnlisted(tree, idsToDelete, a);
  }


  // ---------------------------------------------------------------------
  // insertNodes

  /** Where `Array.prototype.splice` starts for a list of length `len`: a negative
      start counts from the end, and the result is clamped to `[0, len]`. */
  function SpliceIndex(len: nat, start: int): (k: nat)
    ensures k <= len
    ensures 0 <= start <= len ==> k == start
    ensures start > len ==> k == len
    ensures start < 0 ==> k == if len + start < 0 then 0 else len + start
  {
    if start < 0 then (if len + start < 0 then 0 else len + start)
    else if start > len then len
    else start
  }

  /** `s.splice(start, 0, ...items)`: `items` inserted as one block, nothing removed. */
  function Splice<T>(s: seq<T>, start: int, items: seq<T>): (r: seq<T>)
    ensures var k := SpliceIndex(|s|, start);
      && |r| == |s| + |items|
      && r[..k] == s[..k]
      && r[k..k + |items|] == items
      && r[k + |items|..] == s[k..]
  {
    var k := SpliceIndex(|s|, start);
    s[..k] + items + s[k..]
  }

  lemma SpliceMultiset<T>(s: seq<T>, start: int, items: seq<T>)
    ensures multiset(Splice(s, start, items)) == multiset(s) + multiset(items)
  {
    var k := SpliceIndex(|s|, start);
    assert s == s[..k] + s[k..];
    assert Splice(s, start, items) == s[..k] + items + s[k..];
  }

  /** The edit `insertNodes` applies to the parent: the block goes into its children. */
  function SpliceChildren(n: Node, targetIndex: int, nodesToInsert: Forest): (m: Node)
    ensures HeadOf(m) == HeadOf(n)
    ensures |m.children| == |n.children| + |nodesToInsert|
    ensures var k := SpliceIndex(|n.children|, targetIndex);
      && m.children[k..k + |nodesToInsert|] == nodesToInsert
      && m.children[..k] == n.children[..k]
      && m.children[k + |nodesToInsert|..] == n.children[k..]
  {
    n.(children := Splice(n.children, targetIndex, nodesToInsert))
  }

  /** `insertNodes`: with no parent the block is spliced into the roots at
      `targetIndex`; otherwise into the children of the first node with id
      `parentId` (the node `findNodeWithParent` finds); an unknown parent leaves
      the tree unchanged. */
  function InsertNodes(tree: Forest, nodesToInsert: Forest, parentId: Option<string>, targetIndex: int): (r: Forest)
    ensures parentId.None? ==>
      var k := SpliceIndex(|tree|, targetIndex);
      && |r| == |tree| + |nodesToInsert|
      && r[k..k + |nodesToInsert|] == nodesToInsert
      && r[..k] == tree[..k] && r[k + |nodesToInsert|..] == tree[k..]
    ensures parentId.Some? && parentId.value !in Ids(tree) ==> r == tree
    ensures parentId.Some? && parentId.value in Ids(tree) ==>
      var a := FirstAddr(tree, parentId.value);
      && FindNodeWithParent(tree, parentId.value).node == Some(At(tree, a))
      && r == Replace(tree, a, SpliceChildren(At(tree, a), targetIndex, nodesToInsert))
  {
    match parentId
    case None => Splice(tree, targetIndex, nodesToInsert)
    case Some(p) => TraverseTree(tree, p, n => SpliceChildren(n, targetIndex, nodesToInsert)).forest
  }

  /** After an insertion into a known parent, the block sits in that parent's
      children at the clamped index, and the parent keeps its head. */
  lemma InsertPlacesBlock(tree: Forest, nodesToInsert: Forest, parentId: string, targetIndex: int)
    requires parentId in Ids(tree)
    ensures var a := FirstAddr(tree, parentId); var r := InsertNodes(tree, nodesToInsert, Some(parentId), targetIndex);
      var k := SpliceIndex(|At(tree, a).children|, targetIndex);
      && ValidAddr(r, a)
      && At(r, a) == SpliceChildren(At(tree, a), targetIndex, nodesToInsert)
      && HeadOf(At(r, a)) == HeadOf(At(tree, a))
      && At(r, a).children[k..k + |nodesToInsert|] == nodesToInsert
  {
    var a := FirstAddr(tree, parentId);
    ReplaceAt(tree, a, SpliceChildren(At(tree, a), targetIndex, nodesToInsert));
  }

  /** What an insertion adds: exactly the inserted nodes and their subtrees,
      when the parent is found; nothing otherwise. */
  lemma InsertConserves(tree: Forest, nodesToInsert: Forest, parentId: Option<string>, targetIndex: int)
    ensures var r := InsertNodes(tree, nodesToInsert, parentId, targetIndex);
      multiset(Preorder(r)) == multiset(Preorder(tree))
        + (if parentId.None? || parentId.value in Ids(tree) then multiset(Preorder(nodesToInsert)) else multiset{})
  {
    match parentId
    case None =>
      SplicePreorder(tree, targetIndex, nodesToInsert);
    case Some(p) =>
      if p in Ids(tree) {
        InsertIntoParentConserves(tree, nodesToInsert, p, targetIndex);
      }
  }

  lemma InsertIntoParentConserves(tree: Forest, nodesToInsert: Forest, p: string, targetIndex: int)
    requires p in Ids(tree)
    ensures var a := FirstAddr(tree, p);
      var m := SpliceChildren(At(tree, a), targetIndex, nodesToInsert);
      multiset(Preorder(Replace(tree, a, m))) == multiset(Preorder(tree)) + multiset(Preorder(nodesToInsert))
  {
    var a := FirstAddr(tree, p);
    var n := At(tree, a);
    var m := SpliceChildren(n, targetIndex, nodesToInsert);
    ReplacePreorder(tree, a, m);
    PreorderSingle(n);
    PreorderSingle(m);
    SplicePreorder(n.children, targetIndex, nodesToInsert);
    CancelTrade(multiset(Preorder(Replace(tree, a, m))), multiset(Preorder([n])),
                multiset(Preorder(tree)), multiset(Preorder(nodesToInsert)), multiset{HeadOf(n)},
                multiset(Preorder(n.children)));
  }

  lemma SplicePreorder(s: Forest, start: int, items: Forest)
    ensures multiset(Preorder(Splice(s, start, items))) == multiset(Preorder(s)) + multiset(Preorder(items))
  {
    var k := SpliceIndex(|s|, start);
    assert s == s[..k] + s[k..];
    PreorderConcat(s[..k] + items, s[k..]);
    PreorderConcat(s[..k], items);
    PreorderConcat(s[..k], s[k..]);
  }

  lemma CancelTrade<T>(R: multiset<T>, A: multiset<T>, F: multiset<T>, I: multiset<T>, h: multiset<T>, c: multiset<T>)
    requires R + A == F + (h + c + I)
    requires A == h + c
    ensures R == F + I
  {
    forall x ensures R[x] == (F + I)[x] {
      assert (R + A)[x] == (F + (h + c + I))[x];
    }
  }

  // ---------------------------------------------------------------------
  // createFolderNode, addNodeToParent

  const DefaultFolderName := "New Node"

  /** `createFolderNode`: an empty, unlabelled folder. The source stamps its id
      as `folder-` followed by the clock; the stamp is a parameter here. */
  function CreateFolderNode(stamp: string, name: string): (n: Node)
    ensures n.kind == Folder && n.labels == [] && n.children == []
    ensures n.name == name && |n.id| == 7 + |stamp| && n.id[..7] == "folder-" && n.id[7..] == stamp
  {
    Node("folder-" + stamp, name, Folder, [], [])
  }

  datatype Addition = Addition(tree: Forest, success: bool)

  /** JavaScript truthiness of an optional id: `null` and `""` are both falsy. */
  predicate Truthy(id: Option<string>)
  {
    id.Some? && id.value != ""
  }

  function PrependChild(child: Node): Node -> Node
  {
    (n: Node) => n.(children := [child] + n.children)
  }

  /** `addNodeToParent`: with a falsy parent id the node becomes the first root;
      otherwise the first child of the first node with that id; an unknown
      parent fails and leaves the tree unchanged. */
  function AddNodeToParent(tree: Forest, node: Node, parentId: Option<string>): (r: Addition)
    ensures r.success <==> !Truthy(parentId) || parentId.value in Ids(tree)
    ensures !Truthy(parentId) ==> r.tree == [node] + tree
    ensures !r.success ==> r.tree == tree
    ensures r.success && Truthy(parentId) ==>
      var a := FirstAddr(tree, parentId.value);
      var p := At(tree, a);
      r.tree == Replace(tree, a, p.(children := [node] + p.children))
  {
    if !Truthy(parentId) then Addition([node] + tree, true)
    else
      var t := TraverseTree(tree, parentId.value, PrependChild(node));
      Addition(t.forest, t.found)
  }

  /** Prepending a child to the node at an address adds exactly that child's subtree. */
  lemma PrependConserves(tree: Forest, a: Addr, node: Node)
    requires ValidAddr(tree, a)
    ensures var n := At(tree, a);
      multiset(Preorder(Replace(tree, a, n.(children := [node] + n.children))))
        == multiset(Preorder(tree)) + multiset(Preorder([node]))
  {
    var n := At(tree, a);
    var m := n.(children := [node] + n.children);
    ReplacePreorder(tree, a, m);
    PreorderSingle(n);
    PreorderSingle(m);
    PreorderConcat([node], n.children);
    CancelTrade(multiset(Preorder(Replace(tree, a, m))), multiset(Preorder([n])),
                multiset(Preorder(tree)), multiset(Preorder([node])), multiset{HeadOf(n)},
                multiset(Preorder(n.children)));
  }

  /** A successful addition adds exactly the new node and its subtree. */
  lemma AddConserves(tree: Forest, node: Node, parentId: Option<string>)
    requires AddNodeToParent(tree, node, parentId).success
    ensures multiset(Preorder(AddNodeToParent(tree, node, parentId).tree)) == multiset(Preorder(tree)) + multiset(Preorder([node]))
  {
    if !Truthy(parentId) {
      PreorderConcat([node], tree);
    } else {
      PrependConserves(tree, FirstAddr(tree, parentId.value), node);
    }
  }
}
