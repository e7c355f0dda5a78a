/** The breadcrumb bar: the path from a root to the shown node, and the
    slash-separated text the copy button puts on the clipboard. */
module Breadcrumbs {
  import opened Wrappers
  import opened Text
  import opened Tree
  import opened TreeOps

  /** The crumbs for the shown node; none when there is no node or no tree. */
  function CrumbPath(node: Option<Node>, tree: Forest): (r: seq<PathItem>)
    ensures r == [] <==> node.None? || node.value.id !in Ids(tree)
    ensures r != [] ==> r == PathAlong(tree, FirstAddr(tree, node.value.id))
  {
    if node.None? || tree == [] then [] else FindPathToNode(tree, node.value.id)
  }

  function Names(path: seq<PathItem>): (r: seq<string>)
    ensures |r| == |path| && forall i :: 0 <= i < |path| ==> r[i] == path[i].name
  {
    seq(|path|, i requires 0 <= i < |path| => path[i].name)
  }

  /** The copy text for a path: the names joined with "/", or, for an empty
      path, the node's own name (nothing without a node). */
  function PathText(node: Option<Node>, path: seq<PathItem>): string
  {
    if path == [] then (if node.Some? then node.value.name else "")
    else Join(Names(path), "/")
  }

  /** What the copy button copies for the shown node: the names from a root down
      to the first node with its id, joined with "/"; its own name when no node
      has the id; nothing without a node. */
  function CopyText(node: Option<Node>, tree: Forest): (r: string)
    ensures node.None? ==> r == ""
    ensures node.Some? && node.value.id !in Ids(tree) ==> r == node.value.name
    ensures node.Some? && node.value.id in Ids(tree) ==>
      r == Join(Names(PathAlong(tree, FirstAddr(tree, node.value.id))), "/")
  {
    PathText(node, CrumbPath(node, tree))
  }

  /** A root's copy text is its own name. */
  lemma RootText(tree: Forest, n: Node)
    requires n.id in Ids(tree) && |FirstAddr(tree, n.id)| == 1
    ensures CopyText(Some(n), tree) == At(tree, FirstAddr(tree, n.id)).name
  {
    var a := FirstAddr(tree, n.id);
    PathAlongShape(tree, a);
  }

  /** Below the roots, the copy text is the parent's copy text, a slash, and
      the name of the node the id names. */
  lemma NestedText(tree: Forest, n: Node)
    requires UniqueIds(tree) && n.id in Ids(tree) && |FirstAddr(tree, n.id)| > 1
    ensures var a := FirstAddr(tree, n.id);
      CopyText(Some(n), tree) == CopyText(Some(Container(tree, a)), tree) + "/" + At(tree, a).name
  {
    var a := FirstAddr(tree, n.id);
    var a' := a[..|a| - 1];
    PathAlongSnoc(tree, a);
    ContainerIsPrefix(tree, a);
    UniqueFirst(tree, a');
    var p := PathAlong(tree, a);
    var q := PathAlong(tree, a');
    assert Names(p) == Names(q) + [At(tree, a).name];
    JoinSnoc(Names(q), At(tree, a).name, "/");
  }
}
