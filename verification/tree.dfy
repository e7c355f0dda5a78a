/** The node type of the asset tree and the vocabulary used to state what
    the tree operations do: pre-order listings, id sets, and addresses
    (index paths from a root) with the nodes found at them. */
module Tree {
  import opened Seqs

  datatype NodeType = Folder | Asset | Datapoint

  datatype Label = Label(key: string, value: string)

  /** A tree node. An absent `children` list and an empty one are both the empty sequence. */
  datatype Node = Node(id: string, name: string, kind: NodeType, labels: seq<Label>, children: seq<Node>)

  /** The ordered sequence of root nodes. */
  type Forest = seq<Node>

  /** Everything a node carries apart from its children. */
  datatype Head = Head(id: string, name: string, kind: NodeType, labels: seq<Label>)

  function HeadOf(n: Node): Head
  {
    Head(n.id, n.name, n.kind, n.labels)
  }

  /** Depth-first pre-order listing: a node before its children, children in stored order. */
  function Preorder(f: Forest): seq<Head>
  {
    if f == [] then [] else [HeadOf(f[0])] + Preorder(f[0].children) + Preorder(f[1..])
  }

  /** Every id that occurs anywhere in the forest. */
  function Ids(f: Forest): set<string>
  {
    if f == [] then {} else {f[0].id} + Ids(f[0].children) + Ids(f[1..])
  }

  /** No id occurs twice anywhere in the forest. */
  ghost predicate UniqueIds(f: Forest)
  {
    f != [] ==>
      && f[0].id !in Ids(f[0].children)
      && f[0].id !in Ids(f[1..])
      && Ids(f[0].children) !! Ids(f[1..])
      && UniqueIds(f[0].children)
      && UniqueIds(f[1..])
  }

  lemma {:induction false} PreorderConcat(a: Forest, b: Forest)
    ensures Preorder(a + b) == Preorder(a) + Preorder(b)
    decreases |a|
  {
    if a != [] {
      PreorderConcat(a[1..], b);
      assert (a + b)[1..] == a[1..] + b;
    } else {
      assert a + b == b;
    }
  }

  lemma {:induction false} IdsConcat(a: Forest, b: Forest)
    ensures Ids(a + b) == Ids(a) + Ids(b)
    decreases |a|
  {
    if a != [] {
      IdsConcat(a[1..], b);
      assert (a + b)[1..] == a[1..] + b;
    } else {
      assert a + b == b;
    }
  }

  /** The ids of a forest are exactly the ids of its pre-order listing. */
  lemma {:induction false} IdsArePreorderIds(f: Forest, x: string)
    ensures x in Ids(f) <==> exists k :: 0 <= k < |Preorder(f)| && Preorder(f)[k].id == x
  {
    if f != [] {
      var c := Preorder(f[0].children);
      var r := Preorder(f[1..]);
      IdsArePreorderIds(f[0].children, x);
      IdsArePreorderIds(f[1..], x);
      assert Preorder(f) == [HeadOf(f[0])] + c + r;
      if x == f[0].id {
        assert Preorder(f)[0].id == x;
      }
      if x in Ids(f[0].children) {
        var k :| 0 <= k < |c| && c[k].id == x;
        assert Preorder(f)[1 + k] == c[k];
      }
      if x in Ids(f[1..]) {
        var k :| 0 <= k < |r| && r[k].id == x;
        assert Preorder(f)[1 + |c| + k] == r[k];
      }
      if exists k :: 0 <= k < |Preorder(f)| && Preorder(f)[k].id == x {
        var k :| 0 <= k < |Preorder(f)| && Preorder(f)[k].id == x;
        if k == 0 {
          assert Preorder(f)[0] == HeadOf(f[0]);
        } else if k < 1 + |c| {
          assert c[k - 1] == Preorder(f)[k];
          assert 0 <= k - 1 < |c| && c[k - 1].id == x;
          assert x in Ids(f[0].children);
        } else {
          assert r[k - 1 - |c|] == Preorder(f)[k];
          assert 0 <= k - 1 - |c| < |r| && r[k - 1 - |c|].id == x;
          assert x in Ids(f[1..]);
        }
      }
    }
  }

  /** The i-th root and all of its descendants contribute to the forest's ids. */
  lemma {:induction false} IdsOfElement(f: Forest, i: nat)
    requires i < |f|
    ensures f[i].id in Ids(f) && Ids(f[i].children) <= Ids(f)
    decreases i
  {
    if i > 0 {
      IdsOfElement(f[1..], i - 1);
    }
  }

  // ---------------------------------------------------------------------
  // Addresses

  /** An index path: the root index, then a child index per level. */
  type Addr = seq<nat>

  ghost predicate ValidAddr(f: Forest, a: Addr)
    decreases |a|
  {
    |a| > 0 && a[0] < |f| && (|a| == 1 || ValidAddr(f[a[0]].children, a[1..]))
  }

  /** The node (with its whole subtree) found at an address. */
  ghost function At(f: Forest, a: Addr): Node
    requires ValidAddr(f, a)
    decreases |a|
  {
    if |a| == 1 then f[a[0]] else At(f[a[0]].children, a[1..])
  }

  /** The forest with the node at `a` replaced by `m`; everything else is kept. */
  ghost function Replace(f: Forest, a: Addr, m: Node): Forest
    requires ValidAddr(f, a)
    decreases |a|
  {
    f[a[0] := if |a| == 1 then m else f[a[0]].(children := Replace(f[a[0]].children, a[1..], m))]
  }

  /** The heads of the nodes along an address, from the root down to the addressed node. */
  ghost function HeadsAlong(f: Forest, a: Addr): (h: seq<Head>)
    requires ValidAddr(f, a)
    ensures |h| == |a| && h[|a| - 1] == HeadOf(At(f, a))
    decreases |a|
  {
    [HeadOf(f[a[0]])] + (if |a| == 1 then [] else HeadsAlong(f[a[0]].children, a[1..]))
  }

  ghost predicate IsPrefix(a: Addr, b: Addr)
  {
    |a| <= |b| && b[..|a|] == a
  }

  /** Depth-first pre-order on addresses: an ancestor comes before its descendants,
      and an earlier sibling's whole subtree before a later sibling. */
  ghost predicate Before(a: Addr, b: Addr)
    decreases |a|
  {
    b != [] && (a == [] || a[0] < b[0] || (a[0] == b[0] && Before(a[1..], b[1..])))
  }

  /** `a` is the first address, in depth-first pre-order, whose node has id `id`. */
  ghost predicate IsFirst(f: Forest, id: string, a: Addr)
  {
    && ValidAddr(f, a)
    && At(f, a).id == id
    && forall b :: ValidAddr(f, b) && Before(b, a) ==> At(f, b).id != id
  }

  ghost function Shift(a: Addr): Addr
    requires a != []
  {
    [a[0] + 1] + a[1..]
  }

  /** Addresses into the tail of a forest are the forest's own addresses, one root later. */
  lemma AtShift(f: Forest, b: Addr)
    requires f != [] && b != []
    ensures ValidAddr(f[1..], b) <==> ValidAddr(f, Shift(b))
    ensures ValidAddr(f[1..], b) ==> At(f, Shift(b)) == At(f[1..], b)
  {
    assert Shift(b)[1..] == b[1..];
    if b[0] < |f| - 1 {
      assert f[1..][b[0]] == f[b[0] + 1];
    }
  }

  /** Addresses into a child list are the parent's address followed by the child's. */
  lemma AtChild(f: Forest, i: nat, b: Addr)
    requires i < |f| && b != []
    ensures ValidAddr(f[i].children, b) <==> ValidAddr(f, [i] + b)
    ensures ValidAddr(f[i].children, b) ==> At(f, [i] + b) == At(f[i].children, b)
  {
    assert ([i] + b)[1..] == b;
  }

  /** The node at an address is the root itself or lies below it. */
  lemma {:induction false} AtInIds(f: Forest, a: Addr)
    requires ValidAddr(f, a)
    ensures |a| == 1 ==> At(f, a) == f[a[0]]
    ensures |a| > 1 ==> At(f, a).id in Ids(f[a[0]].children)
    ensures At(f, a).id in Ids(f)
    decreases |a|
  {
    IdsOfElement(f, a[0]);
    if |a| > 1 {
      AtInIds(f[a[0]].children, a[1..]);
    }
  }

  lemma FirstAtHead(f: Forest, id: string)
    requires f != [] && f[0].id == id
    ensures IsFirst(f, id, [0])
  {
    forall b | ValidAddr(f, b)
      ensures !Before(b, [0])
    {
      assert !Before(b[1..], []);
    }
  }

  lemma FirstInChildren(f: Forest, id: string, a: Addr)
    requires f != [] && f[0].id != id && IsFirst(f[0].children, id, a)
    ensures IsFirst(f, id, [0] + a)
  {
    AtChild(f, 0, a);
    forall b | ValidAddr(f, b) && Before(b, [0] + a)
      ensures At(f, b).id != id
    {
      if |b| > 1 {
        assert b == [0] + b[1..];
        AtChild(f, 0, b[1..]);
      }
    }
  }

  lemma FirstInTail(f: Forest, id: string, a: Addr)
    requires f != [] && f[0].id != id && id !in Ids(f[0].children) && IsFirst(f[1..], id, a)
    ensures IsFirst(f, id, Shift(a))
  {
    AtShift(f, a);
    forall b | ValidAddr(f, b) && Before(b, Shift(a))
      ensures At(f, b).id != id
    {
      AtInIds(f, b);
      if b[0] > 0 {
        var b' := [b[0] - 1] + b[1..];
        assert Shift(b') == b;
        AtShift(f, b');
        assert Before(b', a);
      }
    }
  }

  /** The first pre-order address of an id that occurs in the forest. */
  ghost function FirstAddr(f: Forest, id: string): (a: Addr)
    requires id in Ids(f)
    ensures IsFirst(f, id, a)
    decreases f
  {
    if f[0].id == id then
      FirstAtHead(f, id); [0]
    else if id in Ids(f[0].children) then
      var a' := FirstAddr(f[0].children, id);
      FirstInChildren(f, id, a'); [0] + a'
    else
      var a' := FirstAddr(f[1..], id);
      FirstInTail(f, id, a'); Shift(a')
  }

  /** An id is in the forest exactly when some address holds it. */
  lemma IdsHaveAddr(f: Forest, id: string)
    ensures id in Ids(f) <==> exists a :: ValidAddr(f, a) && At(f, a).id == id
  {
    if id in Ids(f) {
      var a := FirstAddr(f, id);
    }
    if exists a :: ValidAddr(f, a) && At(f, a).id == id {
      var a :| ValidAddr(f, a) && At(f, a).id == id;
      AtInIds(f, a);
    }
  }

  // ---------------------------------------------------------------------
  // What a replacement changes

  lemma PreorderSingle(n: Node)
    ensures Preorder([n]) == [HeadOf(n)] + Preorder(n.children)
  {
    assert [n][1..] == [];
  }

  /** The replaced forest has the same roots count and holds `m` at `a`. */
  lemma {:induction false} ReplaceAt(f: Forest, a: Addr, m: Node)
    requires ValidAddr(f, a)
    ensures |Replace(f, a, m)| == |f|
    ensures ValidAddr(Replace(f, a, m), a) && At(Replace(f, a, m), a) == m
    decreases |a|
  {
    if |a| > 1 {
      ReplaceAt(f[a[0]].children, a[1..], m);
    }
  }

  /** Two forests that agree on one root agree on every address under it. */
  lemma {:induction false} AtSameRoot(f: Forest, g: Forest, b: Addr)
    requires ValidAddr(f, b) && b[0] < |g| && g[b[0]] == f[b[0]]
    ensures ValidAddr(g, b) && At(g, b) == At(f, b)
  {
  }

  /** Prefixes of addresses that share their first step. */
  lemma PrefixStep(a: Addr, b: Addr)
    requires a != [] && b != [] && a[0] == b[0]
    ensures |a| == 1 ==> IsPrefix(a, b)
    ensures IsPrefix(a[1..], b[1..]) ==> IsPrefix(a, b)
  {
    if IsPrefix(a[1..], b[1..]) {
      assert b[..|a|] == [b[0]] + b[1..][..|a| - 1];
    }
    if |a| == 1 {
      assert b[..|a|] == [b[0]];
    }
  }

  /** Every node that is neither on the path to `a` nor below it is untouched. */
  lemma {:induction false} ReplaceElsewhere(f: Forest, a: Addr, m: Node, b: Addr)
    requires ValidAddr(f, a) && ValidAddr(f, b) && !IsPrefix(a, b) && !IsPrefix(b, a)
    ensures ValidAddr(Replace(f, a, m), b) && At(Replace(f, a, m), b) == At(f, b)
    decreases |a|
  {
    var r := Replace(f, a, m);
    ReplaceAt(f, a, m);
    if a[0] == b[0] {
      PrefixStep(a, b);
      PrefixStep(b, a);
      ReplaceElsewhere(f[a[0]].children, a[1..], m, b[1..]);
    } else {
      AtSameRoot(f, r, b);
    }
  }

  /** The nodes on the path to `a` keep their own data; only their child lists change. */
  lemma {:induction false} ReplaceAncestors(f: Forest, a: Addr, m: Node, b: Addr)
    requires ValidAddr(f, a) && b != [] && |b| < |a| && IsPrefix(b, a)
    ensures ValidAddr(f, b) && ValidAddr(Replace(f, a, m), b)
    ensures HeadOf(At(Replace(f, a, m), b)) == HeadOf(At(f, b))
    decreases |a|
  {
    ReplaceAt(f, a, m);
    assert b[0] == a[0];
    if |b| > 1 {
      assert IsPrefix(b[1..], a[1..]) by {
        assert a[1..][..|b| - 1] == a[..|b|][1..];
      }
      ReplaceAncestors(f[a[0]].children, a[1..], m, b[1..]);
    }
  }

  /** The pre-order listing splits around any root. */
  lemma {:induction false} PreorderAround(f: Forest, i: nat)
    requires i < |f|
    ensures Preorder(f) == Preorder(f[..i]) + Preorder([f[i]]) + Preorder(f[i + 1..])
  {
    var x, y, z := f[..i], [f[i]], f[i + 1..];
    assert f == x + y + z;
    PreorderConcat(x + y, z);
    PreorderConcat(x, y);
  }

  /** Multiset bookkeeping: a trade of `A` against `M` survives surrounding context. */
  lemma TradeInContext<T>(P: multiset<T>, Q: multiset<T>, N: multiset<T>, O: multiset<T>, A: multiset<T>, M: multiset<T>)
    requires N + A == O + M
    ensures P + N + Q + A == P + O + Q + M
  {
    forall x
      ensures (P + N + Q + A)[x] == (P + O + Q + M)[x]
    {
      assert (N + A)[x] == (O + M)[x];
    }
  }

  /** A replacement trades the pre-order heads of the old subtree for those of the new one. */
  lemma {:induction false} ReplacePreorder(f: Forest, a: Addr, m: Node)
    requires ValidAddr(f, a)
    ensures multiset(Preorder(Replace(f, a, m))) + multiset(Preorder([At(f, a)]))
         == multiset(Preorder(f)) + multiset(Preorder([m]))
    decreases |a|, 1
  {
    var i := a[0];
    var r := Replace(f, a, m);
    ReplaceAt(f, a, m);
    PreorderAround(f, i);
    PreorderAround(r, i);
    assert r[..i] == f[..i] && r[i + 1..] == f[i + 1..];
    SubtreeTrade(f, a, m);
    var P, Q := multiset(Preorder(f[..i])), multiset(Preorder(f[i + 1..]));
    var O, N := multiset(Preorder([f[i]])), multiset(Preorder([r[i]]));
    var A, M := multiset(Preorder([At(f, a)])), multiset(Preorder([m]));
    assert N + A == O + M;
    assert multiset(Preorder(f)) == P + O + Q;
    assert multiset(Preorder(r)) == P + N + Q;
    TradeInContext(P, Q, N, O, A, M);
  }

  /** The step of `ReplacePreorder` at the root the address starts from. */
  lemma {:induction false} SubtreeTrade(f: Forest, a: Addr, m: Node)
    requires ValidAddr(f, a)
    ensures a[0] < |Replace(f, a, m)|
    ensures multiset(Preorder([Replace(f, a, m)[a[0]]])) + multiset(Preorder([At(f, a)]))
      == multiset(Preorder([f[a[0]]])) + multiset(Preorder([m]))
    decreases |a|, 0
  {
    var i := a[0];
    if |a| == 1 {
      assert Replace(f, a, m)[i] == m && At(f, a) == f[i];
    } else {
      var c := f[i].children;
      var rc := Replace(c, a[1..], m);
      var n := Replace(f, a, m)[i];
      assert n == f[i].(children := rc);
      assert At(f, a) == At(c, a[1..]);
      ReplacePreorder(c, a[1..], m);
      var X, A, C, M := multiset(Preorder(rc)), multiset(Preorder([At(f, a)])), multiset(Preorder(c)), multiset(Preorder([m]));
      assert X + A == C + M;
      PreorderSingle(f[i]);
      PreorderSingle(n);
      var H := multiset([HeadOf(f[i])]);
      assert multiset(Preorder([n])) == H + X;
      assert multiset(Preorder([f[i]])) == H + C;
      TradeInContext(H, multiset{}, X, C, A, M);
    }
  }

  // ---------------------------------------------------------------------
  // Replacement and addresses, one root at a time

  lemma ReplaceHead(f: Forest, m: Node)
    requires f != []
    ensures ValidAddr(f, [0]) && At(f, [0]) == f[0]
    ensures Replace(f, [0], m) == [m] + f[1..]
  {
  }

  lemma ReplaceChild(f: Forest, a: Addr, m: Node)
    requires f != [] && ValidAddr(f[0].children, a)
    ensures ValidAddr(f, [0] + a) && At(f, [0] + a) == At(f[0].children, a)
    ensures Replace(f, [0] + a, m) == [f[0].(children := Replace(f[0].children, a, m))] + f[1..]
  {
    AtChild(f, 0, a);
    assert ([0] + a)[1..] == a;
  }

  lemma ReplaceShift(f: Forest, a: Addr, m: Node)
    requires f != [] && ValidAddr(f[1..], a)
    ensures ValidAddr(f, Shift(a)) && At(f, Shift(a)) == At(f[1..], a)
    ensures Replace(f, Shift(a), m) == [f[0]] + Replace(f[1..], a, m)
  {
    AtShift(f, a);
    assert Shift(a)[1..] == a[1..];
    if |a| > 1 {
      assert f[1..][a[0]] == f[a[0] + 1];
    }
  }

  /** Every prefix of a valid address is valid, and the next step goes to a child. */
  lemma {:induction false} AtPrefixStep(f: Forest, a: Addr, k: nat)
    requires ValidAddr(f, a) && 0 < k < |a|
    ensures ValidAddr(f, a[..k]) && ValidAddr(f, a[..k + 1])
    ensures a[k] < |At(f, a[..k]).children|
    ensures At(f, a[..k + 1]) == At(f, a[..k]).children[a[k]]
    decreases |a|
  {
    if k > 1 {
      AtPrefixStep(f[a[0]].children, a[1..], k - 1);
      assert a[..k][1..] == a[1..][..k - 1];
      assert a[..k + 1][1..] == a[1..][..k];
    } else {
      assert a[..k + 1][1..] == [a[1]];
    }
  }

  /** The node whose children hold the node at a non-root address. */
  ghost function Container(f: Forest, a: Addr): (p: Node)
    requires ValidAddr(f, a) && |a| > 1
    ensures a[|a| - 1] < |p.children| && p.children[a[|a| - 1]] == At(f, a)
    decreases |a|
  {
    assert a[1..][0] == a[1] && a[1..][|a| - 2] == a[|a| - 1];
    assert At(f, a) == At(f[a[0]].children, a[1..]);
    if |a| == 2 then
      assert At(f[a[0]].children, a[1..]) == f[a[0]].children[a[1]];
      f[a[0]]
    else Container(f[a[0]].children, a[1..])
  }

  lemma {:induction false} ContainerIsPrefix(f: Forest, a: Addr)
    requires ValidAddr(f, a) && |a| > 1
    ensures ValidAddr(f, a[..|a| - 1]) && Container(f, a) == At(f, a[..|a| - 1])
    decreases |a|
  {
    if |a| == 2 {
      assert a[..1] == [a[0]];
    } else {
      ContainerIsPrefix(f[a[0]].children, a[1..]);
      assert a[1..][..|a| - 2] == a[..|a| - 1][1..];
    }
  }

  /** Pre-order is total on valid addresses: two different ones are ordered one way or the other. */
  lemma {:induction false} BeforeTotal(a: Addr, b: Addr)
    requires a != [] && b != [] && a != b && !IsPrefix(a, b) && !IsPrefix(b, a)
    ensures Before(a, b) || Before(b, a)
    decreases |a|
  {
    if a[0] == b[0] {
      PrefixStep(a, b);
      PrefixStep(b, a);
      assert a == [a[0]] + a[1..] && b == [b[0]] + b[1..];
      BeforeTotal(a[1..], b[1..]);
    }
  }

  /** A proper prefix comes before its extension. */
  lemma {:induction false} PrefixBefore(a: Addr, b: Addr)
    requires IsPrefix(a, b) && |a| < |b|
    ensures Before(a, b)
    decreases |a|
  {
    if a != [] {
      assert a[1..] == b[1..][..|a| - 1];
      PrefixBefore(a[1..], b[1..]);
    }
  }

  /** There is one first address: `IsFirst` pins the address down. */
  lemma FirstUnique(f: Forest, id: string, a: Addr)
    requires IsFirst(f, id, a)
    ensures id in Ids(f) && a == FirstAddr(f, id)
  {
    AtInIds(f, a);
    var b := FirstAddr(f, id);
    if a != b {
      if IsPrefix(a, b) {
        PrefixBefore(a, b);
      } else if IsPrefix(b, a) {
        PrefixBefore(b, a);
      } else {
        BeforeTotal(a, b);
      }
    }
  }

  // ---------------------------------------------------------------------
  // Unique ids, and edits that touch one node's head

  lemma RootOrBelow(f: Forest, a: Addr)
    requires ValidAddr(f, a)
    ensures a[0] == 0 ==> At(f, a).id == f[0].id || At(f, a).id in Ids(f[0].children)
    ensures a[0] > 0 ==> At(f, a).id in Ids(f[1..])
  {
    AtInIds(f, a);
    if a[0] > 0 {
      var a' := [a[0] - 1] + a[1..];
      assert Shift(a') == a;
      AtShift(f, a');
      AtInIds(f[1..], a');
    }
  }

  /** With unique ids, an id pins down its address. */
  lemma {:induction false} UniqueAddr(f: Forest, a: Addr, b: Addr)
    requires UniqueIds(f) && ValidAddr(f, a) && ValidAddr(f, b) && At(f, a).id == At(f, b).id
    ensures a == b
    decreases f
  {
    RootOrBelow(f, a);
    RootOrBelow(f, b);
    if a[0] > 0 && b[0] > 0 {
      var a' := [a[0] - 1] + a[1..];
      var b' := [b[0] - 1] + b[1..];
      assert Shift(a') == a && Shift(b') == b;
      AtShift(f, a');
      AtShift(f, b');
      UniqueAddr(f[1..], a', b');
    } else if a[0] == 0 && b[0] == 0 && |a| > 1 && |b| > 1 {
      AtChild(f, 0, a[1..]);
      AtChild(f, 0, b[1..]);
      assert [0] + a[1..] == a && [0] + b[1..] == b;
      UniqueAddr(f[0].children, a[1..], b[1..]);
    } else {
      AtInIds(f, a);
      AtInIds(f, b);
    }
  }

  /** With unique ids, the first address of an id is its only address. */
  lemma UniqueFirst(f: Forest, a: Addr)
    requires UniqueIds(f) && ValidAddr(f, a)
    ensures At(f, a).id in Ids(f) && FirstAddr(f, At(f, a).id) == a
  {
    AtInIds(f, a);
    UniqueAddr(f, a, FirstAddr(f, At(f, a).id));
  }

  /** Below the replaced node nothing changes when the replacement keeps its children. */
  lemma {:induction false} ReplaceBelow(f: Forest, a: Addr, m: Node, b: Addr)
    requires ValidAddr(f, a) && ValidAddr(f, b) && IsPrefix(a, b) && |a| < |b|
    requires m.children == At(f, a).children
    ensures ValidAddr(Replace(f, a, m), b) && At(Replace(f, a, m), b) == At(f, b)
    decreases |a|
  {
    assert a[0] == b[0];
    if |a| > 1 {
      assert a[1..] == b[1..][..|a| - 1];
      ReplaceBelow(f[a[0]].children, a[1..], m, b[1..]);
    }
  }

  /** Replacing a node by one with the same children keeps the set of valid addresses. */
  lemma {:induction false} ReplaceSameShape(f: Forest, a: Addr, m: Node, b: Addr)
    requires ValidAddr(f, a) && m.children == At(f, a).children
    ensures ValidAddr(Replace(f, a, m), b) <==> ValidAddr(f, b)
    decreases |a|
  {
    var r := Replace(f, a, m);
    if b != [] && b[0] < |f| && |b| > 1 && b[0] == a[0] && |a| > 1 {
      ReplaceSameShape(f[a[0]].children, a[1..], m, b[1..]);
    }
  }

  /** Replacing a node by one with the same children changes nothing but the
      head at that one address. */
  lemma ReplaceHeadOnly(f: Forest, a: Addr, m: Node, b: Addr)
    requires ValidAddr(f, a) && m.children == At(f, a).children
    ensures ValidAddr(Replace(f, a, m), b) <==> ValidAddr(f, b)
    ensures ValidAddr(f, b) && b != a && !IsPrefix(b, a) ==> At(Replace(f, a, m), b) == At(f, b)
    ensures ValidAddr(f, b) && b != a ==> HeadOf(At(Replace(f, a, m), b)) == HeadOf(At(f, b))
  {
    ReplaceSameShape(f, a, m, b);
    if ValidAddr(f, b) && b != a {
      if IsPrefix(b, a) {
        ReplaceAncestors(f, a, m, b);
      } else if IsPrefix(a, b) {
        ReplaceBelow(f, a, m, b);
      } else {
        ReplaceElsewhere(f, a, m, b);
      }
    }
  }

  /** No two nodes of a list share an id. */
  ghost predicate DistinctIds(cs: seq<Node>)
  {
    forall i, j :: 0 <= i < j < |cs| ==> cs[i].id != cs[j].id
  }

  lemma {:induction false} UniqueRoots(f: Forest)
    requires UniqueIds(f)
    ensures DistinctIds(f)
    decreases f
  {
    if f != [] {
      UniqueRoots(f[1..]);
      forall i, j | 0 <= i < j < |f|
        ensures f[i].id != f[j].id
      {
        IdsOfElement(f[1..], j - 1);
        assert f[1..][j - 1] == f[j];
        if i > 0 {
          assert f[1..][i - 1] == f[i];
        }
      }
    }
  }

  lemma {:induction false} UniqueBelow(f: Forest, a: Addr)
    requires UniqueIds(f) && ValidAddr(f, a)
    ensures UniqueIds(At(f, a).children)
    decreases f
  {
    if a[0] > 0 {
      var a' := [a[0] - 1] + a[1..];
      assert Shift(a') == a;
      AtShift(f, a');
      UniqueBelow(f[1..], a');
    } else if |a| > 1 {
      AtChild(f, 0, a[1..]);
      assert [0] + a[1..] == a;
      UniqueBelow(f[0].children, a[1..]);
    }
  }

  /** Replacing a node by itself changes nothing. */
  lemma {:induction false} ReplaceSelf(f: Forest, a: Addr)
    requires ValidAddr(f, a)
    ensures Replace(f, a, At(f, a)) == f
    decreases |a|
  {
    if |a| > 1 {
      ReplaceSelf(f[a[0]].children, a[1..]);
    }
  }
}
