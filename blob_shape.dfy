/**
 * The tree a stored node heads in the blob store, as a value: the node's id
 * with the trees of the children it lists. `flattenTree` lists such a tree
 * depth first; the lemmas say where each node, its children and its parent
 * land in that list.
 */
module BlobShape {
  import opened Common
  import opened BlobStore

  /** A node of the store with the trees of its children. */
  datatype Shape = Shape(id: NodeId, children: seq<Shape>)

  /** The children an entry lists: an operation's `children`, none for a leaf. */
  function Kids(n: SceneNode): seq<NodeId>
  {
    if n.OperationNode? then n.children else []
  }

  /** The tree headed by the stored node `k`. */
  ghost function ShapeOf(nodes: Store, depth: Depths, bound: nat, k: NodeId): (s: Shape)
    requires Linked(nodes, depth, bound) && k in nodes
    ensures s.id == k && |s.children| == |Kids(nodes[k])|
    ensures forall i :: 0 <= i < |s.children| ==>
      Kids(nodes[k])[i] in nodes && s.children[i] == ShapeOf(nodes, depth, bound, Kids(nodes[k])[i])
    decreases bound - depth[k]
  {
    var cs := Kids(nodes[k]);
    Shape(k, seq(|cs|, i requires 0 <= i < |cs| => ShapeOf(nodes, depth, bound, cs[i])))
  }

  /** The node, then its children's walks in turn: the order `dfs` visits them in. */
  function PreOrder(s: Shape): seq<Shape>
    decreases s
  {
    [s] + PreOrderAll(s.children)
  }

  function PreOrderAll(ss: seq<Shape>): seq<Shape>
    decreases ss
  {
    if |ss| == 0 then [] else PreOrderAll(ss[..|ss| - 1]) + PreOrder(ss[|ss| - 1])
  }

  function Ids(ss: seq<Shape>): (ids: seq<NodeId>)
    ensures |ids| == |ss| && forall i :: 0 <= i < |ss| ==> ids[i] == ss[i].id
  {
    seq(|ss|, i requires 0 <= i < |ss| => ss[i].id)
  }

  lemma IdsConcat(a: seq<Shape>, b: seq<Shape>)
    ensures Ids(a + b) == Ids(a) + Ids(b)
  {
  }

  // ---------------------------------------------------------------------
  // Positions in a walk

  /** The walk of the first `j` trees of a forest is a prefix of the forest's walk. */
  lemma {:induction false} PreOrderAllPrefix(ss: seq<Shape>, j: int)
    requires 0 <= j <= |ss|
    ensures |PreOrderAll(ss[..j])| <= |PreOrderAll(ss)|
    ensures PreOrderAll(ss)[..|PreOrderAll(ss[..j])|] == PreOrderAll(ss[..j])
    decreases |ss| - j
  {
    if j < |ss| {
      var n := |ss| - 1;
      PreOrderAllPrefix(ss[..n], j);
      assert ss[..n][..j] == ss[..j];
      var f := PreOrderAll(ss[..n]);
      assert PreOrderAll(ss) == f + PreOrder(ss[n]);
      assert (f + PreOrder(ss[n]))[..|f|] == f;
    } else {
      assert ss[..j] == ss;
    }
  }

  /**
   * Position `m` of a forest's walk falls in the walk of tree `c`, which
   * starts at `off`, the length of the walks of the trees before it.
   */
  lemma {:induction false} Locate(ss: seq<Shape>, m: int) returns (c: int, off: int)
    requires 0 <= m < |PreOrderAll(ss)|
    ensures 0 <= c < |ss| && off == |PreOrderAll(ss[..c])|
    ensures off <= m < off + |PreOrder(ss[c])|
    ensures off + |PreOrder(ss[c])| <= |PreOrderAll(ss)|
    ensures forall x :: 0 <= x < |PreOrder(ss[c])| ==> PreOrderAll(ss)[off + x] == PreOrder(ss[c])[x]
    decreases |ss|
  {
    var n := |ss| - 1;
    var f := PreOrderAll(ss[..n]);
    assert PreOrderAll(ss) == f + PreOrder(ss[n]);
    if m < |f| {
      c, off := Locate(ss[..n], m);
      assert ss[..n][..c] == ss[..c];
      assert ss[..n][c] == ss[c];
    } else {
      c, off := n, |f|;
    }
  }

  /** The walk of the `i`-th node of a tree's walk sits in that walk from `i` on. */
  lemma {:induction false} WalkWithin(s: Shape, i: int)
    requires 0 <= i < |PreOrder(s)|
    ensures i + |PreOrder(PreOrder(s)[i])| <= |PreOrder(s)|
    ensures PreOrder(s)[i..i + |PreOrder(PreOrder(s)[i])|] == PreOrder(PreOrder(s)[i])
    decreases s
  {
    if i > 0 {
      var all, kids := PreOrder(s), PreOrderAll(s.children);
      assert all == [s] + kids;
      var c, off := Locate(s.children, i - 1);
      var sub := PreOrder(s.children[c]);
      var j := i - 1 - off;
      WalkWithin(s.children[c], j);
      var w := PreOrder(sub[j]);
      assert all[i] == kids[off + j] == sub[j];
      forall m | 0 <= m < |w|
        ensures all[i + m] == w[m]
      {
        assert w[m] == sub[j + m];
        assert all[i + m] == kids[off + (j + m)];
      }
    }
  }

  /** Child `k` of the `i`-th node of a tree's walk sits right after its earlier siblings' walks. */
  lemma ChildPosition(s: Shape, i: int, k: int)
    requires 0 <= i < |PreOrder(s)| && 0 <= k < |PreOrder(s)[i].children|
    ensures var u := PreOrder(s)[i];
      i + 1 + |PreOrderAll(u.children[..k])| < |PreOrder(s)|
      && PreOrder(s)[i + 1 + |PreOrderAll(u.children[..k])|] == u.children[k]
  {
    var u := PreOrder(s)[i];
    WalkWithin(s, i);
    var base := PreOrder(u);
    var f := PreOrderAll(u.children[..k]);
    assert base[1 + |f|] == u.children[k] by {
      PreOrderAllPrefix(u.children, k + 1);
      assert u.children[..k + 1][..k] == u.children[..k];
      assert PreOrderAll(u.children[..k + 1]) == f + PreOrder(u.children[k]);
      assert PreOrderAll(u.children)[|f|] == PreOrderAll(u.children[..k + 1])[|f|];
    }
  }

  /** The walk of a node's first `k + 1` children is the walk of its first `k` and then child `k`'s. */
  lemma PreOrderAllSnoc(ss: seq<Shape>, k: int)
    requires 0 <= k < |ss|
    ensures PreOrderAll(ss[..k + 1]) == PreOrderAll(ss[..k]) + PreOrder(ss[k])
  {
    assert ss[..k + 1][..k] == ss[..k];
  }

  /** Every node of a tree's walk but the first is a child of an earlier node of the walk. */
  lemma {:induction false} ParentPosition(s: Shape, i: int) returns (j: int, k: int)
    requires 0 < i < |PreOrder(s)|
    ensures 0 <= j < i && 0 <= k < |PreOrder(s)[j].children| && PreOrder(s)[j].children[k] == PreOrder(s)[i]
    decreases s
  {
    var c, off := Locate(s.children, i - 1);
    var sub := PreOrder(s.children[c]);
    assert PreOrder(s)[i] == sub[i - 1 - off];
    if i - 1 - off == 0 {
      j, k := 0, c;
    } else {
      var j', k' := ParentPosition(s.children[c], i - 1 - off);
      j, k := 1 + off + j', k';
      assert PreOrder(s)[j] == sub[j'];
    }
  }

  // ---------------------------------------------------------------------
  // The walk of a stored tree

  /** Going up from a child of `a` meets `a`. */
  lemma {:induction false} DescendsTrans(nodes: Store, depth: Depths, bound: nat, x: NodeId, c: NodeId, a: NodeId)
    requires ParentsLinked(nodes, depth, bound) && x in nodes && c in nodes
    requires Descends(nodes, depth, bound, x, c) && nodes[c].parent == Some(a)
    ensures Descends(nodes, depth, bound, x, a)
    decreases depth[x]
  {
    if x != c {
      DescendsTrans(nodes, depth, bound, nodes[x].parent.value, c, a);
    }
  }

  /** Every node of a stored tree's walk heads its own stored tree and lies below the top. */
  lemma {:induction false} WalkCanonical(nodes: Store, depth: Depths, bound: nat, k: NodeId, i: int)
    requires Linked(nodes, depth, bound) && k in nodes
    requires 0 <= i < |PreOrder(ShapeOf(nodes, depth, bound, k))|
    ensures var u := PreOrder(ShapeOf(nodes, depth, bound, k))[i];
      u.id in nodes && u == ShapeOf(nodes, depth, bound, u.id) && Descends(nodes, depth, bound, u.id, k)
    decreases bound - depth[k]
  {
    var s := ShapeOf(nodes, depth, bound, k);
    if i > 0 {
      var c, off := Locate(s.children, i - 1);
      var ck := Kids(nodes[k])[c];
      ChildDepth(nodes, depth, bound, k, c);
      WalkCanonical(nodes, depth, bound, ck, i - 1 - off);
      var u := PreOrder(s)[i];
      assert u == PreOrder(s.children[c])[i - 1 - off];
      DescendsTrans(nodes, depth, bound, u.id, ck, k);
    }
  }

  /** A node of the walks of the first `m` children of a stored operation lies below one of those children. */
  lemma InChildWalk(nodes: Store, depth: Depths, bound: nat, k: NodeId, m: int, x: int) returns (c: int)
    requires Linked(nodes, depth, bound) && k in nodes && 0 <= m <= |Kids(nodes[k])|
    requires 0 <= x < |PreOrderAll(ShapeOf(nodes, depth, bound, k).children[..m])|
    ensures 0 <= c < m && Kids(nodes[k])[c] in nodes && Kids(nodes[k])[c] in depth
    ensures depth[Kids(nodes[k])[c]] == depth[k] + 1
    ensures var u := PreOrderAll(ShapeOf(nodes, depth, bound, k).children[..m])[x];
      u.id in nodes && Descends(nodes, depth, bound, u.id, Kids(nodes[k])[c])
  {
    var s := ShapeOf(nodes, depth, bound, k);
    var ss := s.children[..m];
    var off;
    c, off := Locate(ss, x);
    var ck := Kids(nodes[k])[c];
    assert ss[c] == s.children[c] == ShapeOf(nodes, depth, bound, ck);
    ChildDepth(nodes, depth, bound, k, c);
    WalkCanonical(nodes, depth, bound, ck, x - off);
    var u := PreOrderAll(ss)[x];
    assert u == PreOrder(ShapeOf(nodes, depth, bound, ck))[x - off];
  }

  /** A stored tree's walk lists no id twice. */
  lemma {:induction false} WalkDistinct(nodes: Store, depth: Depths, bound: nat, k: NodeId)
    requires Linked(nodes, depth, bound) && k in nodes
    ensures NoDups(Ids(PreOrder(ShapeOf(nodes, depth, bound, k))))
    decreases bound - depth[k], |Kids(nodes[k])| + 1
  {
    var s := ShapeOf(nodes, depth, bound, k);
    var n := |s.children|;
    assert s.children[..n] == s.children;
    var rest := PreOrderAll(s.children[..n]);
    WalkAllDistinct(nodes, depth, bound, k, n);
    IdsConcat([s], rest);
    forall x | 0 <= x < |rest|
      ensures rest[x].id != k
    {
      var c := InChildWalk(nodes, depth, bound, k, n, x);
      DescendsDepth(nodes, depth, bound, rest[x].id, Kids(nodes[k])[c]);
    }
    NoDupsConcat(Ids([s]), Ids(rest));
  }

  /** The walks of the first `m` children of a stored operation list no id twice. */
  lemma {:induction false} WalkAllDistinct(nodes: Store, depth: Depths, bound: nat, k: NodeId, m: int)
    requires Linked(nodes, depth, bound) && k in nodes && 0 <= m <= |Kids(nodes[k])|
    ensures NoDups(Ids(PreOrderAll(ShapeOf(nodes, depth, bound, k).children[..m])))
    decreases bound - depth[k], m
  {
    var s := ShapeOf(nodes, depth, bound, k);
    if m > 0 {
      var cs := Kids(nodes[k]);
      var n := m - 1;
      var a := PreOrderAll(s.children[..n]);
      var b := PreOrder(s.children[n]);
      WalkAllDistinct(nodes, depth, bound, k, n);
      ChildDepth(nodes, depth, bound, k, n);
      WalkDistinct(nodes, depth, bound, cs[n]);
      PreOrderAllSnoc(s.children, n);
      IdsConcat(a, b);
      WalksApart(nodes, depth, bound, k, n, a, b);
      NoDupsConcat(Ids(a), Ids(b));
    }
  }

  /** No node of the walks of a stored operation's first `n` children is in child `n`'s walk. */
  lemma WalksApart(nodes: Store, depth: Depths, bound: nat, k: NodeId, n: int, a: seq<Shape>, b: seq<Shape>)
    requires Linked(nodes, depth, bound) && k in nodes && 0 <= n < |Kids(nodes[k])|
    requires a == PreOrderAll(ShapeOf(nodes, depth, bound, k).children[..n])
    requires b == PreOrder(ShapeOf(nodes, depth, bound, k).children[n])
    ensures forall x, y :: 0 <= x < |a| && 0 <= y < |b| ==> Ids(a)[x] != Ids(b)[y]
  {
    var cs := Kids(nodes[k]);
    ChildDepth(nodes, depth, bound, k, n);
    forall x, y | 0 <= x < |a| && 0 <= y < |b|
      ensures a[x].id != b[y].id
    {
      var c := InChildWalk(nodes, depth, bound, k, n, x);
      WalkCanonical(nodes, depth, bound, cs[n], y);
      if a[x].id == b[y].id {
        DescendsUnique(nodes, depth, bound, a[x].id, cs[c], cs[n]);
      }
    }
  }
}
