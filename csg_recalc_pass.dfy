/**
 * `recalculateAABBs` on the normalised map: `buildPostOrder` lists the ids
 * bottom-up, `getMaxSmoothing` reads the tree's largest smoothing, and the
 * pass rewrites every listed node's box from its children's new boxes. The
 * map then holds `Recalc` of the normalised tree.
 */
module CsgRecalcPass {
  import opened Common
  import opened Geometry
  import opened CsgModel
  import opened CsgNormalize
  import opened CsgBounds

  /** The map holds `t` up to boxes: ids, parents, children and everything in the data but the box. */
  ghost predicate HoldsShape(nodes: NodeMap, t: Tree, parent: Option<TreeId>)
  {
    t.id in nodes && nodes[t.id].id == t.id && nodes[t.id].parent == parent
    && nodes[t.id].children == ChildIds(t) && nodes[t.id].data == WithBox(t.data, nodes[t.id].data.aabb)
    && forall i :: 0 <= i < |t.children| ==> HoldsShape(nodes, t.children[i], Some(t.id))
  }

  lemma {:induction false} HoldsHasShape(nodes: NodeMap, t: Tree, parent: Option<TreeId>)
    requires Holds(nodes, t, parent)
    ensures HoldsShape(nodes, t, parent)
    decreases t
  {
    forall i | 0 <= i < |t.children|
      ensures HoldsShape(nodes, t.children[i], Some(t.id))
    {
      HoldsHasShape(nodes, t.children[i], Some(t.id));
    }
  }

  /** A node's entry with its data's box replaced: `node.aabb = newAABB`. */
  function Boxed(n: NormalizedNode, box: Aabb): (r: NormalizedNode)
    ensures r.id == n.id && r.parent == n.parent && r.children == n.children
    ensures r.data == WithBox(n.data, box)
  {
    n.(data := WithBox(n.data, box))
  }

  /** Replacing one box keeps the map holding every tree up to boxes. */
  lemma {:induction false} HoldsShapeBoxed(nodes: NodeMap, t: Tree, parent: Option<TreeId>, k: TreeId, box: Aabb)
    requires HoldsShape(nodes, t, parent) && k in nodes
    ensures HoldsShape(nodes[k := Boxed(nodes[k], box)], t, parent)
    decreases t
  {
    forall i | 0 <= i < |t.children|
      ensures HoldsShape(nodes[k := Boxed(nodes[k], box)], t.children[i], Some(t.id))
    {
      HoldsShapeBoxed(nodes, t.children[i], Some(t.id), k, box);
    }
  }

  /**
   * `buildPostOrder(id)`: an operation's children's ids in turn, then the
   * node's own, appended to `post`.
   */
  method BuildPostOrder(nodes: NodeMap, id: TreeId, ghost t: Tree, ghost parent: Option<TreeId>, post: seq<TreeId>)
    returns (post': seq<TreeId>)
    requires HoldsShape(nodes, t, parent) && id == t.id
    ensures post' == post + Ids(PostOrder(t))
    decreases t
  {
    var node := nodes[id];
    post' := post;
    if node.data.OperationNode? {
      for i := 0 to |node.children|
        invariant post' == post + Ids(PostOrderAll(t.children[..i]))
      {
        assert t.children[..i + 1][..i] == t.children[..i];
        IdsConcat(PostOrderAll(t.children[..i]), PostOrder(t.children[i]));
        post' := BuildPostOrder(nodes, node.children[i], t.children[i], Some(t.id), post');
      }
      assert t.children[..|t.children|] == t.children;
    }
    IdsConcat(if t.data.OperationNode? then PostOrderAll(t.children) else [], [t]);
    post' := post' + [id];
  }

  /**
   * `getMaxSmoothing(id)`: 0 at a leaf; at an operation its smoothing,
   * raised by each child's value with `Math.max` in turn.
   */
  method GetMaxSmoothing(nodes: NodeMap, id: TreeId, ghost t: Tree, ghost parent: Option<TreeId>) returns (max: real)
    requires HoldsShape(nodes, t, parent) && id == t.id
    ensures max == MaxSmoothing(t)
    decreases t
  {
    var node := nodes[id];
    if node.data.LeafNode? {
      return 0.0;
    }
    max := node.data.smoothing;
    for i := 0 to |node.children|
      invariant max == MaxSmoothingOver(t.children[..i], t.data.smoothing)
    {
      assert t.children[..i + 1][..i] == t.children[..i];
      var c := GetMaxSmoothing(nodes, node.children[i], t.children[i], Some(t.id));
      max := Max(c, max);
    }
    assert t.children[..|t.children|] == t.children;
  }

  /** What the pass knows after the first `k` ids of the post-order: those nodes have their new boxes. */
  ghost predicate PassInv(nodes0: NodeMap, nodes: NodeMap, nt: Tree, margin: real, k: int)
    requires 0 <= k <= |PostOrder(nt)|
  {
    var p := PostOrder(nt);
    nodes.Keys == nodes0.Keys && HoldsShape(nodes, nt, None)
    && (forall j :: 0 <= j < k ==> p[j].id in nodes0 && nodes[p[j].id] == Boxed(nodes0[p[j].id], Recalc(p[j], margin).data.aabb))
    && (forall j :: k <= j < |p| ==> p[j].id in nodes0 && nodes[p[j].id] == nodes0[p[j].id])
    && (forall key :: key in nodes0 && key !in IdSet(nt) ==> nodes[key] == nodes0[key])
  }

  /**
   * `recalculateAABBs(rootId)`: walks the post-order and gives each leaf its
   * sphere box and each operation the union of the zero box and its
   * children's boxes, dilated by four times the tree's largest smoothing.
   */
  method RecalculateAabbs(nodes0: NodeMap, rootId: TreeId, ghost nt: Tree) returns (nodes: NodeMap)
    requires Holds(nodes0, nt, None) && Distinct(nt) && Bare(nt) && rootId == nt.id
    ensures Holds(nodes, Recalc(nt, Margin(nt)), None)
    ensures nodes.Keys == nodes0.Keys
    ensures forall k :: k in nodes0 && k !in IdSet(nt) ==> nodes[k] == nodes0[k]
  {
    HoldsHasShape(nodes0, nt, None);
    var postOrder := BuildPostOrder(nodes0, rootId, nt, None, []);
    ghost var margin := Margin(nt);
    nodes := nodes0;
    forall j | 0 <= j < |PostOrder(nt)|
      ensures PostOrder(nt)[j].id in nodes0
    {
      PostOrderHeld(nodes0, nt, None, PostOrder(nt)[j]);
    }
    for k := 0 to |postOrder|
      invariant PassInv(nodes0, nodes, nt, margin, k)
    {
      nodes := RecalcNode(nodes0, nodes, rootId, nt, postOrder, k, margin);
    }
    PassDone(nodes0, nodes, nt, margin);
  }

  /** One pass of the loop: the new box of `postOrder[k]`. */
  method RecalcNode(ghost nodes0: NodeMap, nodes: NodeMap, rootId: TreeId, ghost nt: Tree, postOrder: seq<TreeId>, k: nat, ghost margin: real)
    returns (nodes': NodeMap)
    requires Holds(nodes0, nt, None) && Distinct(nt) && rootId == nt.id && margin == Margin(nt)
    requires postOrder == Ids(PostOrder(nt)) && k < |postOrder|
    requires PassInv(nodes0, nodes, nt, margin, k)
    ensures PassInv(nodes0, nodes', nt, margin, k + 1)
  {
    var id := postOrder[k];
    NodeBefore(nodes0, nodes, nt, margin, k);
    var node := nodes[id];
    var box;
    if node.data.LeafNode? {
      box := SphereAabb(node.data.transform, node.data.scale);
    } else {
      box := OperationBox(nodes0, nodes, rootId, nt, node, k, margin);
    }
    nodes' := nodes[id := Boxed(node, box)];
    PassStep(nodes0, nodes, nt, margin, k, box);
  }

  /**
   * The new box of the operation `node`, the `k`-th of the post-order:
   * `create()` expanded by each child's box, then by `getMaxSmoothing(rootId) * 4`.
   */
  method OperationBox(ghost nodes0: NodeMap, nodes: NodeMap, rootId: TreeId, ghost nt: Tree, node: NormalizedNode, ghost k: nat, ghost margin: real)
    returns (box: Aabb)
    requires Holds(nodes0, nt, None) && rootId == nt.id && k < |PostOrder(nt)| && margin == Margin(nt)
    requires PassInv(nodes0, nodes, nt, margin, k)
    requires node == Entry(PostOrder(nt)[k], node.parent) && node.data.OperationNode?
    ensures box == Recalc(PostOrder(nt)[k], margin).data.aabb
  {
    ghost var x := PostOrder(nt)[k];
    var hull := ChildrenHull(nodes0, nodes, nt, node, k, margin);
    var ms := GetMaxSmoothing(nodes, rootId, nt, None);
    var scalar := ms * 4.0;
    assert scalar == margin;
    box := ExpandByScalar(hull, scalar);
    OperationRecalc(x, hull, margin, box);
  }

  lemma OperationRecalc(x: Tree, hull: Aabb, margin: real, box: Aabb)
    requires x.data.OperationNode? && hull == Hull(Boxes(RecalcAll(x.children, margin)))
    requires box == ExpandByScalar(hull, margin)
    ensures Recalc(x, margin).data.aabb == box
  {
    assert Recalc(x, margin) == Tree(x.id, WithBox(x.data, box), RecalcAll(x.children, margin));
  }

  /** The loop over the children in `recalculateAllAABBs`: the zero box grown by each child's new box in turn. */
  method ChildrenHull(ghost nodes0: NodeMap, nodes: NodeMap, ghost nt: Tree, node: NormalizedNode, ghost k: nat, ghost margin: real)
    returns (box: Aabb)
    requires Holds(nodes0, nt, None) && k < |PostOrder(nt)|
    requires PassInv(nodes0, nodes, nt, margin, k)
    requires node == Entry(PostOrder(nt)[k], node.parent) && node.data.OperationNode?
    ensures box == Hull(Boxes(RecalcAll(PostOrder(nt)[k].children, margin)))
  {
    ghost var x := PostOrder(nt)[k];
    ghost var bs := Boxes(RecalcAll(x.children, margin));
    box := Create();
    for i := 0 to |node.children|
      invariant box == Hull(bs[..i])
    {
      ChildBox(nodes0, nodes, nt, margin, k, i);
      HullSnoc(bs, i);
      box := ExpandByAabb(box, nodes[node.children[i]].data.aabb);
    }
    PrefixAll(bs);
  }

  /** `Hull` on one more box. */
  lemma HullSnoc(bs: seq<Aabb>, i: int)
    requires 0 <= i < |bs|
    ensures Hull(bs[..i + 1]) == ExpandByAabb(Hull(bs[..i]), bs[i])
  {
    assert bs[..i + 1][..i] == bs[..i];
  }

  /** Before the pass reaches the `k`-th tree of the post-order, its entry is the one the build stored. */
  lemma NodeBefore(nodes0: NodeMap, nodes: NodeMap, nt: Tree, margin: real, k: int)
    requires Holds(nodes0, nt, None) && 0 <= k < |PostOrder(nt)|
    requires PassInv(nodes0, nodes, nt, margin, k)
    ensures var x := PostOrder(nt)[k];
      x.id in nodes && nodes[x.id] == nodes0[x.id] && nodes0[x.id] == Entry(x, nodes0[x.id].parent)
  {
    PostOrderHeld(nodes0, nt, None, PostOrder(nt)[k]);
  }

  /** Storing the `k`-th tree's new box extends the pass's invariant to `k + 1`. */
  lemma PassStep(nodes0: NodeMap, nodes: NodeMap, nt: Tree, margin: real, k: int, box: Aabb)
    requires Distinct(nt) && 0 <= k < |PostOrder(nt)|
    requires PassInv(nodes0, nodes, nt, margin, k)
    requires box == Recalc(PostOrder(nt)[k], margin).data.aabb
    ensures var id := PostOrder(nt)[k].id;
      PassInv(nodes0, nodes[id := Boxed(nodes[id], box)], nt, margin, k + 1)
  {
    var p := PostOrder(nt);
    var id := p[k].id;
    var n' := nodes[id := Boxed(nodes[id], box)];
    assert HoldsShape(n', nt, None) by {
      HoldsShapeBoxed(nodes, nt, None, id, box);
    }
    forall j | 0 <= j < k + 1
      ensures p[j].id in nodes0 && n'[p[j].id] == Boxed(nodes0[p[j].id], Recalc(p[j], margin).data.aabb)
    {
      if j < k {
        PostOrderIdsDiffer(nt, j, k);
      }
    }
    forall j | k + 1 <= j < |p|
      ensures p[j].id in nodes0 && n'[p[j].id] == nodes0[p[j].id]
    {
      PostOrderIdsDiffer(nt, j, k);
    }
    assert id in IdSet(nt) by {
      PostOrderFacts(nt);
    }
  }

  /** Two places of the post-order of a distinct tree hold different ids. */
  lemma PostOrderIdsDiffer(nt: Tree, j: int, k: int)
    requires Distinct(nt) && 0 <= j < |PostOrder(nt)| && 0 <= k < |PostOrder(nt)| && j != k
    ensures PostOrder(nt)[j].id != PostOrder(nt)[k].id
  {
    var p := PostOrder(nt);
    PostOrderFacts(nt);
    assert Ids(p)[j] == p[j].id && Ids(p)[k] == p[k].id;
    if j < k {
      assert Ids(p)[j] != Ids(p)[k];
    } else {
      assert Ids(p)[k] != Ids(p)[j];
    }
  }

  /** A tree in the post-order is stored with its own data and child ids. */
  lemma {:induction false} PostOrderHeld(nodes: NodeMap, t: Tree, parent: Option<TreeId>, x: Tree)
    requires Holds(nodes, t, parent) && x in PostOrder(t)
    ensures x.id in nodes && nodes[x.id] == Entry(x, nodes[x.id].parent)
    decreases t
  {
    if x != t {
      var pa := if t.data.OperationNode? then PostOrderAll(t.children) else [];
      assert x in pa;
      var i := PostOrderAllFind(t.children, x);
      PostOrderHeld(nodes, t.children[i], Some(t.id), x);
    }
  }

  /** Every tree in a forest's post-order is in the post-order of one of its trees. */
  lemma {:induction false} PostOrderAllFind(ts: seq<Tree>, x: Tree) returns (i: int)
    requires x in PostOrderAll(ts)
    ensures 0 <= i < |ts| && x in PostOrder(ts[i])
    decreases |ts|
  {
    var n := |ts| - 1;
    if x in PostOrder(ts[n]) {
      i := n;
    } else {
      i := PostOrderAllFind(ts[..n], x);
    }
  }

  /** During the pass, child `i` of the `k`-th node of the post-order already has its new box. */
  lemma ChildBox(nodes0: NodeMap, nodes: NodeMap, nt: Tree, margin: real, k: int, i: int)
    requires Holds(nodes0, nt, None) && 0 <= k < |PostOrder(nt)|
    requires PassInv(nodes0, nodes, nt, margin, k)
    requires PostOrder(nt)[k].data.OperationNode? && 0 <= i < |PostOrder(nt)[k].children|
    ensures var x := PostOrder(nt)[k];
      x.children[i].id in nodes && nodes[x.children[i].id].data.aabb == Recalc(x.children[i], margin).data.aabb
  {
    var p := PostOrder(nt);
    PostOrderFacts(nt);
    var c := p[k].children[i];
    assert c in p[..k];
    var j :| 0 <= j < k && p[..k][j] == c;
    assert p[j] == c;
  }

  /** When the pass ends, the map holds the recomputed tree. */
  lemma PassDone(nodes0: NodeMap, nodes: NodeMap, nt: Tree, margin: real)
    requires Holds(nodes0, nt, None) && Bare(nt)
    requires PassInv(nodes0, nodes, nt, margin, |PostOrder(nt)|)
    ensures Holds(nodes, Recalc(nt, margin), None)
    ensures nodes.Keys == nodes0.Keys
    ensures forall k :: k in nodes0 && k !in IdSet(nt) ==> nodes[k] == nodes0[k]
  {
    var p := PostOrder(nt);
    forall x | x in p
      ensures x.id in nodes0 && x.id in nodes && nodes[x.id] == Boxed(nodes0[x.id], Recalc(x, margin).data.aabb)
    {
      var j :| 0 <= j < |p| && p[j] == x;
    }
    RecalcHeld(nodes0, nodes, nt, None, margin);
  }

  /** A map whose every entry in `t`'s post-order has its new box holds `Recalc(t)`. */
  lemma {:induction false} RecalcHeld(nodes0: NodeMap, nodes: NodeMap, t: Tree, parent: Option<TreeId>, margin: real)
    requires Holds(nodes0, t, parent) && Bare(t)
    requires forall x :: x in PostOrder(t) ==> x.id in nodes0 && x.id in nodes && nodes[x.id] == Boxed(nodes0[x.id], Recalc(x, margin).data.aabb)
    ensures Holds(nodes, Recalc(t, margin), parent)
    decreases t
  {
    var r := Recalc(t, margin);
    PostOrderFacts(t);
    assert nodes[t.id] == Entry(r, parent);
    if t.data.OperationNode? {
      forall i | 0 <= i < |t.children|
        ensures Holds(nodes, r.children[i], Some(t.id))
      {
        var c := t.children[i];
        forall x | x in PostOrder(c)
          ensures x in PostOrder(t)
        {
          PostOrderAllMember(t.children, i, x);
        }
        RecalcHeld(nodes0, nodes, c, Some(t.id), margin);
      }
    }
  }
}
