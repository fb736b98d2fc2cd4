/**
 * `flattenTree` on the normalised map: `dfs` lists the nodes depth first
 * and records each id's position in `nodeIndexMap`; `traversalOrder.map`
 * then turns each listed node into a flattened node whose child and parent
 * links are positions in the list.
 */
module CsgFlattenPass {
  import opened Common
  import opened CsgModel
  import opened CsgFlatten

  /** A `FlattenedNode`: the normalised node with its links as list positions, -1 for none. */
  datatype FlatNode = FlatNode(node: NormalizedNode, child1: int, child2: int, parentIndex: int, flattenedIndex: int)

  /**
   * `order` is `order0` followed by the map's entries for `walk`, and `index`
   * gives each id of `walk` its position in `order`.
   */
  ghost predicate Walked(nodes: NodeMap, walk: seq<Tree>, order0: seq<NormalizedNode>,
                         index: map<TreeId, nat>, order: seq<NormalizedNode>)
  {
    |order| == |order0| + |walk| && order[..|order0|] == order0
    && forall j :: 0 <= j < |walk| ==>
         walk[j].id in nodes && order[|order0| + j] == nodes[walk[j].id]
         && walk[j].id in index && index[walk[j].id] == |order0| + j
  }

  /** `index` differs from `index0` only at keys in `ids`. */
  ghost predicate Framed(index0: map<TreeId, nat>, index: map<TreeId, nat>, ids: set<TreeId>)
  {
    (forall k :: k in index0 && k !in ids ==> k in index && index[k] == index0[k])
    && (forall k :: k in index && k !in index0 ==> k in ids)
  }

  /**
   * `dfs(id)`: records the node's position, appends it to the traversal
   * order and, for an operation, walks its children in turn. The order grows
   * by the tree's pre-order walk and the index map then places every node of
   * the walk; keys outside the tree keep their positions.
   */
  method Dfs(nodes: NodeMap, id: TreeId, ghost t: Tree, ghost parent: Option<TreeId>,
             index0: map<TreeId, nat>, order0: seq<NormalizedNode>)
    returns (index: map<TreeId, nat>, order: seq<NormalizedNode>)
    requires Holds(nodes, t, parent) && Distinct(t) && id == t.id
    ensures Walked(nodes, PreOrder(t), order0, index, order)
    ensures Framed(index0, index, IdSet(t))
    decreases t, 1
  {
    var node := nodes[id];
    index := index0[id := |order0|];
    order := order0 + [node];
    if node.data.OperationNode? {
      for i := 0 to |node.children|
        invariant Walked(nodes, [t] + PreOrderAll(t.children[..i]), order0, index, order)
        invariant Framed(index0, index, IdSet(t))
      {
        index, order := DfsChild(nodes, id, t, parent, index0, order0, i, index, order);
      }
      assert t.children[..|t.children|] == t.children;
    }
  }

  /** The loop body of `dfs`: the walk of child `i`. */
  method DfsChild(nodes: NodeMap, id: TreeId, ghost t: Tree, ghost parent: Option<TreeId>,
                  ghost index0: map<TreeId, nat>, ghost order0: seq<NormalizedNode>, i: nat,
                  index: map<TreeId, nat>, order: seq<NormalizedNode>)
    returns (index': map<TreeId, nat>, order': seq<NormalizedNode>)
    requires Holds(nodes, t, parent) && Distinct(t) && id == t.id
    requires t.data.OperationNode? && i < |t.children|
    requires Walked(nodes, [t] + PreOrderAll(t.children[..i]), order0, index, order)
    requires Framed(index0, index, IdSet(t))
    ensures Walked(nodes, [t] + PreOrderAll(t.children[..i + 1]), order0, index', order')
    ensures Framed(index0, index', IdSet(t))
    decreases t, 0
  {
    DistinctAllMember(t.children, i);
    index', order' := Dfs(nodes, nodes[id].children[i], t.children[i], Some(t.id), index, order);
    DfsStep(nodes, t, index0, order0, i, index, order, index', order');
  }

  /** Appending child `i`'s walk extends the walk of the node and its first `i` children. */
  lemma DfsStep(nodes: NodeMap, t: Tree, index0: map<TreeId, nat>, order0: seq<NormalizedNode>, i: nat,
                index: map<TreeId, nat>, order: seq<NormalizedNode>,
                index': map<TreeId, nat>, order': seq<NormalizedNode>)
    requires Distinct(t) && i < |t.children|
    requires Walked(nodes, [t] + PreOrderAll(t.children[..i]), order0, index, order)
    requires Framed(index0, index, IdSet(t))
    requires Walked(nodes, PreOrder(t.children[i]), order, index', order')
    requires Framed(index, index', IdSet(t.children[i]))
    ensures Walked(nodes, [t] + PreOrderAll(t.children[..i + 1]), order0, index', order')
    ensures Framed(index0, index', IdSet(t))
  {
    var c := t.children[i];
    var pa := PreOrderAll(t.children[..i]);
    var w := [t] + pa;
    assert t.children[..i + 1][..i] == t.children[..i];
    assert PreOrderAll(t.children[..i + 1]) == pa + PreOrder(c);
    assert [t] + PreOrderAll(t.children[..i + 1]) == w + PreOrder(c);
    IdSetAllMember(t.children, i);
    assert IdSetAll(t.children[..i]) !! IdSet(c) by {
      DistinctAllPrefix(t.children, i + 1);
      ForestSnoc(t.children[..i], c);
      assert t.children[..i] + [c] == t.children[..i + 1];
    }
    PreOrderAllIds(t.children[..i]);
    forall j | 0 <= j < |w|
      ensures w[j].id !in IdSet(c)
    {
      if j > 0 {
        assert w[j] == pa[j - 1];
      }
    }
    WalkedConcat(nodes, w, PreOrder(c), order0, index, order, index', order', IdSet(c));
  }

  /** Two walks one after the other, the second leaving the first one's positions alone. */
  lemma WalkedConcat(nodes: NodeMap, w: seq<Tree>, v: seq<Tree>, order0: seq<NormalizedNode>,
                     index: map<TreeId, nat>, order: seq<NormalizedNode>,
                     index': map<TreeId, nat>, order': seq<NormalizedNode>, ids: set<TreeId>)
    requires Walked(nodes, w, order0, index, order)
    requires Walked(nodes, v, order, index', order') && Framed(index, index', ids)
    requires forall j :: 0 <= j < |w| ==> w[j].id !in ids
    ensures Walked(nodes, w + v, order0, index', order')
  {
    assert order'[..|order0|] == order'[..|order|][..|order0|];
    forall j | 0 <= j < |w + v|
      ensures (w + v)[j].id in nodes && order'[|order0| + j] == nodes[(w + v)[j].id]
      ensures (w + v)[j].id in index' && index'[(w + v)[j].id] == |order0| + j
    {
      if j < |w| {
        assert order'[|order0| + j] == order'[..|order|][|order0| + j];
      } else {
        assert (w + v)[j] == v[j - |w|];
      }
    }
  }

  /** The flattened node `traversalOrder.map` makes of the node at position `i`. */
  function FlatOf(node: NormalizedNode, i: int, index: map<TreeId, nat>): FlatNode
  {
    var parentIndex: int := if node.parent.Some? && node.parent.value in index then index[node.parent.value] else -1;
    var child1: int := if node.data.OperationNode? && |node.children| > 0 && node.children[0] in index then index[node.children[0]] else -1;
    var child2: int := if node.data.OperationNode? && |node.children| > 1 && node.children[1] in index then index[node.children[1]] else -1;
    FlatNode(node, child1, child2, parentIndex, i)
  }

  /**
   * What the flattened node at position `i` of the walk `p` of `nt` says: it
   * is the node `p[i]` with its entry's parent; `child1` is the position of
   * its first child (right after it), `child2` that of its second (right
   * after the first child's walk); `parentIndex` is the earlier position of
   * the operation that lists it, or -1 at the root alone.
   */
  ghost predicate Placed(nt: Tree, i: int, f: FlatNode)
    requires 0 <= i < |PreOrder(nt)|
  {
    var p := PreOrder(nt);
    var u := p[i];
    f.flattenedIndex == i && f.node == Entry(u, f.node.parent)
    && (if u.data.OperationNode? && |u.children| > 0
        then f.child1 == i + 1 && i + 1 < |p| && p[i + 1] == u.children[0]
        else f.child1 == -1)
    && (if u.data.OperationNode? && |u.children| > 1
        then f.child2 == i + 1 + |PreOrder(u.children[0])| && f.child2 < |p| && p[f.child2] == u.children[1]
        else f.child2 == -1)
    && (if i == 0 then f.parentIndex == -1 && f.node.parent == None
        else 0 <= f.parentIndex < i && p[f.parentIndex].data.OperationNode?
             && u in p[f.parentIndex].children && f.node.parent == Some(p[f.parentIndex].id))
  }

  /**
   * The part of `flattenTree` after `getNormalizedTree`: `dfs` from the root,
   * then one flattened node per listed node. The list is the pre-order walk
   * of the tree the map holds, and every entry's links are placed as
   * `Placed` says.
   */
  method FlattenNodes(nodes: NodeMap, rootId: TreeId, ghost nt: Tree) returns (flat: seq<FlatNode>)
    requires Holds(nodes, nt, None) && Distinct(nt) && rootId == nt.id
    ensures |flat| == |PreOrder(nt)|
    ensures forall i :: 0 <= i < |flat| ==> Placed(nt, i, flat[i])
  {
    var index, order := Dfs(nodes, rootId, nt, None, map[], []);
    flat := seq(|order|, i requires 0 <= i < |order| => FlatOf(order[i], i, index));
    forall i | 0 <= i < |flat|
      ensures Placed(nt, i, flat[i])
    {
      FlatPosition(nodes, nt, index, order, i);
    }
  }

  /** The links `FlatOf` computes from a completed walk are the positions `Placed` names. */
  lemma FlatPosition(nodes: NodeMap, nt: Tree, index: map<TreeId, nat>, order: seq<NormalizedNode>, i: int)
    requires Holds(nodes, nt, None) && Distinct(nt)
    requires Walked(nodes, PreOrder(nt), [], index, order) && 0 <= i < |order|
    ensures Placed(nt, i, FlatOf(order[i], i, index))
  {
    var p := PreOrder(nt);
    var u := p[i];
    var node := order[i];
    var f := FlatOf(node, i, index);
    assert node == nodes[u.id];
    var j := ParentPosition(nodes, nt, None, i);
    assert node == Entry(u, node.parent);
    FirstChildSlot(nt, i);
    var q := SecondChildSlot(nt, i);
    assert f.child1 == (if u.data.OperationNode? && |u.children| > 0 then i + 1 else -1) by {
      if u.data.OperationNode? && |u.children| > 0 {
        assert node.children[0] == p[i + 1].id;
      }
    }
    assert f.child2 == (if u.data.OperationNode? && |u.children| > 1 then i + 1 + |PreOrder(u.children[0])| else -1) by {
      if u.data.OperationNode? && |u.children| > 1 {
        assert node.children[1] == u.children[1].id == p[q].id;
        assert index[p[q].id] == q;
      }
    }
    if i > 0 {
      assert index[p[j].id] == j;
    }
  }

  /** The first child of the `i`-th node of the walk comes right after it. */
  lemma FirstChildSlot(nt: Tree, i: int)
    requires 0 <= i < |PreOrder(nt)|
    ensures var p := PreOrder(nt); var u := p[i];
      u.data.OperationNode? && |u.children| > 0 ==> i + 1 < |p| && p[i + 1] == u.children[0]
  {
    var u := PreOrder(nt)[i];
    if u.data.OperationNode? && |u.children| > 0 {
      ChildPosition(nt, i, 0);
      assert u.children[..0] == [];
    }
  }

  /** The second child of the `i`-th node of the walk comes right after the first child's walk. */
  lemma SecondChildSlot(nt: Tree, i: int) returns (q: int)
    requires 0 <= i < |PreOrder(nt)|
    ensures var p := PreOrder(nt); var u := p[i];
      u.data.OperationNode? && |u.children| > 1 ==>
        q == i + 1 + |PreOrder(u.children[0])| && q < |p| && p[q] == u.children[1]
  {
    var u := PreOrder(nt)[i];
    q := if u.data.OperationNode? && |u.children| > 1 then i + 1 + |PreOrder(u.children[0])| else 0;
    if u.data.OperationNode? && |u.children| > 1 {
      ChildPosition(nt, i, 1);
      assert u.children[..1][..0] == [];
      assert PreOrderAll(u.children[..1]) == PreOrderAll(u.children[..1][..0]) + PreOrder(u.children[0]);
    }
  }

}
