/**
 * `flattenTree` of the blob revision: `dfs` from the root lists the nodes
 * depth first and records each id's position in `nodeIndexMap`; then every
 * listed node gets `entry`, the position of its first child, and `exit`,
 * the position of its next sibling or of the next sibling of its nearest
 * ancestor that has one, found by walking up the parent links.
 */
module BlobFlatten {
  import opened Common
  import opened BlobStore
  import opened BlobShape

  /** A `FlattenedNode`: the stored node with its `entry`, `exit` and own position, -1 for none. */
  datatype FlatNode = FlatNode(node: SceneNode, entry: int, exit: int, flattenedIndex: int)

  /** The ids of a list of trees. */
  ghost function IdsIn(ss: seq<Shape>): set<NodeId>
  {
    set i | 0 <= i < |ss| :: ss[i].id
  }

  /**
   * `order` is `order0` followed by the stored entries for `walk`, and
   * `index` gives each id of `walk` its position in `order`.
   */
  ghost predicate Walked(nodes: Store, walk: seq<Shape>, order0: seq<SceneNode>,
                         index: map<NodeId, nat>, order: seq<SceneNode>)
  {
    |order| == |order0| + |walk| && order[..|order0|] == order0
    && forall j :: 0 <= j < |walk| ==>
         walk[j].id in nodes && order[|order0| + j] == nodes[walk[j].id]
         && walk[j].id in index && index[walk[j].id] == |order0| + j
  }

  /** `index` differs from `index0` only at keys in `ids`. */
  ghost predicate Framed(index0: map<NodeId, nat>, index: map<NodeId, nat>, ids: set<NodeId>)
  {
    (forall k :: k in index0 && k !in ids ==> k in index && index[k] == index0[k])
    && (forall k :: k in index && k !in index0 ==> k in ids)
  }

  /**
   * `dfs(nodeId)`: records the node's position, appends the node to the
   * traversal order and, for an operation, walks its children in turn. The
   * order grows by the walk of the tree the node heads, and the index map
   * places every node of that walk; other keys keep their positions.
   */
  method Dfs(nodes: Store, id: NodeId, ghost depth: Depths, ghost bound: nat,
             index0: map<NodeId, nat>, order0: seq<SceneNode>)
    returns (index: map<NodeId, nat>, order: seq<SceneNode>)
    requires Linked(nodes, depth, bound) && id in nodes
    ensures Walked(nodes, PreOrder(ShapeOf(nodes, depth, bound, id)), order0, index, order)
    ensures Framed(index0, index, IdsIn(PreOrder(ShapeOf(nodes, depth, bound, id))))
    decreases bound - depth[id], 1
  {
    ghost var s := ShapeOf(nodes, depth, bound, id);
    var node := nodes[id];
    index := index0[id := |order0|];
    order := order0 + [node];
    assert PreOrder(s)[0] == s;
    if node.OperationNode? {
      for i := 0 to |node.children|
        invariant Walked(nodes, [s] + PreOrderAll(s.children[..i]), order0, index, order)
        invariant Framed(index0, index, IdsIn(PreOrder(s)))
      {
        index, order := DfsChild(nodes, id, depth, bound, index0, order0, i, index, order);
      }
      assert s.children[..|s.children|] == s.children;
    } else {
      assert PreOrder(s) == [s];
    }
  }

  /** The loop body of `dfs`: the walk of child `i`. */
  method DfsChild(nodes: Store, id: NodeId, ghost depth: Depths, ghost bound: nat,
                  ghost index0: map<NodeId, nat>, ghost order0: seq<SceneNode>, i: nat,
                  index: map<NodeId, nat>, order: seq<SceneNode>)
    returns (index': map<NodeId, nat>, order': seq<SceneNode>)
    requires Linked(nodes, depth, bound) && id in nodes
    requires nodes[id].OperationNode? && i < |nodes[id].children|
    requires var s := ShapeOf(nodes, depth, bound, id);
      Walked(nodes, [s] + PreOrderAll(s.children[..i]), order0, index, order)
      && Framed(index0, index, IdsIn(PreOrder(s)))
    ensures var s := ShapeOf(nodes, depth, bound, id);
      Walked(nodes, [s] + PreOrderAll(s.children[..i + 1]), order0, index', order')
      && Framed(index0, index', IdsIn(PreOrder(s)))
    decreases bound - depth[id], 0
  {
    ChildDepth(nodes, depth, bound, id, i);
    var c := nodes[id].children[i];
    index', order' := Dfs(nodes, c, depth, bound, index, order);
    WalkDistinct(nodes, depth, bound, id);
    DfsStep(ShapeOf(nodes, depth, bound, id), nodes, index0, order0, i, index, order, index', order');
  }

  /** Appending child `i`'s walk extends the walk of the node and its first `i` children. */
  lemma DfsStep(s: Shape, nodes: Store, index0: map<NodeId, nat>, order0: seq<SceneNode>, i: nat,
                index: map<NodeId, nat>, order: seq<SceneNode>,
                index': map<NodeId, nat>, order': seq<SceneNode>)
    requires NoDups(Ids(PreOrder(s))) && i < |s.children|
    requires Walked(nodes, [s] + PreOrderAll(s.children[..i]), order0, index, order)
    requires Framed(index0, index, IdsIn(PreOrder(s)))
    requires Walked(nodes, PreOrder(s.children[i]), order, index', order')
    requires Framed(index, index', IdsIn(PreOrder(s.children[i])))
    ensures Walked(nodes, [s] + PreOrderAll(s.children[..i + 1]), order0, index', order')
    ensures Framed(index0, index', IdsIn(PreOrder(s)))
  {
    var w := [s] + PreOrderAll(s.children[..i]);
    var v := PreOrder(s.children[i]);
    StepSplit(s, i);
    StepDisjoint(PreOrder(s), w, v);
    WalkedConcat(nodes, w, v, order0, index, order, index', order', IdsIn(v));
    FramedTrans(index0, index, index', IdsIn(PreOrder(s)), IdsIn(v));
  }

  /** The node with its first `i + 1` children's walks is a prefix of its walk, split before child `i`. */
  lemma StepSplit(s: Shape, i: nat)
    requires i < |s.children|
    ensures var w := [s] + PreOrderAll(s.children[..i]);
      var v := PreOrder(s.children[i]);
      [s] + PreOrderAll(s.children[..i + 1]) == w + v
      && |w + v| <= |PreOrder(s)| && PreOrder(s)[..|w + v|] == w + v
  {
    PreOrderAllSnoc(s.children, i);
    PreOrderAllPrefix(s.children, i + 1);
    var f := PreOrderAll(s.children[..i + 1]);
    assert PreOrder(s)[..1 + |f|] == [s] + PreOrderAll(s.children)[..|f|];
  }

  /** Two consecutive pieces of a walk without repeated ids share no id. */
  lemma StepDisjoint(p: seq<Shape>, w: seq<Shape>, v: seq<Shape>)
    requires NoDups(Ids(p)) && |w + v| <= |p| && p[..|w + v|] == w + v
    ensures forall j :: 0 <= j < |w| ==> w[j].id !in IdsIn(v)
    ensures IdsIn(v) <= IdsIn(p)
  {
    forall j, y | 0 <= j < |w| && 0 <= y < |v|
      ensures w[j].id != v[y].id
    {
      assert p[j] == w[j] && p[|w| + y] == v[y];
    }
    forall y | 0 <= y < |v|
      ensures v[y].id in IdsIn(p)
    {
      assert p[|w| + y] == v[y];
    }
  }

  lemma FramedTrans(index0: map<NodeId, nat>, index1: map<NodeId, nat>, index2: map<NodeId, nat>,
                    ids: set<NodeId>, inner: set<NodeId>)
    requires Framed(index0, index1, ids) && Framed(index1, index2, inner) && inner <= ids
    ensures Framed(index0, index2, ids)
  {
  }

  /** Two walks one after the other, the second leaving the first one's positions alone. */
  lemma WalkedConcat(nodes: Store, w: seq<Shape>, v: seq<Shape>, order0: seq<SceneNode>,
                     index: map<NodeId, nat>, order: seq<SceneNode>,
                     index': map<NodeId, nat>, order': seq<SceneNode>, ids: set<NodeId>)
    requires Walked(nodes, w, order0, index, order)
    requires Walked(nodes, v, order, index', order') && Framed(index, index', ids)
    requires forall j :: 0 <= j < |w| ==> w[j].id !in ids
    ensures Walked(nodes, w + v, order0, index', order')
  {
    assert order'[..|order0|] == order'[..|order|][..|order0|];
    forall j | 0 <= j < |w + v|
      ensures (w + v)[j].id in nodes && order'[|order0| + j] == nodes[(w + v)[j].id]
      ensures (w + v)[j].id in index' && index'[(w + v)[j].id] == |order0| + j
    {
      if j < |w| {
        assert order'[|order0| + j] == order'[..|order|][|order0| + j];
      } else {
        assert (w + v)[j] == v[j - |w|];
      }
    }
  }

  // ---------------------------------------------------------------------
  // `entry` and `exit`

  /** The context of the second loop: the map placed the walk of the root, which has no parent. */
  ghost predicate Listed(nodes: Store, depth: Depths, bound: nat, root: NodeId,
                         index: map<NodeId, nat>, order: seq<SceneNode>)
  {
    Linked(nodes, depth, bound) && root in nodes && nodes[root].parent.None?
    && Walked(nodes, PreOrder(ShapeOf(nodes, depth, bound, root)), [], index, order)
  }

  /**
   * Where the walk goes once the node at `i` and everything below it are
   * done: the position right after its subtree, or -1 at the end of the walk.
   */
  function ExitIndex(p: seq<Shape>, i: int): int
    requires 0 <= i < |p|
  {
    if i + |PreOrder(p[i])| < |p| then i + |PreOrder(p[i])| else -1
  }

  /**
   * What the flattened node at position `i` of the walk `p` says: it is the
   * stored node, at its own position; `entry` is the position of its first
   * child, right after it, or -1; `exit` is `ExitIndex`.
   */
  ghost predicate Placed(nodes: Store, p: seq<Shape>, i: int, f: FlatNode)
    requires 0 <= i < |p|
  {
    p[i].id in nodes && f.node == nodes[p[i].id] && f.flattenedIndex == i
    && (if |p[i].children| > 0 then f.entry == i + 1 && i + 1 < |p| && p[i + 1] == p[i].children[0]
        else f.entry == -1)
    && f.exit == ExitIndex(p, i)
  }

  /** Two positions of a walk without repeated ids that hold the same tree are one. */
  lemma SamePosition(p: seq<Shape>, a: int, b: int)
    requires NoDups(Ids(p)) && 0 <= a < |p| && 0 <= b < |p| && p[a].id == p[b].id
    ensures a == b
  {
    assert Ids(p)[a] == Ids(p)[b];
  }

  /** Every node of the root's walk but the root has a parent. */
  lemma HasParent(nodes: Store, depth: Depths, bound: nat, root: NodeId, pa: int) returns (j: int, k: int)
    requires Linked(nodes, depth, bound) && root in nodes
    requires 0 < pa < |PreOrder(ShapeOf(nodes, depth, bound, root))|
    ensures var p := PreOrder(ShapeOf(nodes, depth, bound, root));
      0 <= j < pa && p[j].id in nodes && nodes[p[j].id].OperationNode?
      && 0 <= k < |nodes[p[j].id].children| && nodes[p[j].id].children[k] == p[pa].id
      && 0 <= k < |p[j].children| && p[j].children[k] == p[pa]
      && p[pa].id in nodes && nodes[p[pa].id].parent == Some(p[j].id)
  {
    var s := ShapeOf(nodes, depth, bound, root);
    j, k := ParentPosition(s, pa);
    WalkCanonical(nodes, depth, bound, root, j);
  }

  /** A node of the root's walk without a parent is the root, whose subtree ends the walk. */
  lemma TopEnd(nodes: Store, depth: Depths, bound: nat, root: NodeId, pa: int)
    requires Linked(nodes, depth, bound) && root in nodes
    requires 0 <= pa < |PreOrder(ShapeOf(nodes, depth, bound, root))|
    requires var p := PreOrder(ShapeOf(nodes, depth, bound, root));
      p[pa].id in nodes && nodes[p[pa].id].parent.None?
    ensures var p := PreOrder(ShapeOf(nodes, depth, bound, root));
      pa + |PreOrder(p[pa])| == |p|
  {
    if pa > 0 {
      var j, k := HasParent(nodes, depth, bound, root, pa);
    }
  }

  /**
   * One step up from the node at `pa`: its parent `g` sits at `j`, the node
   * is child `k` of `g`, and either its next sibling starts right after its
   * subtree, or it is the last child and its subtree ends where `g`'s does.
   */
  lemma UpStep(nodes: Store, depth: Depths, bound: nat, root: NodeId,
               index: map<NodeId, nat>, order: seq<SceneNode>, p: seq<Shape>, pa: int) returns (j: int, k: int)
    requires Listed(nodes, depth, bound, root, index, order) && p == PreOrder(ShapeOf(nodes, depth, bound, root))
    requires 0 <= pa < |p| && p[pa].id in nodes && nodes[p[pa].id].parent.Some?
    ensures var a := p[pa].id;
      var g := nodes[a].parent.value;
      var ps := nodes[g].children;
      g in nodes && nodes[g].OperationNode? && 0 <= j < |p| && p[j].id == g
      && IndexOf(ps, a) == k && 0 <= k < |ps|
      && (k < |ps| - 1 ==>
            ps[k + 1] in index && index[ps[k + 1]] == pa + |PreOrder(p[pa])| && pa + |PreOrder(p[pa])| < |p|)
      && (k == |ps| - 1 ==> pa + |PreOrder(p[pa])| == j + |PreOrder(p[j])|)
  {
    j, k := UpShape(nodes, depth, bound, root, p, pa);
    ghost var ps := nodes[p[j].id].children;
    if k < |ps| - 1 {
      ListedAt(nodes, depth, bound, root, index, order, pa + |PreOrder(p[pa])|);
    }
  }

  /** `UpStep` on the walk alone: the next sibling's id sits right after the subtree. */
  lemma UpShape(nodes: Store, depth: Depths, bound: nat, root: NodeId, p: seq<Shape>, pa: int)
    returns (j: int, k: int)
    requires Linked(nodes, depth, bound) && root in nodes && nodes[root].parent.None?
    requires p == PreOrder(ShapeOf(nodes, depth, bound, root))
    requires 0 <= pa < |p| && p[pa].id in nodes && nodes[p[pa].id].parent.Some?
    ensures var a := p[pa].id;
      var g := nodes[a].parent.value;
      var ps := nodes[g].children;
      g in nodes && nodes[g].OperationNode? && 0 <= j < |p| && p[j].id == g
      && IndexOf(ps, a) == k && 0 <= k < |ps|
      && (k < |ps| - 1 ==> pa + |PreOrder(p[pa])| < |p| && p[pa + |PreOrder(p[pa])|].id == ps[k + 1])
      && (k == |ps| - 1 ==> pa + |PreOrder(p[pa])| == j + |PreOrder(p[j])|)
  {
    j, k := UpParent(nodes, depth, bound, root, p, pa);
    AfterChild(ShapeOf(nodes, depth, bound, root), p, pa, j, k);
    ChildId(nodes, depth, bound, root, j, k + 1);
  }

  /** The parent of the node at `pa` sits at `j` of the walk and lists the node once, at `k`. */
  lemma UpParent(nodes: Store, depth: Depths, bound: nat, root: NodeId, p: seq<Shape>, pa: int)
    returns (j: int, k: int)
    requires Linked(nodes, depth, bound) && root in nodes && nodes[root].parent.None?
    requires p == PreOrder(ShapeOf(nodes, depth, bound, root))
    requires 0 <= pa < |p| && p[pa].id in nodes && nodes[p[pa].id].parent.Some?
    ensures NoDups(Ids(p)) && 0 <= j < |p| && p[j].id in nodes && nodes[p[j].id].OperationNode?
    ensures nodes[p[pa].id].parent.value == p[j].id
    ensures IndexOf(nodes[p[j].id].children, p[pa].id) == k && 0 <= k < |nodes[p[j].id].children|
    ensures k < |p[j].children| && p[j].children[k] == p[pa]
  {
    assert p[0] == ShapeOf(nodes, depth, bound, root);
    WalkDistinct(nodes, depth, bound, root);
    j, k := HasParent(nodes, depth, bound, root, pa);
    IndexOfNoDups(nodes[p[j].id].children, k);
  }

  /** The node at `j` of the walk has the stored node's children, child `k` among them. */
  lemma ChildId(nodes: Store, depth: Depths, bound: nat, root: NodeId, j: int, k: int)
    requires Linked(nodes, depth, bound) && root in nodes
    requires 0 <= j < |PreOrder(ShapeOf(nodes, depth, bound, root))|
    requires 0 <= k
    ensures var p := PreOrder(ShapeOf(nodes, depth, bound, root));
      p[j].id in nodes && |p[j].children| == |Kids(nodes[p[j].id])|
      && (k < |p[j].children| ==> p[j].children[k].id == Kids(nodes[p[j].id])[k])
  {
    WalkCanonical(nodes, depth, bound, root, j);
  }

  /** The index map gives every node of the walk its position. */
  lemma ListedAt(nodes: Store, depth: Depths, bound: nat, root: NodeId,
                 index: map<NodeId, nat>, order: seq<SceneNode>, q: int)
    requires Listed(nodes, depth, bound, root, index, order)
    requires 0 <= q < |PreOrder(ShapeOf(nodes, depth, bound, root))|
    ensures var p := PreOrder(ShapeOf(nodes, depth, bound, root));
      p[q].id in nodes && p[q].id in index && index[p[q].id] == q && order[q] == nodes[p[q].id]
  {
  }

  /**
   * In a walk without repeated ids, the subtree of child `k` of the node at
   * `j` is followed by child `k + 1`, or, for the last child, ends where the
   * subtree of the node at `j` ends.
   */
  lemma AfterChild(s: Shape, p: seq<Shape>, i: int, j: int, k: int)
    requires p == PreOrder(s) && NoDups(Ids(p)) && 0 <= i < |p| && 0 <= j < |p|
    requires 0 <= k < |p[j].children| && p[j].children[k] == p[i]
    ensures k < |p[j].children| - 1 ==>
      i + |PreOrder(p[i])| < |p| && p[i + |PreOrder(p[i])|].id == p[j].children[k + 1].id
    ensures k == |p[j].children| - 1 ==> i + |PreOrder(p[i])| == j + |PreOrder(p[j])|
  {
    var ch := p[j].children;
    ChildPosition(s, j, k);
    SamePosition(p, j + 1 + |PreOrderAll(ch[..k])|, i);
    PreOrderAllSnoc(ch, k);
    if k < |ch| - 1 {
      ChildPosition(s, j, k + 1);
    } else {
      assert ch[..k + 1] == ch;
    }
  }


  /**
   * The `exit` of the node at position `i`: the next sibling when there is
   * one, else the loop up the ancestors for the first with a next sibling.
   */
  method NodeExit(nodes: Store, node: SceneNode, index: map<NodeId, nat>, ghost depth: Depths, ghost bound: nat,
                  ghost root: NodeId, ghost order: seq<SceneNode>, ghost i: int) returns (exit: int)
    requires Listed(nodes, depth, bound, root, index, order)
    requires 0 <= i < |PreOrder(ShapeOf(nodes, depth, bound, root))|
    requires var p := PreOrder(ShapeOf(nodes, depth, bound, root)); p[i].id in nodes && node == nodes[p[i].id]
    ensures exit == ExitIndex(PreOrder(ShapeOf(nodes, depth, bound, root)), i)
  {
    ghost var p := PreOrder(ShapeOf(nodes, depth, bound, root));
    exit := -1;
    if node.parent.Some? {
      var parentId := node.parent.value;
      ghost var j, k := UpStep(nodes, depth, bound, root, index, order, p, i);
      if parentId in nodes && nodes[parentId].OperationNode? {
        var siblings := nodes[parentId].children;
        var self := IndexOf(siblings, node.id);
        if self < |siblings| - 1 {
          exit := index[siblings[self + 1]];
        } else {
          exit := AncestorExit(nodes, index, depth, bound, root, order, p, i, node.parent, j);
        }
      }
    } else {
      TopEnd(nodes, depth, bound, root, i);
    }
  }

  /**
   * The loop of `flattenTree` up the ancestors of the node at `i`, starting
   * from its parent at `j`, for the first with a next sibling.
   */
  method AncestorExit(nodes: Store, index: map<NodeId, nat>, ghost depth: Depths, ghost bound: nat,
                      ghost root: NodeId, ghost order: seq<SceneNode>, ghost p: seq<Shape>, ghost i: int,
                      parent: Option<NodeId>, ghost j: int) returns (exit: int)
    requires Listed(nodes, depth, bound, root, index, order) && p == PreOrder(ShapeOf(nodes, depth, bound, root))
    requires 0 <= i < |p| && parent.Some? && parent.value in nodes && 0 <= j < |p| && p[j].id == parent.value
    requires i + |PreOrder(p[i])| == j + |PreOrder(p[j])|
    ensures exit == ExitIndex(p, i)
  {
    exit := -1;
    var ancestor := parent;
    ghost var pa := j;
    while ancestor.Some?
      invariant ancestor.Some? && ancestor.value in nodes && 0 <= pa < |p| && p[pa].id == ancestor.value
      invariant i + |PreOrder(p[i])| == pa + |PreOrder(p[pa])|
      invariant exit == -1
      decreases if ancestor.Some? && ancestor.value in depth then depth[ancestor.value] + 1 else 0
    {
      var a := ancestor.value;
      if a !in nodes || nodes[a].parent.None? {
        TopEnd(nodes, depth, bound, root, pa);
        break;
      }
      var g := nodes[a].parent.value;
      ghost var j', k' := UpStep(nodes, depth, bound, root, index, order, p, pa);
      if g in nodes && nodes[g].OperationNode? {
        var ps := nodes[g].children;
        var pi := IndexOf(ps, a);
        assert pi == k';
        if pi < |ps| - 1 {
          exit := index[ps[pi + 1]];
          break;
        }
      }
      ancestor := nodes[a].parent;
      pa := j';
    }
  }

  /** One pass of the second loop: the flattened node for the node at position `i`. */
  method FlatEntry(nodes: Store, node: SceneNode, index: map<NodeId, nat>, ghost depth: Depths, ghost bound: nat,
                   ghost root: NodeId, ghost order: seq<SceneNode>, ghost i: int) returns (f: FlatNode)
    requires Listed(nodes, depth, bound, root, index, order)
    requires 0 <= i < |PreOrder(ShapeOf(nodes, depth, bound, root))|
    requires var p := PreOrder(ShapeOf(nodes, depth, bound, root)); p[i].id in nodes && node == nodes[p[i].id]
    ensures Placed(nodes, PreOrder(ShapeOf(nodes, depth, bound, root)), i, f)
  {
    ghost var p := PreOrder(ShapeOf(nodes, depth, bound, root));
    EntryAt(nodes, depth, bound, root, index, order, p, i);
    var entry: int := -1;
    var flattenedIndex := index[node.id];
    if node.OperationNode? && |node.children| > 0 {
      entry := index[node.children[0]];
    }
    var exit := NodeExit(nodes, node, index, depth, bound, root, order, i);
    f := FlatNode(node, entry, exit, flattenedIndex);
  }

  /**
   * The node at position `i` of the walk is listed at `i`, and its first
   * child, when it has one, right after it.
   */
  lemma EntryAt(nodes: Store, depth: Depths, bound: nat, root: NodeId,
                index: map<NodeId, nat>, order: seq<SceneNode>, p: seq<Shape>, i: int)
    requires Listed(nodes, depth, bound, root, index, order) && p == PreOrder(ShapeOf(nodes, depth, bound, root))
    requires 0 <= i < |p|
    ensures p[i].id in nodes && p[i].id in index && index[p[i].id] == i
    ensures |p[i].children| == |Kids(nodes[p[i].id])|
    ensures |p[i].children| > 0 ==>
      i + 1 < |p| && p[i + 1] == p[i].children[0]
      && Kids(nodes[p[i].id])[0] in index && index[Kids(nodes[p[i].id])[0]] == i + 1
  {
    var s := ShapeOf(nodes, depth, bound, root);
    ListedAt(nodes, depth, bound, root, index, order, i);
    ChildId(nodes, depth, bound, root, i, 0);
    if |p[i].children| > 0 {
      ChildPosition(s, i, 0);
      assert p[i].children[..0] == [];
      ListedAt(nodes, depth, bound, root, index, order, i + 1);
    }
  }

  /**
   * The loop over `traversalOrder`: one flattened node per listed node, in
   * the order of the walk, each placed as `Placed` says.
   */
  method FlattenWalk(nodes: Store, index: map<NodeId, nat>, order: seq<SceneNode>,
                     ghost depth: Depths, ghost bound: nat, ghost root: NodeId) returns (flat: seq<FlatNode>)
    requires Listed(nodes, depth, bound, root, index, order)
    ensures |flat| == |PreOrder(ShapeOf(nodes, depth, bound, root))|
    ensures forall i :: 0 <= i < |flat| ==> Placed(nodes, PreOrder(ShapeOf(nodes, depth, bound, root)), i, flat[i])
  {
    ghost var p := PreOrder(ShapeOf(nodes, depth, bound, root));
    flat := [];
    for j := 0 to |order|
      invariant |flat| == j
      invariant forall i :: 0 <= i < j ==> Placed(nodes, p, i, flat[i])
    {
      var f := FlatEntry(nodes, order[j], index, depth, bound, root, order, j);
      PlacedSnoc(nodes, p, flat, f);
      flat := flat + [f];
    }
  }

  lemma PlacedSnoc(nodes: Store, p: seq<Shape>, flat: seq<FlatNode>, f: FlatNode)
    requires |flat| < |p| && Placed(nodes, p, |flat|, f)
    requires forall i :: 0 <= i < |flat| ==> Placed(nodes, p, i, flat[i])
    ensures forall i :: 0 <= i < |flat| + 1 ==> Placed(nodes, p, i, (flat + [f])[i])
  {
    forall i | 0 <= i < |flat| + 1
      ensures Placed(nodes, p, i, (flat + [f])[i])
    {
      if i < |flat| {
        assert (flat + [f])[i] == flat[i];
      }
    }
  }
}
