/**
 * `SceneGraph` of the blob revision: a store of scene nodes keyed by id, the
 * root id, and the counter `generateId` hands ids out from. Every method
 * keeps the store linked and every box up to date; each states its new
 * store, boxes aside, as an edit of the old one, which with up-to-date
 * boxes fixes the whole store.
 */
module BlobTree {
  import opened Common
  import opened Geometry
  import opened NodeIds
  import opened GpuRecord
  import opened BlobStore
  import opened BlobShape
  import opened BlobEdit
  import opened BlobFlatten
  import opened BlobSerialize

  /** The root's walk, as `flattenTree` lists it. */
  ghost function Walk(nodes: Store, depth: Depths, bound: nat, root: NodeId): seq<Shape>
    requires Linked(nodes, depth, bound) && root in nodes
  {
    PreOrder(ShapeOf(nodes, depth, bound, root))
  }

  /**
   * `visits` are the calls `traverse` makes to its callback for a walk
   * starting at `top`, which it visits at depth `d`: each node with its
   * depth below `top` added to `d`.
   */
  ghost predicate Visited(nodes: Store, depth: Depths, visits: seq<(SceneNode, nat)>, walk: seq<Shape>, d: nat, top: NodeId)
  {
    |visits| == |walk| && top in depth
    && forall j :: 0 <= j < |walk| ==>
         walk[j].id in nodes && walk[j].id in depth
         && visits[j] == (nodes[walk[j].id], d + depth[walk[j].id] - depth[top])
  }

  /** The root, when there is one, is a stored node without a parent. */
  ghost predicate Rooted(nodes: Store, rootId: Option<NodeId>)
  {
    rootId.Some? ==> rootId.value in nodes && nodes[rootId.value].parent.None?
  }

  /** The empty string is no key, and no id `generateId` has yet to hand out is. */
  ghost predicate Unissued(keys: set<NodeId>, nextId: nat)
  {
    "" !in keys && forall n: nat :: nextId <= n ==> IdOf(n) !in keys
  }

  /** The invariant of a graph's fields but the boxes. */
  ghost predicate ShapedStore(nodes: Store, depth: Depths, bound: nat, rootId: Option<NodeId>, nextId: nat)
  {
    Linked(nodes, depth, bound) && Rooted(nodes, rootId) && Unissued(nodes.Keys, nextId)
  }

  /**
   * Linking a lone child other than the root keeps the invariant, one level
   * below the parent, and leaves only boxes above the child stale.
   */
  lemma LinkFacts(nodes: Store, depth: Depths, bound: nat, rootId: Option<NodeId>, nextId: nat,
                  parentId: NodeId, childId: NodeId)
    returns (r: Store, d: Depths, b: nat)
    requires ShapedStore(nodes, depth, bound, rootId, nextId) && AllFresh(nodes)
    requires Links(nodes, parentId, childId) && Lone(nodes[childId]) && rootId != Some(childId)
    ensures r == Adopt(nodes, parentId, childId)
    ensures ShapedStore(r, d, b, rootId, nextId) && StaleAlong(r, d, b, childId)
  {
    r := Adopt(nodes, parentId, childId);
    d := depth[childId := depth[parentId] + 1];
    b := if depth[parentId] + 2 <= bound then bound else depth[parentId] + 2;
    AdoptStale(nodes, depth, bound, parentId, childId);
    AdoptRooted(nodes, parentId, childId, rootId);
  }

  lemma RootedKept(nodes: Store, r: Store, rootId: Option<NodeId>)
    requires Rooted(nodes, rootId)
    requires rootId.Some? ==> rootId.value in r && r[rootId.value].parent == nodes[rootId.value].parent
    ensures Rooted(r, rootId)
  {
  }

  /** Linking a child other than the root keeps the root and every key. */
  lemma AdoptRooted(nodes: Store, parentId: NodeId, childId: NodeId, rootId: Option<NodeId>)
    requires Links(nodes, parentId, childId) && Rooted(nodes, rootId) && rootId != Some(childId)
    ensures Rooted(Adopt(nodes, parentId, childId), rootId)
    ensures Adopt(nodes, parentId, childId).Keys == nodes.Keys
  {
  }

  lemma UnissuedKept(keys: set<NodeId>, fewer: set<NodeId>, nextId: nat)
    requires Unissued(keys, nextId) && fewer <= keys
    ensures Unissued(fewer, nextId)
  {
  }

  /**
   * The writes at the end of `addChild`: the parent node's `children` gets
   * the child pushed unless it lists it, then the child node's `parent` is set.
   */
  method LinkStore(nodes: Store, parentId: NodeId, childId: NodeId) returns (r: Store)
    requires Links(nodes, parentId, childId)
    ensures r == Adopt(nodes, parentId, childId)
  {
    var parentNode := nodes[parentId];
    r := nodes;
    if childId !in parentNode.children {
      r := r[parentId := parentNode.(children := parentNode.children + [childId])];
    }
    r := r[childId := r[childId].(parent := Some(parentId))];
  }

  /**
   * The end of `removeNode`, once the children are gone: `id` filtered out
   * of its parent's children, then deleted.
   */
  method UnlinkStore(nodes: Store, id: NodeId, parentId: Option<NodeId>) returns (r: Store)
    ensures r == Unlink(nodes, id, parentId)
  {
    r := nodes;
    if parentId.Some? {
      var p := parentId.value;
      if p in r && r[p].OperationNode? {
        r := r[p := r[p].(children := Without(r[p].children, id))];
      }
    }
    r := r - {id};
  }

  /**
   * Unlinking `id` once its children are removed leaves the pruned store,
   * boxes aside, with the invariant kept (the root cleared when it was
   * `id`) and only the boxes from the parent up stale.
   */
  lemma RemoveFacts(o: Store, cur: Store, r: Store, depth: Depths, bound: nat, rootId: Option<NodeId>, nextId: nat, id: NodeId)
    requires ShapedStore(o, depth, bound, rootId, nextId) && id in o
    requires Pruning(o, cur, depth, bound, id, |Kids(o[id])|) && Linked(cur, depth, bound) && AllFresh(cur)
    requires r == Unlink(cur, id, o[id].parent)
    ensures Unboxed(r) == Unboxed(Pruned(o, depth, bound, id))
    ensures ShapedStore(r, depth, bound, if rootId == Some(id) then None else rootId, nextId)
    ensures o[id].parent.Some? ==> o[id].parent.value in r && StaleAlong(r, depth, bound, o[id].parent.value)
    ensures o[id].parent.None? ==> AllFresh(r)
  {
    PruningFinish(o, cur, depth, bound, id);
    RemoveRooted(o, r, depth, bound, rootId, nextId, id);
  }

  /**
   * Removing `id` keeps the root unless it was `id`: the root has no
   * parent, so it lies below no other node.
   */
  lemma RemoveRooted(o: Store, r: Store, depth: Depths, bound: nat, rootId: Option<NodeId>, nextId: nat, id: NodeId)
    requires ParentsLinked(o, depth, bound) && Rooted(o, rootId) && Unissued(o.Keys, nextId)
    requires id in o && Linked(r, depth, bound)
    requires Unboxed(r) == Unboxed(Pruned(o, depth, bound, id))
    ensures ShapedStore(r, depth, bound, if rootId == Some(id) then None else rootId, nextId)
  {
    assert r.Keys == Pruned(o, depth, bound, id).Keys;
    PrunedRooted(o, r, depth, bound, rootId, id);
    UnissuedKept(o.Keys, r.Keys, nextId);
  }

  /** A root other than the pruned node stays, still without a parent. */
  lemma PrunedRooted(o: Store, r: Store, depth: Depths, bound: nat, rootId: Option<NodeId>, id: NodeId)
    requires ParentsLinked(o, depth, bound) && Rooted(o, rootId) && id in o
    requires Unboxed(r) == Unboxed(Pruned(o, depth, bound, id))
    ensures Rooted(r, if rootId == Some(id) then None else rootId)
  {
    if rootId.Some? && rootId.value != id {
      var pr := Pruned(o, depth, bound, id);
      var x := rootId.value;
      assert !Descends(o, depth, bound, x, id);
      UnboxedAt(r, x);
      UnboxedAt(pr, x);
      assert Blank(r[x]).parent == Blank(pr[x]).parent;
    }
  }

  /** The node `traverse` starts from: `startNodeId` when it is a non-empty string, else the root. */
  function StartOf(startNodeId: Option<NodeId>, rootId: Option<NodeId>): Option<NodeId>
  {
    if startNodeId.Some? && startNodeId.value != "" then startNodeId else rootId
  }

  /** The visits of a child's walk, one level down, continue the visits of its parent's walk. */
  lemma VisitedConcat(nodes: Store, depth: Depths, visits: seq<(SceneNode, nat)>, w: seq<Shape>, d: nat, top: NodeId,
                      more: seq<(SceneNode, nat)>, v: seq<Shape>, c: NodeId)
    requires Visited(nodes, depth, visits, w, d, top) && Visited(nodes, depth, more, v, d + 1, c)
    requires depth[c] == depth[top] + 1
    ensures Visited(nodes, depth, visits + more, w + v, d, top)
  {
    forall j | 0 <= j < |w + v|
      ensures (w + v)[j].id in nodes && (w + v)[j].id in depth
      ensures (visits + more)[j] == (nodes[(w + v)[j].id], d + depth[(w + v)[j].id] - depth[top])
    {
      if j >= |w| {
        assert (w + v)[j] == v[j - |w|] && (visits + more)[j] == more[j - |w|];
      }
    }
  }

  /** The visits of child `i`'s walk, one level down, extend the visits of the walks before it. */
  lemma VisitedStep(nodes: Store, depth: Depths, bound: nat, top: NodeId, s: Shape, i: int,
                    visits: seq<(SceneNode, nat)>, d: nat, more: seq<(SceneNode, nat)>)
    requires Linked(nodes, depth, bound) && top in nodes && s == ShapeOf(nodes, depth, bound, top)
    requires 0 <= i < |Kids(nodes[top])|
    requires Visited(nodes, depth, visits, [s] + PreOrderAll(s.children[..i]), d, top)
    requires Visited(nodes, depth, more, Walk(nodes, depth, bound, Kids(nodes[top])[i]), d + 1, Kids(nodes[top])[i])
    ensures Visited(nodes, depth, visits + more, [s] + PreOrderAll(s.children[..i + 1]), d, top)
  {
    var c := Kids(nodes[top])[i];
    ChildDepth(nodes, depth, bound, top, i);
    var w, v := WalkSnoc(s, i);
    assert v == Walk(nodes, depth, bound, c);
    VisitedConcat(nodes, depth, visits, w, d, top, more, v, c);
  }

  /** The walk of a tree up to child `i + 1` is that up to child `i`, then child `i`'s walk. */
  lemma WalkSnoc(s: Shape, i: int) returns (w: seq<Shape>, v: seq<Shape>)
    requires 0 <= i < |s.children|
    ensures w == [s] + PreOrderAll(s.children[..i]) && v == PreOrder(s.children[i])
    ensures [s] + PreOrderAll(s.children[..i + 1]) == w + v
  {
    PreOrderAllSnoc(s.children, i);
    var a := PreOrderAll(s.children[..i]);
    w, v := [s] + a, PreOrder(s.children[i]);
    assert ([s] + a) + v == [s] + (a + v);
  }

  class SceneGraph {
    var nodes: Store
    var rootId: Option<NodeId>
    var nextId: nat
    /** How far each node is below the top of its tree, and a bound on that. */
    ghost var depth: Depths
    ghost var bound: nat

    /**
     * The store is linked, the root is a stored node without a parent, the
     * empty string is no key, and no id `generateId` has yet to hand out is.
     */
    ghost predicate Shaped()
      reads this
    {
      ShapedStore(nodes, depth, bound, rootId, nextId)
    }

    /** Linked, and every node has the box the rule gives it. */
    ghost predicate Valid()
      reads this
    {
      Shaped() && AllFresh(nodes)
    }

    /** An empty graph with no root, whose first id is `node-0`. */
    constructor ()
      ensures nodes == map[] && rootId == None && nextId == 0 && Valid()
    {
      nodes := map[];
      rootId := None;
      nextId := 0;
      depth := map[];
      bound := 0;
    }

    /** `generateId`: `node-${nextId}`, then the counter moves on, so no later call returns the same id. */
    method GenerateId() returns (id: NodeId)
      requires Shaped()
      modifies this
      ensures id == IdOf(old(nextId)) && nextId == old(nextId) + 1
      ensures nodes == old(nodes) && rootId == old(rootId) && depth == old(depth) && bound == old(bound)
      ensures Shaped() && id !in nodes && id != ""
      ensures forall n: nat :: nextId <= n ==> IdOf(n) != id
    {
      id := IdOf(nextId);
      nextId := nextId + 1;
      forall n: nat | nextId <= n
        ensures IdOf(n) != id
      {
        IdOfInjective(n, nextId - 1);
      }
    }

    /**
     * `updateNodeAABB(nodeId)`: nothing for an unknown id; else the node
     * gets its sphere box (a leaf) or the zero box grown by each child's
     * box in turn (an operation), and its parent, if any, is updated next.
     */
    method UpdateNodeAabb(id: NodeId)
      requires Shaped()
      modifies this
      ensures rootId == old(rootId) && nextId == old(nextId) && depth == old(depth) && bound == old(bound)
      ensures nodes == Refresh(old(nodes), depth, bound, id)
      ensures Shaped()
      decreases if id in nodes then depth[id] + 1 else 0
    {
      if id !in nodes {
        return;
      }
      var node := nodes[id];
      var newAabb: Aabb;
      if node.LeafNode? {
        newAabb := SphereAabb(node.transform, node.scale);
      } else {
        newAabb := Create();
        for i := 0 to |node.children|
          invariant newAabb == Hull(ChildBoxes(nodes, node.children[..i]))
        {
          var child := nodes[node.children[i]];
          assert ChildBoxes(nodes, node.children[..i + 1])[..i] == ChildBoxes(nodes, node.children[..i]);
          newAabb := ExpandByAabb(newAabb, child.aabb);
        }
        assert node.children[..|node.children|] == node.children;
      }
      ReboxLinked(nodes, depth, bound, id, newAabb);
      nodes := nodes[id := node.(aabb := newAabb)];
      if node.parent.Some? {
        UpdateNodeAabb(node.parent.value);
      }
    }

    /**
     * `addChild(parentId, childId)`, called on a node just put in: the child
     * is dropped when the parent is missing, is the child itself, or is a
     * leaf; otherwise the parent lists it once and it names the parent. Only
     * the parent's box is left stale, and it is above the child.
     */
    method AddChild(parentId: NodeId, childId: NodeId)
      requires Valid() && (childId in nodes ==> Lone(nodes[childId]) && rootId != Some(childId))
      modifies this
      ensures nodes == Adopt(old(nodes), parentId, childId)
      ensures rootId == old(rootId) && nextId == old(nextId)
      ensures Shaped()
      ensures childId in nodes ==> StaleAlong(nodes, depth, bound, childId)
      ensures childId !in nodes ==> AllFresh(nodes)
    {
      if parentId !in nodes || parentId == childId {
        Drop(childId);
        return;
      }
      if childId !in nodes {
        return;
      }
      var parentNode := nodes[parentId];
      if parentNode.LeafNode? {
        Drop(childId);
        return;
      }
      ghost var r, d, b := LinkFacts(nodes, depth, bound, rootId, nextId, parentId, childId);
      Link(parentId, childId, d, b);
    }

    /** `this.nodes.delete(childId)` in `addChild`. */
    method Drop(childId: NodeId)
      requires Valid() && (childId in nodes ==> Lone(nodes[childId]) && rootId != Some(childId))
      modifies this
      ensures nodes == old(nodes) - {childId} && rootId == old(rootId) && nextId == old(nextId)
      ensures Valid()
    {
      var r := nodes - {childId};
      if childId in nodes {
        DropLone(nodes, depth, bound, childId);
      } else {
        assert r == nodes;
      }
      RootedKept(nodes, r, rootId);
      UnissuedKept(nodes.Keys, r.Keys, nextId);
      nodes := r;
    }

    /**
     * The last part of `addChild`: the parent lists the child unless it
     * already does, and the child names the parent; `d` and `b` are the
     * depths the linked graph is measured by.
     */
    method Link(parentId: NodeId, childId: NodeId, ghost d: Depths, ghost b: nat)
      requires Links(nodes, parentId, childId)
      modifies this
      ensures nodes == Adopt(old(nodes), parentId, childId) && depth == d && bound == b
      ensures rootId == old(rootId) && nextId == old(nextId)
    {
      nodes := LinkStore(nodes, parentId, childId);
      depth, bound := d, b;
    }

    /** A new lone node under a fresh id, at depth 0. */
    method Put(n: SceneNode)
      requires Valid() && n.id !in nodes && n.id != "" && Lone(n) && ChildrenStored(nodes, n) && n.aabb == LiveBox(nodes, n)
      requires forall k: nat :: nextId <= k ==> IdOf(k) != n.id
      modifies this
      ensures nodes == old(nodes)[n.id := n] && rootId == old(rootId) && nextId == old(nextId)
      ensures Valid()
    {
      InsertLinked(nodes, depth, bound, n);
      InsertFresh(nodes, n);
      nodes := nodes[n.id := n];
      depth := depth[n.id := 0];
      bound := if bound == 0 then 1 else bound;
    }

    /**
     * `addOperationNode(params, parentId)`: a new operation with no children
     * and the zero box under the next id; linked under `parentId` when one
     * is given (a non-empty string), else made the root when there is none;
     * then its box and those above it are brought up to date.
     */
    method AddOperationNode(name: Option<string>, op: OpKind, smoothing: real, parentId: Option<NodeId>)
      returns (id: NodeId)
      requires Valid()
      modifies this
      ensures Valid()
      ensures id == IdOf(old(nextId)) && nextId == old(nextId) + 1 && id !in old(nodes)
      ensures var placed := old(nodes)[id := OperationNode(id, name, None, Create(), op, smoothing, [])];
        if parentId.Some? && parentId.value != "" then
          Unboxed(nodes) == Unboxed(Adopt(placed, parentId.value, id)) && rootId == old(rootId)
        else
          Unboxed(nodes) == Unboxed(placed) && rootId == (if old(rootId).None? then Some(id) else old(rootId))
    {
      id := GenerateId();
      var newNode := OperationNode(id, name, None, Create(), op, smoothing, []);
      assert Hull(ChildBoxes(nodes, [])) == Create();
      Put(newNode);
      if parentId.Some? && parentId.value != "" {
        AddChild(parentId.value, id);
      } else if rootId.None? {
        rootId := Some(id);
      }
      Settle(id);
    }

    /**
     * `addLeafNode(params, parentId)`: a new leaf with its sphere box under
     * the next id, linked under `parentId` or dropped, then the boxes above
     * it brought up to date.
     */
    method AddLeafNode(name: Option<string>, transform: Mat4, scale: real, parentId: NodeId) returns (id: NodeId)
      requires Valid()
      modifies this
      ensures Valid()
      ensures id == IdOf(old(nextId)) && nextId == old(nextId) + 1 && id !in old(nodes) && rootId == old(rootId)
      ensures var placed := old(nodes)[id := LeafNode(id, name, None, SphereAabb(transform, scale), transform, scale)];
        Unboxed(nodes) == Unboxed(Adopt(placed, parentId, id))
    {
      id := GenerateId();
      var newNode := LeafNode(id, name, None, SphereAabb(transform, scale), transform, scale);
      Put(newNode);
      AddChild(parentId, id);
      Settle(id);
    }

    /** A closing `updateNodeAABB(id)` for a store stale at most from `id` up. */
    method Settle(id: NodeId)
      requires Shaped()
      requires id in nodes ==> StaleAlong(nodes, depth, bound, id)
      requires id !in nodes ==> AllFresh(nodes)
      modifies this
      ensures Valid() && Unboxed(nodes) == Unboxed(old(nodes))
      ensures rootId == old(rootId) && nextId == old(nextId) && depth == old(depth) && bound == old(bound)
    {
      RefreshShape(nodes, depth, bound, id);
      if id in nodes {
        RefreshFresh(nodes, depth, bound, id);
      }
      UpdateNodeAabb(id);
    }

    /**
     * `updateLeafNodeProperties(leafId, newProps)`: nothing unless `leafId`
     * is a stored leaf; else the given parameters are assigned and the boxes
     * from the leaf up are brought up to date.
     */
    method UpdateLeafNodeProperties(leafId: NodeId, transform: Option<Mat4>, scale: Option<real>)
      requires Valid()
      modifies this
      ensures Valid() && rootId == old(rootId) && nextId == old(nextId)
      ensures leafId !in old(nodes) || old(nodes)[leafId].OperationNode? ==> nodes == old(nodes)
      ensures leafId in old(nodes) && old(nodes)[leafId].LeafNode? ==>
        Unboxed(nodes) == Unboxed(old(nodes)[leafId := Assign(old(nodes)[leafId], transform, scale)])
    {
      if leafId !in nodes || nodes[leafId].OperationNode? {
        return;
      }
      AssignStale(nodes, depth, bound, leafId, transform, scale);
      nodes := nodes[leafId := Assign(nodes[leafId], transform, scale)];
      Settle(leafId);
    }

    /**
     * `removeNode(nodeId)`: nothing for an unknown id; else each child is
     * removed in turn, the node is filtered out of its parent's children
     * and deleted, the root is cleared when it was the node, and the boxes
     * from the parent up are brought up to date. Left is the store without
     * the node and everything below it.
     */
    method RemoveNode(id: NodeId)
      requires Valid()
      modifies this
      ensures Valid() && nextId == old(nextId) && depth == old(depth) && bound == old(bound)
      ensures id !in old(nodes) ==> nodes == old(nodes) && rootId == old(rootId)
      ensures id in old(nodes) ==>
        Unboxed(nodes) == Unboxed(Pruned(old(nodes), old(depth), old(bound), id))
        && rootId == (if old(rootId) == Some(id) then None else old(rootId))
      decreases if id in nodes then bound - depth[id] else 0, 1
    {
      if id !in nodes {
        return;
      }
      ghost var o := nodes;
      var nodeToRemove := nodes[id];
      var parentId := nodeToRemove.parent;
      RemoveChildren(id);
      RemoveFacts(o, nodes, Unlink(nodes, id, parentId), depth, bound, rootId, nextId, id);
      Detach(id, parentId);
    }

    /**
     * The rest of `removeNode` once the children are gone: `id` is filtered
     * out of its parent's children and deleted, the root is cleared when it
     * was `id`, and the boxes from the parent up are brought up to date.
     */
    method Detach(id: NodeId, parentId: Option<NodeId>)
      requires ShapedStore(Unlink(nodes, id, parentId), depth, bound, if rootId == Some(id) then None else rootId, nextId)
      requires parentId.Some? ==>
        parentId.value in Unlink(nodes, id, parentId) && StaleAlong(Unlink(nodes, id, parentId), depth, bound, parentId.value)
      requires parentId.None? ==> AllFresh(Unlink(nodes, id, parentId))
      modifies this
      ensures Valid() && nextId == old(nextId) && depth == old(depth) && bound == old(bound)
      ensures Unboxed(nodes) == Unboxed(Unlink(old(nodes), id, parentId))
      ensures rootId == if old(rootId) == Some(id) then None else old(rootId)
    {
      var unlinked := UnlinkStore(nodes, id, parentId);
      nodes := unlinked;
      if rootId == Some(id) {
        rootId := None;
      }
      if parentId.Some? {
        Settle(parentId.value);
      }
    }

    /** The loop of `removeNode` over a copy of the node's children, removing each in turn. */
    method RemoveChildren(id: NodeId)
      requires Valid() && id in nodes
      modifies this
      ensures Valid() && Pruning(old(nodes), nodes, depth, bound, id, |Kids(old(nodes)[id])|)
      ensures depth == old(depth) && bound == old(bound) && nextId == old(nextId) && rootId == old(rootId)
      decreases bound - depth[id], 0
    {
      ghost var o := nodes;
      PruningStart(o, depth, bound, id);
      var node := nodes[id];
      if node.OperationNode? {
        var children := node.children;
        for i := 0 to |children|
          invariant Valid() && Pruning(o, nodes, depth, bound, id, i)
          invariant depth == old(depth) && bound == old(bound) && nextId == old(nextId) && rootId == old(rootId)
        {
          ghost var cur := nodes;
          PruningNext(o, cur, depth, bound, id, i);
          RemoveNode(children[i]);
          PruningStep(o, cur, nodes, depth, bound, id, i);
        }
      }
    }

    /**
     * `traverse(callback, startNodeId, currentDepth)`, with the calls to
     * `callback` as its result: nothing when the start node is missing;
     * else the start node's walk, each node with `currentDepth` plus how far
     * it is below the start.
     */
    method Traverse(startNodeId: Option<NodeId>, currentDepth: nat) returns (visits: seq<(SceneNode, nat)>)
      requires Linked(nodes, depth, bound) && "" !in nodes
      ensures var s := StartOf(startNodeId, rootId);
        if s.Some? && s.value in nodes then Visited(nodes, depth, visits, Walk(nodes, depth, bound, s.value), currentDepth, s.value)
        else visits == []
      decreases var s := StartOf(startNodeId, rootId); if s.Some? && s.value in nodes then bound - depth[s.value] else 0
    {
      var start := StartOf(startNodeId, rootId);
      if start.None? || start.value !in nodes {
        return [];
      }
      var top := start.value;
      var startNode := nodes[top];
      ghost var s := ShapeOf(nodes, depth, bound, top);
      visits := [(startNode, currentDepth)];
      var children := Kids(startNode);
      for i := 0 to |children|
        invariant Visited(nodes, depth, visits, [s] + PreOrderAll(s.children[..i]), currentDepth, top)
      {
        ChildDepth(nodes, depth, bound, top, i);
        var more := Traverse(Some(children[i]), currentDepth + 1);
        VisitedStep(nodes, depth, bound, top, s, i, visits, currentDepth, more);
        visits := visits + more;
      }
      assert s.children[..|children|] == s.children;
    }

    /**
     * `flattenTree()`: nothing without a root; else the root's walk, each
     * node with its own position, the position of its first child, and the
     * position the walk goes on at once the node and all below it are done.
     */
    method FlattenTree() returns (flat: seq<FlatNode>)
      requires Shaped()
      ensures rootId.None? ==> flat == []
      ensures rootId.Some? ==>
        rootId.value in nodes && |flat| == |Walk(nodes, depth, bound, rootId.value)|
        && forall i :: 0 <= i < |flat| ==> Placed(nodes, Walk(nodes, depth, bound, rootId.value), i, flat[i])
    {
      if rootId.None? {
        return [];
      }
      var index, order := Dfs(nodes, rootId.value, depth, bound, map[], []);
      flat := FlattenWalk(nodes, index, order, depth, bound, rootId.value);
    }

    /**
     * `serializeTreeForWebGPU()`: the records of the flattened tree, one
     * after another, 32 slots each; an empty array when there is no root.
     */
    method SerializeTreeForWebGpu() returns (buffer: array<real>, ghost flat: seq<FlatNode>)
      requires Shaped()
      ensures fresh(buffer) && buffer[..] == Concat(Records(flat))
      ensures rootId.None? ==> flat == []
      ensures rootId.Some? ==>
        rootId.value in nodes && |flat| == |Walk(nodes, depth, bound, rootId.value)|
        && forall i :: 0 <= i < |flat| ==> Placed(nodes, Walk(nodes, depth, bound, rootId.value), i, flat[i])
    {
      var flattenedTree := FlattenTree();
      flat := flattenedTree;
      buffer := SerializeFlat(flattenedTree);
    }
  }
}
