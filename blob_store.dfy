/**
 * The node store of the blob revision's `SceneGraph`: a map from ids to
 * scene nodes whose `parent` and `children` fields link them into a forest,
 * and the box rule `updateNodeAABB` applies from a node up to its top
 * ancestor. A ghost depth map (a parent one level above its children) stands
 * for the acyclicity of the links.
 */
module BlobStore {
  import opened Common
  import opened Geometry

  type NodeId = string

  /** A `SceneNode`: an operation with its child ids, or a sphere leaf. */
  datatype SceneNode =
    | OperationNode(id: NodeId, name: Option<string>, parent: Option<NodeId>, aabb: Aabb,
                    op: OpKind, smoothing: real, children: seq<NodeId>)
    | LeafNode(id: NodeId, name: Option<string>, parent: Option<NodeId>, aabb: Aabb,
               transform: Mat4, scale: real)

  type Store = map<NodeId, SceneNode>

  type Depths = map<NodeId, nat>

  // ---------------------------------------------------------------------
  // Well-linked stores

  /**
   * Every stored node sits under its own id with a depth below `bound`, and
   * a node's parent is a stored operation that lists it, one level up.
   */
  ghost predicate ParentsLinked(nodes: Store, depth: Depths, bound: nat)
  {
    forall k :: k in nodes ==>
      nodes[k].id == k && k in depth && depth[k] < bound
      && (nodes[k].parent.Some? ==>
            nodes[k].parent.value in nodes && nodes[k].parent.value in depth
            && nodes[nodes[k].parent.value].OperationNode?
            && k in nodes[nodes[k].parent.value].children
            && depth[k] == depth[nodes[k].parent.value] + 1)
  }

  /** An operation lists each child once, and every child it lists is stored and names it as parent. */
  ghost predicate ChildrenLinked(nodes: Store)
  {
    forall k :: k in nodes && nodes[k].OperationNode? ==>
      NoDups(nodes[k].children)
      && forall i :: 0 <= i < |nodes[k].children| ==>
           nodes[k].children[i] in nodes && nodes[nodes[k].children[i]].parent == Some(k)
  }

  ghost predicate Linked(nodes: Store, depth: Depths, bound: nat)
  {
    ParentsLinked(nodes, depth, bound) && ChildrenLinked(nodes)
  }

  /** A node lists its children one level below it, so never itself. */
  lemma ChildDepth(nodes: Store, depth: Depths, bound: nat, k: NodeId, i: int)
    requires Linked(nodes, depth, bound) && k in nodes && nodes[k].OperationNode?
    requires 0 <= i < |nodes[k].children|
    ensures nodes[k].children[i] in nodes && nodes[k].children[i] in depth
    ensures depth[nodes[k].children[i]] == depth[k] + 1 && nodes[k].children[i] != k
  {
  }

  /** `k` is `a` or lies below it: `a` is met going up `k`'s parents. */
  ghost predicate Descends(nodes: Store, depth: Depths, bound: nat, k: NodeId, a: NodeId)
    requires ParentsLinked(nodes, depth, bound) && k in nodes
    decreases depth[k]
  {
    k == a || (nodes[k].parent.Some? && Descends(nodes, depth, bound, nodes[k].parent.value, a))
  }

  /** A node below `a` is deeper than `a`. */
  lemma {:induction false} DescendsDepth(nodes: Store, depth: Depths, bound: nat, k: NodeId, a: NodeId)
    requires ParentsLinked(nodes, depth, bound) && k in nodes && a in nodes
    requires Descends(nodes, depth, bound, k, a)
    ensures depth[a] <= depth[k] && (depth[a] == depth[k] ==> k == a)
    decreases depth[k]
  {
    if k != a {
      DescendsDepth(nodes, depth, bound, nodes[k].parent.value, a);
    }
  }

  /** Only a node at least as deep as `a` can lie below it. */
  lemma DescendsBelow(nodes: Store, depth: Depths, bound: nat, k: NodeId, a: NodeId)
    requires ParentsLinked(nodes, depth, bound) && k in nodes && a in nodes
    ensures Descends(nodes, depth, bound, k, a) ==> depth[a] <= depth[k]
  {
    if Descends(nodes, depth, bound, k, a) {
      DescendsDepth(nodes, depth, bound, k, a);
    }
  }

  /** Of the nodes above a node, there is one at each depth. */
  lemma {:induction false} DescendsUnique(nodes: Store, depth: Depths, bound: nat, k: NodeId, a: NodeId, b: NodeId)
    requires ParentsLinked(nodes, depth, bound) && k in nodes && a in nodes && b in nodes
    requires Descends(nodes, depth, bound, k, a) && Descends(nodes, depth, bound, k, b)
    requires depth[a] == depth[b]
    ensures a == b
    decreases depth[k]
  {
    DescendsDepth(nodes, depth, bound, k, a);
    DescendsDepth(nodes, depth, bound, k, b);
    if k != a && k != b {
      DescendsUnique(nodes, depth, bound, nodes[k].parent.value, a, b);
    }
  }

  /**
   * Going up from `k` meets the same nodes in a store `b` that keeps some of
   * `a`'s nodes with their parents.
   */
  lemma {:induction false} DescendsFrame(a: Store, b: Store, depth: Depths, bound: nat, k: NodeId, x: NodeId)
    requires ParentsLinked(a, depth, bound) && ParentsLinked(b, depth, bound) && k in b
    requires forall y :: y in b ==> y in a && a[y].parent == b[y].parent
    ensures Descends(a, depth, bound, k, x) == Descends(b, depth, bound, k, x)
    decreases depth[k]
  {
    if b[k].parent.Some? {
      DescendsFrame(a, b, depth, bound, b[k].parent.value, x);
    }
  }

  // ---------------------------------------------------------------------
  // The box rule

  /** The current boxes of the listed children. */
  function ChildBoxes(nodes: Store, cs: seq<NodeId>): (bs: seq<Aabb>)
    requires forall i :: 0 <= i < |cs| ==> cs[i] in nodes
    ensures |bs| == |cs| && forall i :: 0 <= i < |cs| ==> bs[i] == nodes[cs[i]].aabb
  {
    seq(|cs|, i requires 0 <= i < |cs| => nodes[cs[i]].aabb)
  }

  /** Stores that agree on the boxes of `cs` give `cs` the same boxes. */
  lemma ChildBoxesSame(a: Store, b: Store, cs: seq<NodeId>)
    requires forall i :: 0 <= i < |cs| ==> cs[i] in a && cs[i] in b && a[cs[i]].aabb == b[cs[i]].aabb
    ensures ChildBoxes(a, cs) == ChildBoxes(b, cs)
  {
  }

  /** Every child an operation lists is stored. */
  predicate ChildrenStored(nodes: Store, n: SceneNode)
  {
    n.OperationNode? ==> forall i :: 0 <= i < |n.children| ==> n.children[i] in nodes
  }

  /**
   * The box `updateNodeAABB` computes for a node: the sphere box of a leaf,
   * and for an operation the zero box grown by each child's current box.
   */
  function LiveBox(nodes: Store, n: SceneNode): Aabb
    requires ChildrenStored(nodes, n)
  {
    if n.LeafNode? then SphereAabb(n.transform, n.scale) else Hull(ChildBoxes(nodes, n.children))
  }

  /** The node stored at `k` has the box the rule gives it. */
  ghost predicate Fresh(nodes: Store, k: NodeId)
  {
    k in nodes && ChildrenStored(nodes, nodes[k]) && nodes[k].aabb == LiveBox(nodes, nodes[k])
  }

  ghost predicate AllFresh(nodes: Store)
  {
    forall k :: k in nodes ==> Fresh(nodes, k)
  }

  /** Every node has its rule box, except perhaps `id` and the nodes above it. */
  ghost predicate StaleAlong(nodes: Store, depth: Depths, bound: nat, id: NodeId)
  {
    ParentsLinked(nodes, depth, bound)
    && forall k :: k in nodes && !(id in nodes && Descends(nodes, depth, bound, id, k)) ==> Fresh(nodes, k)
  }

  /** The store with the node at `id` given the box `box`. */
  function Rebox(nodes: Store, id: NodeId, box: Aabb): (r: Store)
    requires id in nodes
    ensures r.Keys == nodes.Keys
  {
    nodes[id := nodes[id].(aabb := box)]
  }

  /** Changing a box changes no link. */
  lemma ReboxLinked(nodes: Store, depth: Depths, bound: nat, id: NodeId, box: Aabb)
    requires Linked(nodes, depth, bound) && id in nodes
    ensures Linked(Rebox(nodes, id, box), depth, bound)
  {
    var r := Rebox(nodes, id, box);
    forall k | k in r && r[k].OperationNode?
      ensures NoDups(r[k].children)
      ensures forall i :: 0 <= i < |r[k].children| ==> r[k].children[i] in r && r[r[k].children[i]].parent == Some(k)
    {
      assert r[k].children == nodes[k].children;
    }
  }

  /**
   * `updateNodeAABB(id)`: nothing for an unknown id; otherwise the node gets
   * its rule box and, when it has a parent, the parent is updated in turn.
   */
  ghost function Refresh(nodes: Store, depth: Depths, bound: nat, id: NodeId): Store
    requires Linked(nodes, depth, bound)
    decreases if id in nodes then depth[id] + 1 else 0
  {
    if id !in nodes then nodes
    else
      var n := nodes[id];
      var nodes' := Rebox(nodes, id, LiveBox(nodes, n));
      ReboxLinked(nodes, depth, bound, id, LiveBox(nodes, n));
      if n.parent.Some? then Refresh(nodes', depth, bound, n.parent.value) else nodes'
  }

  /** The store with every box blanked out: what is left is the structure. */
  function Unboxed(nodes: Store): (r: map<NodeId, SceneNode>)
    ensures r.Keys == nodes.Keys
  {
    map k | k in nodes :: nodes[k].(aabb := Create())
  }

  /** Updating boxes changes only boxes. */
  lemma {:induction false} RefreshShape(nodes: Store, depth: Depths, bound: nat, id: NodeId)
    requires Linked(nodes, depth, bound)
    ensures Unboxed(Refresh(nodes, depth, bound, id)) == Unboxed(nodes)
    ensures Linked(Refresh(nodes, depth, bound, id), depth, bound)
    decreases if id in nodes then depth[id] + 1 else 0
  {
    if id in nodes {
      var n := nodes[id];
      var nodes' := Rebox(nodes, id, LiveBox(nodes, n));
      ReboxLinked(nodes, depth, bound, id, LiveBox(nodes, n));
      assert Unboxed(nodes') == Unboxed(nodes);
      if n.parent.Some? {
        RefreshShape(nodes', depth, bound, n.parent.value);
      }
    }
  }

  /** The boxes of children other than `id` do not see `id`'s box change. */
  lemma ChildBoxesRebox(nodes: Store, id: NodeId, box: Aabb, cs: seq<NodeId>)
    requires id in nodes && id !in cs && forall i :: 0 <= i < |cs| ==> cs[i] in nodes
    ensures ChildBoxes(Rebox(nodes, id, box), cs) == ChildBoxes(nodes, cs)
  {
  }

  /**
   * Giving `id` its rule box, when only `id` and the nodes above it may be
   * stale, leaves only the nodes above it possibly stale.
   */
  lemma ReboxStale(nodes: Store, depth: Depths, bound: nat, id: NodeId)
    requires Linked(nodes, depth, bound) && id in nodes && StaleAlong(nodes, depth, bound, id)
    ensures var r := Rebox(nodes, id, LiveBox(nodes, nodes[id]));
      Linked(r, depth, bound)
      && (nodes[id].parent.Some? ==> StaleAlong(r, depth, bound, nodes[id].parent.value))
      && (nodes[id].parent.None? ==> AllFresh(r))
  {
    var n := nodes[id];
    var box := LiveBox(nodes, n);
    var r := Rebox(nodes, id, box);
    ReboxLinked(nodes, depth, bound, id, box);
    forall k | k in r && !(n.parent.Some? && Descends(r, depth, bound, n.parent.value, k))
      ensures Fresh(r, k)
    {
      if k == id {
        if n.OperationNode? {
          forall i | 0 <= i < |n.children|
            ensures n.children[i] != id
          {
            ChildDepth(nodes, depth, bound, id, i);
          }
          ChildBoxesRebox(nodes, id, box, n.children);
        }
      } else {
        if n.parent.Some? {
          DescendsFrame(nodes, r, depth, bound, n.parent.value, k);
        }
        assert !Descends(nodes, depth, bound, id, k);
        if nodes[k].OperationNode? {
          assert id !in nodes[k].children;
          ChildBoxesRebox(nodes, id, box, nodes[k].children);
        }
      }
    }
  }

  /** `updateNodeAABB` from a node brings every box up to date when only that node and those above it were stale. */
  lemma {:induction false} RefreshFresh(nodes: Store, depth: Depths, bound: nat, id: NodeId)
    requires Linked(nodes, depth, bound) && StaleAlong(nodes, depth, bound, id)
    ensures AllFresh(Refresh(nodes, depth, bound, id))
    decreases if id in nodes then depth[id] + 1 else 0
  {
    if id in nodes {
      var n := nodes[id];
      ReboxStale(nodes, depth, bound, id);
      if n.parent.Some? {
        RefreshFresh(Rebox(nodes, id, LiveBox(nodes, n)), depth, bound, n.parent.value);
      }
    }
  }

  /** A store with all boxes up to date is stale nowhere. */
  lemma FreshStale(nodes: Store, depth: Depths, bound: nat, id: NodeId)
    requires ParentsLinked(nodes, depth, bound) && AllFresh(nodes)
    ensures StaleAlong(nodes, depth, bound, id)
  {
  }
}
