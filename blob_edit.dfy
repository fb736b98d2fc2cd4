/**
 * The edits `SceneGraph` makes to its store, as functions on stores: a new
 * node put in, `addChild` linking it under a parent or dropping it, and
 * `removeNode` cutting out a node with everything below it. The lemmas say
 * that each edit keeps the store linked and which boxes it leaves stale,
 * and that a linked store whose boxes all follow the rule is determined by
 * its structure alone.
 */
module BlobEdit {
  import opened Common
  import opened Geometry
  import opened BlobStore
  import opened BlobShape

  /** A node with its box blanked out. */
  function Blank(n: SceneNode): SceneNode
  {
    n.(aabb := Create())
  }

  lemma UnboxedAt(nodes: Store, k: NodeId)
    requires k in nodes
    ensures Unboxed(nodes)[k] == Blank(nodes[k])
  {
  }

  // ---------------------------------------------------------------------
  // Boxes follow from structure

  /**
   * Two stores with the same structure, both with every box up to date,
   * agree on every box: the box rule leaves no freedom.
   */
  lemma FreshUnique(a: Store, b: Store, depth: Depths, bound: nat)
    requires Linked(a, depth, bound) && Unboxed(a) == Unboxed(b) && AllFresh(a) && AllFresh(b)
    ensures a == b
  {
    forall k | k in a
      ensures a[k] == b[k]
    {
      FreshBox(a, b, depth, bound, k);
      UnboxedAt(a, k);
      UnboxedAt(b, k);
    }
  }

  lemma {:induction false} FreshBox(a: Store, b: Store, depth: Depths, bound: nat, k: NodeId)
    requires Linked(a, depth, bound) && Unboxed(a) == Unboxed(b) && AllFresh(a) && AllFresh(b)
    requires k in a
    ensures k in b && a[k].aabb == b[k].aabb
    decreases bound - depth[k]
  {
    UnboxedAt(a, k);
    UnboxedAt(b, k);
    var n := a[k];
    if n.OperationNode? {
      assert b[k].children == n.children;
      forall i | 0 <= i < |n.children|
        ensures a[n.children[i]].aabb == b[n.children[i]].aabb
      {
        ChildDepth(a, depth, bound, k, i);
        FreshBox(a, b, depth, bound, n.children[i]);
      }
      assert ChildBoxes(a, n.children) == ChildBoxes(b, n.children);
    }
  }

  // ---------------------------------------------------------------------
  // A new node

  /** A node that is in no relation yet: no parent, no children. */
  predicate Lone(n: SceneNode)
  {
    n.parent.None? && Kids(n) == []
  }

  /** Putting in a lone node under a new id keeps the store linked, the node at depth 0. */
  lemma InsertLinked(nodes: Store, depth: Depths, bound: nat, n: SceneNode)
    requires Linked(nodes, depth, bound) && n.id !in nodes && Lone(n)
    ensures Linked(nodes[n.id := n], depth[n.id := 0], if bound == 0 then 1 else bound)
  {
    var r := nodes[n.id := n];
    var d := depth[n.id := 0];
    forall k | k in r && r[k].OperationNode?
      ensures NoDups(r[k].children)
      ensures forall i :: 0 <= i < |r[k].children| ==> r[k].children[i] in r && r[r[k].children[i]].parent == Some(k)
    {
      if k != n.id {
        forall i | 0 <= i < |r[k].children|
          ensures r[k].children[i] != n.id
        {
          assert nodes[k].children[i] in nodes;
        }
      }
    }
  }

  /** A lone node whose box is its rule box keeps every box up to date. */
  lemma InsertFresh(nodes: Store, n: SceneNode)
    requires AllFresh(nodes) && n.id !in nodes && Lone(n) && ChildrenStored(nodes, n) && n.aabb == LiveBox(nodes, n)
    ensures AllFresh(nodes[n.id := n])
  {
    var r := nodes[n.id := n];
    forall k | k in r
      ensures Fresh(r, k)
    {
      if k != n.id && nodes[k].OperationNode? {
        ChildBoxesOther(nodes, n, nodes[k].children);
      }
    }
  }

  lemma ChildBoxesOther(nodes: Store, n: SceneNode, cs: seq<NodeId>)
    requires n.id !in nodes && forall i :: 0 <= i < |cs| ==> cs[i] in nodes
    ensures ChildBoxes(nodes[n.id := n], cs) == ChildBoxes(nodes, cs)
  {
  }

  // ---------------------------------------------------------------------
  // `addChild`

  /**
   * `addChild(parentId, childId)` as written: the child is dropped when the
   * parent is missing or a leaf; nothing happens when the child is missing;
   * otherwise the parent lists the child (once) and then the child, read
   * back from the store, names the parent.
   */
  function AddChildAsWritten(nodes: Store, parentId: NodeId, childId: NodeId): (r: Store)
  {
    if parentId !in nodes then nodes - {childId}
    else if childId !in nodes then nodes
    else if nodes[parentId].LeafNode? then nodes - {childId}
    else
      var p := nodes[parentId];
      var listed := nodes[parentId := p.(children := if childId in p.children then p.children else p.children + [childId])];
      listed[childId := listed[childId].(parent := Some(parentId))]
  }

  /**
   * When the child is the parent, as `addOperationNode` makes it for a
   * `parentId` equal to the id it is about to hand out, the node lists
   * itself and is its own parent: no depths make that store linked, and
   * `updateNodeAABB` on it calls itself on the same node without end.
   */
  lemma AsWrittenSelfParent(nodes: Store, id: NodeId, depth: Depths, bound: nat)
    requires id in nodes && nodes[id].OperationNode?
    ensures var r := AddChildAsWritten(nodes, id, id);
      id in r && r[id].parent == Some(id) && r[id].OperationNode? && id in r[id].children
      && !ParentsLinked(r, depth, bound)
  {
  }

  /** `addChild` with the parent looked up among the other nodes: a node cannot become its own parent. */
  function Adopt(nodes: Store, parentId: NodeId, childId: NodeId): (r: Store)
  {
    if parentId == childId then nodes - {childId} else AddChildAsWritten(nodes, parentId, childId)
  }

  /** Whether `addChild` links the child: the parent is another stored operation and the child is stored. */
  predicate Links(nodes: Store, parentId: NodeId, childId: NodeId)
  {
    parentId in nodes && parentId != childId && childId in nodes && nodes[parentId].OperationNode?
  }

  /**
   * A child the parent does not list, under a stored operation, ends up
   * listed by it exactly once, at the end, and names it as parent; nothing
   * else changes.
   */
  lemma AdoptShape(nodes: Store, parentId: NodeId, childId: NodeId)
    requires Links(nodes, parentId, childId) && childId !in nodes[parentId].children
    ensures var r := Adopt(nodes, parentId, childId);
      r.Keys == nodes.Keys
      && r[childId] == nodes[childId].(parent := Some(parentId))
      && r[parentId] == nodes[parentId].(children := nodes[parentId].children + [childId])
      && (forall k :: k in r && k != parentId && k != childId ==> r[k] == nodes[k])
  {
  }

  /**
   * A lone child under a stored operation ends up listed by it exactly once;
   * with the child one level below the parent, the store stays linked.
   */
  lemma AdoptLinks(nodes: Store, depth: Depths, bound: nat, parentId: NodeId, childId: NodeId)
    requires Linked(nodes, depth, bound) && Links(nodes, parentId, childId) && Lone(nodes[childId])
    ensures var r := Adopt(nodes, parentId, childId);
      r.Keys == nodes.Keys
      && r[childId] == nodes[childId].(parent := Some(parentId))
      && r[parentId] == nodes[parentId].(children := nodes[parentId].children + [childId])
      && NoDups(r[parentId].children) && childId in r[parentId].children
      && (forall k :: k in r && k != parentId && k != childId ==> r[k] == nodes[k])
      && Linked(r, depth[childId := depth[parentId] + 1],
                if depth[parentId] + 2 <= bound then bound else depth[parentId] + 2)
  {
    var r := Adopt(nodes, parentId, childId);
    var d := depth[childId := depth[parentId] + 1];
    var b := if depth[parentId] + 2 <= bound then bound else depth[parentId] + 2;
    assert childId !in nodes[parentId].children;
    AdoptShape(nodes, parentId, childId);
    var cs := nodes[parentId].children + [childId];
    forall i, j | 0 <= i < j < |cs|
      ensures cs[i] != cs[j]
    {
      if j == |cs| - 1 {
        assert cs[i] == nodes[parentId].children[i];
      }
    }
    AdoptParents(nodes, depth, bound, parentId, childId, r, d, b);
    forall k | k in r && r[k].OperationNode?
      ensures NoDups(r[k].children)
      ensures forall i :: 0 <= i < |r[k].children| ==> r[k].children[i] in r && r[r[k].children[i]].parent == Some(k)
    {
      if k != parentId {
        forall i | 0 <= i < |r[k].children|
          ensures r[k].children[i] != childId
        {
          assert nodes[nodes[k].children[i]].parent == Some(k);
        }
      }
    }
  }

  /** The parent half of `AdoptLinks`. */
  lemma AdoptParents(nodes: Store, depth: Depths, bound: nat, parentId: NodeId, childId: NodeId,
                     r: Store, d: Depths, b: nat)
    requires ParentsLinked(nodes, depth, bound) && Links(nodes, parentId, childId) && Lone(nodes[childId])
    requires r.Keys == nodes.Keys
      && r[childId] == nodes[childId].(parent := Some(parentId))
      && r[parentId] == nodes[parentId].(children := nodes[parentId].children + [childId])
      && (forall k :: k in r && k != parentId && k != childId ==> r[k] == nodes[k])
    requires d == depth[childId := depth[parentId] + 1]
    requires b == if depth[parentId] + 2 <= bound then bound else depth[parentId] + 2
    ensures ParentsLinked(r, d, b)
  {
    forall k | k in r
      ensures r[k].id == k && k in d && d[k] < b
    {
    }
    forall k | k in r && r[k].parent.Some?
      ensures r[k].parent.value in r && r[k].parent.value in d
            && r[r[k].parent.value].OperationNode?
            && k in r[r[k].parent.value].children
            && d[k] == d[r[k].parent.value] + 1
    {
      if k != childId {
        assert r[k].parent.value != childId;
      }
    }
  }

  /**
   * `addChild` drops the child, and nothing else, when the parent is
   * missing, is the child, or is a leaf; it changes nothing when the child
   * is missing.
   */
  lemma AdoptDrops(nodes: Store, parentId: NodeId, childId: NodeId)
    ensures !Links(nodes, parentId, childId) ==>
      Adopt(nodes, parentId, childId) == nodes - {childId}
  {
  }

  /** Dropping a lone node keeps the store linked and its boxes up to date. */
  lemma DropLone(nodes: Store, depth: Depths, bound: nat, id: NodeId)
    requires Linked(nodes, depth, bound) && id in nodes && Lone(nodes[id])
    ensures Linked(nodes - {id}, depth, bound)
    ensures AllFresh(nodes) ==> AllFresh(nodes - {id})
  {
    var r := nodes - {id};
    forall k | k in r && r[k].OperationNode?
      ensures forall i :: 0 <= i < |r[k].children| ==> r[k].children[i] != id
    {
      forall i | 0 <= i < |r[k].children|
        ensures r[k].children[i] != id
      {
        assert nodes[nodes[k].children[i]].parent == Some(k);
      }
    }
    if AllFresh(nodes) {
      DropFresh(nodes, r);
    }
  }

  /** Dropping nodes no kept node lists keeps every kept box up to date. */
  lemma DropFresh(nodes: Store, r: Store)
    requires AllFresh(nodes) && r.Keys <= nodes.Keys && (forall k :: k in r ==> r[k] == nodes[k])
    requires forall k :: k in r ==> ChildrenStored(r, r[k])
    ensures AllFresh(r)
  {
    forall k | k in r
      ensures Fresh(r, k)
    {
      if nodes[k].OperationNode? {
        assert ChildBoxes(r, nodes[k].children) == ChildBoxes(nodes, nodes[k].children);
      }
    }
  }

  /**
   * Linking a lone, up-to-date child with no children leaves only the parent
   * stale, and the parent is above the child: `updateNodeAABB` from the
   * child has what it needs.
   */
  lemma AdoptStale(nodes: Store, depth: Depths, bound: nat, parentId: NodeId, childId: NodeId)
    requires Linked(nodes, depth, bound) && Links(nodes, parentId, childId) && Lone(nodes[childId])
    requires AllFresh(nodes)
    ensures var d := depth[childId := depth[parentId] + 1];
      var b := if depth[parentId] + 2 <= bound then bound else depth[parentId] + 2;
      Linked(Adopt(nodes, parentId, childId), d, b)
      && StaleAlong(Adopt(nodes, parentId, childId), d, b, childId)
  {
    var r := Adopt(nodes, parentId, childId);
    var d := depth[childId := depth[parentId] + 1];
    var b := if depth[parentId] + 2 <= bound then bound else depth[parentId] + 2;
    AdoptLinks(nodes, depth, bound, parentId, childId);
    AdoptFresh(nodes, depth, bound, parentId, childId);
    assert Descends(r, d, b, childId, parentId) by {
      assert r[childId].parent == Some(parentId);
      assert Descends(r, d, b, parentId, parentId);
    }
  }

  /** Linking a lone, up-to-date child leaves every box up to date but the parent's. */
  lemma AdoptFresh(nodes: Store, depth: Depths, bound: nat, parentId: NodeId, childId: NodeId)
    requires Linked(nodes, depth, bound) && Links(nodes, parentId, childId) && Lone(nodes[childId])
    requires AllFresh(nodes)
    ensures var r := Adopt(nodes, parentId, childId);
      forall k :: k in r && k != parentId ==> Fresh(r, k)
  {
    assert childId !in nodes[parentId].children;
    forall k | k in Adopt(nodes, parentId, childId) && k != parentId
      ensures Fresh(Adopt(nodes, parentId, childId), k)
    {
      if k != childId {
        Unlisted(nodes, depth, bound, childId, k);
      }
      AdoptFreshAt(nodes, parentId, childId, k);
    }
  }

  lemma AdoptFreshAt(nodes: Store, parentId: NodeId, childId: NodeId, k: NodeId)
    requires Links(nodes, parentId, childId) && Lone(nodes[childId]) && childId !in nodes[parentId].children
    requires k in nodes && k != parentId && Fresh(nodes, k) && (k != childId ==> childId !in Kids(nodes[k]))
    ensures Fresh(Adopt(nodes, parentId, childId), k)
  {
    var r := Adopt(nodes, parentId, childId);
    AdoptShape(nodes, parentId, childId);
    if k != childId && nodes[k].OperationNode? {
      var cs := nodes[k].children;
      assert r[k] == nodes[k];
      forall i | 0 <= i < |cs|
        ensures cs[i] in r && r[cs[i]].aabb == nodes[cs[i]].aabb
      {
        assert cs[i] in nodes && cs[i] != childId;
      }
      ChildBoxesSame(r, nodes, cs);
    }
  }

  /**
   * A store that keeps some of an up-to-date store's nodes with their boxes,
   * and everywhere but at `p` their children and sphere parameters, is up
   * to date everywhere but at `p`, as long as it keeps the children it lists.
   */
  lemma KeptFresh(nodes: Store, r: Store, p: NodeId)
    requires AllFresh(nodes) && r.Keys <= nodes.Keys
    requires forall k :: k in r ==> r[k].aabb == nodes[k].aabb
    requires forall k :: k in r && k != p ==>
      r[k].OperationNode? == nodes[k].OperationNode? && Kids(r[k]) == Kids(nodes[k]) && ChildrenStored(r, r[k])
    requires forall k :: k in r && k != p && r[k].LeafNode? ==> r[k].transform == nodes[k].transform && r[k].scale == nodes[k].scale
    ensures forall k :: k in r && k != p ==> Fresh(r, k)
  {
    forall k | k in r && k != p
      ensures Fresh(r, k)
    {
      if nodes[k].OperationNode? {
        assert r[k].children == nodes[k].children;
        assert ChildBoxes(r, nodes[k].children) == ChildBoxes(nodes, nodes[k].children);
      }
    }
  }

  // ---------------------------------------------------------------------
  // `updateLeafNodeProperties`

  /** `Object.assign(leaf, newProps)` for the given parameters. */
  function Assign(n: SceneNode, transform: Option<Mat4>, scale: Option<real>): (r: SceneNode)
    requires n.LeafNode?
    ensures r.LeafNode? && r.id == n.id && r.name == n.name && r.parent == n.parent && r.aabb == n.aabb
    ensures r.transform == (if transform.Some? then transform.value else n.transform)
    ensures r.scale == (if scale.Some? then scale.value else n.scale)
  {
    n.(transform := if transform.Some? then transform.value else n.transform,
       scale := if scale.Some? then scale.value else n.scale)
  }

  /** New sphere parameters on an up-to-date leaf leave only the leaf stale, and no link changes. */
  lemma AssignStale(nodes: Store, depth: Depths, bound: nat, id: NodeId, transform: Option<Mat4>, scale: Option<real>)
    requires Linked(nodes, depth, bound) && AllFresh(nodes) && id in nodes && nodes[id].LeafNode?
    ensures var r := nodes[id := Assign(nodes[id], transform, scale)];
      Linked(r, depth, bound) && StaleAlong(r, depth, bound, id)
  {
    var r := nodes[id := Assign(nodes[id], transform, scale)];
    AssignLinked(nodes, depth, bound, id, r[id]);
    KeptFresh(nodes, r, id);
    assert Descends(r, depth, bound, id, id);
  }

  /** A leaf replaced by one with the same id and parent keeps every link. */
  lemma AssignLinked(nodes: Store, depth: Depths, bound: nat, id: NodeId, n: SceneNode)
    requires Linked(nodes, depth, bound) && id in nodes && nodes[id].LeafNode?
    requires n.LeafNode? && n.id == id && n.parent == nodes[id].parent
    ensures Linked(nodes[id := n], depth, bound)
  {
    var r := nodes[id := n];
    forall k | k in r && r[k].OperationNode?
      ensures NoDups(r[k].children)
      ensures forall i :: 0 <= i < |r[k].children| ==> r[k].children[i] in r && r[r[k].children[i]].parent == Some(k)
    {
      assert r[k] == nodes[k];
    }
  }

  // ---------------------------------------------------------------------
  // `removeNode`

  /** `children.filter((id) => id !== x)`. */
  function Without(xs: seq<NodeId>, x: NodeId): (r: seq<NodeId>)
    ensures forall y :: y in r <==> y in xs && y != x
    ensures NoDups(xs) ==> NoDups(r)
    decreases |xs|
  {
    if |xs| == 0 then []
    else
      var rest := Without(xs[1..], x);
      assert xs[0] !in xs[1..] ==> xs[0] !in rest;
      if xs[0] == x then rest else [xs[0]] + rest
  }

  /** Filtering out an id that is not there changes nothing. */
  lemma {:induction false} WithoutAbsent(xs: seq<NodeId>, x: NodeId)
    requires x !in xs
    ensures Without(xs, x) == xs
    decreases |xs|
  {
    if |xs| > 0 {
      WithoutAbsent(xs[1..], x);
    }
  }

  /**
   * Filtering one id out of ids without repeats removes it at its place and
   * keeps every other id in its order.
   */
  lemma {:induction false} WithoutOrder(xs: seq<NodeId>, k: int)
    requires NoDups(xs) && 0 <= k < |xs|
    ensures Without(xs, xs[k]) == xs[..k] + xs[k + 1..]
    decreases k
  {
    if k == 0 {
      WithoutFirst(xs);
    } else {
      var t := xs[1..];
      assert NoDups(t) by {
        forall i, j | 0 <= i < j < |t|
          ensures t[i] != t[j]
        {
          assert t[i] == xs[i + 1] && t[j] == xs[j + 1];
        }
      }
      assert t[k - 1] == xs[k];
      WithoutOrder(t, k - 1);
      assert [xs[0]] + t[..k - 1] == xs[..k];
      assert t[k..] == xs[k + 1..];
    }
  }

  /** Filtering out the first of ids without repeats leaves the rest. */
  lemma WithoutFirst(xs: seq<NodeId>)
    requires NoDups(xs) && |xs| > 0
    ensures Without(xs, xs[0]) == xs[1..]
  {
    assert xs[0] !in xs[1..] by {
      forall j | 0 <= j < |xs[1..]|
        ensures xs[1..][j] != xs[0]
      {
        assert xs[1..][j] == xs[j + 1];
      }
    }
    WithoutAbsent(xs[1..], xs[0]);
  }

  /**
   * What `removeNode(id)` leaves, boxes aside: the nodes not below `id`,
   * with `id` filtered out of its parent's children.
   */
  ghost function Pruned(nodes: Store, depth: Depths, bound: nat, id: NodeId): Store
    requires ParentsLinked(nodes, depth, bound) && id in nodes
  {
    map k | k in nodes && !Descends(nodes, depth, bound, k, id) ::
      if nodes[id].parent == Some(k) && nodes[k].OperationNode?
      then nodes[k].(children := Without(nodes[k].children, id))
      else nodes[k]
  }

  /** `k` lies below one of the first `i` of the ids `cs`. */
  ghost predicate Gone(nodes: Store, depth: Depths, bound: nat, cs: seq<NodeId>, i: int, k: NodeId)
    requires ParentsLinked(nodes, depth, bound) && k in nodes
  {
    exists j :: 0 <= j < i && j < |cs| && Descends(nodes, depth, bound, k, cs[j])
  }

  /** Below a node are the node itself and what is below its children. */
  lemma {:induction false} DescendsChildren(nodes: Store, depth: Depths, bound: nat, id: NodeId, k: NodeId)
    requires Linked(nodes, depth, bound) && id in nodes && k in nodes
    ensures Descends(nodes, depth, bound, k, id) <==>
      k == id || Gone(nodes, depth, bound, Kids(nodes[id]), |Kids(nodes[id])|, k)
    decreases depth[k]
  {
    var cs := Kids(nodes[id]);
    if k != id && Descends(nodes, depth, bound, k, id) {
      var g := nodes[k].parent.value;
      if g == id {
        var j :| 0 <= j < |cs| && cs[j] == k;
        assert Descends(nodes, depth, bound, k, cs[j]);
      } else {
        DescendsChildren(nodes, depth, bound, id, g);
        var j :| 0 <= j < |cs| && Descends(nodes, depth, bound, g, cs[j]);
        assert Descends(nodes, depth, bound, k, cs[j]);
      }
    }
    if Gone(nodes, depth, bound, cs, |cs|, k) {
      var j :| 0 <= j < |cs| && Descends(nodes, depth, bound, k, cs[j]);
      DescendsTrans(nodes, depth, bound, k, cs[j], id);
    }
  }

  /** An operation with its children replaced; a leaf as it is. */
  function WithKids(n: SceneNode, cs: seq<NodeId>): SceneNode
  {
    if n.OperationNode? then n.(children := cs) else n
  }

  /**
   * The state of `removeNode(id)`'s loop after its first `i` children are
   * removed: what was below them is gone, `id` lists the rest of its
   * children, and everything else is as it was, boxes aside.
   */
  ghost predicate Pruning(o: Store, cur: Store, depth: Depths, bound: nat, id: NodeId, i: int)
  {
    Linked(o, depth, bound) && id in o && 0 <= i <= |Kids(o[id])|
    && (forall k :: k in cur <==> k in o && !Gone(o, depth, bound, Kids(o[id]), i, k))
    && id in cur && Blank(cur[id]) == Blank(WithKids(o[id], Kids(o[id])[i..]))
    && (forall k :: k in cur && k != id ==> Blank(cur[k]) == Blank(o[k]))
  }

  /** Before the loop. */
  lemma PruningStart(o: Store, depth: Depths, bound: nat, id: NodeId)
    requires Linked(o, depth, bound) && id in o
    ensures Pruning(o, o, depth, bound, id, 0)
  {
    assert Kids(o[id])[0..] == Kids(o[id]);
  }

  /** While children remain, the next one is stored one level below `id` and names it as parent. */
  lemma PruningNext(o: Store, cur: Store, depth: Depths, bound: nat, id: NodeId, i: int)
    requires Pruning(o, cur, depth, bound, id, i) && i < |Kids(o[id])| && Linked(cur, depth, bound)
    ensures Kids(o[id])[i] in cur && cur[Kids(o[id])[i]].parent == Some(id)
    ensures Kids(o[id])[i] in depth && id in depth && depth[Kids(o[id])[i]] == depth[id] + 1
  {
    assert Blank(cur[id]).OperationNode?;
    assert cur[id].children == Kids(o[id])[i..] by {
      assert Blank(cur[id]).children == cur[id].children;
    }
    assert cur[id].children[0] == Kids(o[id])[i];
  }

  /** One pass of the loop: removing child `i` in full gives the state after `i + 1` children. */
  lemma PruningStep(o: Store, cur: Store, next: Store, depth: Depths, bound: nat, id: NodeId, i: int)
    requires id in o && Pruning(o, cur, depth, bound, id, i) && i < |Kids(o[id])| && Linked(cur, depth, bound)
    requires Kids(o[id])[i] in cur
    requires Unboxed(next) == Unboxed(Pruned(cur, depth, bound, Kids(o[id])[i]))
    ensures Pruning(o, next, depth, bound, id, i + 1)
  {
    var pr := Pruned(cur, depth, bound, Kids(o[id])[i]);
    UnboxedKeys(next, pr);
    PruningKeys(o, cur, next, pr, depth, bound, id, i);
    PruningBlanks(o, cur, next, pr, depth, bound, id, i);
  }

  /** The nodes left after removing child `i` are those below none of the first `i + 1` children. */
  lemma PruningKeys(o: Store, cur: Store, next: Store, pr: Store, depth: Depths, bound: nat, id: NodeId, i: int)
    requires id in o && Pruning(o, cur, depth, bound, id, i) && i < |Kids(o[id])| && Linked(cur, depth, bound)
    requires Kids(o[id])[i] in cur && pr == Pruned(cur, depth, bound, Kids(o[id])[i]) && next.Keys == pr.Keys
    ensures id in next
    ensures forall k :: k in next <==> k in o && !Gone(o, depth, bound, Kids(o[id]), i + 1, k)
  {
    var cs := Kids(o[id]);
    var c := cs[i];
    assert cur[id].children == cs[i..] by {
      assert Blank(cur[id]).children == cur[id].children;
    }
    assert cur[id].children[0] == c;
    assert cur[c].parent == Some(id);
    forall k | k in cur
      ensures Descends(cur, depth, bound, k, c) == Descends(o, depth, bound, k, c)
    {
      forall y | y in cur
        ensures y in o && o[y].parent == cur[y].parent
      {
        assert Blank(o[y]).parent == Blank(cur[y]).parent;
      }
      DescendsFrame(o, cur, depth, bound, k, c);
    }
    DescendsBelow(cur, depth, bound, id, c);
    forall k
      ensures k in next <==> k in o && !Gone(o, depth, bound, cs, i + 1, k)
    {
      if k in o && Gone(o, depth, bound, cs, i + 1, k) && !Gone(o, depth, bound, cs, i, k) {
        assert Descends(o, depth, bound, k, c);
      }
    }
  }

  /** Removing child `i` leaves every other node's links as they were and drops `i` from the front of `id`'s children. */
  lemma PruningBlanks(o: Store, cur: Store, next: Store, pr: Store, depth: Depths, bound: nat, id: NodeId, i: int)
    requires id in o && Pruning(o, cur, depth, bound, id, i) && i < |Kids(o[id])| && Linked(cur, depth, bound)
    requires Kids(o[id])[i] in cur && pr == Pruned(cur, depth, bound, Kids(o[id])[i]) && Unboxed(next) == Unboxed(pr)
    ensures forall k :: k in next && k != id ==> Blank(next[k]) == Blank(o[k])
    ensures id in next ==> Blank(next[id]) == Blank(WithKids(o[id], Kids(o[id])[i + 1..]))
  {
    var cs := Kids(o[id]);
    var c := cs[i];
    assert cur[id].children == cs[i..] by {
      assert Blank(cur[id]).children == cur[id].children;
    }
    assert cur[c].parent == Some(id);
    WithoutFirst(cur[id].children);
    UnboxedKeys(next, pr);
    forall k | k in next
      ensures Blank(next[k]) == (if k == id then Blank(WithKids(o[id], cs[i + 1..])) else Blank(o[k]))
    {
      UnboxedAt(next, k);
      UnboxedAt(pr, k);
    }
  }

  lemma UnboxedKeys(a: Store, b: Store)
    requires Unboxed(a) == Unboxed(b)
    ensures a.Keys == b.Keys
  {
    assert a.Keys == Unboxed(a).Keys;
  }

  /** After the loop, `id` filtered out of its parent's children and deleted. */
  function Unlink(nodes: Store, id: NodeId, parentId: Option<NodeId>): Store
  {
    var cut :=
      if parentId.Some? && parentId.value in nodes && nodes[parentId.value].OperationNode?
      then nodes[parentId.value := nodes[parentId.value].(children := Without(nodes[parentId.value].children, id))]
      else nodes;
    cut - {id}
  }

  /**
   * Once every child is removed, unlinking `id` gives the pruned store; it
   * is linked, and up to date except at the parent, which is above no removed node.
   */
  lemma PruningFinish(o: Store, cur: Store, depth: Depths, bound: nat, id: NodeId)
    requires id in o && Pruning(o, cur, depth, bound, id, |Kids(o[id])|) && Linked(cur, depth, bound) && AllFresh(cur)
    ensures var r := Unlink(cur, id, o[id].parent);
      Linked(r, depth, bound) && Unboxed(r) == Unboxed(Pruned(o, depth, bound, id))
      && (o[id].parent.Some? ==> o[id].parent.value in r && StaleAlong(r, depth, bound, o[id].parent.value))
      && (o[id].parent.None? ==> AllFresh(r))
  {
    assert Kids(Blank(cur[id])) == Kids(cur[id]);
    assert cur[id].parent == o[id].parent by {
      assert Blank(cur[id]).parent == Blank(o[id]).parent;
    }
    FinishShape(o, cur, depth, bound, id);
    FinishFresh(cur, depth, bound, id);
  }

  /** Unlinking `id` once its children are gone leaves the pruned store, boxes aside. */
  lemma FinishShape(o: Store, cur: Store, depth: Depths, bound: nat, id: NodeId)
    requires id in o && Pruning(o, cur, depth, bound, id, |Kids(o[id])|)
    ensures Unboxed(Unlink(cur, id, o[id].parent)) == Unboxed(Pruned(o, depth, bound, id))
  {
    var r := Unlink(cur, id, o[id].parent);
    var pr := Pruned(o, depth, bound, id);
    FinishKeys(o, cur, depth, bound, id);
    forall k | k in r
      ensures Blank(r[k]) == Blank(pr[k])
    {
      FinishAt(o, cur, depth, bound, id, k, r, pr);
    }
    UnboxedSame(r, pr);
  }

  /** Two stores with the same keys and the same nodes, boxes aside, are the same boxes aside. */
  lemma UnboxedSame(a: Store, b: Store)
    requires a.Keys == b.Keys && forall k :: k in a ==> Blank(a[k]) == Blank(b[k])
    ensures Unboxed(a) == Unboxed(b)
  {
    forall k | k in a
      ensures Unboxed(a)[k] == Unboxed(b)[k]
    {
      UnboxedAt(a, k);
      UnboxedAt(b, k);
    }
  }

  /** A node kept by the unlink is the pruned store's node, boxes aside. */
  lemma FinishAt(o: Store, cur: Store, depth: Depths, bound: nat, id: NodeId, k: NodeId, r: Store, pr: Store)
    requires id in o && Pruning(o, cur, depth, bound, id, |Kids(o[id])|)
    requires r == Unlink(cur, id, o[id].parent) && pr == Pruned(o, depth, bound, id)
    requires k in r && k in pr
    ensures Blank(r[k]) == Blank(pr[k])
  {
    assert k in cur && k != id;
    var q := o[id].parent;
    assert Blank(cur[k]) == Blank(o[k]);
    assert cur[k].OperationNode? == o[k].OperationNode? && Kids(cur[k]) == Kids(o[k]) by {
      assert Blank(cur[k]).OperationNode? == Blank(o[k]).OperationNode?;
    }
    if q == Some(k) && o[k].OperationNode? {
      assert r[k] == cur[k].(children := Without(cur[k].children, id));
      assert pr[k] == o[k].(children := Without(o[k].children, id));
    } else {
      assert r[k] == cur[k];
      assert pr[k] == o[k];
    }
  }

  /** Unlinking `id` once its children are gone leaves the nodes not below it. */
  lemma FinishKeys(o: Store, cur: Store, depth: Depths, bound: nat, id: NodeId)
    requires id in o && Pruning(o, cur, depth, bound, id, |Kids(o[id])|)
    ensures Unlink(cur, id, o[id].parent).Keys == Pruned(o, depth, bound, id).Keys
  {
    var r := Unlink(cur, id, o[id].parent);
    var pr := Pruned(o, depth, bound, id);
    forall k
      ensures k in r <==> k in pr
    {
      if k in o {
        DescendsChildren(o, depth, bound, id, k);
      }
    }
  }

  /** Unlinking a childless, up-to-date node leaves only its parent stale. */
  lemma FinishFresh(cur: Store, depth: Depths, bound: nat, id: NodeId)
    requires Linked(cur, depth, bound) && AllFresh(cur) && id in cur && Kids(cur[id]) == []
    ensures var r := Unlink(cur, id, cur[id].parent);
      Linked(r, depth, bound)
      && (cur[id].parent.Some? ==> cur[id].parent.value in r && StaleAlong(r, depth, bound, cur[id].parent.value))
      && (cur[id].parent.None? ==> AllFresh(r))
  {
    var r := Unlink(cur, id, cur[id].parent);
    UnlinkLinked(cur, depth, bound, id);
    var p := if cur[id].parent.Some? then cur[id].parent.value else id;
    forall k | k in r && k != p
      ensures Fresh(r, k)
    {
      Unlisted(cur, depth, bound, id, k);
      UnlinkFreshAt(cur, id, cur[id].parent, r, k);
    }
    if cur[id].parent.Some? {
      assert Descends(r, depth, bound, p, p);
    }
  }

  /** Unlinking `id` deletes it, filters it out of its parent's children and changes nothing else. */
  lemma UnlinkShape(nodes: Store, id: NodeId, q: Option<NodeId>, r: Store)
    requires r == Unlink(nodes, id, q)
    ensures r.Keys == nodes.Keys - {id}
    ensures forall k :: k in r ==> r[k].aabb == nodes[k].aabb
    ensures forall k :: k in r && q == Some(k) && nodes[k].OperationNode? ==>
      r[k] == nodes[k].(children := Without(nodes[k].children, id))
    ensures forall k :: k in r && !(q == Some(k) && nodes[k].OperationNode?) ==> r[k] == nodes[k]
  {
  }

  /** Unlinking a node keeps up to date every node that does not list it. */
  lemma UnlinkFreshAt(cur: Store, id: NodeId, q: Option<NodeId>, r: Store, k: NodeId)
    requires r == Unlink(cur, id, q) && k in r && q != Some(k)
    requires Fresh(cur, k) && id !in Kids(cur[k])
    ensures Fresh(r, k)
  {
    UnlinkShape(cur, id, q, r);
    assert k != id && r[k] == cur[k];
    if cur[k].OperationNode? {
      var cs := cur[k].children;
      forall i | 0 <= i < |cs|
        ensures cs[i] in r
      {
        assert cs[i] in cur && cs[i] != id;
      }
      ChildBoxesSame(r, cur, cs);
    }
  }

  /** A node lists only children that name it as parent. */
  lemma Unlisted(nodes: Store, depth: Depths, bound: nat, id: NodeId, k: NodeId)
    requires Linked(nodes, depth, bound) && id in nodes && k in nodes && nodes[id].parent != Some(k)
    ensures id !in Kids(nodes[k])
  {
  }

  /** Unlinking a node without children keeps the store linked. */
  lemma UnlinkLinked(nodes: Store, depth: Depths, bound: nat, id: NodeId)
    requires Linked(nodes, depth, bound) && id in nodes && Kids(nodes[id]) == []
    ensures Linked(Unlink(nodes, id, nodes[id].parent), depth, bound)
    ensures nodes[id].parent.Some? ==> nodes[id].parent.value in Unlink(nodes, id, nodes[id].parent)
  {
    var q := nodes[id].parent;
    var r := Unlink(nodes, id, q);
    forall k | k in r
      ensures r[k].parent == nodes[k].parent && r[k].parent != Some(id)
    {
    }
    forall k | k in r && r[k].OperationNode?
      ensures NoDups(r[k].children)
      ensures forall i :: 0 <= i < |r[k].children| ==> r[k].children[i] in r && r[r[k].children[i]].parent == Some(k)
    {
      forall i | 0 <= i < |r[k].children|
        ensures r[k].children[i] in nodes[k].children && r[k].children[i] != id
      {
      }
    }
  }
}
