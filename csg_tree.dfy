/**
 * `CSGTree`, the Loro-backed scene graph. The Loro document is a foreign
 * store; here its tree is the field `root`, an immutable ordered tree the
 * methods replace, and the global `hasChanges` signal is the field
 * `hasChanges`. A node handle is the path of child positions from the root,
 * and the id Loro gives a new node is a parameter.
 */
module CsgDocument {
  import opened Common
  import opened Geometry
  import opened GpuRecord
  import opened CsgModel
  import opened CsgNormalize
  import opened CsgBounds
  import opened CsgLive
  import opened CsgFlatten
  import opened CsgBuild
  import opened CsgRecalcPass
  import opened CsgFlattenPass
  import opened CsgSerialize

  /** What `getNormalizedTree` builds from `t`, as a tree: normalised, then its boxes recalculated. */
  function NormalizedTree(t: Tree): Tree
  {
    var nt := Normalize(t, 0).0;
    Recalc(nt, Margin(nt))
  }

  /** No id of `t` reads as one of the intermediate ids `999@n` that normalising `t` hands out. */
  predicate ClearOfIntermediates(t: Tree)
  {
    forall k :: k in IdSet(t) ==> !InRange(k, 0, Excess(t))
  }

  /** The keys `updateLeafNodeProperties` may be given: `Partial<LeafParams>`. */
  datatype LeafProps = LeafProps(transform: Option<Mat4>, scale: Option<real>)

  /** The keys `updateOperationNodeProperties` may be given. */
  datatype OpProps = OpProps(name: Option<string>, op: Option<OpKind>, smoothing: Option<real>)

  /** A leaf's data with the given keys overwritten. */
  function WithLeafProps(d: CsgNode, p: LeafProps): CsgNode
    requires d.LeafNode?
  {
    LeafNode(d.name, d.aabb,
             if p.transform.Some? then p.transform.value else d.transform,
             if p.scale.Some? then p.scale.value else d.scale)
  }

  /**
   * A node's data with the given keys set. On a leaf only `name` is a key of
   * the model; `op` and `smoothing` there are keys nothing reads.
   */
  function WithOpProps(d: CsgNode, p: OpProps): CsgNode
  {
    var name := if p.name.Some? then p.name.value else d.name;
    match d
    case OperationNode(_, box, op, smoothing) =>
      OperationNode(name, box, if p.op.Some? then p.op.value else op,
                    if p.smoothing.Some? then p.smoothing.value else smoothing)
    case LeafNode(_, box, transform, scale) => LeafNode(name, box, transform, scale)
  }

  /**
   * The normalised tree has distinct ids, no node with more than two
   * children and no leaf with children. It keeps every source id reachable
   * through operations and holds all of `999@0` ... `999@(e-1)`, `e` being
   * the number of intermediates the tree needs; every id it holds is a
   * source id or one of those.
   */
  lemma NormalizedTreeFacts(t: Tree)
    requires Distinct(t) && ClearOfIntermediates(t)
    ensures Distinct(NormalizedTree(t)) && Binary(NormalizedTree(t)) && Bare(NormalizedTree(t))
    ensures forall k :: k in IdSet(NormalizedTree(t)) ==> k in IdSet(t) || InRange(k, 0, Excess(t))
    ensures forall k :: InRange(k, 0, Excess(t)) ==> k in IdSet(NormalizedTree(t))
    ensures OperandIds(t) <= IdSet(NormalizedTree(t))
  {
    var nt := Normalize(t, 0).0;
    NormalizeKeeps(t, 0);
    NormalizeDistinct(t, 0);
    NormalizeBinary(t, 0);
    NormalizeBare(t, 0);
    NormalizeIds(t, 0);
    NormalizeCount(t, 0);
    RecalcIds(nt, Margin(nt));
    RecalcShape(nt, Margin(nt));
  }

  /** Recalculating boxes keeps every node's children. */
  lemma {:induction false} RecalcShape(t: Tree, margin: real)
    ensures Binary(t) ==> Binary(Recalc(t, margin))
    ensures Bare(t) ==> Bare(Recalc(t, margin))
    decreases t
  {
    var r := Recalc(t, margin);
    forall i | 0 <= i < |r.children|
      ensures Binary(t.children[i]) ==> Binary(r.children[i])
      ensures Bare(t.children[i]) ==> Bare(r.children[i])
    {
      RecalcShape(t.children[i], margin);
    }
  }

  /** In a tree whose leaves have no children the walk meets every node. */
  lemma {:induction false} PreOrderCovers(t: Tree)
    requires Bare(t)
    ensures forall k :: k in IdSet(t) ==> k in Ids(PreOrder(t))
    decreases t
  {
    var rest := if t.data.OperationNode? then PreOrderAll(t.children) else [];
    PreOrderAllCovers(t.children);
    IdsConcat([t], rest);
    forall k | k in IdSet(t)
      ensures k in Ids(PreOrder(t))
    {
      if k == t.id {
        assert Ids(PreOrder(t))[0] == k;
      } else {
        assert k in IdSetAll(t.children);
        assert |t.children| > 0;
        assert k in Ids(rest);
        var i :| 0 <= i < |Ids(rest)| && Ids(rest)[i] == k;
        assert Ids(PreOrder(t))[1 + i] == k;
      }
    }
  }

  lemma {:induction false} PreOrderAllCovers(ts: seq<Tree>)
    requires forall i :: 0 <= i < |ts| ==> Bare(ts[i])
    ensures forall k :: k in IdSetAll(ts) ==> k in Ids(PreOrderAll(ts))
    decreases ts
  {
    if |ts| > 0 {
      var n := |ts| - 1;
      var a := PreOrderAll(ts[..n]);
      PreOrderAllCovers(ts[..n]);
      PreOrderCovers(ts[n]);
      IdsConcat(a, PreOrder(ts[n]));
      forall k | k in IdSetAll(ts)
        ensures k in Ids(PreOrderAll(ts))
      {
        if k in IdSetAll(ts[..n]) {
          var i :| 0 <= i < |Ids(a)| && Ids(a)[i] == k;
          assert Ids(PreOrderAll(ts))[i] == k;
        } else {
          assert k in IdSet(ts[n]);
          assert k in Ids(PreOrder(ts[n]));
          var i :| 0 <= i < |Ids(PreOrder(ts[n]))| && Ids(PreOrder(ts[n]))[i] == k;
          assert Ids(PreOrderAll(ts))[|a| + i] == k;
        }
      }
    }
  }

  /** The records of a flattened list, in order. */
  function Records(flat: seq<FlatNode>): (rs: seq<seq<real>>)
    ensures |rs| == |flat| && forall i :: 0 <= i < |flat| ==> rs[i] == Record(flat[i])
  {
    seq(|flat|, i requires 0 <= i < |flat| => Record(flat[i]))
  }

  /** The loop of `serializeTreeForWebGPU`: one record per flattened node, each at `index * 32`. */
  method SerializeFlat(flattened: seq<FlatNode>) returns (buffer: array<real>)
    ensures fresh(buffer) && buffer[..] == Concat(Records(flattened))
  {
    buffer := new real[|flattened| * RecordSize](_ => 0.0);
    for index := 0 to |flattened|
      invariant buffer[..index * RecordSize] == Concat(Records(flattened[..index]))
    {
      PutRecord(buffer, flattened, index);
    }
    assert flattened[..|flattened|] == flattened;
    assert buffer[..] == buffer[..|flattened| * RecordSize];
  }

  /** One pass of the loop: record `index` placed after the records before it. */
  method PutRecord(buffer: array<real>, flattened: seq<FlatNode>, index: nat)
    requires buffer.Length == |flattened| * RecordSize && index < |flattened|
    requires buffer[..index * RecordSize] == Concat(Records(flattened[..index]))
    modifies buffer
    ensures buffer[..(index + 1) * RecordSize] == Concat(Records(flattened[..index + 1]))
  {
    var at := index * RecordSize;
    var rec := SerializeFlattenedNode(flattened[index]);
    Place(buffer, at, rec);
    RecordsSnoc(flattened, index);
    assert buffer[..at + RecordSize] == buffer[..at] + buffer[at..at + RecordSize];
  }

  /** The records of one more node are those before it followed by its own. */
  lemma RecordsSnoc(flattened: seq<FlatNode>, index: nat)
    requires index < |flattened|
    ensures Concat(Records(flattened[..index + 1])) == Concat(Records(flattened[..index])) + Record(flattened[index])
  {
    var rs := Records(flattened[..index + 1]);
    assert rs[..index] == Records(flattened[..index]);
  }

  /** Record `i` of a serialised list, read from its slice of the buffer. */
  lemma RecordAt(flattened: seq<FlatNode>, i: int)
    requires 0 <= i < |flattened|
    ensures |Concat(Records(flattened))| == RecordSize * |flattened|
    ensures Concat(Records(flattened))[RecordSize * i .. RecordSize * i + RecordSize] == Record(flattened[i])
  {
    var rs := Records(flattened);
    forall j | 0 <= j < |rs| ensures |rs[j]| == RecordSize {
      RecordFields(flattened[j]);
    }
    ConcatSlices(rs, i);
  }

  class CsgTree {
    /** The Loro tree, from the root node down. */
    var root: Tree
    /** The `hasChanges` signal. */
    var hasChanges: bool

    /** Every node has the box the live rule gives it, and Loro's ids are distinct. */
    ghost predicate Valid()
      reads this
    {
      AllFresh(root) && Distinct(root)
    }

    /** A new document whose root is an empty union named "root", with its box set. */
    constructor (rootId: TreeId)
      ensures root == Tree(rootId, OperationNode("root", Create(), Union, 0.0), []) && hasChanges && Valid()
    {
      root := Tree(rootId, OperationNode("root", Create(), Union, 0.0), []);
      hasChanges := false;
      new;
      UpdateNodeAabb([]);
    }

    /**
     * `updateNodeAABB`: the node at `path` gets its sphere box (a leaf) or
     * the union of the zero box and its children's boxes dilated by four
     * times its smoothing (an operation); then its parent is updated, and at
     * the root the change flag is raised.
     */
    method UpdateNodeAabb(path: seq<nat>)
      requires ValidPath(root, path)
      modifies this
      ensures root == Refreshed(old(root), path) && hasChanges
      decreases |path|
    {
      var node := At(root, path);
      var box: Aabb;
      if node.data.LeafNode? {
        box := SphereAabb(node.data.transform, node.data.scale);
      } else {
        box := Create();
        for i := 0 to |node.children|
          invariant box == Hull(Boxes(node.children[..i]))
        {
          assert Boxes(node.children[..i + 1])[..i] == Boxes(node.children[..i]);
          box := ExpandByAabb(box, node.children[i].data.aabb);
        }
        assert node.children[..|node.children|] == node.children;
        box := ExpandByScalar(box, node.data.smoothing * 4.0);
      }
      ghost var t0 := root;
      RefreshedUnfold(t0, path, box);
      root := SetBox(root, path, box);
      if |path| > 0 {
        UpdateNodeAabb(path[..|path| - 1]);
      } else {
        hasChanges := true;
      }
    }

    /** `parent.createNode()`, the data written, then `updateNodeAABB` on the new node. */
    method Attach(p: seq<nat>, c: Tree) returns (path: seq<nat>)
      requires Valid() && ValidPath(root, p) && |c.children| == 0 && c.id !in IdSet(root)
      modifies this
      ensures path == p + [|At(old(root), p).children|]
      ensures root == Refreshed(InsertChild(old(root), p, c), path)
      ensures ValidPath(root, path) && At(root, path) == Tree(c.id, WithBox(c.data, LiveBox(c)), [])
      ensures IdSet(root) == IdSet(old(root)) + {c.id}
      ensures hasChanges && Valid()
    {
      var k := |At(root, p).children|;
      var t1 := InsertChild(root, p, c);
      InsertStale(root, p, c);
      InsertIds(root, p, c);
      root := t1;
      path := p + [k];
      UpdateNodeAabb(path);
      RefreshedFresh(t1, path);
      RefreshedShape(t1, path, path);
      RefreshedAt(t1, path);
    }

    /**
     * `addOperationNode`: a new operation with the zero box as the last child
     * of `parent`, or of the root when no parent is given.
     */
    method AddOperationNode(name: string, op: OpKind, smoothing: real, parent: Option<seq<nat>>, id: TreeId)
      returns (path: seq<nat>)
      requires Valid() && id !in IdSet(root)
      requires parent.Some? ==> ValidPath(root, parent.value)
      modifies this
      ensures var p := if parent.Some? then parent.value else [];
        path == p + [|At(old(root), p).children|]
        && root == Refreshed(InsertChild(old(root), p, Tree(id, OperationNode(name, Create(), op, smoothing), [])), path)
      ensures ValidPath(root, path)
        && At(root, path) == Tree(id, OperationNode(name, ExpandByScalar(Create(), smoothing * 4.0), op, smoothing), [])
      ensures IdSet(root) == IdSet(old(root)) + {id}
      ensures hasChanges && Valid()
    {
      var p := if parent.Some? then parent.value else [];
      var c := Tree(id, OperationNode(name, Create(), op, smoothing), []);
      ghost var box := ExpandByScalar(Create(), smoothing * 4.0);
      assert Hull(Boxes(c.children)) == Create();
      assert LiveBox(c) == box && WithBox(c.data, box) == OperationNode(name, box, op, smoothing);
      path := Attach(p, c);
    }

    /** `addLeafNode`: a new sphere leaf, with its sphere box, as the last child of `parent`. */
    method AddLeafNode(name: string, transform: Mat4, scale: real, parent: seq<nat>, id: TreeId)
      returns (path: seq<nat>)
      requires Valid() && id !in IdSet(root) && ValidPath(root, parent)
      modifies this
      ensures path == parent + [|At(old(root), parent).children|]
      ensures root == Refreshed(InsertChild(old(root), parent,
                                Tree(id, LeafNode(name, SphereAabb(transform, scale), transform, scale), [])), path)
      ensures ValidPath(root, path)
        && At(root, path) == Tree(id, LeafNode(name, SphereAabb(transform, scale), transform, scale), [])
      ensures IdSet(root) == IdSet(old(root)) + {id}
      ensures hasChanges && Valid()
    {
      path := Attach(parent, Tree(id, LeafNode(name, SphereAabb(transform, scale), transform, scale), []));
    }

    /**
     * `removeNode` of child `k` of the node at `parent`: `tree.delete`
     * drops it with everything below it, then the parent's box is updated.
     */
    method RemoveNode(parent: seq<nat>, k: nat)
      requires Valid() && ValidPath(root, parent) && k < |At(root, parent).children|
      modifies this
      ensures root == Refreshed(RemoveChild(old(root), parent, k), parent)
      ensures IdSet(root) == IdSet(old(root)) - IdSet(At(old(root), parent).children[k])
      ensures hasChanges && Valid()
    {
      var t1 := RemoveChild(root, parent, k);
      RemoveStale(root, parent, k);
      RemoveIds(root, parent, k);
      root := t1;
      UpdateNodeAabb(parent);
      RefreshedFresh(t1, parent);
      RefreshedShape(t1, parent, parent);
    }

    /**
     * `updateLeafNodeProperties` as written: `Object.assign(leafNode,
     * newProps)` writes onto the Loro node handle, not onto its data map, so
     * only the box update runs, and in a valid tree it changes nothing.
     */
    method UpdateLeafNodePropertiesAsWritten(path: seq<nat>, props: LeafProps)
      requires Valid() && ValidPath(root, path)
      modifies this
      ensures root == old(root)
      ensures hasChanges == (old(hasChanges) || At(root, path).data.LeafNode?)
    {
      if At(root, path).data.LeafNode? {
        ghost var t0 := root;
        UpdateNodeAabb(path);
        RefreshedFreshSame(t0, path);
      }
    }

    /**
     * `updateLeafNodeProperties` as intended: the given keys are written into
     * the leaf's data, then its box is updated. Anything but a leaf is left alone.
     */
    method UpdateLeafNodeProperties(path: seq<nat>, props: LeafProps)
      requires Valid() && ValidPath(root, path)
      modifies this
      ensures At(old(root), path).data.LeafNode? ==>
        root == Refreshed(SetData(old(root), path, WithLeafProps(At(old(root), path).data, props)), path) && hasChanges
      ensures !At(old(root), path).data.LeafNode? ==> root == old(root) && hasChanges == old(hasChanges)
      ensures IdSet(root) == IdSet(old(root)) && Valid()
    {
      var node := At(root, path);
      if node.data.LeafNode? {
        var t1 := SetData(root, path, WithLeafProps(node.data, props));
        SetDataFacts(root, path, WithLeafProps(node.data, props), path);
        root := t1;
        UpdateNodeAabb(path);
        RefreshedFresh(t1, path);
        RefreshedShape(t1, path, path);
      }
    }

    /** `updateOperationNodeProperties`: the given keys are set on the node's data, then its box is updated. */
    method UpdateOperationNodeProperties(path: seq<nat>, props: OpProps)
      requires Valid() && ValidPath(root, path)
      modifies this
      ensures root == Refreshed(SetData(old(root), path, WithOpProps(At(old(root), path).data, props)), path)
      ensures IdSet(root) == IdSet(old(root)) && hasChanges && Valid()
    {
      var node := At(root, path);
      var t1 := SetData(root, path, WithOpProps(node.data, props));
      SetDataFacts(root, path, WithOpProps(node.data, props), path);
      root := t1;
      UpdateNodeAabb(path);
      RefreshedFresh(t1, path);
      RefreshedShape(t1, path, path);
    }

    /**
     * `getNormalizedTree`: `buildNormalizedTree` from the root into an empty
     * map with the counter at 0, then `recalculateAABBs`. The map holds the
     * normalised tree with its recalculated boxes, and nothing else; the Loro
     * tree is not touched.
     */
    method GetNormalizedTree() returns (nodes: NodeMap, rootId: TreeId)
      requires Valid() && ClearOfIntermediates(root)
      ensures rootId == root.id && Holds(nodes, NormalizedTree(root), None)
      ensures nodes.Keys == IdSet(NormalizedTree(root))
    {
      var built, next;
      ghost var nt := Normalize(root, 0).0;
      rootId, built, next := BuildNormalizedTree(map[], root, None, 0);
      NormalizeDistinct(root, 0);
      NormalizeBare(root, 0);
      nodes := RecalculateAabbs(built, rootId, nt);
      RecalcIds(nt, Margin(nt));
    }

    /**
     * `flattenTree`: the normalised tree listed depth first, one flattened
     * node per node of the normalised map, each placed as `Placed` says.
     */
    method FlattenTree() returns (flat: seq<FlatNode>)
      requires Valid() && ClearOfIntermediates(root)
      ensures |flat| == |PreOrder(NormalizedTree(root))|
      ensures forall i :: 0 <= i < |flat| ==> Placed(NormalizedTree(root), i, flat[i])
      ensures forall k :: k in IdSet(NormalizedTree(root)) ==> k in Ids(PreOrder(NormalizedTree(root)))
    {
      var nodes, rootId := GetNormalizedTree();
      NormalizedTreeFacts(root);
      PreOrderCovers(NormalizedTree(root));
      flat := FlattenNodes(nodes, rootId, NormalizedTree(root));
    }

    /**
     * `serializeTreeForWebGPU`: the records of the flattened list laid end to
     * end, 32 slots each, through `buffer.set(record, index * 32)`. The list
     * is returned alongside, as a ghost.
     */
    method SerializeTreeForWebGpu() returns (buffer: array<real>, ghost flat: seq<FlatNode>)
      requires Valid() && ClearOfIntermediates(root)
      ensures fresh(buffer)
      ensures |flat| == |PreOrder(NormalizedTree(root))|
      ensures forall i :: 0 <= i < |flat| ==> Placed(NormalizedTree(root), i, flat[i])
      ensures buffer[..] == Concat(Records(flat))
    {
      var flattened := FlattenTree();
      flat := flattened;
      buffer := SerializeFlat(flattened);
    }
  }
}
