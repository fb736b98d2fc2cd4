/**
 * The CSG tree of the Loro revision, modelled on values. The Loro document is
 * a foreign store; here it is an immutable ordered tree of nodes, each with
 * its Loro id and its data map. The normalised tree `getNormalizedTree`
 * builds is a map from ids to `NormalizedNode` records.
 */
module CsgModel {
  import opened Common
  import opened Geometry

  /** A Loro `TreeID`, written `${counter}@${peer}`. */
  datatype TreeId = TreeId(counter: nat, peer: nat)

  /** The data map of a tree node: a sphere leaf or an operation. */
  datatype CsgNode =
    | LeafNode(name: string, aabb: Aabb, transform: Mat4, scale: real)
    | OperationNode(name: string, aabb: Aabb, op: OpKind, smoothing: real)

  /** The same node data with its box replaced (`node.aabb = newAABB`). */
  function WithBox(d: CsgNode, box: Aabb): (r: CsgNode)
    ensures r.aabb == box && r.LeafNode? == d.LeafNode? && r.name == d.name
    ensures r.LeafNode? ==> r.transform == d.transform && r.scale == d.scale
    ensures r.OperationNode? ==> r.op == d.op && r.smoothing == d.smoothing
  {
    match d
    case LeafNode(name, _, transform, scale) => LeafNode(name, box, transform, scale)
    case OperationNode(name, _, op, smoothing) => OperationNode(name, box, op, smoothing)
  }

  /** A tree node with its ordered children, as `node.children()` lists them. */
  datatype Tree = Tree(id: TreeId, data: CsgNode, children: seq<Tree>)

  function Size(t: Tree): nat
  {
    1 + SizeAll(t.children)
  }

  function SizeAll(ts: seq<Tree>): nat
  {
    if |ts| == 0 then 0 else SizeAll(ts[..|ts| - 1]) + Size(ts[|ts| - 1])
  }

  /** The ids of every node of a tree. */
  function IdSet(t: Tree): set<TreeId>
  {
    {t.id} + IdSetAll(t.children)
  }

  function IdSetAll(ts: seq<Tree>): set<TreeId>
  {
    if |ts| == 0 then {} else IdSetAll(ts[..|ts| - 1]) + IdSet(ts[|ts| - 1])
  }

  /** No id occurs twice in the tree, as Loro guarantees for its own nodes. */
  predicate Distinct(t: Tree)
  {
    t.id !in IdSetAll(t.children) && DistinctAll(t.children)
  }

  predicate DistinctAll(ts: seq<Tree>)
  {
    if |ts| == 0 then true
    else DistinctAll(ts[..|ts| - 1]) && Distinct(ts[|ts| - 1]) && IdSetAll(ts[..|ts| - 1]) !! IdSet(ts[|ts| - 1])
  }

  /** The forest functions, read at an appended tree. */
  lemma ForestSnoc(xs: seq<Tree>, y: Tree)
    ensures SizeAll(xs + [y]) == SizeAll(xs) + Size(y)
    ensures IdSetAll(xs + [y]) == IdSetAll(xs) + IdSet(y)
    ensures DistinctAll(xs + [y]) == (DistinctAll(xs) && Distinct(y) && IdSetAll(xs) !! IdSet(y))
  {
    assert (xs + [y])[..|xs|] == xs;
  }

  /** The forest functions, read at the last tree. */
  lemma ForestLast(cs: seq<Tree>)
    requires |cs| >= 1
    ensures var front, c := cs[..|cs| - 1], cs[|cs| - 1];
      IdSetAll(cs) == IdSetAll(front) + IdSet(c)
      && DistinctAll(cs) == (DistinctAll(front) && Distinct(c) && IdSetAll(front) !! IdSet(c))
  {
  }

  /** The forest functions, read at the last two trees. */
  lemma ForestLast2(cs: seq<Tree>)
    requires |cs| >= 2
    ensures IdSetAll(cs) == IdSetAll(cs[..|cs| - 2]) + IdSet(cs[|cs| - 2]) + IdSet(cs[|cs| - 1])
  {
    var m := |cs|;
    assert cs[..m - 1][..m - 2] == cs[..m - 2];
    assert cs[..m - 1][m - 2] == cs[m - 2];
  }

  lemma ForestLast2Distinct(cs: seq<Tree>)
    requires |cs| >= 2 && DistinctAll(cs)
    ensures var front, a, b := cs[..|cs| - 2], cs[|cs| - 2], cs[|cs| - 1];
      DistinctAll(front) && Distinct(a) && Distinct(b)
      && IdSetAll(front) !! IdSet(a) && IdSetAll(front) !! IdSet(b) && IdSet(a) !! IdSet(b)
  {
    var m := |cs|;
    assert cs[..m - 1][..m - 2] == cs[..m - 2];
    assert cs[..m - 1][m - 2] == cs[m - 2];
  }

  /** A pair of trees as a forest of two. */
  lemma ForestPair(a: Tree, b: Tree)
    ensures SizeAll([a, b]) == Size(a) + Size(b)
    ensures IdSetAll([a, b]) == IdSet(a) + IdSet(b)
    ensures DistinctAll([a, b]) == (Distinct(a) && Distinct(b) && IdSet(a) !! IdSet(b))
  {
    ForestSnoc([], a);
    ForestSnoc([a], b);
    assert [a] + [b] == [a, b];
    assert [] + [a] == [a];
  }

  lemma {:induction false} IdSetAllMember(ts: seq<Tree>, i: int)
    requires 0 <= i < |ts|
    ensures IdSet(ts[i]) <= IdSetAll(ts)
    decreases |ts|
  {
    if i < |ts| - 1 {
      IdSetAllMember(ts[..|ts| - 1], i);
    }
  }

  /** Every id of a forest comes from one of its trees. */
  lemma {:induction false} IdSetAllFind(ts: seq<Tree>, k: TreeId) returns (i: int)
    requires k in IdSetAll(ts)
    ensures 0 <= i < |ts| && k in IdSet(ts[i])
    decreases |ts|
  {
    if k in IdSet(ts[|ts| - 1]) {
      i := |ts| - 1;
    } else {
      i := IdSetAllFind(ts[..|ts| - 1], k);
    }
  }

  lemma {:induction false} DistinctAllPrefix(ts: seq<Tree>, j: int)
    requires DistinctAll(ts) && 0 <= j <= |ts|
    ensures DistinctAll(ts[..j])
    decreases |ts|
  {
    if j < |ts| {
      assert ts[..|ts| - 1][..j] == ts[..j];
      DistinctAllPrefix(ts[..|ts| - 1], j);
    } else {
      assert ts[..j] == ts;
    }
  }

  /** A tree of a distinct forest is distinct, and two of its trees share no id. */
  lemma {:induction false} DistinctAllMember(ts: seq<Tree>, i: int)
    requires DistinctAll(ts) && 0 <= i < |ts|
    ensures Distinct(ts[i])
    ensures forall j :: 0 <= j < |ts| && j != i ==> IdSet(ts[i]) !! IdSet(ts[j])
    decreases |ts|
  {
    var n := |ts| - 1;
    var front := ts[..n];
    if i < n {
      DistinctAllMember(front, i);
      IdSetAllMember(front, i);
    }
    forall j | 0 <= j < |ts| && j != i
      ensures IdSet(ts[i]) !! IdSet(ts[j])
    {
      if i == n {
        IdSetAllMember(front, j);
      } else if j == n {
        IdSetAllMember(front, i);
      } else {
        DistinctAllMember(front, j);
      }
    }
  }

  /** The ids of a sequence of trees, in order. */
  function Ids(ts: seq<Tree>): (ids: seq<TreeId>)
    ensures |ids| == |ts| && forall i :: 0 <= i < |ts| ==> ids[i] == ts[i].id
  {
    seq(|ts|, i requires 0 <= i < |ts| => ts[i].id)
  }

  lemma IdsConcat(a: seq<Tree>, b: seq<Tree>)
    ensures Ids(a + b) == Ids(a) + Ids(b)
  {
  }

  /** An entry of the normalised map: the node's data with its id, parent and child ids. */
  datatype NormalizedNode = NormalizedNode(id: TreeId, parent: Option<TreeId>, data: CsgNode, children: seq<TreeId>)

  type NodeMap = map<TreeId, NormalizedNode>

  function ChildIds(t: Tree): (ids: seq<TreeId>)
    ensures |ids| == |t.children|
    ensures forall i :: 0 <= i < |t.children| ==> ids[i] == t.children[i].id
  {
    seq(|t.children|, i requires 0 <= i < |t.children| => t.children[i].id)
  }

  /** The entry that stands for `t` in a normalised map when its parent is `parent`. */
  function Entry(t: Tree, parent: Option<TreeId>): NormalizedNode
  {
    NormalizedNode(t.id, parent, t.data, ChildIds(t))
  }

  /** The map holds `t`: each node of `t` is stored under its id with its parent and child ids. */
  ghost predicate Holds(nodes: NodeMap, t: Tree, parent: Option<TreeId>)
  {
    t.id in nodes && nodes[t.id] == Entry(t, parent)
    && forall i :: 0 <= i < |t.children| ==> Holds(nodes, t.children[i], Some(t.id))
  }

  /** A map that agrees on every id of `t` holds `t` as well. */
  lemma {:induction false} HoldsFrame(m1: NodeMap, m2: NodeMap, t: Tree, parent: Option<TreeId>)
    requires Holds(m1, t, parent)
    requires forall k :: k in IdSet(t) ==> k in m1 && k in m2 && m2[k] == m1[k]
    ensures Holds(m2, t, parent)
    decreases t
  {
    forall i | 0 <= i < |t.children|
      ensures Holds(m2, t.children[i], Some(t.id))
    {
      IdSetAllMember(t.children, i);
      HoldsFrame(m1, m2, t.children[i], Some(t.id));
    }
  }

  lemma {:induction false} HoldsKeys(nodes: NodeMap, t: Tree, parent: Option<TreeId>)
    requires Holds(nodes, t, parent)
    ensures IdSet(t) <= nodes.Keys
    decreases t
  {
    forall k | k in IdSetAll(t.children)
      ensures k in nodes
    {
      var i := IdSetAllFind(t.children, k);
      HoldsKeys(nodes, t.children[i], Some(t.id));
    }
  }

  /**
   * Parent links in a map that holds `t` are consistent: every child listed
   * by a node names that node as its parent, and every node but the top one
   * is listed by its parent.
   */
  lemma {:induction false} HoldsLinked(nodes: NodeMap, t: Tree, parent: Option<TreeId>, k: TreeId)
    requires Holds(nodes, t, parent) && k in IdSet(t)
    ensures k in nodes
    ensures forall i :: 0 <= i < |nodes[k].children| ==>
      nodes[k].children[i] in IdSet(t) && nodes[k].children[i] in nodes && nodes[nodes[k].children[i]].parent == Some(k)
    ensures k == t.id ==> nodes[k].parent == parent
    ensures k != t.id ==>
      nodes[k].parent.Some? && nodes[k].parent.value in IdSet(t) && nodes[k].parent.value in nodes
      && k in nodes[nodes[k].parent.value].children
    decreases t
  {
    HoldsKeys(nodes, t, parent);
    if k == t.id {
      forall i | 0 <= i < |t.children|
        ensures t.children[i].id in IdSet(t)
      {
        IdSetAllMember(t.children, i);
      }
    } else {
      var i := IdSetAllFind(t.children, k);
      var c := t.children[i];
      IdSetAllMember(t.children, i);
      HoldsLinked(nodes, c, Some(t.id), k);
      if k == c.id {
        assert nodes[t.id].children[i] == k;
      }
    }
  }

  /** Writing a key that is not an id of the tree keeps the map holding it. */
  lemma HoldsOut(nodes: NodeMap, t: Tree, parent: Option<TreeId>, k: TreeId, v: NormalizedNode)
    requires Holds(nodes, t, parent) && k !in IdSet(t)
    ensures Holds(nodes[k := v], t, parent)
  {
    HoldsKeys(nodes, t, parent);
    HoldsFrame(nodes, nodes[k := v], t, parent);
  }

  /** Rewriting the top node's `parent` makes the map hold the tree under the new parent. */
  lemma HoldsReparent(nodes: NodeMap, t: Tree, parent: Option<TreeId>, q: Option<TreeId>)
    requires Holds(nodes, t, parent) && Distinct(t)
    ensures Holds(nodes[t.id := nodes[t.id].(parent := q)], t, q)
  {
    var v := nodes[t.id].(parent := q);
    forall i | 0 <= i < |t.children|
      ensures Holds(nodes[t.id := v], t.children[i], Some(t.id))
    {
      IdSetAllMember(t.children, i);
      HoldsOut(nodes, t.children[i], Some(t.id), t.id, v);
    }
  }

  lemma {:induction false} IdSetAllPrefix(ts: seq<Tree>, j: int)
    requires 0 <= j <= |ts|
    ensures IdSetAll(ts[..j]) <= IdSetAll(ts)
    decreases |ts|
  {
    if j < |ts| {
      assert ts[..|ts| - 1][..j] == ts[..j];
      IdSetAllPrefix(ts[..|ts| - 1], j);
    } else {
      assert ts[..j] == ts;
    }
  }

  /** Replacing one tree of a forest by a tree with the same ids and the same distinctness changes neither. */
  lemma {:induction false} ForestSame(ts: seq<Tree>, k: int, x: Tree)
    requires 0 <= k < |ts| && IdSet(x) == IdSet(ts[k]) && Distinct(x) == Distinct(ts[k])
    ensures IdSetAll(ts[k := x]) == IdSetAll(ts)
    ensures DistinctAll(ts[k := x]) == DistinctAll(ts)
    decreases |ts|
  {
    var n := |ts| - 1;
    var us := ts[k := x];
    assert us[..n] == if k == n then ts[..n] else ts[..n][k := x];
    if k < n {
      ForestSame(ts[..n], k, x);
    }
  }

  /**
   * Replacing one tree of a distinct forest by a distinct tree whose ids are
   * either its predecessor's or new to the forest keeps the forest distinct.
   */
  lemma {:induction false} ForestReplace(ts: seq<Tree>, k: int, x: Tree)
    requires 0 <= k < |ts| && DistinctAll(ts) && Distinct(x)
    requires forall id :: id in IdSet(x) && id !in IdSet(ts[k]) ==> id !in IdSetAll(ts)
    ensures IdSetAll(ts[k := x]) == IdSetAll(ts) - IdSet(ts[k]) + IdSet(x)
    ensures DistinctAll(ts[k := x])
    decreases |ts|
  {
    var n := |ts| - 1;
    var us := ts[k := x];
    IdSetAllMember(ts, k);
    IdSetAllMember(ts, n);
    if k == n {
      assert us[..n] == ts[..n];
    } else {
      assert us[..n] == ts[..n][k := x];
      IdSetAllMember(ts[..n], k);
      DistinctAllMember(ts, k);
      ForestReplace(ts[..n], k, x);
    }
  }

  /** Dropping one tree of a distinct forest keeps it distinct and loses ids only. */
  lemma {:induction false} ForestRemove(ts: seq<Tree>, k: int)
    requires 0 <= k < |ts| && DistinctAll(ts)
    ensures IdSetAll(ts[..k] + ts[k + 1..]) == IdSetAll(ts) - IdSet(ts[k])
    ensures DistinctAll(ts[..k] + ts[k + 1..])
    decreases |ts|
  {
    var n := |ts| - 1;
    var us := ts[..k] + ts[k + 1..];
    IdSetAllMember(ts, k);
    if k == n {
      assert us == ts[..n];
    } else {
      var front := ts[..n][..k] + ts[..n][k + 1..];
      assert us == front + [ts[n]];
      ForestRemove(ts[..n], k);
      ForestSnoc(front, ts[n]);
      DistinctAllMember(ts, k);
      IdSetAllMember(ts, n);
    }
  }
}
