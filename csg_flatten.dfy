/**
 * The order `flattenTree` visits the normalised tree in (a depth-first walk
 * that descends into operations only) and where each node's children and
 * parent land in it.
 */
module CsgFlatten {
  import opened Common
  import opened CsgModel

  /** The node, then for an operation its children's walks in turn. */
  function PreOrder(t: Tree): seq<Tree>
    decreases t
  {
    [t] + (if t.data.OperationNode? then PreOrderAll(t.children) else [])
  }

  function PreOrderAll(ts: seq<Tree>): seq<Tree>
    decreases ts
  {
    if |ts| == 0 then [] else PreOrderAll(ts[..|ts| - 1]) + PreOrder(ts[|ts| - 1])
  }

  /** The walk of the first `j` trees of a forest is a prefix of the forest's walk. */
  lemma {:induction false} PreOrderAllPrefix(ts: seq<Tree>, j: int)
    requires 0 <= j <= |ts|
    ensures |PreOrderAll(ts[..j])| <= |PreOrderAll(ts)|
    ensures PreOrderAll(ts)[..|PreOrderAll(ts[..j])|] == PreOrderAll(ts[..j])
    decreases |ts| - j
  {
    if j < |ts| {
      var n := |ts| - 1;
      PreOrderAllPrefix(ts[..n], j);
      assert ts[..n][..j] == ts[..j];
      var f := PreOrderAll(ts[..n]);
      assert PreOrderAll(ts) == f + PreOrder(ts[n]);
      assert (f + PreOrder(ts[n]))[..|f|] == f;
    } else {
      assert ts[..j] == ts;
    }
  }

  /** Child `k` of the `i`-th node of a tree's walk sits right after its earlier siblings' walks. */
  lemma ChildPosition(t: Tree, i: int, k: int)
    requires 0 <= i < |PreOrder(t)|
    requires PreOrder(t)[i].data.OperationNode? && 0 <= k < |PreOrder(t)[i].children|
    ensures var u := PreOrder(t)[i];
      i + 1 + |PreOrderAll(u.children[..k])| < |PreOrder(t)|
      && PreOrder(t)[i + 1 + |PreOrderAll(u.children[..k])|] == u.children[k]
  {
    var u := PreOrder(t)[i];
    WalkWithin(t, i);
    var base := PreOrder(u);
    var f := PreOrderAll(u.children[..k]);
    assert base[1 + |f|] == u.children[k] by {
      PreOrderAllPrefix(u.children, k + 1);
      assert u.children[..k + 1][..k] == u.children[..k];
      assert PreOrderAll(u.children[..k + 1]) == f + PreOrder(u.children[k]);
      assert PreOrderAll(u.children)[|f|] == PreOrderAll(u.children[..k + 1])[|f|];
    }
  }

  /** The walk of the `i`-th node of a tree's walk sits in that walk from `i` on. */
  lemma {:induction false} WalkWithin(t: Tree, i: int)
    requires 0 <= i < |PreOrder(t)|
    ensures i + |PreOrder(PreOrder(t)[i])| <= |PreOrder(t)|
    ensures PreOrder(t)[i..i + |PreOrder(PreOrder(t)[i])|] == PreOrder(PreOrder(t)[i])
    decreases t
  {
    if i > 0 {
      var all, kids := PreOrder(t), PreOrderAll(t.children);
      assert t.data.OperationNode? && all == [t] + kids;
      var c, off := Locate(t.children, i - 1);
      var sub := PreOrder(t.children[c]);
      var j := i - 1 - off;
      WalkWithin(t.children[c], j);
      var w := PreOrder(sub[j]);
      assert all[i] == kids[off + j] == sub[j];
      forall m | 0 <= m < |w|
        ensures all[i + m] == w[m]
      {
        assert w[m] == sub[j + m];
        assert all[i + m] == kids[off + (j + m)];
      }
    }
  }

  /**
   * Position `m` of a forest's walk falls in the walk of tree `c`, which
   * starts at `off`, the length of the walks of the trees before it.
   */
  lemma {:induction false} Locate(ts: seq<Tree>, m: int) returns (c: int, off: int)
    requires 0 <= m < |PreOrderAll(ts)|
    ensures 0 <= c < |ts| && off == |PreOrderAll(ts[..c])|
    ensures off <= m < off + |PreOrder(ts[c])|
    ensures off + |PreOrder(ts[c])| <= |PreOrderAll(ts)|
    ensures forall x :: 0 <= x < |PreOrder(ts[c])| ==> PreOrderAll(ts)[off + x] == PreOrder(ts[c])[x]
    decreases |ts|
  {
    var n := |ts| - 1;
    var f := PreOrderAll(ts[..n]);
    assert PreOrderAll(ts) == f + PreOrder(ts[n]);
    if m < |f| {
      c, off := Locate(ts[..n], m);
      assert ts[..n][..c] == ts[..c];
      assert ts[..n][c] == ts[c];
    } else {
      c, off := n, |f|;
    }
  }

  /**
   * Every node of a tree's walk but the first is a child of an earlier
   * operation of the walk, and the map that holds the tree records that
   * operation as its parent.
   */
  lemma {:induction false} ParentPosition(nodes: NodeMap, t: Tree, parent: Option<TreeId>, i: int) returns (j: int)
    requires Holds(nodes, t, parent) && 0 <= i < |PreOrder(t)|
    ensures -1 <= j < i && (j == -1 <==> i == 0)
    ensures i == 0 ==> Holds(nodes, PreOrder(t)[i], parent)
    ensures i > 0 ==>
      PreOrder(t)[j].data.OperationNode? && PreOrder(t)[i] in PreOrder(t)[j].children
      && Holds(nodes, PreOrder(t)[i], Some(PreOrder(t)[j].id))
    decreases t
  {
    if i == 0 {
      j := -1;
    } else {
      var c, off := Locate(t.children, i - 1);
      var sub := PreOrder(t.children[c]);
      assert PreOrder(t)[i] == sub[i - 1 - off];
      var j' := ParentPosition(nodes, t.children[c], Some(t.id), i - 1 - off);
      if j' == -1 {
        j := 0;
      } else {
        j := 1 + off + j';
        assert PreOrder(t)[j] == sub[j'];
      }
    }
  }

  /** The walk holds ids of the tree only, and distinct ones in a tree with distinct ids. */
  lemma {:induction false} PreOrderIds(t: Tree)
    ensures forall i :: 0 <= i < |PreOrder(t)| ==> PreOrder(t)[i].id in IdSet(t)
    ensures Distinct(t) ==> NoDups(Ids(PreOrder(t)))
    decreases t
  {
    var pa := if t.data.OperationNode? then PreOrderAll(t.children) else [];
    PreOrderAllIds(t.children);
    IdsConcat([t], pa);
    if Distinct(t) {
      NoDupsConcat(Ids([t]), Ids(pa));
    }
  }

  lemma {:induction false} PreOrderAllIds(ts: seq<Tree>)
    ensures forall i :: 0 <= i < |PreOrderAll(ts)| ==> PreOrderAll(ts)[i].id in IdSetAll(ts)
    ensures DistinctAll(ts) ==> NoDups(Ids(PreOrderAll(ts)))
    decreases ts
  {
    if |ts| > 0 {
      var n := |ts| - 1;
      var pf := PreOrderAll(ts[..n]);
      var pl := PreOrder(ts[n]);
      PreOrderAllIds(ts[..n]);
      PreOrderIds(ts[n]);
      Snoc(ts);
      ForestSnoc(ts[..n], ts[n]);
      IdsConcat(pf, pl);
      if DistinctAll(ts) {
        NoDupsConcat(Ids(pf), Ids(pl));
      }
    }
  }
}
