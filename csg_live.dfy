/**
 * The live box rule of the Loro-backed tree: `updateNodeAABB` gives a leaf
 * its sphere box and an operation the union of the zero box and its
 * children's boxes dilated by four times its own smoothing, then does the
 * same for the parent, up to the root. Nodes are addressed by the path of
 * child positions from the root.
 */
module CsgLive {
  import opened Geometry
  import opened CsgModel
  import opened CsgBounds

  /** The box `updateNodeAABB` computes for a node from its data and its children's current boxes. */
  function LiveBox(t: Tree): Aabb
  {
    if t.data.LeafNode? then SphereAabb(t.data.transform, t.data.scale)
    else ExpandByScalar(Hull(Boxes(t.children)), t.data.smoothing * 4.0)
  }

  /** A node whose box is what the rule gives it. */
  predicate Fresh(t: Tree)
  {
    t.data.aabb == LiveBox(t)
  }

  ghost predicate AllFresh(t: Tree)
    decreases t
  {
    Fresh(t) && forall i :: 0 <= i < |t.children| ==> AllFresh(t.children[i])
  }

  predicate ValidPath(t: Tree, path: seq<nat>)
    decreases |path|
  {
    |path| == 0 || (path[0] < |t.children| && ValidPath(t.children[path[0]], path[1..]))
  }

  function At(t: Tree, path: seq<nat>): Tree
    requires ValidPath(t, path)
    decreases |path|
  {
    if |path| == 0 then t else At(t.children[path[0]], path[1..])
  }

  /** `node.data.set("aabb", box)` on the node at `path`. */
  function SetBox(t: Tree, path: seq<nat>, box: Aabb): Tree
    requires ValidPath(t, path)
    decreases |path|
  {
    if |path| == 0 then Tree(t.id, WithBox(t.data, box), t.children)
    else Tree(t.id, t.data, t.children[path[0] := SetBox(t.children[path[0]], path[1..], box)])
  }

  lemma {:induction false} PathPrefix(t: Tree, path: seq<nat>, k: int)
    requires ValidPath(t, path) && 0 <= k <= |path|
    ensures ValidPath(t, path[..k])
    decreases |path|
  {
    if k > 0 {
      assert path[..k][1..] == path[1..][..k - 1];
      PathPrefix(t.children[path[0]], path[1..], k - 1);
    }
  }

  /** Setting a box keeps every path valid. */
  lemma {:induction false} SetBoxPath(t: Tree, path: seq<nat>, box: Aabb, q: seq<nat>)
    requires ValidPath(t, path) && ValidPath(t, q)
    ensures ValidPath(SetBox(t, path, box), q)
    decreases |q|
  {
    if |q| > 0 && |path| > 0 && q[0] == path[0] {
      SetBoxPath(t.children[path[0]], path[1..], box, q[1..]);
    }
  }

  /**
   * The tree after `updateNodeAABB` on the node at `path`: that node gets the
   * rule's box, then its parent is updated the same way, up to the root.
   */
  function Refreshed(t: Tree, path: seq<nat>): Tree
    requires ValidPath(t, path)
    decreases |path|
  {
    var t' := SetBox(t, path, LiveBox(At(t, path)));
    if |path| == 0 then t'
    else
      PathPrefix(t, path, |path| - 1);
      SetBoxPath(t, path, LiveBox(At(t, path)), path[..|path| - 1]);
      Refreshed(t', path[..|path| - 1])
  }

  /** One step of `Refreshed`: the node at `path` gets its rule box, then its parent is refreshed. */
  lemma RefreshedUnfold(t: Tree, path: seq<nat>, box: Aabb)
    requires ValidPath(t, path) && box == LiveBox(At(t, path))
    ensures |path| == 0 ==> Refreshed(t, path) == SetBox(t, path, box)
    ensures |path| > 0 ==>
      ValidPath(SetBox(t, path, box), path[..|path| - 1])
      && Refreshed(t, path) == Refreshed(SetBox(t, path, box), path[..|path| - 1])
  {
    if |path| > 0 {
      PathPrefix(t, path, |path| - 1);
      SetBoxPath(t, path, box, path[..|path| - 1]);
    }
  }

  /** Every node off `path` and below its end is fresh: only the nodes on the path may be stale. */
  ghost predicate StaleAlong(t: Tree, path: seq<nat>)
    requires ValidPath(t, path)
    decreases |path|
  {
    if |path| == 0 then forall i :: 0 <= i < |t.children| ==> AllFresh(t.children[i])
    else
      (forall i :: 0 <= i < |t.children| && i != path[0] ==> AllFresh(t.children[i]))
      && StaleAlong(t.children[path[0]], path[1..])
  }

  /** The rule's box depends on the node's data and its children, not on the node's own box. */
  lemma LiveBoxIgnoresBox(t: Tree, box: Aabb)
    ensures LiveBox(Tree(t.id, WithBox(t.data, box), t.children)) == LiveBox(t)
  {
  }

  /** Updating the deepest node of the path leaves only the path's proper prefixes possibly stale. */
  lemma {:induction false} FixDeepest(t: Tree, path: seq<nat>)
    requires ValidPath(t, path) && |path| > 0 && StaleAlong(t, path)
    ensures ValidPath(SetBox(t, path, LiveBox(At(t, path))), path[..|path| - 1])
    ensures StaleAlong(SetBox(t, path, LiveBox(At(t, path))), path[..|path| - 1])
    decreases |path|
  {
    var box := LiveBox(At(t, path));
    var t' := SetBox(t, path, box);
    PathPrefix(t, path, |path| - 1);
    SetBoxPath(t, path, box, path[..|path| - 1]);
    var c := t.children[path[0]];
    if |path| == 1 {
      var c' := t'.children[path[0]];
      assert path[1..] == [];
      assert At(t, path) == At(c, path[1..]) == c;
      assert t' == Tree(t.id, t.data, t.children[path[0] := SetBox(c, path[1..], box)]);
      assert c' == Tree(c.id, WithBox(c.data, box), c.children);
      LiveBoxIgnoresBox(c, box);
      assert AllFresh(c');
      assert path[..0] == [];
    } else {
      FixDeepest(c, path[1..]);
      assert path[..|path| - 1][1..] == path[1..][..|path| - 2];
      assert At(t, path) == At(c, path[1..]);
    }
  }

  /** Updating a node whose stale nodes all lie on its path to the root leaves the whole tree fresh. */
  lemma {:induction false} RefreshedFresh(t: Tree, path: seq<nat>)
    requires ValidPath(t, path) && StaleAlong(t, path)
    ensures AllFresh(Refreshed(t, path))
    decreases |path|
  {
    if |path| == 0 {
      LiveBoxIgnoresBox(t, LiveBox(t));
    } else {
      FixDeepest(t, path);
      RefreshedFresh(SetBox(t, path, LiveBox(At(t, path))), path[..|path| - 1]);
    }
  }

  /** A fresh tree stays fresh along any path: its update changes nothing. */
  lemma {:induction false} FreshStale(t: Tree, path: seq<nat>)
    requires ValidPath(t, path) && AllFresh(t)
    ensures StaleAlong(t, path)
    decreases |path|
  {
    if |path| > 0 {
      FreshStale(t.children[path[0]], path[1..]);
    }
  }

  // ---------------------------------------------------------------------
  // Structural edits of the Loro tree

  /** `parent.createNode()`: the new node becomes the parent's last child. */
  function InsertChild(t: Tree, path: seq<nat>, c: Tree): (r: Tree)
    requires ValidPath(t, path)
    ensures ValidPath(r, path) && ValidPath(r, path + [|At(t, path).children|])
    decreases |path|
  {
    if |path| == 0 then Tree(t.id, t.data, t.children + [c])
    else
      assert (path + [|At(t, path).children|])[1..] == path[1..] + [|At(t, path).children|];
      Tree(t.id, t.data, t.children[path[0] := InsertChild(t.children[path[0]], path[1..], c)])
  }

  /** `tree.delete(node.id)` of child `k` of the node at `path`, with everything below it. */
  function RemoveChild(t: Tree, path: seq<nat>, k: nat): (r: Tree)
    requires ValidPath(t, path) && k < |At(t, path).children|
    ensures ValidPath(r, path)
    decreases |path|
  {
    if |path| == 0 then Tree(t.id, t.data, t.children[..k] + t.children[k + 1..])
    else Tree(t.id, t.data, t.children[path[0] := RemoveChild(t.children[path[0]], path[1..], k)])
  }

  /** After inserting a node whose children are fresh into a fresh tree, only the new node's path may be stale. */
  lemma {:induction false} InsertStale(t: Tree, path: seq<nat>, c: Tree)
    requires ValidPath(t, path) && AllFresh(t)
    requires forall i :: 0 <= i < |c.children| ==> AllFresh(c.children[i])
    ensures var k := |At(t, path).children|;
      ValidPath(InsertChild(t, path, c), path + [k])
      && At(InsertChild(t, path, c), path + [k]) == c
      && StaleAlong(InsertChild(t, path, c), path + [k])
    decreases |path|
  {
    var k := |At(t, path).children|;
    if |path| > 0 {
      InsertStale(t.children[path[0]], path[1..], c);
      assert (path + [k])[1..] == path[1..] + [k];
    }
  }

  /** After removing a subtree from a fresh tree, only the path to its former parent may be stale. */
  lemma {:induction false} RemoveStale(t: Tree, path: seq<nat>, k: nat)
    requires ValidPath(t, path) && k < |At(t, path).children| && AllFresh(t)
    ensures ValidPath(RemoveChild(t, path, k), path)
    ensures StaleAlong(RemoveChild(t, path, k), path)
    decreases |path|
  {
    if |path| == 0 {
      var rest := t.children[..k] + t.children[k + 1..];
      forall i | 0 <= i < |rest|
        ensures AllFresh(rest[i])
      {
        if i < k {
          assert rest[i] == t.children[i];
        } else {
          assert rest[i] == t.children[i + 1];
        }
      }
    } else {
      RemoveStale(t.children[path[0]], path[1..], k);
    }
  }

  // ---------------------------------------------------------------------
  // Ids, paths and the updated node under these edits

  /** Setting a box keeps the tree's ids and their distinctness. */
  lemma {:induction false} SetBoxIds(t: Tree, path: seq<nat>, box: Aabb)
    requires ValidPath(t, path)
    ensures IdSet(SetBox(t, path, box)) == IdSet(t) && Distinct(SetBox(t, path, box)) == Distinct(t)
    decreases |path|
  {
    if |path| > 0 {
      SetBoxIds(t.children[path[0]], path[1..], box);
      ForestSame(t.children, path[0], SetBox(t.children[path[0]], path[1..], box));
    }
  }

  /** The node at `path` after its box is set. */
  lemma {:induction false} AtSetBox(t: Tree, path: seq<nat>, box: Aabb)
    requires ValidPath(t, path)
    ensures ValidPath(SetBox(t, path, box), path)
    ensures At(SetBox(t, path, box), path) == Tree(At(t, path).id, WithBox(At(t, path).data, box), At(t, path).children)
    decreases |path|
  {
    if |path| > 0 {
      AtSetBox(t.children[path[0]], path[1..], box);
    }
  }

  /** Setting the box of a proper ancestor leaves a node alone. */
  lemma {:induction false} AtSetBoxAbove(t: Tree, q: seq<nat>, box: Aabb, path: seq<nat>)
    requires ValidPath(t, q) && ValidPath(t, path) && |q| < |path| && path[..|q|] == q
    ensures ValidPath(SetBox(t, q, box), path) && At(SetBox(t, q, box), path) == At(t, path)
    decreases |q|
  {
    if |q| > 0 {
      assert path[1..][..|q| - 1] == q[1..];
      AtSetBoxAbove(t.children[q[0]], q[1..], box, path[1..]);
    }
  }

  /** The update keeps the tree's ids, their distinctness and every valid path. */
  lemma {:induction false} RefreshedShape(t: Tree, path: seq<nat>, q: seq<nat>)
    requires ValidPath(t, path) && ValidPath(t, q)
    ensures IdSet(Refreshed(t, path)) == IdSet(t) && Distinct(Refreshed(t, path)) == Distinct(t)
    ensures ValidPath(Refreshed(t, path), q)
    decreases |path|
  {
    var box := LiveBox(At(t, path));
    SetBoxIds(t, path, box);
    SetBoxPath(t, path, box, q);
    if |path| > 0 {
      PathPrefix(t, path, |path| - 1);
      SetBoxPath(t, path, box, path[..|path| - 1]);
      RefreshedShape(SetBox(t, path, box), path[..|path| - 1], q);
    }
  }

  /** The update leaves the nodes below the path's end alone. */
  lemma {:induction false} RefreshedBelow(t: Tree, q: seq<nat>, path: seq<nat>)
    requires ValidPath(t, q) && ValidPath(t, path) && |q| < |path| && path[..|q|] == q
    ensures ValidPath(Refreshed(t, q), path) && At(Refreshed(t, q), path) == At(t, path)
    decreases |q|
  {
    var box := LiveBox(At(t, q));
    AtSetBoxAbove(t, q, box, path);
    if |q| > 0 {
      PathPrefix(t, q, |q| - 1);
      SetBoxPath(t, q, box, q[..|q| - 1]);
      assert path[..|q| - 1] == q[..|q| - 1];
      RefreshedBelow(SetBox(t, q, box), q[..|q| - 1], path);
    }
  }

  /** After the update the node at `path` has the rule's box, and nothing else of it changed. */
  lemma RefreshedAt(t: Tree, path: seq<nat>)
    requires ValidPath(t, path)
    ensures ValidPath(Refreshed(t, path), path)
    ensures var u := At(t, path);
      At(Refreshed(t, path), path) == Tree(u.id, WithBox(u.data, LiveBox(u)), u.children)
  {
    var box := LiveBox(At(t, path));
    AtSetBox(t, path, box);
    if |path| > 0 {
      PathPrefix(t, path, |path| - 1);
      SetBoxPath(t, path, box, path[..|path| - 1]);
      RefreshedBelow(SetBox(t, path, box), path[..|path| - 1], path);
    }
  }

  /** Every node of a fresh tree is fresh. */
  lemma {:induction false} AtFresh(t: Tree, path: seq<nat>)
    requires ValidPath(t, path) && AllFresh(t)
    ensures AllFresh(At(t, path))
    decreases |path|
  {
    if |path| > 0 {
      AtFresh(t.children[path[0]], path[1..]);
    }
  }

  /** The update changes nothing in a fresh tree. */
  lemma {:induction false} RefreshedFreshSame(t: Tree, path: seq<nat>)
    requires ValidPath(t, path) && AllFresh(t)
    ensures Refreshed(t, path) == t
    decreases |path|
  {
    AtFresh(t, path);
    SetBoxSame(t, path);
    if |path| > 0 {
      PathPrefix(t, path, |path| - 1);
      RefreshedFreshSame(t, path[..|path| - 1]);
    }
  }

  /** Setting a node's box to the box it has changes nothing. */
  lemma {:induction false} SetBoxSame(t: Tree, path: seq<nat>)
    requires ValidPath(t, path)
    ensures SetBox(t, path, At(t, path).data.aabb) == t
    decreases |path|
  {
    if |path| == 0 {
      assert WithBox(t.data, t.data.aabb) == t.data;
    } else {
      SetBoxSame(t.children[path[0]], path[1..]);
    }
  }

  /** Inserting a tree with new ids keeps a distinct tree distinct and adds exactly those ids. */
  lemma {:induction false} InsertIds(t: Tree, path: seq<nat>, c: Tree)
    requires ValidPath(t, path) && Distinct(t) && Distinct(c) && IdSet(t) !! IdSet(c)
    ensures IdSet(InsertChild(t, path, c)) == IdSet(t) + IdSet(c) && Distinct(InsertChild(t, path, c))
    decreases |path|
  {
    if |path| == 0 {
      ForestSnoc(t.children, c);
    } else {
      var k := path[0];
      IdSetAllMember(t.children, k);
      DistinctAllMember(t.children, k);
      InsertIds(t.children[k], path[1..], c);
      ForestReplace(t.children, k, InsertChild(t.children[k], path[1..], c));
    }
  }

  /** Removing a subtree from a distinct tree loses exactly the subtree's ids and keeps it distinct. */
  lemma {:induction false} RemoveIds(t: Tree, path: seq<nat>, k: nat)
    requires ValidPath(t, path) && k < |At(t, path).children| && Distinct(t)
    ensures IdSet(At(t, path).children[k]) <= IdSet(t)
    ensures IdSet(RemoveChild(t, path, k)) == IdSet(t) - IdSet(At(t, path).children[k])
    ensures Distinct(RemoveChild(t, path, k))
    decreases |path|
  {
    if |path| == 0 {
      IdSetAllMember(t.children, k);
      ForestRemove(t.children, k);
    } else {
      var j := path[0];
      var c := t.children[j];
      IdSetAllMember(t.children, j);
      DistinctAllMember(t.children, j);
      RemoveIds(c, path[1..], k);
      assert At(t, path) == At(c, path[1..]);
      ForestReplace(t.children, j, RemoveChild(c, path[1..], k));
    }
  }

  // ---------------------------------------------------------------------
  // Rewriting a node's data

  /** `node.data.set(key, value)` for the keys of `d` on the node at `path`. */
  function SetData(t: Tree, path: seq<nat>, d: CsgNode): (r: Tree)
    requires ValidPath(t, path)
    ensures ValidPath(r, path)
    decreases |path|
  {
    if |path| == 0 then Tree(t.id, d, t.children)
    else Tree(t.id, t.data, t.children[path[0] := SetData(t.children[path[0]], path[1..], d)])
  }

  /**
   * Rewriting a node's data keeps the ids and every path, puts `d` at the
   * node, and in a fresh tree leaves only the node's path possibly stale.
   */
  lemma {:induction false} SetDataFacts(t: Tree, path: seq<nat>, d: CsgNode, q: seq<nat>)
    requires ValidPath(t, path) && ValidPath(t, q)
    ensures IdSet(SetData(t, path, d)) == IdSet(t) && Distinct(SetData(t, path, d)) == Distinct(t)
    ensures ValidPath(SetData(t, path, d), q)
    ensures ValidPath(SetData(t, path, d), path)
    ensures At(SetData(t, path, d), path) == Tree(At(t, path).id, d, At(t, path).children)
    ensures AllFresh(t) ==> StaleAlong(SetData(t, path, d), path)
    decreases |path|
  {
    if |path| > 0 {
      var k := path[0];
      var q' := if |q| > 0 && q[0] == k then q[1..] else [];
      SetDataFacts(t.children[k], path[1..], d, q');
      ForestSame(t.children, k, SetData(t.children[k], path[1..], d));
    }
  }
}
