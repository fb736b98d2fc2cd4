/**
 * `recalculateAABBs` and `getMaxSmoothing` on the normalised tree, as
 * functions on trees: the maximum smoothing of the whole tree, the boxes the
 * post-order pass computes, and the post-order itself.
 */
module CsgBounds {
  import opened Common
  import opened Geometry
  import opened CsgModel

  /** `getMaxSmoothing`: 0 at a leaf; at an operation the largest of its smoothing and its children's values. */
  function MaxSmoothing(t: Tree): real
    decreases t
  {
    if t.data.LeafNode? then 0.0 else MaxSmoothingOver(t.children, t.data.smoothing)
  }

  /** The loop `max = Math.max(getMaxSmoothing(child), max)` over `ts`, from `acc`. */
  function MaxSmoothingOver(ts: seq<Tree>, acc: real): real
    decreases ts
  {
    if |ts| == 0 then acc else Max(MaxSmoothing(ts[|ts| - 1]), MaxSmoothingOver(ts[..|ts| - 1], acc))
  }

  /** The dilation `recalculateAABBs` gives every operation's box: `getMaxSmoothing(rootId) * 4`. */
  function Margin(t: Tree): real
  {
    MaxSmoothing(t) * 4.0
  }

  /** What the nodes of a tree contribute: 0 for a leaf, whose children are not looked at, the smoothing of an operation. */
  function Contributions(t: Tree): set<real>
    decreases t
  {
    if t.data.LeafNode? then {0.0} else {t.data.smoothing} + ContributionsAll(t.children)
  }

  function ContributionsAll(ts: seq<Tree>): set<real>
    decreases ts
  {
    if |ts| == 0 then {} else ContributionsAll(ts[..|ts| - 1]) + Contributions(ts[|ts| - 1])
  }

  /** `getMaxSmoothing` is the largest contribution of any node. */
  lemma {:induction false} MaxSmoothingIsMax(t: Tree)
    ensures MaxSmoothing(t) in Contributions(t)
    ensures forall c :: c in Contributions(t) ==> c <= MaxSmoothing(t)
    decreases t
  {
    if t.data.OperationNode? {
      MaxSmoothingOverIsMax(t.children, t.data.smoothing);
    }
  }

  lemma {:induction false} MaxSmoothingOverIsMax(ts: seq<Tree>, acc: real)
    ensures MaxSmoothingOver(ts, acc) in {acc} + ContributionsAll(ts)
    ensures forall c :: c in {acc} + ContributionsAll(ts) ==> c <= MaxSmoothingOver(ts, acc)
    decreases ts
  {
    if |ts| > 0 {
      MaxSmoothingOverIsMax(ts[..|ts| - 1], acc);
      MaxSmoothingIsMax(ts[|ts| - 1]);
    }
  }

  /** The boxes of a sequence of trees. */
  function Boxes(ts: seq<Tree>): (bs: seq<Aabb>)
    ensures |bs| == |ts| && forall i :: 0 <= i < |ts| ==> bs[i] == ts[i].data.aabb
  {
    seq(|ts|, i requires 0 <= i < |ts| => ts[i].data.aabb)
  }

  /**
   * The tree with every box the pass reaches recomputed bottom-up: a leaf gets
   * its sphere box, an operation the union of the zero box and its children's
   * new boxes, dilated by `margin`. The pass does not descend below a leaf.
   */
  function Recalc(t: Tree, margin: real): (r: Tree)
    ensures r.id == t.id && r.data == WithBox(t.data, r.data.aabb)
    ensures ChildIds(r) == ChildIds(t)
    decreases t
  {
    if t.data.LeafNode? then Tree(t.id, WithBox(t.data, SphereAabb(t.data.transform, t.data.scale)), t.children)
    else
      var kids := RecalcAll(t.children, margin);
      Tree(t.id, WithBox(t.data, ExpandByScalar(Hull(Boxes(kids)), margin)), kids)
  }

  function RecalcAll(ts: seq<Tree>, margin: real): (r: seq<Tree>)
    ensures |r| == |ts| && forall i :: 0 <= i < |ts| ==> r[i] == Recalc(ts[i], margin)
    decreases ts
  {
    if |ts| == 0 then [] else RecalcAll(ts[..|ts| - 1], margin) + [Recalc(ts[|ts| - 1], margin)]
  }

  /** Recomputing boxes keeps the ids, so it keeps them distinct. */
  lemma {:induction false} RecalcIds(t: Tree, margin: real)
    ensures IdSet(Recalc(t, margin)) == IdSet(t)
    ensures Distinct(Recalc(t, margin)) == Distinct(t)
    decreases t
  {
    if t.data.OperationNode? {
      RecalcAllIds(t.children, margin);
    }
  }

  lemma {:induction false} RecalcAllIds(ts: seq<Tree>, margin: real)
    ensures IdSetAll(RecalcAll(ts, margin)) == IdSetAll(ts)
    ensures DistinctAll(RecalcAll(ts, margin)) == DistinctAll(ts)
    decreases ts
  {
    if |ts| > 0 {
      var n := |ts| - 1;
      var front := RecalcAll(ts[..n], margin);
      var last := Recalc(ts[n], margin);
      assert RecalcAll(ts, margin) == front + [last];
      RecalcAllIds(ts[..n], margin);
      RecalcIds(ts[n], margin);
      assert IdSetAll(front + [last]) == IdSetAll(front) + IdSet(last) by {
        ForestSnoc(front, last);
      }
      assert DistinctAll(front + [last]) == (DistinctAll(front) && Distinct(last) && IdSetAll(front) !! IdSet(last)) by {
        ForestSnoc(front, last);
      }
      Snoc(ts);
      ForestSnoc(ts[..n], ts[n]);
    }
  }

  /** Every operation's box contains the origin and each of its children's boxes, all the way down. */
  ghost predicate Nested(t: Tree)
    decreases t
  {
    t.data.OperationNode? ==>
      ContainsPoint(t.data.aabb, Origin())
      && forall i :: 0 <= i < |t.children| ==>
           Encloses(t.data.aabb, t.children[i].data.aabb) && Nested(t.children[i])
  }

  /** With a margin of at least 0 the recomputed boxes nest. */
  lemma {:induction false} RecalcNested(t: Tree, margin: real)
    requires 0.0 <= margin
    ensures Nested(Recalc(t, margin))
    decreases t
  {
    if t.data.OperationNode? {
      var kids := RecalcAll(t.children, margin);
      var bs := Boxes(kids);
      var hull := Hull(bs);
      var box := ExpandByScalar(hull, margin);
      var r := Recalc(t, margin);
      assert r == Tree(t.id, WithBox(t.data, box), kids);
      EnclosesOrigin(box, hull);
      forall i | 0 <= i < |kids|
        ensures Encloses(box, kids[i].data.aabb) && Nested(kids[i])
      {
        assert bs[i] == kids[i].data.aabb;
        EnclosesTrans(box, hull, bs[i]);
        RecalcNested(t.children[i], margin);
      }
    }
  }

  // ---------------------------------------------------------------------
  // Post-order

  /** `buildPostOrder`: for an operation its children's post-orders in turn, then the node. */
  function PostOrder(t: Tree): seq<Tree>
    decreases t
  {
    (if t.data.OperationNode? then PostOrderAll(t.children) else []) + [t]
  }

  function PostOrderAll(ts: seq<Tree>): seq<Tree>
    decreases ts
  {
    if |ts| == 0 then [] else PostOrderAll(ts[..|ts| - 1]) + PostOrder(ts[|ts| - 1])
  }

  /** Every child of an operation comes before the operation. */
  ghost predicate ChildrenFirst(post: seq<Tree>)
  {
    forall i, k :: 0 <= i < |post| && post[i].data.OperationNode? && 0 <= k < |post[i].children| ==>
      post[i].children[k] in post[..i]
  }

  lemma ChildrenFirstConcat(a: seq<Tree>, b: seq<Tree>)
    requires ChildrenFirst(a) && ChildrenFirst(b)
    ensures ChildrenFirst(a + b)
  {
    var ab := a + b;
    forall i, k | 0 <= i < |ab| && ab[i].data.OperationNode? && 0 <= k < |ab[i].children|
      ensures ab[i].children[k] in ab[..i]
    {
      if i < |a| {
        assert ab[i] == a[i] && ab[..i] == a[..i];
      } else {
        assert ab[i] == b[i - |a|];
        assert b[i - |a|].children[k] in b[..i - |a|];
        assert ab[..i] == a + b[..i - |a|];
      }
    }
  }

  lemma ChildrenFirstSnoc(a: seq<Tree>, x: Tree)
    requires ChildrenFirst(a)
    requires x.data.OperationNode? ==> forall k :: 0 <= k < |x.children| ==> x.children[k] in a
    ensures ChildrenFirst(a + [x])
  {
    var ax := a + [x];
    forall i, k | 0 <= i < |ax| && ax[i].data.OperationNode? && 0 <= k < |ax[i].children|
      ensures ax[i].children[k] in ax[..i]
    {
      if i < |a| {
        assert ax[i] == a[i] && ax[..i] == a[..i];
      } else {
        assert ax[..i] == a;
      }
    }
  }

  /** The post-order puts children first and contains the trees it was given and all trees below them. */
  lemma {:induction false} PostOrderFacts(t: Tree)
    ensures ChildrenFirst(PostOrder(t))
    ensures t.data.OperationNode? ==> forall i :: 0 <= i < |t.children| ==> t.children[i] in PostOrder(t)
    ensures forall i :: 0 <= i < |PostOrder(t)| ==> PostOrder(t)[i].id in IdSet(t)
    ensures Distinct(t) ==> NoDups(Ids(PostOrder(t)))
    ensures PostOrder(t)[|PostOrder(t)| - 1] == t
    decreases t
  {
    var pa := if t.data.OperationNode? then PostOrderAll(t.children) else [];
    PostOrderAllFacts(t.children);
    ChildrenFirstSnoc(pa, t);
    IdsConcat(pa, [t]);
    if Distinct(t) {
      NoDupsConcat(Ids(pa), Ids([t]));
    }
  }

  lemma {:induction false} PostOrderAllFacts(ts: seq<Tree>)
    ensures ChildrenFirst(PostOrderAll(ts))
    ensures forall i :: 0 <= i < |ts| ==> ts[i] in PostOrderAll(ts)
    ensures forall i :: 0 <= i < |PostOrderAll(ts)| ==> PostOrderAll(ts)[i].id in IdSetAll(ts)
    ensures DistinctAll(ts) ==> NoDups(Ids(PostOrderAll(ts)))
    decreases ts
  {
    if |ts| > 0 {
      var n := |ts| - 1;
      PostOrderAllFacts(ts[..n]);
      PostOrderFacts(ts[n]);
      PostOrderAllStep(ts, PostOrderAll(ts[..n]), PostOrder(ts[n]));
    }
  }

  /** The facts of `PostOrderAllFacts` for a forest, from those for its front and its last tree. */
  lemma PostOrderAllStep(ts: seq<Tree>, pf: seq<Tree>, pl: seq<Tree>)
    requires |ts| > 0 && pf == PostOrderAll(ts[..|ts| - 1]) && pl == PostOrder(ts[|ts| - 1])
    requires ChildrenFirst(pf) && ChildrenFirst(pl)
    requires forall i :: 0 <= i < |ts| - 1 ==> ts[i] in pf
    requires |pl| > 0 && pl[|pl| - 1] == ts[|ts| - 1]
    requires forall i :: 0 <= i < |pf| ==> pf[i].id in IdSetAll(ts[..|ts| - 1])
    requires forall i :: 0 <= i < |pl| ==> pl[i].id in IdSet(ts[|ts| - 1])
    requires DistinctAll(ts[..|ts| - 1]) ==> NoDups(Ids(pf))
    requires Distinct(ts[|ts| - 1]) ==> NoDups(Ids(pl))
    ensures ChildrenFirst(PostOrderAll(ts))
    ensures forall i :: 0 <= i < |ts| ==> ts[i] in PostOrderAll(ts)
    ensures forall i :: 0 <= i < |PostOrderAll(ts)| ==> PostOrderAll(ts)[i].id in IdSetAll(ts)
    ensures DistinctAll(ts) ==> NoDups(Ids(PostOrderAll(ts)))
  {
    var n := |ts| - 1;
    assert PostOrderAll(ts) == pf + pl;
    ChildrenFirstConcat(pf, pl);
    Snoc(ts);
    ForestSnoc(ts[..n], ts[n]);
    IdsConcat(pf, pl);
    if DistinctAll(ts) {
      NoDupsConcat(Ids(pf), Ids(pl));
    }
  }

  /** Everything below a tree of a forest is in the forest's post-order. */
  lemma {:induction false} PostOrderAllMember(ts: seq<Tree>, i: int, x: Tree)
    requires 0 <= i < |ts| && x in PostOrder(ts[i])
    ensures x in PostOrderAll(ts)
    decreases |ts|
  {
    if i < |ts| - 1 {
      PostOrderAllMember(ts[..|ts| - 1], i, x);
    }
  }
}
