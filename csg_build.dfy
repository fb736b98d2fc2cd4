/**
 * `buildNormalizedTree`, the first half of `getNormalizedTree`: copies the
 * source tree into a map of normalised nodes, depth first, and binarises
 * every operation with more than two children by pairing them up under
 * fresh intermediate operations. The map then holds `Normalize` of the tree.
 */
module CsgBuild {
  import opened Common
  import opened Geometry
  import opened CsgModel
  import opened CsgNormalize
  import opened CsgBounds

  // ---------------------------------------------------------------------
  // getNormalizedTree: building the normalised map

  /**
   * `buildNormalizedTree(t.id, parent)`: stores a copy of `t`'s data under
   * its id, normalises its children in order (an operation only), and
   * binarises them when there are more than two. The map then holds the
   * normalised tree, and nothing outside its ids changed.
   */
  method BuildNormalizedTree(nodes0: NodeMap, t: Tree, parent: Option<TreeId>, next0: nat)
    returns (id: TreeId, nodes: NodeMap, next: nat)
    requires Distinct(t)
    requires forall k :: k in IdSet(t) ==> !InRange(k, next0, next0 + Excess(t))
    ensures id == t.id && next == Normalize(t, next0).1
    ensures Holds(nodes, Normalize(t, next0).0, parent)
    ensures forall k :: k in nodes <==> k in nodes0 || k in IdSet(Normalize(t, next0).0)
    ensures forall k :: k in nodes0 && k !in IdSet(Normalize(t, next0).0) ==> nodes[k] == nodes0[k]
    decreases t, 3
  {
    ghost var r := Normalize(t, next0);
    if t.data.OperationNode? {
      id, nodes, next := BuildOperation(nodes0, t, parent, next0, r);
    } else {
      id, nodes, next := t.id, nodes0[t.id := NormalizedNode(t.id, parent, t.data, [])], next0;
      LeafBuilt(nodes0, nodes, t, parent, next0, r);
    }
  }

  /** A leaf is stored alone, with no children. */
  lemma LeafBuilt(nodes0: NodeMap, nodes: NodeMap, t: Tree, parent: Option<TreeId>, next0: nat, r: (Tree, nat))
    requires t.data.LeafNode? && r == Normalize(t, next0)
    requires nodes == nodes0[t.id := NormalizedNode(t.id, parent, t.data, [])]
    ensures next0 == r.1 && Holds(nodes, r.0, parent)
    ensures forall k :: k in nodes <==> k in nodes0 || k in IdSet(r.0)
    ensures forall k :: k in nodes0 && k !in IdSet(r.0) ==> nodes[k] == nodes0[k]
  {
    assert r.0 == Tree(t.id, t.data, []);
    assert ChildIds(r.0) == [];
    assert IdSet(r.0) == {t.id};
  }

  /** `buildNormalizedTree` on an operation, with `r` the normalised tree and counter it must produce. */
  method BuildOperation(nodes0: NodeMap, t: Tree, parent: Option<TreeId>, next0: nat, ghost r: (Tree, nat))
    returns (id: TreeId, nodes: NodeMap, next: nat)
    requires t.data.OperationNode? && Distinct(t) && r == Normalize(t, next0)
    requires forall k :: k in IdSet(t) ==> !InRange(k, next0, next0 + Excess(t))
    ensures id == t.id && next == r.1 && Holds(nodes, r.0, parent)
    ensures forall k :: k in nodes <==> k in nodes0 || k in IdSet(r.0)
    ensures forall k :: k in nodes0 && k !in IdSet(r.0) ==> nodes[k] == nodes0[k]
    decreases t, 2
  {
    id := t.id;
    var n1 := nodes0[t.id := NormalizedNode(t.id, parent, t.data, [])];
    var kids;
    kids, nodes, next := BuildChildren(n1, t, next0);
    ghost var b := NormalizeAll(t.children, next0);
    ChildrenClear(t, next0);
    ghost var n2 := nodes;
    nodes := nodes[t.id := nodes[t.id].(children := kids)];
    EntryWritten(n2, b.0, t.id, nodes[t.id]);
    if |kids| > 2 {
      nodes, next := BuildWide(nodes0, n1, n2, nodes, kids, t, parent, next0, next, b, r);
    } else {
      NarrowShape(t, next0, b, r);
      assert n2[t.id] == NormalizedNode(t.id, parent, t.data, []);
      TopWritten(nodes, r.0, parent, b.0);
      KeysWritten(nodes0, n1, n2, nodes, t.id, IdSetAll(b.0), IdSet(r.0));
    }
  }

  /** The `while` loop of an operation with more than two children, and the entry then rewritten to the top two. */
  method BuildWide(ghost nodes0: NodeMap, ghost n1: NodeMap, ghost n2: NodeMap, n3: NodeMap, kids: seq<TreeId>,
                   t: Tree, ghost parent: Option<TreeId>, ghost next0: nat, next1: nat, ghost b: (seq<Tree>, nat), ghost r: (Tree, nat))
    returns (nodes: NodeMap, next: nat)
    requires t.data.OperationNode? && Distinct(t) && |t.children| > 2
    requires forall k :: k in IdSet(t) ==> !InRange(k, next0, next0 + Excess(t))
    requires b == NormalizeAll(t.children, next0) && r == Normalize(t, next0)
    requires kids == Ids(b.0) && next1 == b.1 && DistinctAll(b.0)
    requires n1 == nodes0[t.id := NormalizedNode(t.id, parent, t.data, [])]
    requires t.id !in IdSetAll(b.0)
    requires forall k :: k in IdSetAll(b.0) ==> k in IdSetAll(t.children) || InRange(k, next0, b.1)
    requires b.1 + |b.0| - 2 == next0 + Excess(t)
    requires forall j :: 0 <= j < |b.0| ==> Holds(n3, b.0[j], Some(t.id))
    requires forall k :: k in n2 <==> k in n1 || k in IdSetAll(b.0)
    requires forall k :: k in n1 && k !in IdSetAll(b.0) ==> n2[k] == n1[k]
    requires n3 == n2[t.id := n2[t.id].(children := Ids(b.0))]
    ensures next == r.1 && Holds(nodes, r.0, parent)
    ensures forall k :: k in nodes <==> k in nodes0 || k in IdSet(r.0)
    ensures forall k :: k in nodes0 && k !in IdSet(r.0) ==> nodes[k] == nodes0[k]
  {
    BinarizeCount(b.0, t.data, b.1);
    assert IdSet(t) == {t.id} + IdSetAll(t.children);
    assert forall k :: k in IdSetAll(b.0) ==> !InRange(k, b.1, Binarize(b.0, t.data, b.1).1);
    var top;
    top, nodes, next := BinarizeChildren(n3, kids, t.data, t.id, next1, b.0);
    ghost var n4 := nodes;
    nodes := nodes[t.id := nodes[t.id].(children := top)];
    WideDone(nodes0, n1, n2, n3, n4, nodes, t, parent, next0, b, r);
  }

  /**
   * `(originalNode.children() ?? []).map(child => buildNormalizedTree(child.id, t.id))`:
   * the children normalised in order, each under `t`, threading the counter.
   */
  method BuildChildren(nodes0: NodeMap, t: Tree, next0: nat) returns (kids: seq<TreeId>, nodes: NodeMap, next: nat)
    requires t.data.OperationNode? && Distinct(t)
    requires forall k :: k in IdSet(t) ==> !InRange(k, next0, next0 + Excess(t))
    ensures kids == Ids(NormalizeAll(t.children, next0).0) && next == NormalizeAll(t.children, next0).1
    ensures forall j :: 0 <= j < |kids| ==> Holds(nodes, NormalizeAll(t.children, next0).0[j], Some(t.id))
    ensures forall k :: k in nodes <==> k in nodes0 || k in IdSetAll(NormalizeAll(t.children, next0).0)
    ensures forall k :: k in nodes0 && k !in IdSetAll(NormalizeAll(t.children, next0).0) ==> nodes[k] == nodes0[k]
    decreases t, 1
  {
    kids, nodes, next := [], nodes0, next0;
    for i := 0 to |t.children|
      invariant KidsInv(nodes0, nodes, t, next0, i, kids, next)
    {
      kids, nodes, next := BuildChild(nodes0, nodes, t, next0, i, kids, next);
    }
    assert t.children[..|t.children|] == t.children;
  }

  /** One pass of the children loop: `buildNormalizedTree(t.children[i].id, t.id)`. */
  method BuildChild(ghost nodes0: NodeMap, nodes: NodeMap, t: Tree, ghost next0: nat, i: nat, kids: seq<TreeId>, next: nat)
    returns (kids': seq<TreeId>, nodes': NodeMap, next': nat)
    requires t.data.OperationNode? && Distinct(t) && i < |t.children|
    requires forall k :: k in IdSet(t) ==> !InRange(k, next0, next0 + Excess(t))
    requires KidsInv(nodes0, nodes, t, next0, i, kids, next)
    ensures KidsInv(nodes0, nodes', t, next0, i + 1, kids', next')
    decreases t, 0
  {
    NormalizeChildCount(t, next0, i);
    var cid;
    cid, nodes', next' := BuildNormalizedTree(nodes, t.children[i], Some(t.id), next);
    KidsStep(nodes0, nodes, nodes', t, next0, i, kids, next, next');
    kids' := kids + [cid];
  }

  /** What the children loop knows after `i` children. */
  ghost predicate KidsInv(nodes0: NodeMap, nodes: NodeMap, t: Tree, next0: nat, i: int, kids: seq<TreeId>, next: nat)
    requires 0 <= i <= |t.children|
  {
    var b := NormalizeAll(t.children[..i], next0);
    kids == Ids(b.0) && next == b.1
    && (forall j :: 0 <= j < i ==> Holds(nodes, b.0[j], Some(t.id)))
    && (forall k :: k in nodes <==> k in nodes0 || k in IdSetAll(b.0))
    && (forall k :: k in nodes0 && k !in IdSetAll(b.0) ==> nodes[k] == nodes0[k])
  }

  /** Normalising child `i` into the map keeps the children loop's invariant. */
  lemma KidsStep(nodes0: NodeMap, nodes: NodeMap, nodes': NodeMap, t: Tree, next0: nat, i: int, kids: seq<TreeId>, next: nat, next': nat)
    requires t.data.OperationNode? && Distinct(t) && 0 <= i < |t.children|
    requires forall k :: k in IdSet(t) ==> !InRange(k, next0, next0 + Excess(t))
    requires KidsInv(nodes0, nodes, t, next0, i, kids, next)
    requires var nc := Normalize(t.children[i], next);
      next' == nc.1 && Holds(nodes', nc.0, Some(t.id))
      && (forall k :: k in nodes' <==> k in nodes || k in IdSet(nc.0))
      && (forall k :: k in nodes && k !in IdSet(nc.0) ==> nodes'[k] == nodes[k])
    ensures KidsInv(nodes0, nodes', t, next0, i + 1, kids + [t.children[i].id], next')
  {
    var b := NormalizeAll(t.children[..i], next0);
    var nc := Normalize(t.children[i], next);
    var b' := NormalizeAll(t.children[..i + 1], next0);
    KidsNext(t, next0, i, b.0, nc, b');
    forall j | 0 <= j < i + 1
      ensures Holds(nodes', b'.0[j], Some(t.id))
    {
      if j < i {
        assert b'.0[j] == b.0[j];
        IdSetAllMember(b.0, j);
        HoldsKeys(nodes, b.0[j], Some(t.id));
        HoldsFrame(nodes, nodes', b.0[j], Some(t.id));
      }
    }
  }

  /** The first `i + 1` children normalised: the first `i`, then child `i` from the counter they leave. */
  lemma KidsNext(t: Tree, next0: nat, i: int, b0: seq<Tree>, nc: (Tree, nat), b': (seq<Tree>, nat))
    requires t.data.OperationNode? && Distinct(t) && 0 <= i < |t.children|
    requires forall k :: k in IdSet(t) ==> !InRange(k, next0, next0 + Excess(t))
    requires b0 == NormalizeAll(t.children[..i], next0).0 && nc == Normalize(t.children[i], NormalizeAll(t.children[..i], next0).1)
    requires b' == NormalizeAll(t.children[..i + 1], next0)
    ensures b'.0 == b0 + [nc.0] && b'.1 == nc.1
    ensures DistinctAll(b'.0) && t.id !in IdSetAll(b'.0)
    ensures IdSetAll(b'.0) == IdSetAll(b0) + IdSet(nc.0)
  {
    NormalizeChildDistinct(t, next0, i);
    NormalizeAllNext(t.children, next0, i);
    ForestSnoc(b0, nc.0);
  }

  /** The operation's own id is clear of everything its children's walk touches. */
  lemma ChildrenClear(t: Tree, next0: nat)
    requires t.data.OperationNode? && Distinct(t)
    requires forall k :: k in IdSet(t) ==> !InRange(k, next0, next0 + Excess(t))
    ensures var b := NormalizeAll(t.children, next0);
      t.id !in IdSetAll(b.0) && DistinctAll(b.0)
      && (forall k :: k in IdSetAll(b.0) ==> k in IdSetAll(t.children) || InRange(k, next0, b.1))
      && b.1 + (if |b.0| > 2 then |b.0| - 2 else 0) == next0 + Excess(t)
  {
    var cs := t.children;
    if |cs| > 0 {
      NormalizeChildDistinct(t, next0, |cs| - 1);
      assert cs[..|cs|] == cs;
    }
    NormalizeAllIds(cs, next0);
    NormalizeAllCount(cs, next0);
    assert Excess(t) == (if |cs| > 2 then |cs| - 2 else 0) + ExcessAll(cs);
  }

  /** Writing an entry for a key no tree of the forest uses keeps the map holding the forest. */
  lemma EntryWritten(nodes: NodeMap, ts: seq<Tree>, id: TreeId, v: NormalizedNode)
    requires id !in IdSetAll(ts)
    requires forall j :: 0 <= j < |ts| ==> Holds(nodes, ts[j], Some(id))
    ensures forall j :: 0 <= j < |ts| ==> Holds(nodes[id := v], ts[j], Some(id))
  {
    forall j | 0 <= j < |ts|
      ensures Holds(nodes[id := v], ts[j], Some(id))
    {
      IdSetAllMember(ts, j);
      HoldsOut(nodes, ts[j], Some(id), id, v);
    }
  }

  /** An operation with at most two children: its entry lists the normalised children. */
  lemma NarrowShape(t: Tree, next0: nat, b: (seq<Tree>, nat), rn: (Tree, nat))
    requires t.data.OperationNode? && |b.0| <= 2
    requires b == NormalizeAll(t.children, next0) && rn == Normalize(t, next0)
    ensures rn == (Tree(t.id, t.data, b.0), b.1)
    ensures IdSet(rn.0) == {t.id} + IdSetAll(b.0)
  {
  }

  /** A top entry rewritten to list its children's ids, over children already held, holds the tree. */
  lemma TopWritten(nodes: NodeMap, r: Tree, parent: Option<TreeId>, kids: seq<Tree>)
    requires r.children == kids && r.id in nodes && nodes[r.id] == NormalizedNode(r.id, parent, r.data, Ids(kids))
    requires forall j :: 0 <= j < |kids| ==> Holds(nodes, kids[j], Some(r.id))
    ensures Holds(nodes, r, parent)
  {
    assert ChildIds(r) == Ids(kids);
  }

  /** The keys after writing an entry at `id`, the ids `ks`, and `id` again. */
  lemma KeysWritten(n0: NodeMap, n1: NodeMap, n2: NodeMap, n3: NodeMap, id: TreeId, ks: set<TreeId>, all: set<TreeId>)
    requires id in n1 && n1 == n0[id := n1[id]] && id !in ks && all == {id} + ks
    requires forall k :: k in n2 <==> k in n1 || k in ks
    requires forall k :: k in n1 && k !in ks ==> n2[k] == n1[k]
    requires id in n3 && n3 == n2[id := n3[id]]
    ensures forall k :: k in n3 <==> k in n0 || k in all
    ensures forall k :: k in n0 && k !in all ==> n3[k] == n0[k]
  {
  }

  /** An operation with more than two children: its entry lists the two top trees of the binarisation. */
  lemma WideDone(nodes0: NodeMap, n1: NodeMap, n2: NodeMap, n3: NodeMap, n4: NodeMap, n5: NodeMap, t: Tree, parent: Option<TreeId>, next0: nat,
                  b: (seq<Tree>, nat), rn: (Tree, nat))
    requires t.data.OperationNode? && Distinct(t) && |t.children| > 2
    requires b == NormalizeAll(t.children, next0) && rn == Normalize(t, next0)
    requires forall k :: k in IdSet(t) ==> !InRange(k, next0, next0 + Excess(t))
    requires n1 == nodes0[t.id := NormalizedNode(t.id, parent, t.data, [])]
    requires var bz := Binarize(b.0, t.data, b.1);
      t.id !in IdSetAll(b.0)
      && (forall k :: k in IdSetAll(b.0) ==> k in IdSetAll(t.children) || InRange(k, next0, b.1))
      && bz.1 == next0 + Excess(t)
      && (forall k :: k in n2 <==> k in n1 || k in IdSetAll(b.0))
      && (forall k :: k in n1 && k !in IdSetAll(b.0) ==> n2[k] == n1[k])
      && n3 == n2[t.id := n2[t.id].(children := Ids(b.0))]
      && (forall j :: 0 <= j < |bz.0| ==> Holds(n4, bz.0[j], Some(t.id)))
      && (forall k :: k in n4 <==> k in n3 || InRange(k, b.1, bz.1))
      && (forall k :: k in n3 && k !in IdSetAll(b.0) && !InRange(k, b.1, bz.1) ==> n4[k] == n3[k])
      && n5 == n4[t.id := n4[t.id].(children := Ids(bz.0))]
    ensures rn.1 == Binarize(b.0, t.data, b.1).1 && Holds(n5, rn.0, parent)
    ensures forall k :: k in n5 <==> k in nodes0 || k in IdSet(rn.0)
    ensures forall k :: k in nodes0 && k !in IdSet(rn.0) ==> n5[k] == nodes0[k]
  {
    var bz := Binarize(b.0, t.data, b.1);
    var r := rn.0;
    assert rn == (Tree(t.id, t.data, bz.0), bz.1);
    assert t.id in IdSet(t);
    assert !InRange(t.id, b.1, bz.1);
    BinarizeIds(b.0, t.data, b.1);
    assert t.id !in IdSetAll(bz.0);
    assert n5[t.id] == Entry(r, parent) by {
      assert ChildIds(r) == Ids(bz.0);
    }
    EntryWritten(n4, bz.0, t.id, n5[t.id]);
    assert IdSet(r) == {t.id} + IdSetAll(bz.0);
  }

  /**
   * `while (currentChildren.length > 2)`: pairs rounds of children under new
   * intermediates until at most two remain. The map then holds the two top
   * trees `Binarize` gives, all under `pid`.
   */
  method BinarizeChildren(nodes0: NodeMap, kids: seq<TreeId>, d: CsgNode, pid: TreeId, next0: nat, ghost ks: seq<Tree>)
    returns (current: seq<TreeId>, nodes: NodeMap, next: nat)
    requires d.OperationNode? && kids == Ids(ks) && DistinctAll(ks)
    requires forall j :: 0 <= j < |ks| ==> Holds(nodes0, ks[j], Some(pid))
    requires forall k :: k in IdSetAll(ks) ==> !InRange(k, next0, Binarize(ks, d, next0).1)
    ensures current == Ids(Binarize(ks, d, next0).0) && next == Binarize(ks, d, next0).1
    ensures forall j :: 0 <= j < |current| ==> Holds(nodes, Binarize(ks, d, next0).0[j], Some(pid))
    ensures forall k :: k in nodes <==> k in nodes0 || InRange(k, next0, next)
    ensures forall k :: k in nodes0 && k !in IdSetAll(ks) && !InRange(k, next0, next) ==> nodes[k] == nodes0[k]
  {
    current, nodes, next := kids, nodes0, next0;
    ghost var cur := ks;
    while |current| > 2
      invariant BinInv(nodes0, nodes, ks, cur, current, d, pid, next0, next)
      decreases |cur|
    {
      current, nodes, next, cur := BinStep(nodes0, nodes, ks, cur, current, d, pid, next0, next);
    }
    assert Binarize(cur, d, next) == (cur, next);
  }

  /** What the binarisation loop knows: the rounds left turn `cur` into what `ks` becomes. */
  ghost predicate BinInv(nodes0: NodeMap, nodes: NodeMap, ks: seq<Tree>, cur: seq<Tree>, current: seq<TreeId>, d: CsgNode, pid: TreeId, next0: nat, next: nat)
    requires d.OperationNode?
  {
    current == Ids(cur) && DistinctAll(cur) && next0 <= next
    && Binarize(cur, d, next) == Binarize(ks, d, next0)
    && (forall j :: 0 <= j < |cur| ==> Holds(nodes, cur[j], Some(pid)))
    && (forall k :: k in IdSetAll(cur) ==> !InRange(k, next, Binarize(ks, d, next0).1))
    && (forall k :: k in IdSetAll(cur) ==> k in IdSetAll(ks) || InRange(k, next0, next))
    && (forall k :: k in nodes <==> k in nodes0 || InRange(k, next0, next))
    && (forall k :: k in nodes0 && k !in IdSetAll(ks) && !InRange(k, next0, next) ==> nodes[k] == nodes0[k])
  }

  /** One pass of the binarisation loop: a whole pairing round. */
  method BinStep(nodes0: NodeMap, nodes: NodeMap, ghost ks: seq<Tree>, ghost cur: seq<Tree>, current: seq<TreeId>,
                 d: CsgNode, pid: TreeId, next0: nat, next: nat)
    returns (current': seq<TreeId>, nodes': NodeMap, next': nat, ghost cur': seq<Tree>)
    requires d.OperationNode? && |current| > 2
    requires BinInv(nodes0, nodes, ks, cur, current, d, pid, next0, next)
    ensures BinInv(nodes0, nodes', ks, cur', current', d, pid, next0, next')
    ensures |cur'| < |cur|
  {
    ghost var b := Binarize(ks, d, next0).1;
    assert Binarize(cur, d, next) == Binarize(PairRound(cur, d, next), d, next + |cur| / 2);
    assert next + |cur| / 2 <= b;
    current', nodes', next' := BuildLevel(nodes, current, d, pid, next, cur);
    cur' := PairRound(cur, d, next);
    BinAfter(nodes0, nodes, nodes', ks, cur, current', d, pid, next0, next, next');
  }

  /** A pairing round keeps the binarisation loop's invariant. */
  lemma BinAfter(nodes0: NodeMap, nodes: NodeMap, nodes': NodeMap, ks: seq<Tree>, cur: seq<Tree>, current': seq<TreeId>,
                 d: CsgNode, pid: TreeId, next0: nat, next: nat, next': nat)
    requires d.OperationNode? && |cur| > 2
    requires BinInv(nodes0, nodes, ks, cur, Ids(cur), d, pid, next0, next)
    requires next' == next + |cur| / 2
    requires current' == Ids(PairRound(cur, d, next))
    requires forall j :: 0 <= j < |current'| ==> Holds(nodes', PairRound(cur, d, next)[j], Some(pid))
    requires forall k :: k in nodes' <==> k in nodes || InRange(k, next, next')
    requires forall k :: k in nodes && k !in IdSetAll(cur) && !InRange(k, next, next') ==> nodes'[k] == nodes[k]
    ensures BinInv(nodes0, nodes', ks, PairRound(cur, d, next), current', d, pid, next0, next')
  {
    var pr := PairRound(cur, d, next);
    var b := Binarize(ks, d, next0).1;
    BinRoundIds(ks, cur, pr, d, next0, next, next', b);
    BinRoundMap(nodes0, nodes, nodes', ks, cur, next0, next, next');
  }

  /** The ids of a pairing round's trees: distinct, clear of the counters still to come, and from `ks` or issued so far. */
  lemma BinRoundIds(ks: seq<Tree>, cur: seq<Tree>, pr: seq<Tree>, d: CsgNode, next0: nat, next: nat, next': nat, b: nat)
    requires d.OperationNode? && |cur| > 2 && DistinctAll(cur) && next0 <= next
    requires pr == PairRound(cur, d, next) && next' == next + |cur| / 2 && b == Binarize(ks, d, next0).1
    requires Binarize(cur, d, next) == Binarize(ks, d, next0)
    requires forall k :: k in IdSetAll(cur) ==> !InRange(k, next, b)
    requires forall k :: k in IdSetAll(cur) ==> k in IdSetAll(ks) || InRange(k, next0, next)
    ensures Binarize(pr, d, next') == Binarize(ks, d, next0) && next' <= b && DistinctAll(pr)
    ensures forall k :: k in IdSetAll(pr) ==> !InRange(k, next', b)
    ensures forall k :: k in IdSetAll(pr) ==> k in IdSetAll(ks) || InRange(k, next0, next')
  {
    assert Binarize(cur, d, next) == Binarize(pr, d, next');
    PairRoundDistinct(cur, d, next);
    PairRoundKept(ks, cur, pr, d, next0, next, next', b);
  }

  /** The id facts of `BinRoundIds`, carried over one pairing round. */
  lemma PairRoundKept(ks: seq<Tree>, cur: seq<Tree>, pr: seq<Tree>, d: CsgNode, next0: nat, next: nat, next': nat, b: nat)
    requires d.OperationNode? && next0 <= next
    requires pr == PairRound(cur, d, next) && next' == next + |cur| / 2 && next' <= b
    requires forall k :: k in IdSetAll(cur) ==> !InRange(k, next, b)
    requires forall k :: k in IdSetAll(cur) ==> k in IdSetAll(ks) || InRange(k, next0, next)
    ensures forall k :: k in IdSetAll(pr) ==> !InRange(k, next', b)
    ensures forall k :: k in IdSetAll(pr) ==> k in IdSetAll(ks) || InRange(k, next0, next')
  {
    PairRoundIdSet(cur, d, next);
  }

  /** The map after a pairing round: the new intermediates added, nothing outside the trees changed. */
  lemma BinRoundMap(nodes0: NodeMap, nodes: NodeMap, nodes': NodeMap, ks: seq<Tree>, cur: seq<Tree>, next0: nat, next: nat, next': nat)
    requires next0 <= next <= next'
    requires forall k :: k in IdSetAll(cur) ==> k in IdSetAll(ks) || InRange(k, next0, next)
    requires forall k :: k in nodes <==> k in nodes0 || InRange(k, next0, next)
    requires forall k :: k in nodes0 && k !in IdSetAll(ks) && !InRange(k, next0, next) ==> nodes[k] == nodes0[k]
    requires forall k :: k in nodes' <==> k in nodes || InRange(k, next, next')
    requires forall k :: k in nodes && k !in IdSetAll(cur) && !InRange(k, next, next') ==> nodes'[k] == nodes[k]
    ensures forall k :: k in nodes' <==> k in nodes0 || InRange(k, next0, next')
    ensures forall k :: k in nodes0 && k !in IdSetAll(ks) && !InRange(k, next0, next') ==> nodes'[k] == nodes0[k]
  {
    forall k | k in nodes0 && k !in IdSetAll(ks) && !InRange(k, next0, next')
      ensures nodes'[k] == nodes0[k]
    {
      assert k !in IdSetAll(cur);
    }
  }


  /**
   * One round of `while (currentChildren.length > 2)`: pairs `current[i]`
   * and `current[i + 1]` for even `i` under a new intermediate stored in the
   * map, rewrites the pair's `parent` to it, and carries an odd last child
   * forward. The map then holds the round's trees, all under `pid`.
   */
  method BuildLevel(nodes0: NodeMap, current: seq<TreeId>, d: CsgNode, pid: TreeId, next0: nat, ghost cur: seq<Tree>)
    returns (level: seq<TreeId>, nodes: NodeMap, next: nat)
    requires d.OperationNode? && current == Ids(cur) && DistinctAll(cur)
    requires forall j :: 0 <= j < |cur| ==> Holds(nodes0, cur[j], Some(pid))
    requires forall k :: k in IdSetAll(cur) ==> !InRange(k, next0, next0 + |cur| / 2)
    ensures next == next0 + |cur| / 2
    ensures level == Ids(PairRound(cur, d, next0))
    ensures forall j :: 0 <= j < |level| ==> Holds(nodes, PairRound(cur, d, next0)[j], Some(pid))
    ensures forall k :: k in nodes <==> k in nodes0 || InRange(k, next0, next)
    ensures forall k :: k in nodes0 && k !in IdSetAll(cur) && !InRange(k, next0, next) ==> nodes[k] == nodes0[k]
  {
    level, nodes, next := [], nodes0, next0;
    var i := 0;
    ghost var m := 0;
    while i < |current|
      invariant i == 2 * m && 0 <= i <= |cur| + 1
      invariant LevelInv(nodes0, nodes, cur, d, pid, next0, m, level, next)
    {
      nodes, level, next := LevelStep(nodes0, current, d, pid, next0, cur, nodes, level, next, i, m);
      i, m := i + 2, m + 1;
    }
    LevelDone(nodes0, nodes, cur, d, pid, next0, m, level, next);
  }

  /** What the pairing loop knows after `m` steps, that is with `i == 2 * m`. */
  ghost predicate LevelInv(nodes0: NodeMap, nodes: NodeMap, cur: seq<Tree>, d: CsgNode, pid: TreeId, next0: nat, m: nat, level: seq<TreeId>, next: nat)
    requires d.OperationNode? && 2 * m <= |cur| + 1
  {
    |level| == m && (forall j :: 0 <= j < m ==> level[j] == PairRound(cur, d, next0)[j].id)
    && next == next0 + m - (if 2 * m > |cur| then 1 else 0)
    && (forall k :: k in nodes <==> k in nodes0 || InRange(k, next0, next))
    && (forall k :: k in nodes0 && k !in IdSetAll(cur) && !InRange(k, next0, next) ==> nodes[k] == nodes0[k])
    && (forall j :: 2 * m <= j < |cur| ==> Holds(nodes, cur[j], Some(pid)))
    && (2 * m > |cur| ==> Holds(nodes, cur[|cur| - 1], Some(pid)))
    && (forall j :: 0 <= j < m && 2 * j + 1 < |cur| ==> Paired(nodes, cur, j, pid, d, next0))
  }

  /** The `k`-th tree of a round: an intermediate over a pair, or the carried last tree. */
  lemma PairRoundAt(cur: seq<Tree>, d: CsgNode, next0: nat, k: nat)
    requires d.OperationNode? && 2 * k < |cur|
    ensures |PairRound(cur, d, next0)| == (|cur| + 1) / 2
    ensures 2 * k + 1 < |cur| ==> PairRound(cur, d, next0)[k] == Intermediate(d, NormalizedId(next0 + k), cur[2 * k], cur[2 * k + 1])
    ensures 2 * k + 1 == |cur| ==> PairRound(cur, d, next0)[k] == cur[2 * k]
  {
  }

  /** One step of the pairing loop, from `i == 2 * m` to `i == 2 * m + 2`. */
  method LevelStep(nodes0: NodeMap, current: seq<TreeId>, d: CsgNode, pid: TreeId, next0: nat, ghost cur: seq<Tree>,
                   nodes: NodeMap, level: seq<TreeId>, next: nat, i: nat, ghost m: nat)
    returns (nodes': NodeMap, level': seq<TreeId>, next': nat)
    requires d.OperationNode? && current == Ids(cur) && DistinctAll(cur) && i == 2 * m && i < |cur|
    requires forall k :: k in IdSetAll(cur) ==> !InRange(k, next0, next0 + |cur| / 2)
    requires LevelInv(nodes0, nodes, cur, d, pid, next0, m, level, next)
    ensures LevelInv(nodes0, nodes', cur, d, pid, next0, m + 1, level', next')
  {
    if i + 1 < |current| {
      var iid;
      nodes', iid := AddIntermediate(nodes, current, i, d, pid, next, cur, m, next0);
      next' := next + 1;
      level' := level + [iid];
      LevelPaired(nodes0, nodes, nodes', cur, d, pid, next0, m, level, next);
    } else {
      nodes', level', next' := nodes, level + [current[i]], next;
      LevelCarried(nodes0, nodes, cur, d, pid, next0, m, level, next);
    }
  }

  /** Pairing trees `2 * m` and `2 * m + 1` under a new intermediate advances the pairing loop's invariant. */
  lemma LevelPaired(nodes0: NodeMap, nodes: NodeMap, nodes': NodeMap, cur: seq<Tree>, d: CsgNode, pid: TreeId, next0: nat,
                    m: nat, level: seq<TreeId>, next: nat)
    requires d.OperationNode? && 2 * m + 1 < |cur|
    requires LevelInv(nodes0, nodes, cur, d, pid, next0, m, level, next)
    requires forall j :: 2 * m + 2 <= j < |cur| ==> Holds(nodes', cur[j], Some(pid))
    requires forall j :: 0 <= j < m + 1 ==> Paired(nodes', cur, j, pid, d, next0)
    requires forall k :: k in nodes' <==> k in nodes || k == NormalizedId(next)
    requires forall k :: k in nodes && k !in IdSetAll(cur) && k != NormalizedId(next) ==> nodes'[k] == nodes[k]
    ensures LevelInv(nodes0, nodes', cur, d, pid, next0, m + 1, level + [NormalizedId(next)], next + 1)
  {
    PairRoundAt(cur, d, next0, m);
    var level' := level + [NormalizedId(next)];
    forall j | 0 <= j < m + 1
      ensures level'[j] == PairRound(cur, d, next0)[j].id
    {
      if j < m {
        assert level'[j] == level[j];
      }
    }
    forall k
      ensures k in nodes' <==> k in nodes0 || InRange(k, next0, next + 1)
    {
      assert InRange(k, next0, next + 1) <==> InRange(k, next0, next) || k == NormalizedId(next);
    }
  }

  /** Carrying the odd last tree to the next round ends the pairing loop's invariant at `m + 1`. */
  lemma LevelCarried(nodes0: NodeMap, nodes: NodeMap, cur: seq<Tree>, d: CsgNode, pid: TreeId, next0: nat,
                     m: nat, level: seq<TreeId>, next: nat)
    requires d.OperationNode? && 2 * m + 1 == |cur|
    requires LevelInv(nodes0, nodes, cur, d, pid, next0, m, level, next)
    ensures LevelInv(nodes0, nodes, cur, d, pid, next0, m + 1, level + [cur[2 * m].id], next)
  {
    PairRoundAt(cur, d, next0, m);
    var level' := level + [cur[2 * m].id];
    forall j | 0 <= j < m + 1
      ensures level'[j] == PairRound(cur, d, next0)[j].id
    {
      if j < m {
        assert level'[j] == level[j];
      }
    }
  }

  /** When the pairing loop ends, its invariant gives `BuildLevel`'s postconditions. */
  lemma LevelDone(nodes0: NodeMap, nodes: NodeMap, cur: seq<Tree>, d: CsgNode, pid: TreeId, next0: nat, m: nat, level: seq<TreeId>, next: nat)
    requires d.OperationNode? && |cur| <= 2 * m <= |cur| + 1
    requires LevelInv(nodes0, nodes, cur, d, pid, next0, m, level, next)
    ensures next == next0 + |cur| / 2
    ensures level == Ids(PairRound(cur, d, next0))
    ensures forall j :: 0 <= j < |level| ==> Holds(nodes, PairRound(cur, d, next0)[j], Some(pid))
  {
    RoundDone(nodes, cur, m, pid, d, next0);
  }

  /** When the pairing loop ends, the map holds every tree of the round under `pid`. */
  lemma RoundDone(nodes: NodeMap, cur: seq<Tree>, m: int, pid: TreeId, d: CsgNode, next0: nat)
    requires d.OperationNode? && |cur| <= 2 * m <= |cur| + 1
    requires 2 * m > |cur| ==> Holds(nodes, cur[|cur| - 1], Some(pid))
    requires forall j :: 0 <= j < m && 2 * j + 1 < |cur| ==> Paired(nodes, cur, j, pid, d, next0)
    ensures forall j :: 0 <= j < m ==> Holds(nodes, PairRound(cur, d, next0)[j], Some(pid))
  {
    var pr := PairRound(cur, d, next0);
    forall j | 0 <= j < m
      ensures Holds(nodes, pr[j], Some(pid))
    {
      if 2 * j + 1 < |cur| {
        assert Paired(nodes, cur, j, pid, d, next0);
        assert pr[j] == Intermediate(d, NormalizedId(next0 + j), cur[2 * j], cur[2 * j + 1]);
        assert pr[j].children == [cur[2 * j], cur[2 * j + 1]];
      } else {
        assert 2 * j == |cur| - 1 && pr[j] == cur[2 * j];
      }
    }
  }

  /**
   * The body of the pairing loop for a pair: store a new intermediate with
   * id `999@next` over `current[i]` and `current[i + 1]`, and point both
   * at it.
   */
  method AddIntermediate(nodes0: NodeMap, current: seq<TreeId>, i: nat, d: CsgNode, pid: TreeId, next: nat, ghost cur: seq<Tree>, ghost m: nat, ghost next0: nat)
    returns (nodes: NodeMap, iid: TreeId)
    requires d.OperationNode? && current == Ids(cur) && DistinctAll(cur) && i == 2 * m && i + 1 < |cur|
    requires next == next0 + m
    requires forall k :: k in IdSetAll(cur) ==> !InRange(k, next0, next0 + |cur| / 2)
    requires forall j :: 2 * m <= j < |cur| ==> Holds(nodes0, cur[j], Some(pid))
    requires forall j :: 0 <= j < m ==> Paired(nodes0, cur, j, pid, d, next0)
    ensures iid == NormalizedId(next)
    ensures forall j :: 2 * m + 2 <= j < |cur| ==> Holds(nodes, cur[j], Some(pid))
    ensures forall j :: 0 <= j < m + 1 ==> Paired(nodes, cur, j, pid, d, next0)
    ensures forall k :: k in nodes <==> k in nodes0 || k == iid
    ensures forall k :: k in nodes0 && k !in IdSetAll(cur) && k != iid ==> nodes[k] == nodes0[k]
  {
    iid := NormalizedId(next);
    var inter := NormalizedNode(iid, Some(pid), IntermediateData(d), [current[i], current[i + 1]]);
    nodes := nodes0[iid := inter];
    ghost var n1 := nodes;
    nodes := nodes[current[i] := nodes[current[i]].(parent := Some(iid))];
    ghost var n2 := nodes;
    nodes := nodes[current[i + 1] := nodes[current[i + 1]].(parent := Some(iid))];
    PairStep(nodes0, n1, n2, nodes, cur, m, pid, d, next0);
  }

  /** Pair `j` of the round is stored: its intermediate's entry, and both trees under it. */
  ghost predicate Paired(nodes: NodeMap, cur: seq<Tree>, j: int, pid: TreeId, d: CsgNode, next0: nat)
    requires d.OperationNode? && 0 <= j && 2 * j + 1 < |cur|
  {
    var iid := NormalizedId(next0 + j);
    iid in nodes && nodes[iid] == Entry(PairRound(cur, d, next0)[j], Some(pid))
    && Holds(nodes, cur[2 * j], Some(iid)) && Holds(nodes, cur[2 * j + 1], Some(iid))
  }

  /** The three map writes of pairing step `m`: the new intermediate, then the pair's parents. */
  ghost predicate PairWrites(n0: NodeMap, n1: NodeMap, n2: NodeMap, n3: NodeMap, cur: seq<Tree>, m: int, pid: TreeId, d: CsgNode, next0: nat)
    requires d.OperationNode? && 0 <= m && 2 * m + 1 < |cur|
  {
    var iid := NormalizedId(next0 + m);
    n1 == n0[iid := NormalizedNode(iid, Some(pid), IntermediateData(d), [cur[2 * m].id, cur[2 * m + 1].id])]
    && cur[2 * m].id in n1 && n2 == n1[cur[2 * m].id := n1[cur[2 * m].id].(parent := Some(iid))]
    && cur[2 * m + 1].id in n2 && n3 == n2[cur[2 * m + 1].id := n2[cur[2 * m + 1].id].(parent := Some(iid))]
  }

  /** The map writes of pairing step `m` keep what the pairing loop knows about the map. */
  lemma PairStep(n0: NodeMap, n1: NodeMap, n2: NodeMap, n3: NodeMap, cur: seq<Tree>, m: int, pid: TreeId, d: CsgNode, next0: nat)
    requires d.OperationNode? && DistinctAll(cur) && 0 <= m && 2 * m + 1 < |cur|
    requires forall k :: k in IdSetAll(cur) ==> !InRange(k, next0, next0 + |cur| / 2)
    requires var iid := NormalizedId(next0 + m);
      n1 == n0[iid := NormalizedNode(iid, Some(pid), IntermediateData(d), [cur[2 * m].id, cur[2 * m + 1].id])]
      && cur[2 * m].id in n1 && n2 == n1[cur[2 * m].id := n1[cur[2 * m].id].(parent := Some(iid))]
      && cur[2 * m + 1].id in n2 && n3 == n2[cur[2 * m + 1].id := n2[cur[2 * m + 1].id].(parent := Some(iid))]
    requires forall j :: 2 * m <= j < |cur| ==> Holds(n0, cur[j], Some(pid))
    requires forall j :: 0 <= j < m ==> Paired(n0, cur, j, pid, d, next0)
    ensures forall j :: 2 * m + 2 <= j < |cur| ==> Holds(n3, cur[j], Some(pid))
    ensures forall j :: 0 <= j < m + 1 ==> Paired(n3, cur, j, pid, d, next0)
    ensures forall k :: k in n3 <==> k in n0 || k == NormalizedId(next0 + m)
    ensures forall k :: k in n0 && k !in IdSetAll(cur) && k != NormalizedId(next0 + m) ==> n3[k] == n0[k]
  {
    var iid := NormalizedId(next0 + m);
    assert PairWrites(n0, n1, n2, n3, cur, m, pid, d, next0);
    assert InRange(iid, next0, next0 + |cur| / 2);
    IdSetAllMember(cur, 2 * m);
    IdSetAllMember(cur, 2 * m + 1);
    assert iid !in IdSetAll(cur);
    PairKeepsOthers(n0, n1, n2, n3, cur, m, pid, d, next0);
    forall j | 2 * m + 2 <= j < |cur|
      ensures Holds(n3, cur[j], Some(pid))
    {
      assert Holds(n0, cur[j], Some(pid));
    }
    PairKeepsEarlier(n0, n3, cur, m, pid, d, next0);
    assert Holds(n0, cur[2 * m], Some(pid)) && Holds(n0, cur[2 * m + 1], Some(pid));
    PairHangs(n0, n1, n2, n3, cur, m, pid, d, next0);
  }

  /** No tree of the round other than the pair holds any of the three keys written. */
  lemma PairKeepsOthers(n0: NodeMap, n1: NodeMap, n2: NodeMap, n3: NodeMap, cur: seq<Tree>, m: int, pid: TreeId, d: CsgNode, next0: nat)
    requires d.OperationNode? && DistinctAll(cur) && 0 <= m && 2 * m + 1 < |cur|
    requires PairWrites(n0, n1, n2, n3, cur, m, pid, d, next0) && NormalizedId(next0 + m) !in IdSetAll(cur)
    ensures forall j, p :: 0 <= j < |cur| && j != 2 * m && j != 2 * m + 1 && Holds(n0, cur[j], p) ==> Holds(n3, cur[j], p)
  {
    var iid := NormalizedId(next0 + m);
    var a, b := cur[2 * m].id, cur[2 * m + 1].id;
    var inter := NormalizedNode(iid, Some(pid), IntermediateData(d), [a, b]);
    forall j, p | 0 <= j < |cur| && j != 2 * m && j != 2 * m + 1 && Holds(n0, cur[j], p)
      ensures Holds(n3, cur[j], p)
    {
      IdSetAllMember(cur, j);
      DistinctAllMember(cur, j);
      assert a in IdSet(cur[2 * m]) && b in IdSet(cur[2 * m + 1]);
      HoldsOut(n0, cur[j], p, iid, inter);
      HoldsOut(n1, cur[j], p, a, n1[a].(parent := Some(iid)));
      HoldsOut(n2, cur[j], p, b, n2[b].(parent := Some(iid)));
    }
  }

  /** The earlier intermediates keep their entries, and the trees under them stay held. */
  lemma PairKeepsEarlier(n0: NodeMap, n3: NodeMap, cur: seq<Tree>, m: int, pid: TreeId, d: CsgNode, next0: nat)
    requires d.OperationNode? && 0 <= m && 2 * m + 1 < |cur|
    requires forall k :: k in IdSetAll(cur) ==> !InRange(k, next0, next0 + |cur| / 2)
    requires forall k :: k in n3 <==> k in n0 || k == NormalizedId(next0 + m)
    requires forall k :: k in n0 && k !in IdSetAll(cur) && k != NormalizedId(next0 + m) ==> n3[k] == n0[k]
    requires forall j, p :: 0 <= j < |cur| && j != 2 * m && j != 2 * m + 1 && Holds(n0, cur[j], p) ==> Holds(n3, cur[j], p)
    requires forall j :: 0 <= j < m ==> Paired(n0, cur, j, pid, d, next0)
    ensures forall j :: 0 <= j < m ==> Paired(n3, cur, j, pid, d, next0)
  {
    forall j | 0 <= j < m
      ensures Paired(n3, cur, j, pid, d, next0)
    {
      var jid := NormalizedId(next0 + j);
      assert Paired(n0, cur, j, pid, d, next0);
      assert InRange(jid, next0, next0 + |cur| / 2);
      assert jid !in IdSetAll(cur) && jid != NormalizedId(next0 + m);
      assert Holds(n3, cur[2 * j], Some(jid)) && Holds(n3, cur[2 * j + 1], Some(jid));
    }
  }

  /** The pair now hangs under the new intermediate, whose entry is the round's `m`-th tree. */
  lemma PairHangs(n0: NodeMap, n1: NodeMap, n2: NodeMap, n3: NodeMap, cur: seq<Tree>, m: int, pid: TreeId, d: CsgNode, next0: nat)
    requires d.OperationNode? && DistinctAll(cur) && 0 <= m && 2 * m + 1 < |cur|
    requires PairWrites(n0, n1, n2, n3, cur, m, pid, d, next0) && NormalizedId(next0 + m) !in IdSetAll(cur)
    requires Holds(n0, cur[2 * m], Some(pid)) && Holds(n0, cur[2 * m + 1], Some(pid))
    ensures Paired(n3, cur, m, pid, d, next0)
  {
    var iid := NormalizedId(next0 + m);
    var a, b := cur[2 * m].id, cur[2 * m + 1].id;
    var inter := NormalizedNode(iid, Some(pid), IntermediateData(d), [a, b]);
    IdSetAllMember(cur, 2 * m);
    IdSetAllMember(cur, 2 * m + 1);
    DistinctAllMember(cur, 2 * m);
    DistinctAllMember(cur, 2 * m + 1);
    assert a in IdSet(cur[2 * m]) && b in IdSet(cur[2 * m + 1]);
    HoldsOut(n0, cur[2 * m], Some(pid), iid, inter);
    HoldsReparent(n1, cur[2 * m], Some(pid), Some(iid));
    HoldsOut(n2, cur[2 * m], Some(iid), b, n2[b].(parent := Some(iid)));
    HoldsOut(n0, cur[2 * m + 1], Some(pid), iid, inter);
    HoldsOut(n1, cur[2 * m + 1], Some(pid), a, n1[a].(parent := Some(iid)));
    HoldsReparent(n2, cur[2 * m + 1], Some(pid), Some(iid));
    PairRoundAt(cur, d, next0, m);
    IntermediateEntry(d, iid, cur[2 * m], cur[2 * m + 1], pid);
    assert n3[iid] == inter;
  }

  lemma IntermediateEntry(d: CsgNode, iid: TreeId, l: Tree, r: Tree, pid: TreeId)
    requires d.OperationNode?
    ensures Entry(Intermediate(d, iid, l, r), Some(pid)) == NormalizedNode(iid, Some(pid), IntermediateData(d), [l.id, r.id])
  {
    assert ChildIds(Intermediate(d, iid, l, r)) == [l.id, r.id];
  }
}
