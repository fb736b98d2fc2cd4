/**
 * `getNormalizedTree`'s binarisation, as functions on trees. Every operation
 * node with more than two (normalised) children gets its children paired
 * left to right in rounds: each round wraps `(c[i], c[i+1])` for even `i` in
 * a fresh intermediate operation and carries an odd last child forward, until
 * at most two remain. Intermediates are numbered by one counter shared by the
 * whole walk; a node's children are normalised before its own intermediates
 * are made. Leaves lose any children the Loro tree gives them.
 */
module CsgNormalize {
  import opened Common
  import opened Geometry
  import opened CsgModel

  /** `999@${n}`: the id of the intermediate made when the counter reads `n`. */
  function NormalizedId(n: nat): TreeId
  {
    TreeId(999, n)
  }

  /** `k` is one of the intermediate ids `NormalizedId(j)` with `lo <= j < hi`. */
  predicate InRange(k: TreeId, lo: nat, hi: nat)
  {
    k.counter == 999 && lo <= k.peer < hi
  }

  /** The data of an intermediate made for operation `d`. */
  function IntermediateData(d: CsgNode): CsgNode
    requires d.OperationNode?
  {
    OperationNode(d.name + " (normalized)", Create(), d.op, d.smoothing)
  }

  function Intermediate(d: CsgNode, id: TreeId, left: Tree, right: Tree): Tree
    requires d.OperationNode?
  {
    Tree(id, IntermediateData(d), [left, right])
  }

  /** One round of the pairing loop; the `k`-th pair gets id `NormalizedId(next + k)`. */
  function PairRound(cs: seq<Tree>, d: CsgNode, next: nat): seq<Tree>
    requires d.OperationNode?
  {
    seq((|cs| + 1) / 2, k requires 0 <= k < (|cs| + 1) / 2 =>
      if 2 * k + 1 < |cs| then Intermediate(d, NormalizedId(next + k), cs[2 * k], cs[2 * k + 1])
      else cs[2 * k])
  }

  /** The `while (currentChildren.length > 2)` loop: the new top children and the counter after it. */
  function Binarize(cs: seq<Tree>, d: CsgNode, next: nat): (r: (seq<Tree>, nat))
    requires d.OperationNode?
    ensures next <= r.1
    decreases |cs|
  {
    if |cs| <= 2 then (cs, next)
    else Binarize(PairRound(cs, d, next), d, next + |cs| / 2)
  }

  /** `buildNormalizedTree` on a tree: the normalised tree and the counter after it. */
  function Normalize(t: Tree, next: nat): (r: (Tree, nat))
    ensures r.0.id == t.id && r.0.data == t.data && next <= r.1
    decreases t
  {
    if t.data.LeafNode? then (Tree(t.id, t.data, []), next)
    else
      var (kids, afterKids) := NormalizeAll(t.children, next);
      if |kids| > 2 then
        var (top, afterPairs) := Binarize(kids, t.data, afterKids);
        (Tree(t.id, t.data, top), afterPairs)
      else (Tree(t.id, t.data, kids), afterKids)
  }

  /** The children normalised in order, threading the counter. */
  function NormalizeAll(ts: seq<Tree>, next: nat): (r: (seq<Tree>, nat))
    ensures |r.0| == |ts| && next <= r.1
    ensures forall i :: 0 <= i < |ts| ==> r.0[i].id == ts[i].id
    decreases ts
  {
    if |ts| == 0 then ([], next)
    else
      var (front, mid) := NormalizeAll(ts[..|ts| - 1], next);
      var (last, after) := Normalize(ts[|ts| - 1], mid);
      (front + [last], after)
  }

  /** How many intermediates the whole tree needs: `n - 2` per operation with `n > 2` children. */
  function Excess(t: Tree): nat
  {
    if t.data.LeafNode? then 0
    else (if |t.children| > 2 then |t.children| - 2 else 0) + ExcessAll(t.children)
  }

  function ExcessAll(ts: seq<Tree>): nat
  {
    if |ts| == 0 then 0 else ExcessAll(ts[..|ts| - 1]) + Excess(ts[|ts| - 1])
  }

  // ---------------------------------------------------------------------
  // Facts about one pairing round

  /** A round, read from its last pair or its carried child. */
  lemma PairRoundSnoc(cs: seq<Tree>, d: CsgNode, next: nat)
    requires d.OperationNode? && |cs| >= 1
    ensures |cs| % 2 == 0 ==>
      PairRound(cs, d, next) == PairRound(cs[..|cs| - 2], d, next)
        + [Intermediate(d, NormalizedId(next + |cs| / 2 - 1), cs[|cs| - 2], cs[|cs| - 1])]
    ensures |cs| % 2 == 1 ==>
      PairRound(cs, d, next) == PairRound(cs[..|cs| - 1], d, next) + [cs[|cs| - 1]]
  {
    var m := |cs|;
    if m % 2 == 0 {
      var front := cs[..m - 2];
      var rhs := PairRound(front, d, next) + [Intermediate(d, NormalizedId(next + m / 2 - 1), cs[m - 2], cs[m - 1])];
      assert |rhs| == |PairRound(cs, d, next)|;
      forall k | 0 <= k < |rhs|
        ensures rhs[k] == PairRound(cs, d, next)[k]
      {
        if k < |rhs| - 1 {
          assert 2 * k + 1 < m - 2;
        }
      }
    } else {
      var front := cs[..m - 1];
      var rhs := PairRound(front, d, next) + [cs[m - 1]];
      assert |rhs| == |PairRound(cs, d, next)|;
      forall k | 0 <= k < |rhs|
        ensures rhs[k] == PairRound(cs, d, next)[k]
      {
        if k < |rhs| - 1 {
          assert 2 * k + 1 < m - 1;
        }
      }
    }
  }

  /** The ids of a round are the ids it was given plus the ids of its new intermediates. */
  /** A round of an even forest: the round of its front, then the intermediate of its last two. */
  lemma PairRoundEven(cs: seq<Tree>, d: CsgNode, next: nat)
    requires d.OperationNode? && |cs| >= 2 && |cs| % 2 == 0
    ensures var a, b := cs[|cs| - 2], cs[|cs| - 1];
      var inter := Intermediate(d, NormalizedId(next + |cs| / 2 - 1), a, b);
      var pf := PairRound(cs[..|cs| - 2], d, next);
      IdSetAll(PairRound(cs, d, next)) == IdSetAll(pf) + ({inter.id} + IdSet(a) + IdSet(b))
  {
    var m := |cs|;
    var a, b := cs[m - 2], cs[m - 1];
    var inter := Intermediate(d, NormalizedId(next + m / 2 - 1), a, b);
    PairRoundSnoc(cs, d, next);
    ForestSnoc(PairRound(cs[..m - 2], d, next), inter);
    ForestPair(a, b);
  }

  lemma PairRoundEvenDistinct(cs: seq<Tree>, d: CsgNode, next: nat)
    requires d.OperationNode? && |cs| >= 2 && |cs| % 2 == 0
    ensures var a, b := cs[|cs| - 2], cs[|cs| - 1];
      var inter := Intermediate(d, NormalizedId(next + |cs| / 2 - 1), a, b);
      var pf := PairRound(cs[..|cs| - 2], d, next);
      DistinctAll(PairRound(cs, d, next)) == (DistinctAll(pf) && Distinct(inter) && IdSetAll(pf) !! IdSet(inter))
      && IdSet(inter) == {inter.id} + IdSet(a) + IdSet(b)
      && Distinct(inter) == (inter.id !in IdSet(a) + IdSet(b) && Distinct(a) && Distinct(b) && IdSet(a) !! IdSet(b))
  {
    var m := |cs|;
    var a, b := cs[m - 2], cs[m - 1];
    var inter := Intermediate(d, NormalizedId(next + m / 2 - 1), a, b);
    PairRoundSnoc(cs, d, next);
    ForestSnoc(PairRound(cs[..m - 2], d, next), inter);
    ForestPair(a, b);
  }

  /** A round of an odd forest: the round of its front, then its last tree. */
  lemma PairRoundOdd(cs: seq<Tree>, d: CsgNode, next: nat)
    requires d.OperationNode? && |cs| % 2 == 1
    ensures var c := cs[|cs| - 1];
      var pf := PairRound(cs[..|cs| - 1], d, next);
      IdSetAll(PairRound(cs, d, next)) == IdSetAll(pf) + IdSet(c)
      && DistinctAll(PairRound(cs, d, next)) == (DistinctAll(pf) && Distinct(c) && IdSetAll(pf) !! IdSet(c))
  {
    var m := |cs|;
    PairRoundSnoc(cs, d, next);
    ForestSnoc(PairRound(cs[..m - 1], d, next), cs[m - 1]);
  }

  /** The ids of a round are the ids it was given plus the ids of its new intermediates. */
  lemma {:induction false} PairRoundIds(cs: seq<Tree>, d: CsgNode, next: nat, k: TreeId)
    requires d.OperationNode?
    ensures k in IdSetAll(PairRound(cs, d, next)) <==> k in IdSetAll(cs) || InRange(k, next, next + |cs| / 2)
    decreases |cs|
  {
    var m := |cs|;
    if m > 0 && m % 2 == 0 {
      PairRoundIds(cs[..m - 2], d, next, k);
      PairRoundIdsEven(cs, d, next, k);
    } else if m > 0 {
      PairRoundOdd(cs, d, next);
      assert |cs[..m - 1]| / 2 == m / 2;
      PairRoundIds(cs[..m - 1], d, next, k);
    }
  }

  /** `PairRoundIds` for an even forest, given it for the forest without its last pair. */
  lemma PairRoundIdsEven(cs: seq<Tree>, d: CsgNode, next: nat, k: TreeId)
    requires d.OperationNode? && |cs| > 0 && |cs| % 2 == 0
    requires k in IdSetAll(PairRound(cs[..|cs| - 2], d, next)) <==>
      k in IdSetAll(cs[..|cs| - 2]) || InRange(k, next, next + |cs[..|cs| - 2]| / 2)
    ensures k in IdSetAll(PairRound(cs, d, next)) <==> k in IdSetAll(cs) || InRange(k, next, next + |cs| / 2)
  {
    var m := |cs|;
    var h := m / 2;
    var id := NormalizedId(next + h - 1);
    PairRoundEven(cs, d, next);
    ForestLast2(cs);
    assert |cs[..m - 2]| / 2 == h - 1;
    assert InRange(k, next, next + h) <==> InRange(k, next, next + h - 1) || k == id;
  }

  lemma PairRoundIdSet(cs: seq<Tree>, d: CsgNode, next: nat)
    requires d.OperationNode?
    ensures forall k :: k in IdSetAll(PairRound(cs, d, next)) <==> k in IdSetAll(cs) || InRange(k, next, next + |cs| / 2)
  {
    forall k
      ensures k in IdSetAll(PairRound(cs, d, next)) <==> k in IdSetAll(cs) || InRange(k, next, next + |cs| / 2)
    {
      PairRoundIds(cs, d, next, k);
    }
  }

  /** No round makes an id twice or reuses an id it was given. */
  lemma {:induction false} PairRoundDistinct(cs: seq<Tree>, d: CsgNode, next: nat)
    requires d.OperationNode?
    requires DistinctAll(cs)
    requires forall k :: k in IdSetAll(cs) ==> !InRange(k, next, next + |cs| / 2)
    ensures DistinctAll(PairRound(cs, d, next))
    decreases |cs|
  {
    var m := |cs|;
    if m > 0 && m % 2 == 0 {
      ForestLast2(cs);
      ForestLast2Distinct(cs);
      assert |cs[..m - 2]| / 2 == m / 2 - 1;
      PairRoundDistinct(cs[..m - 2], d, next);
      PairRoundDistinctEven(cs, d, next);
    } else if m > 0 {
      ForestLast(cs);
      assert |cs[..m - 1]| / 2 == m / 2;
      PairRoundDistinct(cs[..m - 1], d, next);
      PairRoundDistinctOdd(cs, d, next);
    }
  }

  /** The last pair's new intermediate and its two trees share no id with the round of the front. */
  lemma PairRoundDistinctEven(cs: seq<Tree>, d: CsgNode, next: nat)
    requires d.OperationNode? && |cs| > 0 && |cs| % 2 == 0 && DistinctAll(cs)
    requires forall k :: k in IdSetAll(cs) ==> !InRange(k, next, next + |cs| / 2)
    requires DistinctAll(PairRound(cs[..|cs| - 2], d, next))
    ensures DistinctAll(PairRound(cs, d, next))
  {
    var m := |cs|;
    var front, a, b := cs[..m - 2], cs[m - 2], cs[m - 1];
    ForestLast2(cs);
    ForestLast2Distinct(cs);
    assert |front| / 2 == m / 2 - 1;
    PairRoundIdSet(front, d, next);
    PairRoundEvenDistinct(cs, d, next);
    var id := NormalizedId(next + m / 2 - 1);
    assert InRange(id, next, next + m / 2);
    assert id !in IdSet(a) + IdSet(b);
    var pf := PairRound(front, d, next);
    forall k | k in IdSetAll(pf)
      ensures k != id && k !in IdSet(a) && k !in IdSet(b)
    {
    }
  }

  /** An odd last tree shares no id with the round of the front. */
  lemma PairRoundDistinctOdd(cs: seq<Tree>, d: CsgNode, next: nat)
    requires d.OperationNode? && |cs| % 2 == 1 && DistinctAll(cs)
    requires forall k :: k in IdSetAll(cs) ==> !InRange(k, next, next + |cs| / 2)
    requires DistinctAll(PairRound(cs[..|cs| - 1], d, next))
    ensures DistinctAll(PairRound(cs, d, next))
  {
    var m := |cs|;
    var front, c := cs[..m - 1], cs[m - 1];
    ForestLast(cs);
    assert |front| / 2 == m / 2;
    PairRoundIdSet(front, d, next);
    PairRoundOdd(cs, d, next);
    forall k | k in IdSetAll(PairRound(front, d, next))
      ensures k !in IdSet(c)
    {
    }
  }

  // ---------------------------------------------------------------------
  // Unpairing: the intermediates only regroup the children they were given

  /** Replaces each intermediate with an id in `[lo, hi)` by the children it pairs, recursively. */
  function Expand(ts: seq<Tree>, lo: nat, hi: nat): seq<Tree>
    decreases ts
  {
    if |ts| == 0 then [] else Expand(ts[..|ts| - 1], lo, hi) + ExpandOne(ts[|ts| - 1], lo, hi)
  }

  function ExpandOne(t: Tree, lo: nat, hi: nat): seq<Tree>
    decreases t
  {
    if InRange(t.id, lo, hi) then Expand(t.children, lo, hi) else [t]
  }

  lemma {:induction false} ExpandConcat(xs: seq<Tree>, ys: seq<Tree>, lo: nat, hi: nat)
    ensures Expand(xs + ys, lo, hi) == Expand(xs, lo, hi) + Expand(ys, lo, hi)
    decreases |ys|
  {
    if |ys| == 0 {
      ConcatEmpty(xs);
    } else {
      ConcatLast(xs, ys);
      ExpandConcat(xs, ys[..|ys| - 1], lo, hi);
    }
  }

  /** A forest none of whose top ids is in the range expands to itself. */
  lemma {:induction false} ExpandNone(ts: seq<Tree>, lo: nat, hi: nat)
    requires forall i :: 0 <= i < |ts| ==> !InRange(ts[i].id, lo, hi)
    ensures Expand(ts, lo, hi) == ts
    decreases |ts|
  {
    if |ts| > 0 {
      var n := |ts| - 1;
      forall i | 0 <= i < n
        ensures !InRange(ts[..n][i].id, lo, hi)
      {
        assert ts[..n][i] == ts[i];
      }
      ExpandNone(ts[..n], lo, hi);
      assert ExpandOne(ts[n], lo, hi) == [ts[n]];
      Snoc(ts);
    }
  }

  lemma {:induction false} PairRoundUnpair(cs: seq<Tree>, d: CsgNode, next: nat, lo: nat, hi: nat)
    requires d.OperationNode? && lo <= next && next + |cs| / 2 <= hi
    ensures Expand(PairRound(cs, d, next), lo, hi) == Expand(cs, lo, hi)
    decreases |cs|
  {
    var m := |cs|;
    if m > 0 && m % 2 == 0 {
      var front := cs[..m - 2];
      var a, b := cs[m - 2], cs[m - 1];
      var inter := Intermediate(d, NormalizedId(next + m / 2 - 1), a, b);
      var pf := PairRound(front, d, next);
      assert Expand(PairRound(cs, d, next), lo, hi) == Expand(pf, lo, hi) + Expand([a, b], lo, hi) by {
        PairRoundSnoc(cs, d, next);
        assert (pf + [inter])[..|pf|] == pf;
        assert [inter][..0] == [];
      }
      assert Expand(cs, lo, hi) == Expand(front, lo, hi) + Expand([a, b], lo, hi) by {
        Snoc2(cs);
        ExpandConcat(front, [a, b], lo, hi);
      }
      PairRoundUnpair(front, d, next, lo, hi);
    } else if m > 0 {
      var front := cs[..m - 1];
      assert Expand(PairRound(cs, d, next), lo, hi) == Expand(PairRound(front, d, next), lo, hi) + Expand([cs[m - 1]], lo, hi) by {
        PairRoundSnoc(cs, d, next);
        ExpandConcat(PairRound(front, d, next), [cs[m - 1]], lo, hi);
      }
      assert Expand(cs, lo, hi) == Expand(front, lo, hi) + Expand([cs[m - 1]], lo, hi) by {
        Snoc(cs);
        ExpandConcat(front, [cs[m - 1]], lo, hi);
      }
      PairRoundUnpair(front, d, next, lo, hi);
    }
  }

  /** The intermediates Binarize makes expand back to exactly the children it was given, in order. */
  lemma {:induction false} BinarizeUnpair(cs: seq<Tree>, d: CsgNode, next: nat, lo: nat, hi: nat)
    requires d.OperationNode? && lo <= next && Binarize(cs, d, next).1 <= hi
    ensures Expand(Binarize(cs, d, next).0, lo, hi) == Expand(cs, lo, hi)
    decreases |cs|
  {
    if |cs| > 2 {
      BinarizeUnpair(PairRound(cs, d, next), d, next + |cs| / 2, lo, hi);
      PairRoundUnpair(cs, d, next, lo, hi);
    }
  }

  // ---------------------------------------------------------------------
  // Counting, arity and ids of Binarize

  /** With `n > 2` children Binarize leaves two and makes `n - 2` intermediates; otherwise it does nothing. */
  lemma {:induction false} BinarizeCount(cs: seq<Tree>, d: CsgNode, next: nat)
    requires d.OperationNode?
    ensures |cs| <= 2 ==> Binarize(cs, d, next) == (cs, next)
    ensures |cs| > 2 ==> |Binarize(cs, d, next).0| == 2 && Binarize(cs, d, next).1 == next + |cs| - 2
    decreases |cs|
  {
    var m := |cs|;
    if m > 2 {
      assert m / 2 + (m + 1) / 2 == m;
      BinarizeCount(PairRound(cs, d, next), d, next + m / 2);
    }
  }

  /** The ids after Binarize are the ids it was given plus the counter values it used. */
  lemma {:induction false} BinarizeIds(cs: seq<Tree>, d: CsgNode, next: nat)
    requires d.OperationNode?
    ensures forall k :: k in IdSetAll(Binarize(cs, d, next).0) <==> k in IdSetAll(cs) || InRange(k, next, Binarize(cs, d, next).1)
    decreases |cs|
  {
    if |cs| > 2 {
      var n2 := next + |cs| / 2;
      BinarizeIds(PairRound(cs, d, next), d, n2);
      PairRoundIdSet(cs, d, next);
    }
  }

  lemma {:induction false} BinarizeDistinct(cs: seq<Tree>, d: CsgNode, next: nat)
    requires d.OperationNode? && DistinctAll(cs)
    requires forall k :: k in IdSetAll(cs) ==> !InRange(k, next, Binarize(cs, d, next).1)
    ensures DistinctAll(Binarize(cs, d, next).0)
    decreases |cs|
  {
    if |cs| > 2 {
      var b := Binarize(cs, d, next).1;
      PairRoundDistinct(cs, d, next);
      PairRoundClear(cs, d, next, b);
      BinarizeDistinct(PairRound(cs, d, next), d, next + |cs| / 2);
    }
  }

  /** After a round, no id of the forest is a counter value the later rounds use. */
  lemma PairRoundClear(cs: seq<Tree>, d: CsgNode, next: nat, b: nat)
    requires d.OperationNode?
    requires forall k :: k in IdSetAll(cs) ==> !InRange(k, next, b)
    ensures forall k :: k in IdSetAll(PairRound(cs, d, next)) ==> !InRange(k, next + |cs| / 2, b)
  {
    PairRoundIdSet(cs, d, next);
  }

  /** At most two children everywhere. */
  predicate Binary(t: Tree)
  {
    |t.children| <= 2 && forall i :: 0 <= i < |t.children| ==> Binary(t.children[i])
  }

  lemma {:induction false} BinarizeBinary(cs: seq<Tree>, d: CsgNode, next: nat)
    requires d.OperationNode? && forall i :: 0 <= i < |cs| ==> Binary(cs[i])
    ensures forall i :: 0 <= i < |Binarize(cs, d, next).0| ==> Binary(Binarize(cs, d, next).0[i])
    decreases |cs|
  {
    if |cs| > 2 {
      var pr := PairRound(cs, d, next);
      forall i | 0 <= i < |pr|
        ensures Binary(pr[i])
      {
        if 2 * i + 1 < |cs| {
          assert pr[i].children == [cs[2 * i], cs[2 * i + 1]];
        }
      }
      BinarizeBinary(pr, d, next + |cs| / 2);
    }
  }

  /**
   * Every node of the forest with an id in `[lo, hi)`, and every such node
   * below one, is an intermediate for `d`: the original's op and smoothing,
   * its name with " (normalized)", the all-zero box and two children.
   */
  ghost predicate Paired(ts: seq<Tree>, d: CsgNode, lo: nat, hi: nat)
    requires d.OperationNode?
  {
    forall i :: 0 <= i < |ts| && InRange(ts[i].id, lo, hi) ==>
      ts[i].data == IntermediateData(d) && |ts[i].children| == 2 && Paired(ts[i].children, d, lo, hi)
  }

  lemma {:induction false} BinarizePaired(cs: seq<Tree>, d: CsgNode, next: nat, lo: nat, hi: nat)
    requires d.OperationNode? && lo <= next && Binarize(cs, d, next).1 <= hi
    requires Paired(cs, d, lo, hi)
    ensures Paired(Binarize(cs, d, next).0, d, lo, hi)
    decreases |cs|
  {
    if |cs| > 2 {
      PairRoundPaired(cs, d, next, lo, hi);
      BinarizePaired(PairRound(cs, d, next), d, next + |cs| / 2, lo, hi);
    }
  }

  /** One round of pairing keeps every intermediate in `[lo, hi)` as made. */
  lemma PairRoundPaired(cs: seq<Tree>, d: CsgNode, next: nat, lo: nat, hi: nat)
    requires d.OperationNode? && Paired(cs, d, lo, hi)
    ensures Paired(PairRound(cs, d, next), d, lo, hi)
  {
    var pr := PairRound(cs, d, next);
    forall i | 0 <= i < |pr| && InRange(pr[i].id, lo, hi)
      ensures pr[i].data == IntermediateData(d) && |pr[i].children| == 2 && Paired(pr[i].children, d, lo, hi)
    {
      if 2 * i + 1 < |cs| {
        assert pr[i].children == [cs[2 * i], cs[2 * i + 1]];
        PairedPair(cs, d, lo, hi, 2 * i);
      }
    }
  }

  /** Two neighbours of a forest whose intermediates are as made form such a forest. */
  lemma PairedPair(cs: seq<Tree>, d: CsgNode, lo: nat, hi: nat, i: int)
    requires d.OperationNode? && 0 <= i && i + 1 < |cs| && Paired(cs, d, lo, hi)
    ensures Paired([cs[i], cs[i + 1]], d, lo, hi)
  {
    var pair := [cs[i], cs[i + 1]];
    forall j | 0 <= j < 2 && InRange(pair[j].id, lo, hi)
      ensures pair[j].data == IntermediateData(d) && |pair[j].children| == 2 && Paired(pair[j].children, d, lo, hi)
    {
      assert pair[j] == cs[i + j];
    }
  }

  // ---------------------------------------------------------------------
  // The whole walk

  /** The counter advances by exactly the number of intermediates the tree needs. */
  lemma {:induction false} NormalizeCount(t: Tree, next: nat)
    ensures Normalize(t, next).1 == next + Excess(t)
    decreases t
  {
    if t.data.OperationNode? {
      var kids := NormalizeAll(t.children, next);
      NormalizeAllCount(t.children, next);
      BinarizeCount(kids.0, t.data, kids.1);
    }
  }

  lemma {:induction false} NormalizeAllCount(ts: seq<Tree>, next: nat)
    ensures NormalizeAll(ts, next).1 == next + ExcessAll(ts)
    decreases ts
  {
    if |ts| > 0 {
      var front := NormalizeAll(ts[..|ts| - 1], next);
      NormalizeAllCount(ts[..|ts| - 1], next);
      NormalizeCount(ts[|ts| - 1], front.1);
    }
  }

  /** After normalisation no node has more than two children. */
  lemma {:induction false} NormalizeBinary(t: Tree, next: nat)
    ensures Binary(Normalize(t, next).0)
    decreases t
  {
    if t.data.OperationNode? {
      var kids := NormalizeAll(t.children, next);
      NormalizeAllBinary(t.children, next);
      if |kids.0| > 2 {
        BinarizeBinary(kids.0, t.data, kids.1);
        BinarizeCount(kids.0, t.data, kids.1);
      }
    }
  }

  lemma {:induction false} NormalizeAllBinary(ts: seq<Tree>, next: nat)
    ensures forall i :: 0 <= i < |ts| ==> Binary(NormalizeAll(ts, next).0[i])
    decreases ts
  {
    if |ts| > 0 {
      var front := NormalizeAll(ts[..|ts| - 1], next);
      NormalizeAllBinary(ts[..|ts| - 1], next);
      NormalizeBinary(ts[|ts| - 1], front.1);
    }
  }

  /** The normalised tree's ids: kept source ids and every counter value the walk used. */
  lemma {:induction false} NormalizeIds(t: Tree, next: nat)
    ensures forall k :: k in IdSet(Normalize(t, next).0) ==> k in IdSet(t) || InRange(k, next, Normalize(t, next).1)
    ensures forall k :: InRange(k, next, Normalize(t, next).1) ==> k in IdSet(Normalize(t, next).0)
    decreases t
  {
    if t.data.OperationNode? {
      var kids := NormalizeAll(t.children, next);
      NormalizeAllIds(t.children, next);
      if |kids.0| > 2 {
        BinarizeIds(kids.0, t.data, kids.1);
      }
    }
  }

  lemma {:induction false} NormalizeAllIds(ts: seq<Tree>, next: nat)
    ensures forall k :: k in IdSetAll(NormalizeAll(ts, next).0) ==> k in IdSetAll(ts) || InRange(k, next, NormalizeAll(ts, next).1)
    ensures forall k :: InRange(k, next, NormalizeAll(ts, next).1) ==> k in IdSetAll(NormalizeAll(ts, next).0)
    decreases ts
  {
    if |ts| > 0 {
      var n := |ts| - 1;
      var front := NormalizeAll(ts[..n], next);
      var last := Normalize(ts[n], front.1);
      NormalizeAllIds(ts[..n], next);
      NormalizeIds(ts[n], front.1);
      ForestSnoc(front.0, last.0);
      Snoc(ts);
      ForestSnoc(ts[..n], ts[n]);
    }
  }

  /** Normalising a tree with distinct ids that avoid the counter values it uses gives distinct ids. */
  lemma {:induction false} NormalizeDistinct(t: Tree, next: nat)
    requires Distinct(t)
    requires forall k :: k in IdSet(t) ==> !InRange(k, next, next + Excess(t))
    ensures Distinct(Normalize(t, next).0)
    decreases t
  {
    if t.data.OperationNode? {
      var kids := NormalizeAll(t.children, next);
      var r := Normalize(t, next);
      NormalizeCount(t, next);
      NormalizeAllCount(t.children, next);
      assert Excess(t) == (if |t.children| > 2 then |t.children| - 2 else 0) + ExcessAll(t.children);
      assert IdSet(t) == {t.id} + IdSetAll(t.children);
      NormalizeAllIds(t.children, next);
      NormalizeAllDistinct(t.children, next);
      if |kids.0| > 2 {
        BinarizeIds(kids.0, t.data, kids.1);
        BinarizeDistinct(kids.0, t.data, kids.1);
      }
      assert t.id !in IdSetAll(r.0.children);
    }
  }

  lemma {:induction false} NormalizeAllDistinct(ts: seq<Tree>, next: nat)
    requires DistinctAll(ts)
    requires forall k :: k in IdSetAll(ts) ==> !InRange(k, next, next + ExcessAll(ts))
    ensures DistinctAll(NormalizeAll(ts, next).0)
    decreases ts
  {
    if |ts| > 0 {
      var n := |ts| - 1;
      ForestLast(ts);
      NormalizeAllRanges(ts, next);
      NormalizeAllDistinct(ts[..n], next);
      NormalizeDistinct(ts[n], NormalizeAll(ts[..n], next).1);
      NormalizeAllJoin(ts, next);
    }
  }

  /** A normalised forest is distinct when its normalised front and last tree are. */
  lemma NormalizeAllJoin(ts: seq<Tree>, next: nat)
    requires |ts| > 0 && DistinctAll(ts)
    requires forall k :: k in IdSetAll(ts) ==> !InRange(k, next, next + ExcessAll(ts))
    requires DistinctAll(NormalizeAll(ts[..|ts| - 1], next).0)
    requires Distinct(Normalize(ts[|ts| - 1], NormalizeAll(ts[..|ts| - 1], next).1).0)
    ensures DistinctAll(NormalizeAll(ts, next).0)
  {
    var n := |ts| - 1;
    var front := NormalizeAll(ts[..n], next);
    var last := Normalize(ts[n], front.1);
    NormalizeAllApart(ts, next);
    ForestSnoc(front.0, last.0);
  }

  /** The counter ranges of a forest's front and of its last tree lie within the forest's range. */
  lemma NormalizeAllRanges(ts: seq<Tree>, next: nat)
    requires |ts| > 0
    requires forall k :: k in IdSetAll(ts) ==> !InRange(k, next, next + ExcessAll(ts))
    ensures var n := |ts| - 1;
      var mid := NormalizeAll(ts[..n], next).1;
      (forall k :: k in IdSetAll(ts[..n]) ==> !InRange(k, next, next + ExcessAll(ts[..n])))
      && mid == next + ExcessAll(ts[..n]) && mid + Excess(ts[n]) == next + ExcessAll(ts)
      && (forall k :: k in IdSet(ts[n]) ==> !InRange(k, mid, mid + Excess(ts[n])))
  {
    var n := |ts| - 1;
    var mid := NormalizeAll(ts[..n], next).1;
    ForestLast(ts);
    NormalizeAllCount(ts[..n], next);
    assert ExcessAll(ts) == ExcessAll(ts[..n]) + Excess(ts[n]);
  }

  /** The normalised front of a forest and its normalised last tree share no id. */
  lemma NormalizeAllApart(ts: seq<Tree>, next: nat)
    requires |ts| > 0 && DistinctAll(ts)
    requires forall k :: k in IdSetAll(ts) ==> !InRange(k, next, next + ExcessAll(ts))
    ensures var n := |ts| - 1;
      var front := NormalizeAll(ts[..n], next);
      IdSetAll(front.0) !! IdSet(Normalize(ts[n], front.1).0)
  {
    var n := |ts| - 1;
    var front := NormalizeAll(ts[..n], next);
    ForestLast(ts);
    NormalizeAllRanges(ts, next);
    NormalizeAllIds(ts[..n], next);
    NormalizeIds(ts[n], front.1);
    NormalizeCount(ts[n], front.1);
  }

  /**
   * What normalisation does at one operation node with `n` children: with
   * `n <= 2` it keeps the normalised children and makes nothing; with `n > 2`
   * it leaves two top children, makes exactly `n - 2` intermediates (every
   * counter value it used names one of them), each of them an intermediate
   * of this node, and expanding them gives back the normalised children in
   * their original order.
   */
  lemma NormalizeNode(t: Tree, next: nat)
    requires t.data.OperationNode?
    requires forall k :: k in IdSet(t) ==> !InRange(k, next, next + Excess(t))
    ensures var kids := NormalizeAll(t.children, next);
      var r := Normalize(t, next);
      (|t.children| <= 2 ==> r.0.children == kids.0 && r.1 == kids.1)
      && (|t.children| > 2 ==>
           |r.0.children| == 2 && r.1 == kids.1 + |t.children| - 2
           && Expand(r.0.children, kids.1, r.1) == kids.0
           && Paired(r.0.children, t.data, kids.1, r.1)
           && forall k :: InRange(k, kids.1, r.1) ==> k in IdSetAll(r.0.children))
  {
    var kids := NormalizeAll(t.children, next);
    var r := Normalize(t, next);
    BinarizeCount(kids.0, t.data, kids.1);
    if |t.children| > 2 {
      NormalizeCount(t, next);
      NormalizeAllCount(t.children, next);
      assert Excess(t) == |t.children| - 2 + ExcessAll(t.children);
      forall i | 0 <= i < |kids.0|
        ensures !InRange(kids.0[i].id, kids.1, r.1)
      {
        IdSetAllMember(t.children, i);
        assert kids.0[i].id == t.children[i].id;
        assert t.children[i].id in IdSet(t);
      }
      ExpandNone(kids.0, kids.1, r.1);
      BinarizeUnpair(kids.0, t.data, kids.1, kids.1, r.1);
      BinarizePaired(kids.0, t.data, kids.1, kids.1, r.1);
      BinarizeIds(kids.0, t.data, kids.1);
    }
  }

  lemma {:induction false} ExcessAllPrefix(ts: seq<Tree>, j: int)
    requires 0 <= j <= |ts|
    ensures ExcessAll(ts[..j]) <= ExcessAll(ts)
    decreases |ts|
  {
    if j < |ts| {
      assert ts[..|ts| - 1][..j] == ts[..j];
      ExcessAllPrefix(ts[..|ts| - 1], j);
    } else {
      assert ts[..j] == ts;
    }
  }

  /** `NormalizeAll` on one more child. */
  lemma NormalizeAllNext(cs: seq<Tree>, next: nat, i: int)
    requires 0 <= i < |cs|
    ensures var b := NormalizeAll(cs[..i], next);
      NormalizeAll(cs[..i + 1], next) == (b.0 + [Normalize(cs[i], b.1).0], Normalize(cs[i], b.1).1)
  {
    assert cs[..i + 1][..i] == cs[..i] && cs[..i + 1][i] == cs[i];
  }

  /**
   * What the walk knows before it normalises child `i` of an operation: the
   * child's ids are distinct and clear of the intermediate ids it will make,
   * and the counter stays within the operation's range.
   */
  lemma NormalizeChildCount(u: Tree, next: nat, i: int)
    requires u.data.OperationNode? && Distinct(u) && 0 <= i < |u.children|
    requires forall k :: k in IdSet(u) ==> !InRange(k, next, next + Excess(u))
    ensures var b := NormalizeAll(u.children[..i], next);
      var nc := Normalize(u.children[i], b.1);
      Distinct(u.children[i])
      && (forall k :: k in IdSet(u.children[i]) ==> !InRange(k, b.1, b.1 + Excess(u.children[i])))
      && b.1 == next + ExcessAll(u.children[..i])
      && nc.1 == next + ExcessAll(u.children[..i + 1])
      && nc.1 <= next + ExcessAll(u.children)
  {
    var cs := u.children;
    var b := NormalizeAll(cs[..i], next);
    NormalizeAllNext(cs, next, i);
    assert b.1 == next + ExcessAll(cs[..i]) && NormalizeAll(cs[..i + 1], next).1 == next + ExcessAll(cs[..i + 1]) by {
      NormalizeAllCount(cs[..i], next);
      NormalizeAllCount(cs[..i + 1], next);
    }
    assert ExcessAll(cs) <= Excess(u) by {
      assert Excess(u) == (if |cs| > 2 then |cs| - 2 else 0) + ExcessAll(cs);
    }
    assert ExcessAll(cs[..i + 1]) <= ExcessAll(cs) by {
      ExcessAllPrefix(cs, i + 1);
    }
    assert ExcessAll(cs[..i + 1]) == ExcessAll(cs[..i]) + Excess(cs[i]) by {
      assert cs[..i + 1][..i] == cs[..i] && cs[..i + 1][i] == cs[i];
    }
    assert IdSet(cs[i]) <= IdSet(u) by {
      IdSetAllMember(cs, i);
    }
    DistinctAllMember(cs, i);
  }

  /** Once child `i` is normalised, the trees built so far have distinct ids, none of them the operation's. */
  lemma NormalizeChildDistinct(u: Tree, next: nat, i: int)
    requires u.data.OperationNode? && Distinct(u) && 0 <= i < |u.children|
    requires forall k :: k in IdSet(u) ==> !InRange(k, next, next + Excess(u))
    ensures DistinctAll(NormalizeAll(u.children[..i + 1], next).0)
    ensures u.id !in IdSetAll(NormalizeAll(u.children[..i + 1], next).0)
  {
    var cs := u.children;
    assert ExcessAll(cs) <= Excess(u) by {
      assert Excess(u) == (if |cs| > 2 then |cs| - 2 else 0) + ExcessAll(cs);
    }
    assert ExcessAll(cs[..i + 1]) <= ExcessAll(cs) by {
      ExcessAllPrefix(cs, i + 1);
    }
    assert IdSetAll(cs[..i + 1]) <= IdSetAll(cs) by {
      IdSetAllPrefix(cs, i + 1);
    }
    assert DistinctAll(cs[..i + 1]) by {
      DistinctAllPrefix(cs, i + 1);
    }
    assert IdSet(u) == {u.id} + IdSetAll(cs);
    var pre := cs[..i + 1];
    assert forall k :: k in IdSetAll(pre) ==> !InRange(k, next, next + ExcessAll(pre));
    assert !InRange(u.id, next, next + ExcessAll(pre));
    NormalizeAllDistinct(cs[..i + 1], next);
    NormalizeAllIds(cs[..i + 1], next);
    NormalizeAllCount(cs[..i + 1], next);
  }
  /** Leaves have no children, all the way down: normalised leaves keep only their data. */
  predicate Bare(t: Tree)
  {
    (t.data.LeafNode? ==> |t.children| == 0)
    && forall i :: 0 <= i < |t.children| ==> Bare(t.children[i])
  }

  lemma {:induction false} BinarizeBare(cs: seq<Tree>, d: CsgNode, next: nat)
    requires d.OperationNode? && forall i :: 0 <= i < |cs| ==> Bare(cs[i])
    ensures forall i :: 0 <= i < |Binarize(cs, d, next).0| ==> Bare(Binarize(cs, d, next).0[i])
    decreases |cs|
  {
    if |cs| > 2 {
      var pr := PairRound(cs, d, next);
      forall i | 0 <= i < |pr|
        ensures Bare(pr[i])
      {
        if 2 * i + 1 < |cs| {
          assert pr[i].children == [cs[2 * i], cs[2 * i + 1]];
        }
      }
      BinarizeBare(pr, d, next + |cs| / 2);
    }
  }

  lemma {:induction false} NormalizeBare(t: Tree, next: nat)
    ensures Bare(Normalize(t, next).0)
    decreases t
  {
    if t.data.OperationNode? {
      var kids := NormalizeAll(t.children, next);
      NormalizeAllBare(t.children, next);
      if |kids.0| > 2 {
        BinarizeBare(kids.0, t.data, kids.1);
      }
    }
  }

  lemma {:induction false} NormalizeAllBare(ts: seq<Tree>, next: nat)
    ensures forall i :: 0 <= i < |ts| ==> Bare(NormalizeAll(ts, next).0[i])
    decreases ts
  {
    if |ts| > 0 {
      var front := NormalizeAll(ts[..|ts| - 1], next);
      NormalizeAllBare(ts[..|ts| - 1], next);
      NormalizeBare(ts[|ts| - 1], front.1);
    }
  }

  // ---------------------------------------------------------------------
  // Source ids kept by normalisation

  /**
   * The ids of the nodes the normalising walk reaches: the node itself and,
   * below an operation, the nodes its children reach. A leaf's own children
   * are not reached.
   */
  function OperandIds(t: Tree): set<TreeId>
    decreases t
  {
    {t.id} + (if t.data.OperationNode? then OperandIdsAll(t.children) else {})
  }

  function OperandIdsAll(ts: seq<Tree>): set<TreeId>
    decreases ts
  {
    if |ts| == 0 then {} else OperandIdsAll(ts[..|ts| - 1]) + OperandIds(ts[|ts| - 1])
  }

  /** One pairing round keeps every id below the children it is given. */
  lemma PairRoundKeeps(cs: seq<Tree>, d: CsgNode, next: nat)
    requires d.OperationNode?
    ensures IdSetAll(cs) <= IdSetAll(PairRound(cs, d, next))
  {
    var pr := PairRound(cs, d, next);
    forall k | k in IdSetAll(cs)
      ensures k in IdSetAll(pr)
    {
      var i := IdSetAllFind(cs, k);
      var m := i / 2;
      if 2 * m + 1 < |cs| {
        var pair := [cs[2 * m], cs[2 * m + 1]];
        assert pair[i - 2 * m] == cs[i];
        IdSetAllMember(pair, i - 2 * m);
        assert IdSet(pr[m]) == {pr[m].id} + IdSetAll(pair);
      } else {
        assert pr[m] == cs[i];
      }
      IdSetAllMember(pr, m);
    }
  }

  /** The pairing loop keeps every id below the children it is given. */
  lemma {:induction false} BinarizeKeeps(cs: seq<Tree>, d: CsgNode, next: nat)
    requires d.OperationNode?
    ensures IdSetAll(cs) <= IdSetAll(Binarize(cs, d, next).0)
    decreases |cs|
  {
    if |cs| > 2 {
      PairRoundKeeps(cs, d, next);
      BinarizeKeeps(PairRound(cs, d, next), d, next + |cs| / 2);
    }
  }

  /**
   * Normalisation loses no node it reaches: every source id reachable
   * through operations is an id of the normalised tree.
   */
  lemma {:induction false} NormalizeKeeps(t: Tree, next: nat)
    ensures OperandIds(t) <= IdSet(Normalize(t, next).0)
    decreases t
  {
    if t.data.OperationNode? {
      var kids := NormalizeAll(t.children, next);
      NormalizeAllKeeps(t.children, next);
      if |kids.0| > 2 {
        BinarizeKeeps(kids.0, t.data, kids.1);
      }
    }
  }

  lemma {:induction false} NormalizeAllKeeps(ts: seq<Tree>, next: nat)
    ensures OperandIdsAll(ts) <= IdSetAll(NormalizeAll(ts, next).0)
    decreases ts
  {
    if |ts| > 0 {
      var n := |ts| - 1;
      var front := NormalizeAll(ts[..n], next);
      var last := Normalize(ts[n], front.1);
      assert NormalizeAll(ts, next).0 == front.0 + [last.0];
      NormalizeAllKeeps(ts[..n], next);
      NormalizeKeeps(ts[n], front.1);
      ForestSnoc(front.0, last.0);
    }
  }
}
