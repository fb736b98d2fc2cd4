/** Vocabulary shared by both scene-graph revisions. */
module Common {
  /** An optional value: a missing map entry, an unset `parent`, a `null` root. */
  datatype Option<+T> = None | Some(value: T)

  /** The three CSG operations; the enum values are the codes the shader reads. */
  datatype OpKind = Union | Intersect | Difference

  /** The code of an operation when it is written into a GPU record. */
  function OpCode(op: OpKind): (c: real)
    ensures OpFromCode(c) == Some(op)
  {
    match op
    case Union => 0.0
    case Intersect => 1.0
    case Difference => 2.0
  }

  /** Reads an operation back from its code; any other number is not an operation. */
  function OpFromCode(c: real): Option<OpKind>
  {
    if c == 0.0 then Some(Union)
    else if c == 1.0 then Some(Intersect)
    else if c == 2.0 then Some(Difference)
    else None
  }

  /** No element occurs twice. */
  predicate NoDups<T(==)>(xs: seq<T>)
  {
    forall i, j :: 0 <= i < j < |xs| ==> xs[i] != xs[j]
  }

  /** `Array.prototype.indexOf`: the first position of `x`, or -1. */
  function IndexOf<T(==)>(xs: seq<T>, x: T): (i: int)
    ensures -1 <= i < |xs|
    ensures i == -1 <==> x !in xs
    ensures 0 <= i ==> xs[i] == x && x !in xs[..i]
    decreases |xs|
  {
    if |xs| == 0 then -1
    else if xs[0] == x then 0
    else
      var j := IndexOf(xs[1..], x);
      if j == -1 then -1 else j + 1
  }

  /** In a sequence without duplicates, the position of the element at `i` is `i`. */
  lemma IndexOfNoDups<T>(xs: seq<T>, i: int)
    requires NoDups(xs) && 0 <= i < |xs|
    ensures IndexOf(xs, xs[i]) == i
  {
  }

  lemma NoDupsConcat<T>(a: seq<T>, b: seq<T>)
    requires NoDups(a) && NoDups(b)
    requires forall i, j :: 0 <= i < |a| && 0 <= j < |b| ==> a[i] != b[j]
    ensures NoDups(a + b)
  {
    forall i, j | 0 <= i < j < |a + b|
      ensures (a + b)[i] != (a + b)[j]
    {
      if j < |a| {
        assert (a + b)[i] == a[i] && (a + b)[j] == a[j];
      } else if i >= |a| {
        assert (a + b)[i] == b[i - |a|] && (a + b)[j] == b[j - |a|];
      } else {
        assert (a + b)[i] == a[i] && (a + b)[j] == b[j - |a|];
      }
    }
  }

  /** A non-empty sequence is its front and its last element. */
  lemma Snoc<T>(s: seq<T>)
    requires |s| > 0
    ensures s[..|s| - 1] + [s[|s| - 1]] == s
  {
  }

  /** A sequence of two or more is its front and its last two elements. */
  lemma Snoc2<T>(s: seq<T>)
    requires |s| >= 2
    ensures s[..|s| - 2] + [s[|s| - 2]] + [s[|s| - 1]] == s
    ensures s[..|s| - 2] + [s[|s| - 2], s[|s| - 1]] == s
  {
  }

  /** The front and the last element of a concatenation whose second part is not empty. */
  lemma ConcatLast<T>(xs: seq<T>, ys: seq<T>)
    requires |ys| > 0
    ensures (xs + ys)[..|xs + ys| - 1] == xs + ys[..|ys| - 1]
    ensures (xs + ys)[|xs + ys| - 1] == ys[|ys| - 1]
  {
  }

  lemma ConcatEmpty<T>(xs: seq<T>)
    ensures xs + [] == xs
  {
  }

  lemma PrefixAll<T>(s: seq<T>)
    ensures s[..|s|] == s
  {
  }
}
