/** Folding a list with steps that can be swapped does not depend on its order. */
module Folds {

  ghost function Fold<S, X>(op: (S, X) -> S, s: S, xs: seq<X>): S
    decreases |xs|
  {
    if xs == [] then s else Fold(op, op(s, xs[0]), xs[1..])
  }

  /** eq is an equivalence that the steps respect and up to which they commute. */
  ghost predicate Swappable<S(!new), X(!new)>(op: (S, X) -> S, eq: (S, S) -> bool) {
    && (forall s :: eq(s, s))
    && (forall s, r, t :: eq(s, r) && eq(r, t) ==> eq(s, t))
    && (forall s, r :: eq(s, r) ==> eq(r, s))
    && (forall s, r, x :: eq(s, r) ==> eq(op(s, x), op(r, x)))
    && (forall s, x, y :: eq(op(op(s, x), y), op(op(s, y), x)))
  }

  lemma {:induction false} FoldRespects<S(!new), X(!new)>(op: (S, X) -> S, eq: (S, S) -> bool, s: S, r: S, xs: seq<X>)
    requires Swappable(op, eq) && eq(s, r)
    ensures eq(Fold(op, s, xs), Fold(op, r, xs))
    decreases |xs|
  {
    if xs != [] {
      FoldRespects(op, eq, op(s, xs[0]), op(r, xs[0]), xs[1..]);
    }
  }

  /** Taking the i-th element first makes no difference. */
  lemma {:induction false} FoldFirst<S(!new), X(!new)>(op: (S, X) -> S, eq: (S, S) -> bool, s: S, xs: seq<X>, i: nat)
    requires Swappable(op, eq) && i < |xs|
    ensures eq(Fold(op, s, xs), Fold(op, op(s, xs[i]), xs[..i] + xs[i + 1..]))
    decreases |xs|
  {
    if i == 0 {
      assert xs[..0] + xs[1..] == xs[1..];
    } else {
      var rest := xs[1..];
      var tail := rest[..i - 1] + rest[i..];
      FoldFirst(op, eq, op(s, xs[0]), rest, i - 1);
      FoldRespects(op, eq, op(op(s, xs[0]), xs[i]), op(op(s, xs[i]), xs[0]), tail);
      assert (xs[..i] + xs[i + 1..])[1..] == tail;
    }
  }

  lemma SameRest<X>(xs: seq<X>, ys: seq<X>, i: nat)
    requires xs != [] && i < |ys| && ys[i] == xs[0] && multiset(xs) == multiset(ys)
    ensures multiset(xs[1..]) == multiset(ys[..i] + ys[i + 1..])
  {
    WithoutOne(xs, 0);
    assert xs[..0] + xs[0 + 1..] == xs[1..];
    WithoutOne(ys, i);
  }

  lemma WithoutOne<X>(xs: seq<X>, i: nat)
    requires i < |xs|
    ensures multiset(xs[..i] + xs[i + 1..]) == multiset(xs) - multiset{xs[i]}
  {
    assert xs == xs[..i] + [xs[i]] + xs[i + 1..];
  }

  lemma {:induction false} FoldOrder<S(!new), X(!new)>(
    op: (S, X) -> S, eq: (S, S) -> bool, s: S, xs: seq<X>, ys: seq<X>)
    requires Swappable(op, eq) && multiset(xs) == multiset(ys)
    ensures eq(Fold(op, s, xs), Fold(op, s, ys))
    decreases |xs|
  {
    if xs == [] {
      assert |ys| == |multiset(ys)| == 0;
    } else {
      assert xs[0] in multiset(xs);
      var i :| 0 <= i < |ys| && ys[i] == xs[0];
      var rest := ys[..i] + ys[i + 1..];
      FoldFirst(op, eq, s, ys, i);
      SameRest(xs, ys, i);
      FoldOrder(op, eq, op(s, xs[0]), xs[1..], rest);
    }
  }
}
