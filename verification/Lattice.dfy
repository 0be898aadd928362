/** Folds over a bounded join-semilattice. Every verdict of the harness is such a
    fold, evaluated in one of several tree shapes; the facts here say that the
    shape, the order and the repetition of the elements never matter. */
module Lattice {

  ghost predicate Semilattice<T(!new)>(join: (T, T) -> T, bottom: T) {
    && (forall a :: join(bottom, a) == a)
    && (forall a :: join(a, a) == a)
    && (forall a, b :: join(a, b) == join(b, a))
    && (forall a, b, c :: join(join(a, b), c) == join(a, join(b, c)))
  }

  /** `a` is no worse than `b`. */
  ghost predicate Below<T>(join: (T, T) -> T, a: T, b: T) {
    join(a, b) == b
  }

  /** The kernel's `iterate`: a running join from the neutral verdict. */
  function Fold<T>(join: (T, T) -> T, bottom: T, xs: seq<T>): T {
    if |xs| == 0 then bottom
    else join(Fold(join, bottom, xs[..|xs| - 1]), xs[|xs| - 1])
  }

  lemma {:induction false} FoldConcat<T(!new)>(join: (T, T) -> T, bottom: T, xs: seq<T>, ys: seq<T>)
    requires Semilattice(join, bottom)
    ensures Fold(join, bottom, xs + ys) == join(Fold(join, bottom, xs), Fold(join, bottom, ys))
  {
    if |ys| == 0 {
      assert xs + ys == xs;
    } else {
      var last := ys[|ys| - 1];
      var init := ys[..|ys| - 1];
      assert (xs + ys)[..|xs + ys| - 1] == xs + init;
      FoldConcat(join, bottom, xs, init);
      var a, b := Fold(join, bottom, xs), Fold(join, bottom, init);
      assert join(join(a, b), last) == join(a, join(b, last));
    }
  }

  lemma FoldSingle<T(!new)>(join: (T, T) -> T, bottom: T, x: T)
    requires Semilattice(join, bottom)
    ensures Fold(join, bottom, [x]) == x
  {
    assert [x][..0] == [];
  }

  /** Padding with the neutral verdict is invisible. */
  lemma {:induction false} FoldPadding<T(!new)>(join: (T, T) -> T, bottom: T, xs: seq<T>, n: nat)
    requires Semilattice(join, bottom)
    ensures Fold(join, bottom, xs + seq(n, _ => bottom)) == Fold(join, bottom, xs)
  {
    var pad := seq(n, _ => bottom);
    if n == 0 {
      assert xs + pad == xs;
    } else {
      assert (xs + pad)[..|xs + pad| - 1] == xs + seq(n - 1, _ => bottom);
      FoldPadding(join, bottom, xs, n - 1);
    }
  }

  lemma {:induction false} FoldBounds<T(!new)>(join: (T, T) -> T, bottom: T, xs: seq<T>, x: T)
    requires Semilattice(join, bottom) && x in xs
    ensures Below(join, x, Fold(join, bottom, xs))
  {
    var i :| 0 <= i < |xs| && xs[i] == x;
    assert xs == xs[..i] + ([x] + xs[i + 1..]);
    FoldConcat(join, bottom, xs[..i], [x] + xs[i + 1..]);
    FoldConcat(join, bottom, [x], xs[i + 1..]);
    FoldSingle(join, bottom, x);
    var a, c := Fold(join, bottom, xs[..i]), Fold(join, bottom, xs[i + 1..]);
    assert join(x, join(a, join(x, c))) == join(join(x, join(x, c)), a);
    assert join(x, join(x, c)) == join(join(x, x), c);
  }

  lemma {:induction false} FoldLeast<T(!new)>(join: (T, T) -> T, bottom: T, xs: seq<T>, bound: T)
    requires Semilattice(join, bottom)
    requires forall x :: x in xs ==> Below(join, x, bound)
    ensures Below(join, Fold(join, bottom, xs), bound)
  {
    if |xs| > 0 {
      var init, last := xs[..|xs| - 1], xs[|xs| - 1];
      FoldLeast(join, bottom, init, bound);
      assert last in xs;
      assert join(join(Fold(join, bottom, init), last), bound)
          == join(Fold(join, bottom, init), join(last, bound));
    }
  }

  /** A list whose every element occurs in another folds to no worse a verdict. */
  lemma FoldSubset<T(!new)>(join: (T, T) -> T, bottom: T, xs: seq<T>, ys: seq<T>)
    requires Semilattice(join, bottom)
    requires forall x :: x in xs ==> x in ys
    ensures Below(join, Fold(join, bottom, xs), Fold(join, bottom, ys))
  {
    forall x | x in xs ensures Below(join, x, Fold(join, bottom, ys)) {
      FoldBounds(join, bottom, ys, x);
    }
    FoldLeast(join, bottom, xs, Fold(join, bottom, ys));
  }

  /** Order and repetition are forgotten: only the set of verdicts counts. */
  lemma FoldForgetsOrder<T(!new)>(join: (T, T) -> T, bottom: T, xs: seq<T>, ys: seq<T>)
    requires Semilattice(join, bottom)
    requires forall x :: x in xs <==> x in ys
    ensures Fold(join, bottom, xs) == Fold(join, bottom, ys)
  {
    FoldSubset(join, bottom, xs, ys);
    FoldSubset(join, bottom, ys, xs);
  }

  /** Worsening one verdict, anywhere, never improves the fold. */
  lemma {:induction false} FoldMonotone<T(!new)>(join: (T, T) -> T, bottom: T, xs: seq<T>, ys: seq<T>)
    requires Semilattice(join, bottom) && |xs| == |ys|
    requires forall i :: 0 <= i < |xs| ==> Below(join, xs[i], ys[i])
    ensures Below(join, Fold(join, bottom, xs), Fold(join, bottom, ys))
  {
    var top := Fold(join, bottom, ys);
    forall x | x in xs ensures Below(join, x, top) {
      var i :| 0 <= i < |xs| && xs[i] == x;
      FoldBounds(join, bottom, ys, ys[i]);
      assert join(x, join(ys[i], top)) == join(join(x, ys[i]), top);
    }
    FoldLeast(join, bottom, xs, top);
  }
}
