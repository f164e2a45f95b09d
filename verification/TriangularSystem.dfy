/**
 * Triangular matrices as the solvers see them: an accessor that may only be
 * called on the stored triangle, and the matrix op(A) it stands for.
 */
module TriangularSystem {
  import opened Sums

  /**
   * An n x n triangle read through `a`. `upper` names the stored half, `unit` an
   * implicit diagonal of ones, and `trans` whether op(A) is the transpose of A.
   */
  datatype Tri = Tri(a: (int, int) --> real, n: nat, upper: bool, unit: bool, trans: bool) {

    /** The only elements of A that a routine is given access to. */
    predicate Stored(i: int, k: int) {
      0 <= i < n && 0 <= k < n && (if i == k then !unit else (i < k) == upper)
    }

    ghost predicate Valid() {
      forall i, k :: Stored(i, k) ==> a.requires(i, k)
    }

    /** Element (i, k) of the triangular matrix A. */
    ghost function Elem(i: int, k: int): real {
      if i == k && unit then 1.0
      else if Stored(i, k) && a.requires(i, k) then a(i, k)
      else 0.0
    }

    /** Element (i, k) of op(A). */
    ghost function At(i: int, k: int): real {
      if trans then Elem(k, i) else Elem(i, k)
    }

    /** Row i of op(A). */
    ghost function Row(i: int): int -> real {
      k => At(i, k)
    }

    /** Whether op(A), rather than A, is upper triangular. */
    predicate OpUpper() {
      upper != trans
    }

    /** op(A) can be inverted. */
    ghost predicate Regular() {
      !unit ==> forall i :: 0 <= i < n ==> Elem(i, i) != 0.0
    }

    /** The same storage with op toggled: row j of the flip is column j of op(A). */
    ghost function Flip(): Tri {
      this.(trans := !trans)
    }
  }

  /** The flip is the transpose, and a stored element is what the accessor returns. */
  lemma FlipAt(t: Tri, i: int, k: int)
    ensures t.Flip().At(i, k) == t.At(k, i)
    ensures t.Valid() && t.Stored(i, k) ==> t.a.requires(i, k) && t.Elem(i, k) == t.a(i, k)
  {
    assert t.Flip().Elem(i, k) == t.Elem(i, k) && t.Flip().Elem(k, i) == t.Elem(k, i);
  }

  /** xs solves op(A) * xs == rhs. */
  ghost predicate Solves(t: Tri, xs: seq<real>, rhs: seq<real>) {
    && |xs| == |rhs| == t.n
    && forall i :: 0 <= i < t.n ==> Dot(t.Row(i), 0, xs) == rhs[i]
  }

  /** Entries of op(A) outside its triangle are zero, so a row reduces to its own half. */
  lemma RowTail(t: Tri, i: int, xs: seq<real>)
    requires 0 <= i < t.n == |xs| && t.OpUpper()
    ensures Dot(t.Row(i), 0, xs) == Dot(t.Row(i), i, xs[i..])
  {
    hide Dot, Mul;
    DotZero(t.Row(i), 0, xs[..i]);
    DotSplit(t.Row(i), 0, xs[..i], xs[i..]);
    assert xs == xs[..i] + xs[i..];
  }

  lemma RowHead(t: Tri, i: int, xs: seq<real>)
    requires 0 <= i < t.n == |xs| && !t.OpUpper()
    ensures Dot(t.Row(i), 0, xs) == Dot(t.Row(i), 0, xs[..i + 1])
  {
    hide Dot, Mul;
    DotZero(t.Row(i), i + 1, xs[i + 1..]);
    DotSplit(t.Row(i), 0, xs[..i + 1], xs[i + 1..]);
    assert xs == xs[..i + 1] + xs[i + 1..];
  }

  /** In an upper system the unknowns after k determine unknown k. */
  lemma UpperPivot(t: Tri, xs: seq<real>, rhs: seq<real>, k: int, tail: seq<real>)
    requires t.OpUpper() && Solves(t, xs, rhs) && 0 <= k < t.n && tail == xs[k + 1..]
    ensures Mul(t.At(k, k), xs[k]) == rhs[k] - Dot(t.Row(k), k + 1, tail)
  {
    hide Dot, Mul;
    RowTail(t, k, xs);
    assert xs[k..] == [xs[k]] + tail;
    DotCons(t.Row(k), k, xs[k], tail);
  }

  /** In a lower system the unknowns before k determine unknown k. */
  lemma LowerPivot(t: Tri, xs: seq<real>, rhs: seq<real>, k: int, head: seq<real>)
    requires !t.OpUpper() && Solves(t, xs, rhs) && 0 <= k < t.n && head == xs[..k]
    ensures Mul(t.At(k, k), xs[k]) == rhs[k] - Dot(t.Row(k), 0, head)
  {
    hide Dot, Mul;
    RowHead(t, k, xs);
    assert xs[..k + 1] == head + [xs[k]];
    DotSnoc(t.Row(k), 0, head, xs[k]);
  }

  lemma PivotNonZero(t: Tri, k: int)
    requires t.Regular() && 0 <= k < t.n
    ensures t.At(k, k) != 0.0
  {
    assert t.unit || t.Elem(k, k) != 0.0;
  }

  lemma {:induction false} UpperUnique(t: Tri, xs: seq<real>, ys: seq<real>, rhs: seq<real>, k: int)
    requires t.Regular() && t.OpUpper()
    requires Solves(t, xs, rhs) && Solves(t, ys, rhs) && 0 <= k <= t.n
    ensures xs[k..] == ys[k..]
    decreases t.n - k
  {
    hide Dot, Mul;
    if k < t.n {
      UpperUnique(t, xs, ys, rhs, k + 1);
      UpperPivot(t, xs, rhs, k, xs[k + 1..]);
      UpperPivot(t, ys, rhs, k, xs[k + 1..]);
      PivotNonZero(t, k);
      MulCancel(t.At(k, k), xs[k], ys[k]);
      assert xs[k..] == [xs[k]] + xs[k + 1..] && ys[k..] == [ys[k]] + ys[k + 1..];
    }
  }

  lemma {:induction false} LowerUnique(t: Tri, xs: seq<real>, ys: seq<real>, rhs: seq<real>, k: int)
    requires t.Regular() && !t.OpUpper()
    requires Solves(t, xs, rhs) && Solves(t, ys, rhs) && 0 <= k <= t.n
    ensures xs[..k] == ys[..k]
    decreases k
  {
    hide Dot, Mul;
    if k > 0 {
      LowerUnique(t, xs, ys, rhs, k - 1);
      LowerPivot(t, xs, rhs, k - 1, xs[..k - 1]);
      LowerPivot(t, ys, rhs, k - 1, xs[..k - 1]);
      PivotNonZero(t, k - 1);
      MulCancel(t.At(k - 1, k - 1), xs[k - 1], ys[k - 1]);
      assert xs[..k] == xs[..k - 1] + [xs[k - 1]] && ys[..k] == ys[..k - 1] + [ys[k - 1]];
    }
  }

  /** A triangular system without a zero on its diagonal has at most one solution. */
  lemma SolutionUnique(t: Tri, xs: seq<real>, ys: seq<real>, rhs: seq<real>)
    requires t.Regular() && Solves(t, xs, rhs) && Solves(t, ys, rhs)
    ensures xs == ys
  {
    if t.OpUpper() {
      UpperUnique(t, xs, ys, rhs, 0);
      assert xs[0..] == xs && ys[0..] == ys;
    } else {
      LowerUnique(t, xs, ys, rhs, t.n);
      assert xs[..t.n] == xs && ys[..t.n] == ys;
    }
  }
}
