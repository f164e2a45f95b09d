/** The in-place triangular product and the in-place triangular solve undo each other. */
module TriangularInverse {
  import opened Sums
  import opened TriangularSystem
  import opened MatrixStore
  import Trmm
  import Trsm

  lemma FlipRegular(t: Tri)
    requires t.Regular()
    ensures t.Flip().Regular()
  {
    forall i | 0 <= i < t.n
      ensures t.Flip().Elem(i, i) == t.Elem(i, i)
    {
      FlipAt(t, i, i);
    }
  }

  lemma ScaledInverse(a: real, v: real)
    requires a != 0.0
    ensures Mul(1.0 / a, Mul(a, v)) == v && Mul(a, Mul(1.0 / a, v)) == v
  {
    hide Mul;
    MulDivide(a, v);
    MulSwap(a, 1.0 / a, v);
  }

  /** The solution of op(A) * Y == (1 / a) * (a * op(A) * X) is X. */
  lemma SolveAfterProduct(t: Tri, a: real, xs: seq<real>, ys: seq<real>)
    requires a != 0.0 && t.Regular() && |xs| == t.n
    requires Solves(t, ys, Scaled(1.0 / a, Trmm.Product(t, a, xs)))
    ensures ys == xs
  {
    hide Dot, Mul;
    var rhs := Scaled(1.0 / a, Trmm.Product(t, a, xs));
    forall i | 0 <= i < t.n
      ensures Dot(t.Row(i), 0, xs) == rhs[i]
    {
      ScaledInverse(a, Dot(t.Row(i), 0, xs));
    }
    SolutionUnique(t, xs, ys, rhs);
  }

  /** Multiplying a solution of op(A) * Y == (1 / a) * X by a * op(A) gives X back. */
  lemma ProductAfterSolve(t: Tri, a: real, xs: seq<real>, ys: seq<real>)
    requires a != 0.0 && Solves(t, ys, Scaled(1.0 / a, xs))
    ensures Trmm.Product(t, a, ys) == xs
  {
    hide Dot, Mul;
    forall i | 0 <= i < t.n
      ensures Mul(a, Dot(t.Row(i), 0, ys)) == xs[i]
    {
      ScaledInverse(a, xs[i]);
    }
  }

  /** trmm with alpha == a followed by trsm with alpha == 1 / a leaves B as it was. */
  method ProductThenSolve(left: bool, t: Tri, b: array2<real>, a: real)
    requires a != 0.0 && t.Valid() && t.Regular() && t.n == if left then b.Length0 else b.Length1
    modifies b
    ensures forall i, j :: 0 <= i < b.Length0 && 0 <= j < b.Length1 ==> b[i, j] == old(b[i, j])
  {
    hide Trmm.Product, Solves;
    Trmm.NaiveTrmm(left, t, b, a);
    Trsm.NaiveTrsm(left, t, b, 1.0 / a);
    FlipRegular(t);
    if left {
      forall j | 0 <= j < b.Length1
        ensures Column(b, j) == old(Column(b, j))
      {
        SolveAfterProduct(t, a, old(Column(b, j)), Column(b, j));
      }
      assert forall i, j :: 0 <= i < b.Length0 && 0 <= j < b.Length1 ==> b[i, j] == Column(b, j)[i];
    } else {
      forall i | 0 <= i < b.Length0
        ensures RowOf(b, i) == old(RowOf(b, i))
      {
        SolveAfterProduct(t.Flip(), a, old(RowOf(b, i)), RowOf(b, i));
      }
      assert forall i, j :: 0 <= i < b.Length0 && 0 <= j < b.Length1 ==> b[i, j] == RowOf(b, i)[j];
    }
  }

  /** trsm with alpha == 1 / a followed by trmm with alpha == a leaves B as it was. */
  method SolveThenProduct(left: bool, t: Tri, b: array2<real>, a: real)
    requires a != 0.0 && t.Valid() && t.Regular() && t.n == if left then b.Length0 else b.Length1
    modifies b
    ensures forall i, j :: 0 <= i < b.Length0 && 0 <= j < b.Length1 ==> b[i, j] == old(b[i, j])
  {
    hide Trmm.Product, Solves;
    Trsm.NaiveTrsm(left, t, b, 1.0 / a);
    label Solved:
    Trmm.NaiveTrmm(left, t, b, a);
    if left {
      forall j | 0 <= j < b.Length1
        ensures Column(b, j) == old(Column(b, j))
      {
        ProductAfterSolve(t, a, old(Column(b, j)), old@Solved(Column(b, j)));
      }
      assert forall i, j :: 0 <= i < b.Length0 && 0 <= j < b.Length1 ==> b[i, j] == Column(b, j)[i];
    } else {
      forall i | 0 <= i < b.Length0
        ensures RowOf(b, i) == old(RowOf(b, i))
      {
        ProductAfterSolve(t.Flip(), a, old(RowOf(b, i)), old@Solved(RowOf(b, i)));
      }
      assert forall i, j :: 0 <= i < b.Length0 && 0 <= j < b.Length1 ==> b[i, j] == RowOf(b, i)[j];
    }
  }

  /**
   * What lies outside the stored triangle cannot matter: two matrices that agree on it
   * have the same solution, whatever they hold elsewhere.
   */
  lemma StoredTriangleDecides(t: Tri, u: Tri, xs: seq<real>, ys: seq<real>, rhs: seq<real>)
    requires t.Valid() && u.Valid() && u == t.(a := u.a) && t.Regular()
    requires forall i, k :: t.Stored(i, k) ==> u.Stored(i, k) && t.a(i, k) == u.a(i, k)
    requires Solves(t, xs, rhs) && Solves(u, ys, rhs)
    ensures xs == ys
  {
    hide Dot, Mul;
    forall i | 0 <= i < t.n
      ensures Dot(t.Row(i), 0, ys) == rhs[i]
    {
      forall k | 0 <= k < t.n
        ensures t.Row(i)(k) == u.Row(i)(k)
      {
        assert t.Elem(i, k) == u.Elem(i, k) && t.Elem(k, i) == u.Elem(k, i);
      }
      DotAgree(t.Row(i), u.Row(i), 0, ys);
    }
    SolutionUnique(t, xs, ys, rhs);
  }
}
