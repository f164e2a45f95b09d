/** The banded triangular product in place, and that the banded solve undoes it and is undone by it. */
module BandInverse {
  import opened Sums
  import opened TriangularSystem
  import opened Kernels
  import opened BandStorage
  import opened BandSolve
  import opened BandedMv

  /** Only the diagonal of the two rows differs, by the implicit one. */
  lemma UnitDiagonal(s: TriBand, i: int, x: seq<real>)
    requires s.Valid() && 0 <= i < s.N() == |x|
    ensures var a := Triangular(s.band, s.upper, s.unit);
            Dot(s.System().Row(i), 0, x) == Dot(a.Row(i), 0, x) + if s.unit then x[i] else 0.0
  {
    hide Dot, Mul, Band.At;
    var f, g := s.System().Row(i), Triangular(s.band, s.upper, s.unit).Row(i);
    forall k | 0 <= k < s.N() && (k != i || !s.unit)
      ensures f(k) == g(k)
    {
      ReadIsElem(s, i, k);
    }
    if s.unit {
      DotAgree(f, g, 0, x[..i]);
      DotAgree(f, g, i + 1, x[i + 1..]);
      assert x == x[..i] + ([x[i]] + x[i + 1..]);
      DotSplit(f, 0, x[..i], [x[i]] + x[i + 1..]);
      DotSplit(g, 0, x[..i], [x[i]] + x[i + 1..]);
      DotCons(f, i, x[i], x[i + 1..]);
      DotCons(g, i, x[i], x[i + 1..]);
      MulFacts(f(i), x[i]);
      MulFacts(g(i), x[i]);
    } else {
      DotAgree(f, g, 0, x);
    }
  }

  /** A contiguous copy of a vector. */
  method Duplicate(b: Vec) returns (x: Vec)
    requires b.Valid()
    ensures x.Valid() && fresh(x.data) && x.n == b.n && x.Elems() == b.Elems()
  {
    var data := new real[b.n];
    hide Vec.Elems;
    for i := 0 to b.n
      invariant forall k :: 0 <= k < i ==> data[k] == b.Elems()[k]
    {
      data[i] := b.Get(i);
    }
    x := Vec(data, 0, 1, b.n);
  }

  /** compressed_triangular_matrix_vector: B = A * B, with B itself standing in for a unit diagonal. */
  method Tbmv(s: TriBand, b: Vec, interleave: int, maxThreads: int)
    requires s.Valid() && b.Valid() && b.n == s.N() && interleave >= 1 && maxThreads >= 1
    modifies b.data
    ensures Solves(s.System(), old(b.Elems()), b.Elems())
    ensures b.Others() == old(b.Others())
  {
    hide Dot, Mul, Tri.Row, Operand.Row, Vec.Elems, Vec.Others;
    var x := Duplicate(b);
    ghost var xs := x.Elems();
    var beta := if s.unit then 1.0 else 0.0;
    Gbmv(Triangular(s.band, s.upper, s.unit), 1.0, beta, x, b, interleave, maxThreads);
    forall i | 0 <= i < s.N()
      ensures b.Elems()[i] == Dot(s.System().Row(i), 0, xs)
    {
      UnitDiagonal(s, i, xs);
      MulFacts(beta, xs[i]);
      MulFacts(1.0, Dot(Triangular(s.band, s.upper, s.unit).Row(i), 0, xs));
    }
  }

  /** A product, whatever its partition into panels, is undone by a solve, whatever its order. */
  method ProductThenSolve(s: TriBand, b: Vec, interleave: int, maxThreads: int)
    requires s.Valid() && s.System().Regular() && b.Valid() && b.n == s.N() && interleave >= 1 && maxThreads >= 1
    modifies b.data
    ensures b.Elems() == old(b.Elems()) && b.Others() == old(b.Others())
  {
    ghost var b0 := b.Elems();
    Tbmv(s, b, interleave, maxThreads);
    ghost var b1 := b.Elems();
    TriBandSv(s, b);
    SolutionUnique(s.System(), b.Elems(), b0, b1);
  }

  method SolveThenProduct(s: TriBand, b: Vec, interleave: int, maxThreads: int)
    requires s.Valid() && s.System().Regular() && b.Valid() && b.n == s.N() && interleave >= 1 && maxThreads >= 1
    modifies b.data
    ensures b.Elems() == old(b.Elems()) && b.Others() == old(b.Others())
  {
    hide Dot, Mul, Vec.Elems, Vec.Others;
    ghost var b0 := b.Elems();
    TriBandSv(s, b);
    ghost var b1 := b.Elems();
    Tbmv(s, b, interleave, maxThreads);
    assert forall i :: 0 <= i < |b0| ==> b0[i] == Dot(s.System().Row(i), 0, b1) == b.Elems()[i];
  }
}
