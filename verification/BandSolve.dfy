/**
 * Solving a banded triangular system in place: row by row with dot products when the rows are
 * contiguous, column by column otherwise, and the element-by-element form both must match.
 */
module BandSolve {
  import opened NumericUtils
  import opened Sums
  import opened TriangularSystem
  import opened BandStorage
  import opened Kernels
  import Trsm

  /** A band that keeps one side of the diagonal only. */
  datatype TriBand = TriBand(band: Band, upper: bool, unit: bool) {

    ghost predicate Valid() {
      && band.Valid() && band.rows == band.cols
      && (if upper then band.kl == 0 else band.ku == 0)
    }

    function N(): int {
      band.rows
    }

    /** The read view of the triangle: an implicit one on a unit diagonal, zero off the band. */
    function Read(i: int, k: int): real {
      if i == k && unit then 1.0 else band.At(i, k)
    }

    /** The system A * x = b that the band stands for. */
    ghost function System(): Tri
      requires band.rows >= 0
    {
      Tri((i: int, k: int) => band.At(i, k), band.rows, upper, unit, false)
    }
  }

  lemma ReadIsElem(s: TriBand, i: int, k: int)
    requires s.Valid() && 0 <= i < s.N() && 0 <= k < s.N()
    ensures s.System().At(i, k) == s.Read(i, k)
    ensures !s.band.InBand(i, k) ==> s.System().At(i, k) == 0.0
  {
  }

  // ---------- off-band elements contribute nothing ----------

  lemma EliminatedNarrow(t: Tri, xs: seq<real>, k: int, lo: int, lo': int, hi': int, hi: int)
    requires 0 <= k < t.n == |xs| && 0 <= lo <= lo' <= hi' <= hi <= t.n
    requires forall i :: lo <= i < lo' || hi' <= i < hi ==> t.At(i, k) == 0.0
    ensures Trsm.Eliminated(t, xs, k, lo', hi') == Trsm.Eliminated(t, xs, k, lo, hi)
  {
    hide Mul;
    forall i | 0 <= i < t.n
      ensures Trsm.Eliminated(t, xs, k, lo', hi')[i] == Trsm.Eliminated(t, xs, k, lo, hi)[i]
    {
      MulFacts(t.At(i, k), xs[k]);
    }
  }

  // ---------- one row, one column ----------

  lemma RowValues(s: TriBand, i: int, lo: int, length: int)
    requires s.Valid() && s.band.RowPart(i, lo, length) && !(lo <= i < lo + length)
    ensures forall k :: lo <= k < lo + length ==> s.System().Row(i)(k) == s.band.At(i, k)
  {
    forall k | lo <= k < lo + length
      ensures s.System().Row(i)(k) == s.band.At(i, k)
    {
      assert s.band.InBand(i, k);
    }
  }

  lemma ColumnValues(s: TriBand, i: int, lo: int, length: int)
    requires s.Valid() && s.band.ColumnPart(i, lo, length) && !(lo <= i < lo + length)
    ensures forall k :: lo <= k < lo + length ==> s.System().At(k, i) == s.band.At(k, i)
  {
    forall k | lo <= k < lo + length
      ensures s.System().At(k, i) == s.band.At(k, i)
    {
      assert s.band.InBand(k, i);
    }
  }

  /** B(i) less the dot product of row i from column lo with the unknowns there. */
  method SubtractRow(s: TriBand, b: Vec, i: int, lo: int, length: int)
    requires s.Valid() && s.band.trans && b.Valid() && b.n == s.N() && 0 <= i < s.N()
    requires 0 <= lo && 0 <= length && lo + length <= s.N()
    requires s.band.RowPart(i, lo, length) && !(lo <= i < lo + length)
    modifies b.data
    ensures b.Others() == old(b.Others())
    ensures var was := old(b.Elems());
            b.Elems() == was[i := was[i] - Dot(s.System().Row(i), lo, was[lo..lo + length])]
  {
    hide Dot, Mul, Band.LogicalAddr, Band.RowPart, Band.ColumnPart, Band.At, Tri.At, Tri.Row, Tri.Elem;
    hide Vec.Addr, Vec.Valid;
    if length != 0 {
      RowValues(s, i, lo, length);
      RowInStorage(s.band, i, lo, length);
      var dot := DotKernel(length, s.band.data, s.band.LogicalAddr(i, lo), b, lo, s.System().Row(i));
      b.Set(i, b.Get(i) - dot);
    } else {
      DotZero(s.System().Row(i), lo, b.Elems()[lo..lo]);
    }
  }

  /** Rows lo to lo + length - 1 less their share of unknown i. */
  method SubtractColumn(s: TriBand, b: Vec, i: int, lo: int, length: int)
    requires s.Valid() && !s.band.trans && b.Valid() && b.n == s.N() && 0 <= i < s.N()
    requires 0 <= lo && 0 <= length && lo + length <= s.N()
    requires s.band.ColumnPart(i, lo, length) && !(lo <= i < lo + length)
    modifies b.data
    ensures b.Others() == old(b.Others())
    ensures b.Elems() == Trsm.Eliminated(s.System(), old(b.Elems()), i, lo, lo + length)
  {
    hide Mul, Band.LogicalAddr, Band.RowPart, Band.ColumnPart, Band.At, Tri.At, Tri.Row, Tri.Elem;
    hide Vec.Addr, Vec.Valid;
    ghost var t, xs := s.System(), b.Elems();
    if length != 0 {
      ColumnValues(s, i, lo, length);
      ColumnInStorage(s.band, i, lo, length);
      Axpby(length, -b.Get(i), s.band.data, s.band.LogicalAddr(lo, i), 1.0, b, lo);
      forall k | 0 <= k < s.N()
        ensures b.Elems()[k] == Trsm.Eliminated(t, xs, i, lo, lo + length)[k]
      {
        MulFacts(1.0, xs[k]);
        MulFacts(xs[i], t.At(k, i));
      }
    }
    assert b.Elems() == Trsm.Eliminated(t, xs, i, lo, lo + length);
  }

  /** if not unit, B(i) = B(i) / A(i, i); */
  method DivideByDiagonal(s: TriBand, b: Vec, i: int)
    requires s.Valid() && s.System().Regular() && b.Valid() && b.n == s.N() && 0 <= i < s.N()
    modifies b.data
    ensures b.Others() == old(b.Others())
    ensures b.Elems() == old(b.Elems())[i := b.Elems()[i]]
    ensures Mul(s.System().At(i, i), b.Elems()[i]) == old(b.Elems())[i]
  {
    hide Mul, Vec.Addr, Vec.Valid;
    MulFacts(1.0, b.Get(i));
    if !s.unit {
      PivotNonZero(s.System(), i);
      MulDivide(s.Read(i, i), b.Get(i));
      b.Set(i, b.Get(i) / s.band.At(i, i));
    }
  }

  // ---------- the four orders ----------

  lemma UpperRowNarrow(s: TriBand, xs: seq<real>, i: int)
    requires s.Valid() && s.upper && |xs| == s.N() && 0 <= i < s.N()
    ensures Dot(s.System().Row(i), i + 1, xs[i + 1..])
         == Dot(s.System().Row(i), i + 1, xs[i + 1..s.band.RowEnd(i) + 1])
  {
    hide Dot, Mul;
    SliceToEnd(xs, i + 1, s.N());
    DotNarrow(s.System().Row(i), xs, i + 1, i + 1, s.band.RowEnd(i) + 1, s.N());
  }

  lemma LowerRowNarrow(s: TriBand, xs: seq<real>, i: int)
    requires s.Valid() && !s.upper && |xs| == s.N() && 0 <= i < s.N()
    ensures Dot(s.System().Row(i), 0, xs[..i])
         == Dot(s.System().Row(i), s.band.RowStart(i), xs[s.band.RowStart(i)..i])
  {
    hide Dot, Mul;
    assert xs[0..i] == xs[..i];
    DotNarrow(s.System().Row(i), xs, 0, s.band.RowStart(i), i, i);
  }

  lemma UpperGatherOne(s: TriBand, xs: seq<real>, b0: seq<real>, i: int, v: real)
    requires s.Valid() && s.upper && 0 <= i < s.N()
    requires Trsm.UpperGathered(s.System(), xs, b0, 1.0, i)
    requires Mul(s.System().At(i, i), v)
          == xs[i] - Dot(s.System().Row(i), i + 1, xs[i + 1..s.band.RowEnd(i) + 1])
    ensures Trsm.UpperGathered(s.System(), xs[i := v], b0, 1.0, i - 1)
  {
    hide Dot, Mul;
    UpperRowNarrow(s, xs, i);
    MulFacts(1.0, b0[i]);
    assert xs[i] == xs[..i + 1][i] == b0[..i + 1][i] == b0[i];
    Trsm.UpperGatherStep(s.System(), xs, b0, 1.0, i, v);
  }

  lemma LowerGatherOne(s: TriBand, xs: seq<real>, b0: seq<real>, i: int, v: real)
    requires s.Valid() && !s.upper && 0 <= i < s.N()
    requires Trsm.LowerGathered(s.System(), xs, b0, 1.0, i)
    requires Mul(s.System().At(i, i), v)
          == xs[i] - Dot(s.System().Row(i), s.band.RowStart(i), xs[s.band.RowStart(i)..i])
    ensures Trsm.LowerGathered(s.System(), xs[i := v], b0, 1.0, i + 1)
  {
    hide Dot, Mul;
    LowerRowNarrow(s, xs, i);
    MulFacts(1.0, b0[i]);
    assert xs[i] == xs[i..][0] == b0[i..][0] == b0[i];
    Trsm.LowerGatherStep(s.System(), xs, b0, 1.0, i, v);
  }

  lemma ScaledByOne(xs: seq<real>)
    ensures Scaled(1.0, xs) == xs
  {
    hide Mul;
    forall k | 0 <= k < |xs|
      ensures Scaled(1.0, xs)[k] == xs[k]
    {
      MulFacts(1.0, xs[k]);
    }
  }

  /** Transposed storage, upper: bottom to top, the band's length read off get_cntg_band_pos. */
  method UpperByRows(s: TriBand, b: Vec)
    requires s.Valid() && s.upper && s.band.trans && s.System().Regular() && b.Valid() && b.n == s.N()
    modifies b.data
    ensures b.Others() == old(b.Others())
    ensures Solves(s.System(), b.Elems(), old(b.Elems()))
  {
    hide Dot, Mul, Vec.Addr, Vec.Valid;
    ghost var t, b0 := s.System(), b.Elems();
    var i := s.N() - 1;
    while i >= 0
      invariant -1 <= i < s.N()
      invariant Trsm.UpperGathered(t, b.Elems(), b0, 1.0, i)
      invariant b.Others() == old(b.Others())
    {
      ghost var xs := b.Elems();
      SubtractRow(s, b, i, i + 1, s.band.RowEnd(i) - s.band.RowStart(i));
      DivideByDiagonal(s, b, i);
      assert b.Elems() == xs[i := b.Get(i)];
      UpperGatherOne(s, xs, b0, i, b.Get(i));
      i := i - 1;
    }
    Trsm.UpperGatheredDone(t, b.Elems(), b0, 1.0);
    ScaledByOne(b0);
  }

  /** Transposed storage, lower: top to bottom. */
  method LowerByRows(s: TriBand, b: Vec)
    requires s.Valid() && !s.upper && s.band.trans && s.System().Regular() && b.Valid() && b.n == s.N()
    modifies b.data
    ensures b.Others() == old(b.Others())
    ensures Solves(s.System(), b.Elems(), old(b.Elems()))
  {
    hide Dot, Mul, Vec.Addr, Vec.Valid;
    ghost var t, b0 := s.System(), b.Elems();
    for i := 0 to s.N()
      invariant Trsm.LowerGathered(t, b.Elems(), b0, 1.0, i)
      invariant b.Others() == old(b.Others())
    {
      ghost var xs := b.Elems();
      SubtractRow(s, b, i, s.band.RowStart(i), s.band.RowEnd(i) - s.band.RowStart(i));
      DivideByDiagonal(s, b, i);
      assert b.Elems() == xs[i := b.Get(i)];
      LowerGatherOne(s, xs, b0, i, b.Get(i));
    }
    Trsm.LowerGatheredDone(t, b.Elems(), b0, 1.0);
    ScaledByOne(b0);
  }

  /** Column storage, upper: bottom to top, each found unknown eliminated from the rows above. */
  method UpperByColumns(s: TriBand, b: Vec)
    requires s.Valid() && s.upper && !s.band.trans && s.System().Regular() && b.Valid() && b.n == s.N()
    modifies b.data
    ensures b.Others() == old(b.Others())
    ensures Solves(s.System(), b.Elems(), old(b.Elems()))
  {
    hide Dot, Mul, Trsm.UpperEliminated, Trsm.Eliminated, Vec.Addr, Vec.Valid;
    ghost var t, b0 := s.System(), b.Elems();
    Trsm.EliminatedInit(t, b0);
    var i := s.N() - 1;
    while i >= 0
      invariant -1 <= i < s.N()
      invariant Trsm.UpperEliminated(t, b.Elems(), b0, i)
      invariant b.Others() == old(b.Others())
    {
      ghost var xs := b.Elems();
      DivideByDiagonal(s, b, i);
      ghost var v := b.Get(i);
      var start := s.band.ColumnStart(i);
      SubtractColumn(s, b, i, start, s.band.ColumnEnd(i) - start);
      EliminatedNarrow(t, xs[i := v], i, 0, start, i, i);
      Trsm.UpperEliminateStep(t, xs, b0, i, v);
      i := i - 1;
    }
    Trsm.UpperEliminatedDone(t, b.Elems(), b0);
  }

  /** Column storage, lower: top to bottom, the diagonal skipped. */
  method LowerByColumns(s: TriBand, b: Vec)
    requires s.Valid() && !s.upper && !s.band.trans && s.System().Regular() && b.Valid() && b.n == s.N()
    modifies b.data
    ensures b.Others() == old(b.Others())
    ensures Solves(s.System(), b.Elems(), old(b.Elems()))
  {
    hide Dot, Mul, Trsm.LowerEliminated, Trsm.Eliminated, Vec.Addr, Vec.Valid;
    ghost var t, b0 := s.System(), b.Elems();
    Trsm.EliminatedInit(t, b0);
    for i := 0 to s.N()
      invariant Trsm.LowerEliminated(t, b.Elems(), b0, i)
      invariant b.Others() == old(b.Others())
    {
      ghost var xs := b.Elems();
      DivideByDiagonal(s, b, i);
      ghost var v := b.Get(i);
      var start := s.band.ColumnStart(i);
      var length := s.band.ColumnEnd(i) - start;
      SubtractColumn(s, b, i, start + 1, length);
      EliminatedNarrow(t, xs[i := v], i, i + 1, i + 1, i + 1 + length, t.n);
      Trsm.LowerEliminateStep(t, xs, b0, i, v);
    }
    Trsm.LowerEliminatedDone(t, b.Elems(), b0);
  }

  /** tri_band_sv: the order follows the storage and the half. */
  method TriBandSv(s: TriBand, b: Vec)
    requires s.Valid() && s.System().Regular() && b.Valid() && b.n == s.N()
    modifies b.data
    ensures b.Others() == old(b.Others())
    ensures Solves(s.System(), b.Elems(), old(b.Elems()))
  {
    if s.band.trans {
      if s.upper {
        UpperByRows(s, b);
      } else {
        LowerByRows(s, b);
      }
    } else if s.upper {
      UpperByColumns(s, b);
    } else {
      LowerByColumns(s, b);
    }
  }

  // ---------- the element-by-element form ----------

  lemma EliminatedWrite(t: Tri, xs: seq<real>, k: int, lo: int, hi: int, i: int)
    requires 0 <= k < t.n == |xs| && 0 <= lo <= hi <= t.n && 0 <= i < t.n && i != k
    requires (i == hi || i == lo - 1) && (k < lo || hi <= k)
    ensures Trsm.Eliminated(t, xs, k, Min(lo, i), Max(hi, i + 1))
         == Trsm.Eliminated(t, xs, k, lo, hi)[i := xs[i] - Mul(t.At(i, k), xs[k])]
    ensures Trsm.Eliminated(t, xs, k, lo, hi)[i] == xs[i] && Trsm.Eliminated(t, xs, k, lo, hi)[k] == xs[k]
  {
    hide Mul;
  }

  /** B(r) = B(r) - (A(r, i) * B(i)), the next row of an elimination under way. */
  method SubtractOne(s: TriBand, b: Vec, i: int, r: int, ghost xs: seq<real>, ghost lo: int, ghost hi: int)
    requires s.Valid() && b.Valid() && b.n == s.N() == |xs| && 0 <= i < s.N() && 0 <= r < s.N() && r != i
    requires 0 <= lo <= hi <= s.N() && !(lo <= i < hi) && (r == hi || r == lo - 1)
    requires b.Elems() == Trsm.Eliminated(s.System(), xs, i, lo, hi)
    modifies b.data
    ensures b.Others() == old(b.Others())
    ensures b.Elems() == Trsm.Eliminated(s.System(), xs, i, Min(lo, r), Max(hi, r + 1))
  {
    hide Mul, Trsm.Eliminated, Tri.At, TriBand.Read, Vec.Addr, Vec.Valid;
    EliminatedWrite(s.System(), xs, i, lo, hi, r);
    ReadIsElem(s, r, i);
    assert b.Get(r) == b.Elems()[r] && b.Get(i) == b.Elems()[i];
    MulFacts(s.Read(r, i), b.Get(i));
    ghost var was := b.Elems();
    var v := b.Get(r) - s.Read(r, i) * b.Get(i);
    assert v == xs[r] - Mul(s.System().At(r, i), xs[i]);
    b.Set(r, v);
    assert b.Elems() == was[r := v];
  }

  /** B(i) = B(i) / A(i, i), dividing by the implicit one on a unit diagonal. */
  method DivideByRead(s: TriBand, b: Vec, i: int)
    requires s.Valid() && s.System().Regular() && b.Valid() && b.n == s.N() && 0 <= i < s.N()
    modifies b.data
    ensures b.Others() == old(b.Others())
    ensures b.Elems() == old(b.Elems())[i := b.Elems()[i]]
    ensures Mul(s.System().At(i, i), b.Elems()[i]) == old(b.Elems())[i]
  {
    hide Mul, Vec.Addr, Vec.Valid;
    ReadIsElem(s, i, i);
    PivotNonZero(s.System(), i);
    MulDivide(s.Read(i, i), b.Get(i));
    b.Set(i, b.Get(i) / s.Read(i, i));
  }

  /** naive_tbsv. */
  method NaiveTbsv(s: TriBand, b: Vec)
    requires s.Valid() && s.System().Regular() && b.Valid() && b.n == s.N()
    modifies b.data
    ensures b.Others() == old(b.Others())
    ensures Solves(s.System(), b.Elems(), old(b.Elems()))
  {
    hide Dot, Mul, Trsm.UpperEliminated, Trsm.LowerEliminated, Trsm.Eliminated, Tri.At, Vec.Addr, Vec.Valid;
    var n, k := s.N(), s.band.kl + s.band.ku;
    ghost var t, b0 := s.System(), b.Elems();
    Trsm.EliminatedInit(t, b0);
    if s.upper {
      var i := n - 1;
      while i >= 0
        invariant -1 <= i < n
        invariant Trsm.UpperEliminated(t, b.Elems(), b0, i)
        invariant b.Others() == old(b.Others())
      {
        ghost var xs := b.Elems();
        DivideByRead(s, b, i);
        ghost var ys := b.Elems();
        Trsm.EliminatedNone(t, ys, i, i);
        for j := 1 to k + 1
          invariant b.Elems() == Trsm.Eliminated(t, ys, i, Max(0, i - j + 1), i)
          invariant b.Others() == old(b.Others())
        {
          if i - j >= 0 {
            SubtractOne(s, b, i, i - j, ys, i - j + 1, i);
          }
        }
        OffBand(s, i);
        EliminatedNarrow(t, ys, i, 0, Max(0, i - k), i, i);
        Trsm.UpperEliminateStep(t, xs, b0, i, ys[i]);
        i := i - 1;
      }
      Trsm.UpperEliminatedDone(t, b.Elems(), b0);
    } else {
      for i := 0 to n
        invariant Trsm.LowerEliminated(t, b.Elems(), b0, i)
        invariant b.Others() == old(b.Others())
      {
        ghost var xs := b.Elems();
        DivideByRead(s, b, i);
        ghost var ys := b.Elems();
        Trsm.EliminatedNone(t, ys, i, i + 1);
        for j := 1 to k + 1
          invariant b.Elems() == Trsm.Eliminated(t, ys, i, i + 1, Min(n, i + j))
          invariant b.Others() == old(b.Others())
        {
          if i + j < n {
            SubtractOne(s, b, i, i + j, ys, i + 1, i + j);
          }
        }
        OffBand(s, i);
        EliminatedNarrow(t, ys, i, i + 1, i + 1, Min(n, i + k + 1), n);
        Trsm.LowerEliminateStep(t, xs, b0, i, ys[i]);
      }
      Trsm.LowerEliminatedDone(t, b.Elems(), b0);
    }
  }

  lemma OffBand(s: TriBand, i: int)
    requires s.Valid() && 0 <= i < s.N()
    ensures forall r :: 0 <= r < i - s.band.ku ==> s.System().At(r, i) == 0.0
    ensures forall r :: i + s.band.kl < r < s.N() ==> s.System().At(r, i) == 0.0
  {
  }

  // ---------- every order leaves the same B ----------

  lemma SameMatrixSolves(s: TriBand, s': TriBand, xs: seq<real>, rhs: seq<real>)
    requires s.Valid() && s'.Valid() && s.N() == s'.N()
    requires forall i, k :: 0 <= i < s.N() && 0 <= k < s.N() ==> s.Read(i, k) == s'.Read(i, k)
    requires Solves(s'.System(), xs, rhs)
    ensures Solves(s.System(), xs, rhs)
  {
    hide Dot, Mul, TriBand.Read;
    forall i | 0 <= i < s.N()
      ensures Dot(s.System().Row(i), 0, xs) == rhs[i]
    {
      forall k | 0 <= k < s.N()
        ensures s.System().Row(i)(k) == s'.System().Row(i)(k)
      {
        ReadIsElem(s, i, k);
        ReadIsElem(s', i, k);
      }
      DotAgree(s.System().Row(i), s'.System().Row(i), 0, xs);
    }
  }

  /**
   * Two bands that read as the same matrix, however each is stored and whatever its bandwidth,
   * leave the same B whichever of the routines above is given them.
   */
  lemma OrderDoesNotMatter(s: TriBand, s': TriBand, xs: seq<real>, ys: seq<real>, rhs: seq<real>)
    requires s.Valid() && s'.Valid() && s.N() == s'.N() && s.System().Regular()
    requires forall i, k :: 0 <= i < s.N() && 0 <= k < s.N() ==> s.Read(i, k) == s'.Read(i, k)
    requires Solves(s.System(), xs, rhs) && Solves(s'.System(), ys, rhs)
    ensures xs == ys
  {
    SameMatrixSolves(s, s', ys, rhs);
    SolutionUnique(s.System(), xs, ys, rhs);
  }

  /** The banded solve and its simple form, given the same right-hand side. */
  method TriBandSvMatchesNaive(s: TriBand, b: Vec, c: Vec)
    requires s.Valid() && s.System().Regular() && b.Valid() && c.Valid() && b.n == c.n == s.N()
    requires b.data != c.data && b.Elems() == c.Elems()
    modifies b.data, c.data
    ensures b.Others() == old(b.Others()) && c.Others() == old(c.Others())
    ensures b.Elems() == c.Elems() && Solves(s.System(), b.Elems(), old(b.Elems()))
  {
    ghost var rhs := b.Elems();
    TriBandSv(s, b);
    NaiveTbsv(s, c);
    SolutionUnique(s.System(), b.Elems(), c.Elems(), rhs);
  }
}
