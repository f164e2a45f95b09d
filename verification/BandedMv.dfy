/**
 * y = alpha * A * x + beta * y for banded A, panel of rows by panel of rows. A panel knows rows
 * p .. p + h - 1 of A and y, and the whole of x; elements of y outside the panel are not its to change.
 */
module BandedMv {
  import opened NumericUtils
  import opened Sums
  import opened TriangularSystem
  import opened BandStorage
  import opened Kernels
  import opened BandSolve
  import opened Parallel

  /** A banded operand. A symmetric one stores the half of its elements named by `lower`. */
  datatype Operand =
    | General(band: Band)
    | Triangular(band: Band, upper: bool, unit: bool)
    | Symmetric(band: Band, lower: bool)
  {
    ghost predicate Valid() {
      && band.Valid()
      && (Triangular? ==> TriBand(band, upper, unit).Valid())
      && (Symmetric? ==> band.rows == band.cols && !band.trans && (if lower then band.ku == 0 else band.kl == 0))
    }

    /** The triangular products leave an implicit diagonal of ones to their caller. */
    predicate SkipsDiagonal() {
      Triangular? && unit
    }

    /** Element (i, j) as it is stored. */
    function Stored(i: int, j: int): real {
      if SkipsDiagonal() && i == j then 0.0 else band.At(i, j)
    }

    /** Element (i, j) of the matrix the product is with. */
    function Value(i: int, j: int): real {
      if Symmetric? && (if lower then j > i else j < i) then band.At(j, i) else Stored(i, j)
    }

    ghost function StoredRow(i: int): int -> real { j => Stored(i, j) }
    ghost function Row(i: int): int -> real { j => Value(i, j) }
  }

  predicate InPanel(i: int, p: int, h: int) {
    p <= i < p + h
  }

  /** Operands of one product: y is not stored over x. */
  ghost predicate Conform(s: Operand, x: Vec, y: Vec) {
    && s.Valid() && x.Valid() && y.Valid() && x.data != y.data
    && x.n == s.band.cols && y.n == s.band.rows
  }

  // ---------- which elements of a column, or of a row, a panel works on ----------

  function FirstColumn(b: Band, p: int): int { Max(p - b.kl, 0) }
  function LastColumn(b: Band, p: int, h: int): int { Min(p + h + b.ku - 1, b.cols - 1) }

  /** get_strd_band_pos of a panel: its first and last row in column j, counted from row p. */
  function PanelStart(b: Band, p: int, j: int): int { Max(0, b.ColumnStart(j) - p) }
  function PanelEnd(b: Band, p: int, h: int, j: int): int { Min(h - 1, b.ColumnEnd(j) - p) }

  /** The same after cropping an implicit diagonal. */
  function CropStart(s: Operand, p: int, j: int): int {
    PanelStart(s.band, p, j) + if s.SkipsDiagonal() && !s.upper && j >= p then 1 else 0
  }
  function CropEnd(s: Operand, p: int, h: int, j: int): int {
    PanelEnd(s.band, p, h, j) - if s.SkipsDiagonal() && s.upper && j < p + h then 1 else 0
  }

  lemma ColumnRangeExact(s: Operand, p: int, h: int, j: int, i: int)
    requires s.Valid() && 0 <= p && p + h <= s.band.rows && 0 <= j < s.band.cols && InPanel(i, p, h)
    requires FirstColumn(s.band, p) <= j <= LastColumn(s.band, p, h)
    ensures CropStart(s, p, j) <= i - p <= CropEnd(s, p, h, j) <==>
            s.band.InBand(i, j) && !(s.SkipsDiagonal() && i == j)
  {
  }

  lemma ColumnRangeStored(s: Operand, p: int, h: int, j: int)
    requires s.Valid() && 0 <= p && 0 <= h && p + h <= s.band.rows && 0 <= j < s.band.cols
    requires FirstColumn(s.band, p) <= j <= LastColumn(s.band, p, h)
    ensures 0 <= CropStart(s, p, j) && CropEnd(s, p, h, j) < h
    ensures var lo, size := p + CropStart(s, p, j), CropEnd(s, p, h, j) - CropStart(s, p, j) + 1;
            && s.band.ColumnPart(j, lo, size)
            && (forall i :: InPanel(i, p, h) && lo <= i < lo + size ==> s.Stored(i, j) == s.band.At(i, j))
            && (forall i :: InPanel(i, p, h) && !(lo <= i < lo + size) ==> s.Stored(i, j) == 0.0)
  {
    var lo, size := p + CropStart(s, p, j), CropEnd(s, p, h, j) - CropStart(s, p, j) + 1;
    forall i | InPanel(i, p, h)
      ensures lo <= i < lo + size ==> s.band.InBand(i, j) && s.Stored(i, j) == s.band.At(i, j)
      ensures !(lo <= i < lo + size) ==> s.Stored(i, j) == 0.0
    {
      ColumnRangeExact(s, p, h, j, i);
    }
    forall k | lo <= k < lo + size
      ensures s.band.InBand(k, j)
    {
      assert InPanel(k, p, h);
    }
  }

  /** Columns before the first and after the last that the loop visits hold zeros in the panel. */
  lemma OutsideColumnsZero(s: Operand, p: int, h: int, i: int, j: int)
    requires s.Valid() && InPanel(i, p, h) && 0 <= j
    requires j < FirstColumn(s.band, p) || LastColumn(s.band, p, h) < j
    ensures s.Stored(i, j) == 0.0
  {
  }

  /** And the first and the last that it visits hold elements of the band. */
  lemma ActiveRangeTight(s: Operand, p: int, h: int) returns (first: int, last: int)
    requires s.Valid() && 0 <= p && 1 <= h && p + h <= s.band.rows
    requires FirstColumn(s.band, p) <= LastColumn(s.band, p, h)
    ensures InPanel(first, p, h) && s.band.InBand(first, FirstColumn(s.band, p))
    ensures InPanel(last, p, h) && s.band.InBand(last, LastColumn(s.band, p, h))
  {
    first, last := p, Max(p, LastColumn(s.band, p, h) - s.band.ku);
  }

  // ---------- the column-oriented product ----------

  /** Column j of the panel, as stored, times alpha * x(j), has been added to y; a virtual part only to row j. */
  ghost predicate ColumnAdded(s: Operand, p: int, h: int, j: int, alpha: real, x: seq<real>,
                              was: seq<real>, y: seq<real>, virtual: real)
    requires 0 <= j < |x|
  {
    && |y| == |was|
    && forall i :: 0 <= i < |y| ==>
         y[i] == if !InPanel(i, p, h) then was[i]
                 else was[i] + Mul(Mul(alpha, x[j]), s.Stored(i, j)) + if i == j then virtual else 0.0
  }

  /** One axpby: the physical part of column j. */
  method AddColumn(s: Operand, p: int, h: int, j: int, alpha: real, x: Vec, y: Vec)
    requires Conform(s, x, y) && !s.band.trans && 0 <= p && 0 <= h && p + h <= s.band.rows
    requires 0 <= j < s.band.cols && FirstColumn(s.band, p) <= j <= LastColumn(s.band, p, h)
    modifies y.data
    ensures ColumnAdded(s, p, h, j, alpha, x.Elems(), old(y.Elems()), y.Elems(), 0.0)
    ensures y.Others() == old(y.Others())
  {
    hide Mul, Operand.Stored, Band.At, Band.PhysicalAddr, Band.LogicalAddr, Band.ColumnPart, CropStart, CropEnd;
    hide Vec.Addr, Vec.Valid;
    var start, end := CropStart(s, p, j), CropEnd(s, p, h, j);
    var size := end - start + 1;
    var lo := p + start;
    ColumnRangeStored(s, p, h, j);
    ghost var xs, y0 := x.Elems(), y.Elems();
    var alphaX := alpha * x.Get(j);
    assert alphaX == Mul(alpha, xs[j]) by { MulFacts(alpha, xs[j]); }
    if size > 0 {
      ColumnInStorage(s.band, j, lo, size);
      FirstOfPart(s.band, j, lo, size);
      Axpby(size, alphaX, s.band.data, s.band.PhysicalAddr(j, lo), 1.0, y, lo);
    }
    ghost var ys := y.Elems();
    forall i | 0 <= i < |ys|
      ensures ys[i] == if InPanel(i, p, h) then y0[i] + Mul(Mul(alpha, xs[j]), s.Stored(i, j)) else y0[i]
    {
      MulFacts(1.0, y0[i]);
      MulFacts(alphaX, s.Stored(i, j));
      if lo <= i < lo + size {
        assert InPanel(i, p, h) && s.Stored(i, j) == s.band.At(i, j);
      } else if InPanel(i, p, h) {
        assert s.Stored(i, j) == 0.0 == Mul(alphaX, s.Stored(i, j));
      }
    }
  }

  /** sub_matrix points where the logical address of the first element is. */
  lemma FirstOfPart(b: Band, j: int, lo: int, size: int)
    requires b.Valid() && b.ColumnPart(j, lo, size) && size > 0
    ensures b.PhysicalAddr(j, lo) == b.LogicalAddr(lo, j)
  {
    assert b.InBand(lo, j);
    ConventionsAgree(b, lo, j);
  }

  /** The panel's rows after columns before j have been added, the other rows untouched. */
  ghost predicate ColumnsDone(s: Operand, p: int, h: int, alpha: real, beta: real, x: seq<real>,
                              y0: seq<real>, y: seq<real>, j: int) {
    && |y| == |y0|
    && forall i :: 0 <= i < |y| ==>
         y[i] == if InPanel(i, p, h) then Acc(Mul(beta, y0[i]), alpha, s.StoredRow(i), x, j) else y0[i]
  }

  /** What a panel must leave behind: alpha * A * x + beta * y on its rows, nothing else changed. */
  ghost predicate PanelProduct(s: Operand, p: int, h: int, alpha: real, beta: real, x: seq<real>,
                               y0: seq<real>, y: seq<real>) {
    && |y| == |y0|
    && forall i :: 0 <= i < |y| ==>
         y[i] == if InPanel(i, p, h) then Mul(beta, y0[i]) + Mul(alpha, Dot(s.Row(i), 0, x)) else y0[i]
  }

  /** The panel's rows multiplied by beta. */
  ghost predicate PanelScaled(p: int, h: int, beta: real, was: seq<real>, y: seq<real>) {
    && |y| == |was|
    && forall i :: 0 <= i < |y| ==> y[i] == if InPanel(i, p, h) then Mul(beta, was[i]) else was[i]
  }

  method ScalePanel(p: int, h: int, beta: real, y: Vec)
    requires y.Valid() && 0 <= p && 0 <= h && p + h <= y.n
    modifies y.data
    ensures PanelScaled(p, h, beta, old(y.Elems()), y.Elems())
    ensures y.Others() == old(y.Others())
  {
    hide Mul, Vec.Addr, Vec.Valid;
    ghost var y0, others := y.Elems(), y.Others();
    for q := 0 to h
      invariant PanelScaled(p, q, beta, y0, y.Elems())
      invariant y.Others() == others
    {
      MulFacts(beta, y.Get(p + q));
      y.Set(p + q, y.Get(p + q) * beta);
    }
  }

  lemma ColumnsStart(s: Operand, p: int, h: int, alpha: real, beta: real, x: seq<real>, y0: seq<real>, y: seq<real>)
    requires s.Valid() && |x| == s.band.cols && PanelScaled(p, h, beta, y0, y)
    ensures ColumnsDone(s, p, h, alpha, beta, x, y0, y, FirstColumn(s.band, p))
  {
    hide Mul, Acc, Operand.Stored;
    forall i | 0 <= i < |y| && InPanel(i, p, h)
      ensures y[i] == Acc(Mul(beta, y0[i]), alpha, s.StoredRow(i), x, FirstColumn(s.band, p))
    {
      forall j | 0 <= j < FirstColumn(s.band, p)
        ensures s.StoredRow(i)(j) == 0.0
      {
        OutsideColumnsZero(s, p, h, i, j);
      }
      AccSkip(Mul(beta, y0[i]), alpha, s.StoredRow(i), x, 0, FirstColumn(s.band, p));
      AccEnds(Mul(beta, y0[i]), alpha, s.StoredRow(i), x);
    }
  }

  lemma ColumnsStep(s: Operand, p: int, h: int, alpha: real, beta: real, x: seq<real>,
                    y0: seq<real>, was: seq<real>, y: seq<real>, j: int)
    requires 0 <= j < |x| && ColumnsDone(s, p, h, alpha, beta, x, y0, was, j)
    requires ColumnAdded(s, p, h, j, alpha, x, was, y, 0.0)
    ensures ColumnsDone(s, p, h, alpha, beta, x, y0, y, j + 1)
  {
    hide Mul, Acc, Operand.Stored;
    forall i | 0 <= i < |y| && InPanel(i, p, h)
      ensures y[i] == Acc(Mul(beta, y0[i]), alpha, s.StoredRow(i), x, j + 1)
    {
      AccStep(Mul(beta, y0[i]), alpha, s.StoredRow(i), x, j);
    }
  }

  lemma ColumnsFinish(s: Operand, p: int, h: int, alpha: real, beta: real, x: seq<real>,
                      y0: seq<real>, y: seq<real>, j: int)
    requires s.Valid() && !s.Symmetric? && |x| == s.band.cols
    requires ColumnsDone(s, p, h, alpha, beta, x, y0, y, j) && 0 <= j && LastColumn(s.band, p, h) < j
    ensures PanelProduct(s, p, h, alpha, beta, x, y0, y)
  {
    hide Mul, Acc, Dot, Operand.Stored;
    forall i | 0 <= i < |y| && InPanel(i, p, h)
      ensures y[i] == Mul(beta, y0[i]) + Mul(alpha, Dot(s.Row(i), 0, x))
    {
      forall k | j <= k < Max(j, |x|)
        ensures s.StoredRow(i)(k) == 0.0
      {
        OutsideColumnsZero(s, p, h, i, k);
      }
      AccSkip(Mul(beta, y0[i]), alpha, s.StoredRow(i), x, j, Max(j, |x|));
      AccEnds(Mul(beta, y0[i]), alpha, s.StoredRow(i), x);
      DotAgree(s.StoredRow(i), s.Row(i), 0, x);
    }
  }

  /** mv_banded on column storage. */
  method ByColumns(s: Operand, p: int, h: int, alpha: real, beta: real, x: Vec, y: Vec)
    requires Conform(s, x, y) && !s.Symmetric? && !s.band.trans && 0 <= p && 0 <= h && p + h <= s.band.rows
    modifies y.data
    ensures PanelProduct(s, p, h, alpha, beta, x.Elems(), old(y.Elems()), y.Elems())
    ensures y.Others() == old(y.Others())
  {
    ghost var xs, y0, others := x.Elems(), y.Elems(), y.Others();
    ScalePanel(p, h, beta, y);
    var first, last := FirstColumn(s.band, p), LastColumn(s.band, p, h);
    ColumnsStart(s, p, h, alpha, beta, xs, y0, y.Elems());
    hide ColumnsDone, PanelProduct, PanelScaled, ColumnAdded, Mul, Operand.Stored, Vec.Addr, Vec.Valid;
    var j := first;
    while j <= last
      invariant first <= j
      invariant ColumnsDone(s, p, h, alpha, beta, xs, y0, y.Elems(), j)
      invariant y.Others() == others
    {
      ghost var was := y.Elems();
      AddColumn(s, p, h, j, alpha, x, y);
      ColumnsStep(s, p, h, alpha, beta, xs, y0, was, y.Elems(), j);
      j := j + 1;
    }
    ColumnsFinish(s, p, h, alpha, beta, xs, y0, y.Elems(), j);
  }

  // ---------- the row-oriented product ----------

  function RowFirst(s: Operand, i: int): int {
    s.band.RowStart(i) + if s.SkipsDiagonal() && s.upper then 1 else 0
  }
  function RowLast(s: Operand, i: int): int {
    s.band.RowEnd(i) + if s.SkipsDiagonal() && !s.upper then -1 else 0
  }

  lemma RowRangeStored(s: Operand, i: int)
    requires s.Valid() && 0 <= i < s.band.rows
    ensures 0 <= RowFirst(s, i) && RowLast(s, i) < s.band.cols
    ensures var size := RowLast(s, i) - RowFirst(s, i) + 1;
            && s.band.RowPart(i, RowFirst(s, i), size)
            && (forall k :: RowFirst(s, i) <= k <= RowLast(s, i) ==> s.StoredRow(i)(k) == s.band.At(i, k))
            && (forall k :: 0 <= k < RowFirst(s, i) || RowLast(s, i) < k < s.band.cols ==> s.StoredRow(i)(k) == 0.0)
  {
    hide Band.LogicalAddr;
  }

  lemma StoredRowDot(s: Operand, i: int, x: seq<real>, lo: int, hi: int)
    requires s.Valid() && 0 <= i < s.band.rows && |x| == s.band.cols && !s.Symmetric?
    requires lo == RowFirst(s, i) && hi == RowLast(s, i) + 1
    ensures lo < hi ==> 0 <= lo && hi <= |x| && Dot(s.Row(i), 0, x) == Dot(s.StoredRow(i), lo, x[lo..hi])
    ensures lo >= hi ==> Dot(s.Row(i), 0, x) == 0.0
  {
    hide Dot, Mul, Operand.Stored, Band.At, RowFirst, RowLast;
    RowRangeStored(s, i);
    DotAgree(s.StoredRow(i), s.Row(i), 0, x);
    assert x[0..|x|] == x;
    if lo < hi {
      DotNarrow(s.StoredRow(i), x, 0, lo, hi, |x|);
    } else {
      DotZero(s.StoredRow(i), 0, x);
    }
  }

  /** The dot product of row i of the panel with its part of x. */
  method RowDot(s: Operand, i: int, alpha: real, x: Vec) returns (r: real)
    requires s.Valid() && !s.Symmetric? && s.band.trans && 0 <= i < s.band.rows && x.Valid() && x.n == s.band.cols
    ensures r == Mul(alpha, Dot(s.Row(i), 0, x.Elems()))
  {
    hide Dot, Mul, Operand.Stored, Band.At, Band.RowPart, Band.LogicalAddr, Band.PhysicalAddr;
    var start, end := RowFirst(s, i), RowLast(s, i);
    var size := end - start + 1;
    StoredRowDot(s, i, x.Elems(), start, end + 1);
    r := 0.0;
    MulFacts(alpha, 0.0);
    if size > 0 {
      RowRangeStored(s, i);
      RowInStorage(s.band, i, start, size);
      FirstOfRow(s.band, i, start, size);
      var dot := DotKernel(size, s.band.data, s.band.PhysicalAddr(start, i), x, start, s.StoredRow(i));
      MulFacts(alpha, dot);
      r := alpha * dot;
    }
  }

  lemma FirstOfRow(b: Band, i: int, lo: int, size: int)
    requires b.Valid() && b.RowPart(i, lo, size) && size > 0
    ensures b.PhysicalAddr(lo, i) == b.LogicalAddr(i, lo)
  {
    assert b.InBand(i, lo);
    ConventionsAgree(b, i, lo);
  }

  /** Rows of the panel before q are final, the others only scaled. */
  ghost predicate RowsDone(s: Operand, p: int, q: int, h: int, alpha: real, beta: real, x: seq<real>,
                           y0: seq<real>, y: seq<real>) {
    && |y| == |y0|
    && forall i :: 0 <= i < |y| ==>
         y[i] == if InPanel(i, p, q) then Mul(beta, y0[i]) + Mul(alpha, Dot(s.Row(i), 0, x))
                 else if InPanel(i, p, h) then Mul(beta, y0[i]) else y0[i]
  }

  /** mv_banded on transposed storage. */
  method ByRows(s: Operand, p: int, h: int, alpha: real, beta: real, x: Vec, y: Vec)
    requires Conform(s, x, y) && !s.Symmetric? && s.band.trans && 0 <= p && 0 <= h && p + h <= s.band.rows
    modifies y.data
    ensures PanelProduct(s, p, h, alpha, beta, x.Elems(), old(y.Elems()), y.Elems())
    ensures y.Others() == old(y.Others())
  {
    hide Mul, Dot, Operand.Row, Vec.Addr, Vec.Valid;
    ghost var xs, y0, others := x.Elems(), y.Elems(), y.Others();
    ScalePanel(p, h, beta, y);
    for j := 0 to h
      invariant RowsDone(s, p, j, h, alpha, beta, xs, y0, y.Elems())
      invariant y.Others() == others
    {
      var r := RowDot(s, p + j, alpha, x);
      y.Set(p + j, y.Get(p + j) + r);
    }
  }

  // ---------- the symmetric product: a physical and a virtual half ----------

  /** Rows finished after column j - 1: the whole row, a prefix of it, or nothing, depending on the half. */
  ghost function RowReached(s: Operand, i: int, j: int): int
    requires s.Symmetric?
  {
    if s.lower then (if i < j then s.band.cols else j) else if i < j then j else 0
  }

  ghost predicate HalvesDone(s: Operand, p: int, h: int, alpha: real, beta: real, x: seq<real>,
                             y0: seq<real>, y: seq<real>, j: int)
    requires s.Symmetric?
  {
    && |y| == |y0|
    && forall i :: 0 <= i < |y| ==>
         y[i] == if InPanel(i, p, h) then Acc(Mul(beta, y0[i]), alpha, s.Row(i), x, RowReached(s, i, j)) else y0[i]
  }

  lemma HalvesStart(s: Operand, p: int, h: int, alpha: real, beta: real, x: seq<real>, y0: seq<real>, y: seq<real>)
    requires s.Valid() && s.Symmetric? && |x| == s.band.cols && PanelScaled(p, h, beta, y0, y)
    ensures HalvesDone(s, p, h, alpha, beta, x, y0, y, FirstColumn(s.band, p))
  {
    hide Mul, Acc, Operand.Stored;
    forall i | 0 <= i < |y| && InPanel(i, p, h)
      ensures y[i] == Acc(Mul(beta, y0[i]), alpha, s.Row(i), x, RowReached(s, i, FirstColumn(s.band, p)))
    {
      AccEnds(Mul(beta, y0[i]), alpha, s.Row(i), x);
      if s.lower {
        forall j | 0 <= j < FirstColumn(s.band, p)
          ensures s.Row(i)(j) == 0.0
        {
          OutsideColumnsZero(s, p, h, i, j);
        }
        AccSkip(Mul(beta, y0[i]), alpha, s.Row(i), x, 0, FirstColumn(s.band, p));
      }
    }
  }

  lemma HalvesFinish(s: Operand, p: int, h: int, alpha: real, beta: real, x: seq<real>,
                     y0: seq<real>, y: seq<real>, j: int)
    requires s.Valid() && s.Symmetric? && |x| == s.band.cols && p + h <= s.band.rows
    requires HalvesDone(s, p, h, alpha, beta, x, y0, y, j) && 0 <= j && LastColumn(s.band, p, h) < j
    ensures PanelProduct(s, p, h, alpha, beta, x, y0, y)
  {
    hide Mul, Acc, Dot, Operand.Stored;
    forall i | 0 <= i < |y| && InPanel(i, p, h)
      ensures y[i] == Mul(beta, y0[i]) + Mul(alpha, Dot(s.Row(i), 0, x))
    {
      if !s.lower {
        forall k | j <= k < Max(j, |x|)
          ensures s.Row(i)(k) == 0.0
        {
          OutsideColumnsZero(s, p, h, i, k);
        }
        AccSkip(Mul(beta, y0[i]), alpha, s.Row(i), x, j, Max(j, |x|));
      }
      AccEnds(Mul(beta, y0[i]), alpha, s.Row(i), x);
    }
  }

  /** Column j below (or above) the diagonal is row j of the other half. */
  lemma Mirrored(s: Operand, j: int)
    requires s.Valid() && s.Symmetric? && 0 <= j < s.band.rows
    ensures s.lower ==> var size := Min(s.band.cols - j - 1, s.band.kl);
              && s.band.ColumnPart(j, j + 1, size)
              && (forall k :: j < k <= j + size ==> s.Row(j)(k) == s.band.At(k, j))
              && (forall k :: j + size < k < s.band.cols ==> s.Row(j)(k) == 0.0)
    ensures !s.lower ==> var size := Min(j, s.band.ku);
              && s.band.ColumnPart(j, j - size, size)
              && (forall k :: j - size <= k < j ==> s.Row(j)(k) == s.band.At(k, j))
              && (forall k :: 0 <= k < j - size ==> s.Row(j)(k) == 0.0)
  {
    hide Band.LogicalAddr;
  }

  /** alpha times the dot product of size elements of column j, from row lo on, with the same part of x. */
  method VirtualDot(s: Operand, j: int, lo: int, size: int, addr: int, alpha: real, x: Vec) returns (r: real)
    requires s.Valid() && s.Symmetric? && x.Valid() && 0 <= j < s.band.cols == x.n && size > 0
    requires 0 <= lo && lo + size <= x.n && s.band.ColumnPart(j, lo, size) && addr == s.band.LogicalAddr(lo, j)
    requires forall k :: lo <= k < lo + size ==> s.Row(j)(k) == s.band.At(k, j)
    ensures r == Mul(alpha, Dot(s.Row(j), lo, x.Elems()[lo..lo + size]))
  {
    hide Dot, Mul, Operand.Row, Band.At, Band.ColumnPart, Band.LogicalAddr;
    ColumnInStorage(s.band, j, lo, size);
    var dot := DotKernel(size, s.band.data, addr, x, lo, s.Row(j));
    MulFacts(alpha, dot);
    r := alpha * dot;
  }

  /** The rows other than j after column j: one more element, or still none. */
  lemma PhysicalStep(s: Operand, i: int, j: int, base: real, alpha: real, x: seq<real>)
    requires s.Valid() && s.Symmetric? && |x| == s.band.cols && 0 <= i < s.band.rows && 0 <= j < s.band.cols
    ensures i != j ==>
              Acc(base, alpha, s.Row(i), x, RowReached(s, i, j + 1))
                == Acc(base, alpha, s.Row(i), x, RowReached(s, i, j)) + Mul(Mul(alpha, x[j]), s.Stored(i, j))
    ensures s.Row(j)(j) == s.Stored(j, j)
  {
    hide Mul, Acc, Operand.Stored;
    if i != j {
      AccStep(base, alpha, s.Row(i), x, j);
      if s.lower == (i < j) {
        assert s.Stored(i, j) == 0.0 by { OffHalf(s, i, j); }
        MulFacts(Mul(alpha, x[j]), s.Stored(i, j));
      }
    }
  }

  lemma OffHalf(s: Operand, i: int, j: int)
    requires s.Valid() && s.Symmetric? && i != j && s.lower == (i < j)
    ensures s.Stored(i, j) == 0.0
  {
  }

  /** First of the elements of column j that stand for row j of the other half, and how many there are. */
  function VirtualStart(s: Operand, j: int): int
    requires s.Symmetric?
  {
    if s.lower then j + 1 else j - VirtualSize(s, j)
  }
  function VirtualSize(s: Operand, j: int): int
    requires s.Symmetric?
  {
    if s.lower then Min(s.band.cols - j - 1, s.band.kl) else Min(j, s.band.ku)
  }

  /** Row j once both halves have been added. */
  lemma DiagonalStep(s: Operand, j: int, base: real, alpha: real, x: seq<real>)
    requires s.Valid() && s.Symmetric? && |x| == s.band.cols && 0 <= j < s.band.cols
    ensures var lo, size := VirtualStart(s, j), VirtualSize(s, j);
            && 0 <= lo && 0 <= size && lo + size <= |x|
            && Acc(base, alpha, s.Row(j), x, RowReached(s, j, j + 1))
                 == Acc(base, alpha, s.Row(j), x, RowReached(s, j, j)) + Mul(Mul(alpha, x[j]), s.Stored(j, j))
                    + Mul(alpha, Dot(s.Row(j), lo, x[lo..lo + size]))
  {
    hide Mul, Dot, Acc, Operand.Stored, Band.At;
    var lo, size := VirtualStart(s, j), VirtualSize(s, j);
    AccStep(base, alpha, s.Row(j), x, j);
    Mirrored(s, j);
    assert s.Row(j)(j) == s.Stored(j, j);
    if s.lower {
      AccPart(base, alpha, s.Row(j), x, j + 1, j + 1, j + 1 + size, |x|);
    } else {
      AccPart(base, alpha, s.Row(j), x, 0, lo, j, j);
    }
  }

  lemma HalvesStep(s: Operand, p: int, h: int, alpha: real, beta: real, x: seq<real>,
                   y0: seq<real>, was: seq<real>, y: seq<real>, j: int, virtual: real)
    requires s.Valid() && s.Symmetric? && |x| == s.band.cols && 0 <= j < s.band.cols
    requires |y| == |was| == s.band.rows && HalvesDone(s, p, h, alpha, beta, x, y0, was, j)
    requires ColumnAdded(s, p, h, j, alpha, x, was, y, virtual)
    requires var lo, size := VirtualStart(s, j), VirtualSize(s, j);
             0 <= lo && 0 <= size && lo + size <= |x| && virtual == Mul(alpha, Dot(s.Row(j), lo, x[lo..lo + size]))
    ensures HalvesDone(s, p, h, alpha, beta, x, y0, y, j + 1)
  {
    hide Mul, Dot, Acc, Operand.Stored, VirtualStart, VirtualSize, RowReached;
    forall i | 0 <= i < |y| && InPanel(i, p, h)
      ensures y[i] == Acc(Mul(beta, y0[i]), alpha, s.Row(i), x, RowReached(s, i, j + 1))
    {
      if i == j {
        DiagonalStep(s, j, Mul(beta, y0[i]), alpha, x);
      } else {
        PhysicalStep(s, i, j, Mul(beta, y0[i]), alpha, x);
      }
    }
  }

  /** Where the virtual half starts, reached from the panel's part of column j. */
  function VirtualPointer(s: Operand, p: int, h: int, j: int): int
    requires s.Symmetric?
  {
    var start := PanelStart(s.band, p, j);
    var pointer := s.band.PhysicalAddr(j, p + start);
    if s.lower then
      pointer + s.band.CntgStride()
    else
      var bandSize := PanelEnd(s.band, p, h, j) - start + 1;
      var offset := VirtualSize(s, j) - bandSize + 1;
      pointer - s.band.CntgStride() * offset
  }

  lemma VirtualPointerRight(s: Operand, p: int, h: int, j: int)
    requires s.Valid() && s.Symmetric? && 0 <= p && p + h <= s.band.rows && InPanel(j, p, h)
    ensures VirtualPointer(s, p, h, j) == s.band.LogicalAddr(VirtualStart(s, j), j)
  {
    var first := p + PanelStart(s.band, p, j);
    ConventionsAgree(s.band, first, j);
    NextInStorage(s.band, first, j, VirtualStart(s, j) - first);
  }

  /** Column j of the panel: the physical axpby, then row j of the virtual half if this panel owns row j. */
  method SymmetricColumn(s: Operand, p: int, h: int, j: int, alpha: real, x: Vec, y: Vec)
    returns (ghost virtual: real)
    requires Conform(s, x, y) && s.Symmetric? && 0 <= p && 0 <= h && p + h <= s.band.rows
    requires 0 <= j < s.band.cols && FirstColumn(s.band, p) <= j <= LastColumn(s.band, p, h)
    modifies y.data
    ensures var lo, size := VirtualStart(s, j), VirtualSize(s, j);
            && 0 <= lo && 0 <= size && lo + size <= x.n
            && virtual == Mul(alpha, Dot(s.Row(j), lo, x.Elems()[lo..lo + size]))
    ensures ColumnAdded(s, p, h, j, alpha, x.Elems(), old(y.Elems()), y.Elems(), virtual)
    ensures y.Others() == old(y.Others())
  {
    hide Mul, Dot, Operand.Stored, Operand.Row, Band.At, Band.ColumnPart, Band.LogicalAddr, VirtualPointer;
    hide Vec.Addr, Vec.Valid;
    ghost var xs := x.Elems();
    AddColumn(s, p, h, j, alpha, x, y);
    Mirrored(s, j);
    var lo, size := VirtualStart(s, j), VirtualSize(s, j);
    virtual := Mul(alpha, Dot(s.Row(j), lo, xs[lo..lo + size]));
    if if s.lower then j >= p else j < p + h {
      var yPos := j - p;
      VirtualPointerRight(s, p, h, j);
      if size > 0 {
        var r := VirtualDot(s, j, lo, size, VirtualPointer(s, p, h, j), alpha, x);
        y.Set(p + yPos, y.Get(p + yPos) + r);
      } else {
        DotZero(s.Row(j), lo, xs[lo..lo + size]);
        MulFacts(alpha, 0.0);
      }
    }
  }

  /** mv_banded_with_symmetry. */
  method ByHalves(s: Operand, p: int, h: int, alpha: real, beta: real, x: Vec, y: Vec)
    requires Conform(s, x, y) && s.Symmetric? && 0 <= p && 0 <= h && p + h <= s.band.rows
    modifies y.data
    ensures PanelProduct(s, p, h, alpha, beta, x.Elems(), old(y.Elems()), y.Elems())
    ensures y.Others() == old(y.Others())
  {
    ghost var xs, y0, others := x.Elems(), y.Elems(), y.Others();
    ScalePanel(p, h, beta, y);
    var first, last := FirstColumn(s.band, p), LastColumn(s.band, p, h);
    HalvesStart(s, p, h, alpha, beta, xs, y0, y.Elems());
    hide HalvesDone, PanelProduct, PanelScaled, ColumnAdded, Mul, Dot, Operand.Stored, Operand.Row;
    hide VirtualStart, VirtualSize, Vec.Addr, Vec.Valid;
    var j := first;
    while j <= last
      invariant first <= j
      invariant HalvesDone(s, p, h, alpha, beta, xs, y0, y.Elems(), j)
      invariant y.Others() == others
    {
      ghost var was := y.Elems();
      ghost var virtual := SymmetricColumn(s, p, h, j, alpha, x, y);
      HalvesStep(s, p, h, alpha, beta, xs, y0, was, y.Elems(), j, virtual);
      j := j + 1;
    }
    HalvesFinish(s, p, h, alpha, beta, xs, y0, y.Elems(), j);
  }

  // ---------- all the panels ----------

  /** One panel of the product. */
  method Panel(s: Operand, p: int, h: int, alpha: real, beta: real, x: Vec, y: Vec)
    requires Conform(s, x, y) && 0 <= p && 0 <= h && p + h <= s.band.rows
    modifies y.data
    ensures PanelProduct(s, p, h, alpha, beta, x.Elems(), old(y.Elems()), y.Elems())
    ensures y.Others() == old(y.Others())
  {
    if s.Symmetric? {
      ByHalves(s, p, h, alpha, beta, x, y);
    } else if s.band.trans {
      ByRows(s, p, h, alpha, beta, x, y);
    } else {
      ByColumns(s, p, h, alpha, beta, x, y);
    }
  }

  /** A panel that starts where the finished rows end extends them. */
  lemma PanelsCompose(s: Operand, p: int, h: int, alpha: real, beta: real, x: seq<real>,
                      y0: seq<real>, y1: seq<real>, y2: seq<real>)
    requires 0 <= p && 0 <= h
    requires PanelProduct(s, 0, p, alpha, beta, x, y0, y1) && PanelProduct(s, p, h, alpha, beta, x, y1, y2)
    ensures PanelProduct(s, 0, p + h, alpha, beta, x, y0, y2)
  {
    hide Mul, Dot;
  }

  /** Panels that have no row in common, and together hold every row. */
  ghost predicate Partition(panels: seq<(int, int)>, rows: int) {
    && (forall q :: 0 <= q < |panels| ==> 0 <= panels[q].0 && 0 <= panels[q].1 && panels[q].0 + panels[q].1 <= rows)
    && (forall q, q', i :: 0 <= q < q' < |panels| ==> !(Holds(panels, q, i) && Holds(panels, q', i)))
    && forall i :: 0 <= i < rows ==> InSome(panels, |panels|, i)
  }

  predicate Holds(panels: seq<(int, int)>, q: int, i: int)
    requires 0 <= q < |panels|
  {
    InPanel(i, panels[q].0, panels[q].1)
  }

  predicate InSome(panels: seq<(int, int)>, n: int, i: int)
    requires 0 <= n <= |panels|
  {
    exists q :: 0 <= q < n && Holds(panels, q, i)
  }

  /** The panels before k have been done. */
  ghost predicate PanelsDone(s: Operand, panels: seq<(int, int)>, k: int, alpha: real, beta: real, x: seq<real>,
                             y0: seq<real>, y: seq<real>)
    requires 0 <= k <= |panels|
  {
    && |y| == |y0|
    && forall i :: 0 <= i < |y| ==>
         y[i] == if InSome(panels, k, i) then Mul(beta, y0[i]) + Mul(alpha, Dot(s.Row(i), 0, x)) else y0[i]
  }

  lemma PanelsDoneStep(s: Operand, panels: seq<(int, int)>, k: int, alpha: real, beta: real, x: seq<real>,
                       y0: seq<real>, was: seq<real>, y: seq<real>)
    requires Partition(panels, |y|) && 0 <= k < |panels|
    requires PanelsDone(s, panels, k, alpha, beta, x, y0, was)
    requires PanelProduct(s, panels[k].0, panels[k].1, alpha, beta, x, was, y)
    ensures PanelsDone(s, panels, k + 1, alpha, beta, x, y0, y)
  {
    hide Mul, Dot, Operand.Row;
    forall i | 0 <= i < |y|
      ensures InSome(panels, k + 1, i) <==> InSome(panels, k, i) || Holds(panels, k, i)
      ensures Holds(panels, k, i) ==> !InSome(panels, k, i)
    {
      SomeNext(panels, |y|, k, i);
    }
  }

  /** Any partition of the rows, its panels in any order, gives the whole product. */
  method RunPanels(s: Operand, alpha: real, beta: real, x: Vec, y: Vec, panels: seq<(int, int)>)
    requires Conform(s, x, y) && Partition(panels, s.band.rows)
    modifies y.data
    ensures PanelProduct(s, 0, s.band.rows, alpha, beta, x.Elems(), old(y.Elems()), y.Elems())
    ensures y.Others() == old(y.Others())
  {
    ghost var xs, y0, others := x.Elems(), y.Elems(), y.Others();
    hide Mul, Dot, Operand.Row, Vec.Addr, Vec.Valid;
    for k := 0 to |panels|
      invariant PanelsDone(s, panels, k, alpha, beta, xs, y0, y.Elems())
      invariant y.Others() == others
    {
      ghost var was := y.Elems();
      Panel(s, panels[k].0, panels[k].1, alpha, beta, x, y);
      PanelsDoneStep(s, panels, k, alpha, beta, xs, y0, was, y.Elems());
    }
  }

  lemma SomeNext(panels: seq<(int, int)>, rows: int, k: int, i: int)
    requires Partition(panels, rows) && 0 <= k < |panels|
    ensures InSome(panels, k + 1, i) <==> InSome(panels, k, i) || Holds(panels, k, i)
    ensures Holds(panels, k, i) ==> !InSome(panels, k, i)
  {
    hide Holds;
  }

  /** gbmv_driver: y = alpha * A * x + beta * y, the rows of A split over the threads. */
  method Gbmv(s: Operand, alpha: real, beta: real, x: Vec, y: Vec, interleave: int, maxThreads: int)
    requires Conform(s, x, y) && interleave >= 1 && maxThreads >= 1
    modifies y.data
    ensures PanelProduct(s, 0, s.band.rows, alpha, beta, x.Elems(), old(y.Elems()), y.Elems())
    ensures y.Others() == old(y.Others())
  {
    hide Mul, Dot, Operand.Row, Start, Work, MakeParallelSplit, Vec.Addr, Vec.Valid;
    ghost var xs, y0, others := x.Elems(), y.Elems(), y.Others();
    if alpha == 0.0 {
      ScalePanel(0, y.n, beta, y);
      forall i | 0 <= i < y.n
        ensures Mul(alpha, Dot(s.Row(i), 0, xs)) == 0.0
      {
        MulFacts(alpha, Dot(s.Row(i), 0, xs));
      }
    } else {
      var split := MakeParallelSplit(s.band.rows, interleave, maxThreads);
      SplitIsConsecutive(s.band.rows, interleave, maxThreads);
      for thread := 0 to split.threads
        invariant thread < split.threads ==> PanelProduct(s, 0, Start(thread, split), alpha, beta, xs, y0, y.Elems())
        invariant thread == split.threads ==> PanelProduct(s, 0, s.band.rows, alpha, beta, xs, y0, y.Elems())
        invariant y.Others() == others
      {
        ghost var y1 := y.Elems();
        var first, size := WorkDistribution(thread, split);
        RangeInside(split, s.band.rows, thread);
        Panel(s, first, size, alpha, beta, x, y);
        PanelsCompose(s, first, size, alpha, beta, xs, y0, y1, y.Elems());
      }
    }
  }
}
