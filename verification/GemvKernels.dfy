/**
 * The two plain matrix-vector kernels: four by four blocks with the rows innermost, and eight rows at a
 * time with the columns innermost. Vectors may run through memory with any step, forwards or backwards.
 */
module GemvKernels {
  import opened Sums
  import opened NumericUtils
  import opened Views
  import opened Kernels

  /** Element i of a vector that is only read: the first column of a view, whose step may be zero or negative. */
  function XAt(x: View, i: int): real {
    x.At(x.Addr(i, 0))
  }

  ghost function Elements(v: View, n: nat): (r: seq<real>)
    ensures |r| == n && forall i :: 0 <= i < n ==> r[i] == XAt(v, i) == v.At(v.Addr(i, 0))
  {
    seq(n, i => XAt(v, i))
  }

  /** Row s of A: element k is a(k, s). */
  ghost function Row(a: View, s: int): int -> real {
    k => a.At(a.Addr(k, s))
  }

  /** Columns lo to hi - 1 of row j of a block of rows. */
  ghost function BlockPart(a: View, first: int, j: int, alpha: real, xs: seq<real>, lo: int, hi: int): real
    requires 0 <= lo <= hi <= |xs|
  {
    Part(Row(a, first + j), alpha, xs, lo, hi)
  }

  lemma BlockPartStep(a: View, first: int, j: int, alpha: real, xs: seq<real>, lo: int, k: int)
    requires 0 <= lo <= k < |xs|
    ensures BlockPart(a, first, j, alpha, xs, lo, k + 1)
         == BlockPart(a, first, j, alpha, xs, lo, k) + Mul(Mul(alpha, xs[k]), Row(a, first + j)(k))
  {
    hide Mul, Part, Row;
    PartJoin(Row(a, first + j), alpha, xs, lo, k, k + 1);
    PartOne(Row(a, first + j), alpha, xs, k);
  }

  lemma BlockPartEmpty(a: View, first: int, j: int, alpha: real, xs: seq<real>, lo: int)
    requires 0 <= lo <= |xs|
    ensures BlockPart(a, first, j, alpha, xs, lo, lo) == 0.0
  {
    PartEmpty(Row(a, first + j), alpha, xs, lo);
  }

  // ---------- rows innermost ----------

  /** x(ac + i) * alpha for a block of columns. */
  method ScaleBlock(x: View, ac: int, unroll: int, alpha: real) returns (xVals: seq<real>)
    requires 0 <= unroll
    ensures |xVals| == unroll
    ensures forall i :: 0 <= i < unroll ==> xVals[i] == Mul(alpha, XAt(x, ac + i))
  {
    hide Mul;
    xVals := [];
    for i := 0 to unroll
      invariant |xVals| == i && forall q :: 0 <= q < i ==> xVals[q] == Mul(alpha, XAt(x, ac + q))
    {
      MulFacts(alpha, XAt(x, ac + i));
      xVals := xVals + [XAt(x, ac + i) * alpha];
    }
  }

  /** One more column added to `rows` accumulators. */
  method AddColumn(a: View, aCol: int, first: int, rows: int, xVal: real, yVals: seq<real>) returns (r: seq<real>)
    requires 0 <= rows == |yVals|
    ensures |r| == rows
    ensures forall j :: 0 <= j < rows ==> r[j] == yVals[j] + Mul(xVal, Row(a, first + j)(aCol))
  {
    hide Mul, View.Addr, View.At;
    r := yVals;
    for j := 0 to rows
      invariant |r| == rows
      invariant forall q :: 0 <= q < rows ==>
                  r[q] == if q < j then yVals[q] + Mul(xVal, Row(a, first + q)(aCol)) else yVals[q]
    {
      var v := a.At(a.Addr(aCol, first + j));
      MulFacts(xVal, v);
      r := r[j := r[j] + xVal * v];
    }
  }

  /** The accumulators of a block of rows after a block of columns. */
  method RowBlock(a: View, x: View, n: nat, ac: int, unroll: int, first: int, rows: int,
                  xVals: seq<real>, alpha: real) returns (yVals: seq<real>)
    requires 0 <= ac && 0 <= unroll && ac + unroll <= n && 0 <= rows
    requires |xVals| == unroll && forall i :: 0 <= i < unroll ==> xVals[i] == Mul(alpha, XAt(x, ac + i))
    ensures |yVals| == rows
    ensures forall j :: 0 <= j < rows ==>
              yVals[j] == BlockPart(a, first, j, alpha, Elements(x, n), ac, ac + unroll)
  {
    hide Mul, BlockPart, Row;
    ghost var xs := Elements(x, n);
    yVals := seq(rows, _ => 0.0);
    forall j | 0 <= j < rows
      ensures BlockPart(a, first, j, alpha, xs, ac, ac) == 0.0
    {
      BlockPartEmpty(a, first, j, alpha, xs, ac);
    }
    for i := 0 to unroll
      invariant |yVals| == rows
      invariant forall j :: 0 <= j < rows ==> yVals[j] == BlockPart(a, first, j, alpha, xs, ac, ac + i)
    {
      ghost var k, next := ac + i, ac + i + 1;
      forall j | 0 <= j < rows
        ensures BlockPart(a, first, j, alpha, xs, ac, next)
             == BlockPart(a, first, j, alpha, xs, ac, k) + Mul(xVals[i], Row(a, first + j)(k))
      {
        BlockPartStep(a, first, j, alpha, xs, ac, k);
      }
      yVals := AddColumn(a, ac + i, first, rows, xVals[i], yVals);
    }
  }

  /** Rows of the result below `done` carry columns lo to hi - 1, the others are untouched. */
  ghost predicate Carried(a: View, xs: seq<real>, alpha: real, beta: real, y0: seq<real>, y: seq<real>,
                          lo: int, hi: int, done: int) {
    && |y| == |y0| && 0 <= lo <= hi <= |xs|
    && forall s :: 0 <= s < |y| ==>
         y[s] == if s < done then Mul(beta, y0[s]) + Part(Row(a, s), alpha, xs, lo, hi) else y0[s]
  }

  /** y = y * beta + accumulators, for a block of rows. */
  method StoreBlock(a: View, y: Vec, first: int, yVals: seq<real>, beta: real,
                    ghost xs: seq<real>, ghost alpha: real, ghost lo: int, ghost hi: int, ghost y0: seq<real>)
    requires y.Valid() && 0 <= first && first + |yVals| <= y.n && 0 <= lo <= hi <= |xs|
    requires Carried(a, xs, alpha, beta, y0, y.Elems(), lo, hi, first)
    requires forall j :: 0 <= j < |yVals| ==> yVals[j] == BlockPart(a, first, j, alpha, xs, lo, hi)
    modifies y.data
    ensures Carried(a, xs, alpha, beta, y0, y.Elems(), lo, hi, first + |yVals|)
    ensures y.Others() == old(y.Others())
  {
    hide Mul, Part, Row, Vec.Addr, Vec.Valid;
    ghost var others := y.Others();
    for j := 0 to |yVals|
      invariant Carried(a, xs, alpha, beta, y0, y.Elems(), lo, hi, first + j)
      invariant y.Others() == others
    {
      ghost var was := y.Elems();
      var v := y.Get(first + j);
      MulFacts(beta, v);
      assert v == was[first + j] == y0[first + j];
      y.Set(first + j, v * beta + yVals[j]);
    }
  }

  /** gemv_a_strd_first_strd_loop: `unroll` columns from ac, four rows at a time and then the rest. */
  method StrdLoop(a: View, x: View, n: nat, y: Vec,
                  ac: int, unroll: int, alpha: real, beta: real)
    requires 0 <= ac && 0 <= unroll && ac + unroll <= n && y.Valid()
    modifies y.data
    ensures Carried(a, Elements(x, n), alpha, beta, old(y.Elems()), y.Elems(), ac, ac + unroll, y.n)
    ensures y.Others() == old(y.Others())
  {
    hide Mul, Part, BlockPart, Row, Vec.Addr, Vec.Valid;
    ghost var xs, y0, others := Elements(x, n), y.Elems(), y.Others();
    var xVals := ScaleBlock(x, ac, unroll, alpha);
    var first := 0;
    while first <= y.n - 4
      invariant 0 <= first <= y.n
      invariant Carried(a, xs, alpha, beta, y0, y.Elems(), ac, ac + unroll, first)
      invariant y.Others() == others
    {
      var yVals := RowBlock(a, x, n, ac, unroll, first, 4, xVals, alpha);
      StoreBlock(a, y, first, yVals, beta, xs, alpha, ac, ac + unroll, y0);
      first := first + 4;
    }
    var rest := y.n - first;
    var yVals := RowBlock(a, x, n, ac, unroll, first, rest, xVals, alpha);
    StoreBlock(a, y, first, yVals, beta, xs, alpha, ac, ac + unroll, y0);
  }

  /** Columns below ac have been added, beta applied with the first block of them and never again. */
  ghost predicate ColumnsAdded(a: View, xs: seq<real>, alpha: real, beta: real, y0: seq<real>, y: seq<real>, ac: int) {
    && |y| == |y0| && 0 <= ac <= |xs|
    && forall s :: 0 <= s < |y| ==>
         y[s] == if ac == 0 then y0[s] else Mul(beta, y0[s]) + Part(Row(a, s), alpha, xs, 0, ac)
  }

  lemma ColumnsAddedStep(a: View, xs: seq<real>, alpha: real, beta: real, y0: seq<real>,
                         was: seq<real>, y: seq<real>, ac: int, to: int)
    requires ColumnsAdded(a, xs, alpha, beta, y0, was, ac) && ac < to
    requires Carried(a, xs, alpha, if ac == 0 then beta else 1.0, was, y, ac, to, |y|)
    ensures ColumnsAdded(a, xs, alpha, beta, y0, y, to)
  {
    hide Mul, Part, Row;
    forall s | 0 <= s < |y|
      ensures y[s] == Mul(beta, y0[s]) + Part(Row(a, s), alpha, xs, 0, to)
    {
      PartJoin(Row(a, s), alpha, xs, 0, ac, to);
      PartEmpty(Row(a, s), alpha, xs, 0);
      MulFacts(1.0, was[s]);
    }
  }

  /** y = beta * y + alpha * A * x. */
  ghost predicate Product(a: View, xs: seq<real>, alpha: real, beta: real, y0: seq<real>, y: seq<real>) {
    && |y| == |y0|
    && forall s :: 0 <= s < |y| ==> y[s] == Mul(beta, y0[s]) + Mul(alpha, Dot(Row(a, s), 0, xs))
  }

  /** gemv_a_strd_first_impl. With no columns at all it returns without having scaled y. */
  method StrdFirst(a: View, x: View, cntg: nat, y: Vec, alpha: real, beta: real)
    requires y.Valid()
    modifies y.data
    ensures cntg >= 1 ==> Product(a, Elements(x, cntg), alpha, beta, old(y.Elems()), y.Elems())
    ensures cntg == 0 ==> y.Elems() == old(y.Elems())
    ensures y.Others() == old(y.Others())
  {
    hide Mul, Part, Dot, Row, Carried, ColumnsAdded, Product, Vec.Addr, Vec.Valid;
    ghost var xs, y0, others := Elements(x, cntg), y.Elems(), y.Others();
    ColumnsAddedStart(a, xs, alpha, beta, y0);
    var ac := 0;
    while ac <= cntg - 4
      invariant 0 <= ac <= cntg
      invariant ColumnsAdded(a, xs, alpha, beta, y0, y.Elems(), ac)
      invariant y.Others() == others
    {
      ghost var was := y.Elems();
      StrdLoop(a, x, cntg, y, ac, 4, alpha, if ac == 0 then beta else 1.0);
      ColumnsAddedStep(a, xs, alpha, beta, y0, was, y.Elems(), ac, ac + 4);
      ac := ac + 4;
    }
    while ac < cntg
      invariant 0 <= ac <= cntg
      invariant ColumnsAdded(a, xs, alpha, beta, y0, y.Elems(), ac)
      invariant y.Others() == others
    {
      ghost var was := y.Elems();
      StrdLoop(a, x, cntg, y, ac, 1, alpha, if ac == 0 then beta else 1.0);
      ColumnsAddedStep(a, xs, alpha, beta, y0, was, y.Elems(), ac, ac + 1);
      ac := ac + 1;
    }
    ColumnsAddedEnd(a, xs, alpha, beta, y0, y.Elems());
  }

  lemma ColumnsAddedStart(a: View, xs: seq<real>, alpha: real, beta: real, y0: seq<real>)
    ensures ColumnsAdded(a, xs, alpha, beta, y0, y0, 0)
  {
  }

  lemma ColumnsAddedEnd(a: View, xs: seq<real>, alpha: real, beta: real, y0: seq<real>, y: seq<real>)
    requires ColumnsAdded(a, xs, alpha, beta, y0, y, |xs|)
    ensures |xs| >= 1 ==> Product(a, xs, alpha, beta, y0, y)
    ensures |xs| == 0 ==> y == y0
  {
    hide Mul, Dot, Row;
    assert xs[0..|xs|] == xs;
  }

  /** So the kernel keeps its promise without columns exactly when scaling would change nothing. */
  lemma EmptyProduct(a: View, alpha: real, beta: real, y0: seq<real>)
    ensures Product(a, [], alpha, beta, y0, y0) <==> beta == 1.0 || forall s :: 0 <= s < |y0| ==> y0[s] == 0.0
  {
    forall s | 0 <= s < |y0|
      ensures y0[s] == Mul(beta, y0[s]) <==> beta == 1.0 || y0[s] == 0.0
    {
      if y0[s] == Mul(beta, y0[s]) && y0[s] != 0.0 {
        MulFacts(1.0, y0[s]);
        MulFacts(beta, y0[s]);
        MulFacts(y0[s], 1.0);
        MulFacts(y0[s], beta);
        MulCancel(y0[s], beta, 1.0);
      }
      MulFacts(1.0, y0[s]);
      MulFacts(beta, y0[s]);
    }
    MulFacts(alpha, 0.0);
  }

  // ---------- columns innermost ----------

  /** `rows` running sums over all the columns. */
  method RowSums(a: View, x: View, cntg: nat, first: int, rows: int) returns (tmp: seq<real>)
    requires 0 <= rows
    ensures |tmp| == rows
    ensures forall j :: 0 <= j < rows ==> tmp[j] == BlockDot(a, first, j, Elements(x, cntg), cntg)
  {
    hide Mul, Dot, Row;
    ghost var xs := Elements(x, cntg);
    tmp := seq(rows, _ => 0.0);
    forall j | 0 <= j < rows
      ensures BlockDot(a, first, j, xs, 0) == 0.0
    {
      BlockDotEmpty(a, first, j, xs);
    }
    hide BlockDot;
    for ac := 0 to cntg
      invariant |tmp| == rows
      invariant forall j :: 0 <= j < rows ==> tmp[j] == BlockDot(a, first, j, xs, ac)
    {
      forall j | 0 <= j < rows
        ensures BlockDot(a, first, j, xs, ac + 1)
             == BlockDot(a, first, j, xs, ac) + Mul(XAt(x, ac), Row(a, first + j)(ac))
      {
        BlockDotStep(a, first, j, xs, ac);
      }
      tmp := AddColumn(a, ac, first, rows, XAt(x, ac), tmp);
    }
  }

  ghost function BlockDot(a: View, first: int, j: int, xs: seq<real>, hi: int): real
    requires 0 <= hi <= |xs|
  {
    Dot(Row(a, first + j), 0, xs[..hi])
  }

  lemma BlockDotEmpty(a: View, first: int, j: int, xs: seq<real>)
    ensures BlockDot(a, first, j, xs, 0) == 0.0
  {
    DotZero(Row(a, first + j), 0, xs[..0]);
  }

  lemma BlockDotStep(a: View, first: int, j: int, xs: seq<real>, k: int)
    requires 0 <= k < |xs|
    ensures BlockDot(a, first, j, xs, k + 1) == BlockDot(a, first, j, xs, k) + Mul(xs[k], Row(a, first + j)(k))
  {
    hide Mul, Dot, Row;
    assert xs[..k + 1] == xs[..k] + [xs[k]];
    DotSnoc(Row(a, first + j), 0, xs[..k], xs[k]);
    MulFacts(xs[k], Row(a, first + j)(k));
  }

  /** Rows below `done` are final, the others untouched. */
  ghost predicate RowsDone(a: View, xs: seq<real>, alpha: real, beta: real, y0: seq<real>, y: seq<real>, done: int) {
    && |y| == |y0|
    && forall s :: 0 <= s < |y| ==>
         y[s] == if s < done then Mul(beta, y0[s]) + Mul(alpha, Dot(Row(a, s), 0, xs)) else y0[s]
  }

  method StoreSums(a: View, y: Vec, first: int, tmp: seq<real>, alpha: real, beta: real,
                   ghost xs: seq<real>, ghost y0: seq<real>)
    requires y.Valid() && 0 <= first && first + |tmp| <= y.n
    requires RowsDone(a, xs, alpha, beta, y0, y.Elems(), first)
    requires forall j :: 0 <= j < |tmp| ==> tmp[j] == BlockDot(a, first, j, xs, |xs|)
    modifies y.data
    ensures RowsDone(a, xs, alpha, beta, y0, y.Elems(), first + |tmp|)
    ensures y.Others() == old(y.Others())
  {
    hide Mul, Dot, Row, Vec.Addr, Vec.Valid;
    assert xs[..|xs|] == xs;
    ghost var others := y.Others();
    for j := 0 to |tmp|
      invariant RowsDone(a, xs, alpha, beta, y0, y.Elems(), first + j)
      invariant y.Others() == others
    {
      ghost var was := y.Elems();
      var v := y.Get(first + j);
      MulFacts(beta, v);
      MulFacts(alpha, tmp[j]);
      assert v == was[first + j] == y0[first + j];
      y.Set(first + j, v * beta + alpha * tmp[j]);
    }
  }

  /** gemv_a_cntg_first_impl: eight rows at a time, then one at a time. */
  method CntgFirst(a: View, x: View, cntg: nat, y: Vec, alpha: real, beta: real)
    requires y.Valid()
    modifies y.data
    ensures Product(a, Elements(x, cntg), alpha, beta, old(y.Elems()), y.Elems())
    ensures y.Others() == old(y.Others())
  {
    hide Mul, Dot, Row, BlockDot, Vec.Addr, Vec.Valid;
    ghost var xs, y0, others := Elements(x, cntg), y.Elems(), y.Others();
    var first := 0;
    while first <= y.n - 8
      invariant 0 <= first <= y.n
      invariant RowsDone(a, xs, alpha, beta, y0, y.Elems(), first)
      invariant y.Others() == others
    {
      var tmp := RowSums(a, x, cntg, first, 8);
      StoreSums(a, y, first, tmp, alpha, beta, xs, y0);
      first := first + 8;
    }
    while first != y.n
      invariant 0 <= first <= y.n
      invariant RowsDone(a, xs, alpha, beta, y0, y.Elems(), first)
      invariant y.Others() == others
    {
      var tmp := RowSums(a, x, cntg, first, 1);
      StoreSums(a, y, first, tmp, alpha, beta, xs, y0);
      first := first + 1;
    }
  }
}
