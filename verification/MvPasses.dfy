/**
 * Products made of several passes over y: panels of columns one after another, and the square on the
 * diagonal followed by the panel beside it. However many passes there are, beta is applied once.
 */
module MvPasses {
  import opened NumericUtils
  import opened Sums
  import opened Kernels
  import opened Views
  import opened Mv
  import TriangularForm

  // ---------- rows of a part of a matrix ----------

  /** Row s of a part of a, times its part of x, is the part of row s0 + s of a. */
  lemma RowOfSub(a: Adaptor, alpha: real, x: seq<real>, c: int, cs: int, s0: int, ss: int, s: int)
    requires 0 <= c && 0 <= cs && c + cs <= |x|
    ensures Mul(alpha, Dot(Row(a.Sub(c, cs, s0, ss), s), 0, x[c..c + cs])) == Part(Row(a, s0 + s), alpha, x, c, c + cs)
  {
    hide Dot, Mul, Adaptor.Value;
    forall k | 0 <= k < cs
      ensures Row(a.Sub(c, cs, s0, ss), s)(k) == Row(a, s0 + s)(c + k)
    {
      SubValue(a, c, cs, s0, ss, k, s);
    }
    DotShift(Row(a, s0 + s), Row(a.Sub(c, cs, s0, ss), s), 0, c, x[c..c + cs]);
  }

  // ---------- panels of columns ----------

  /** Columns at which the panels start, in order, from the first. */
  ghost predicate Cuts(cuts: seq<int>, n: int) {
    && |cuts| > 0 && cuts[0] == 0 && cuts[|cuts| - 1] <= n
    && forall i :: 0 < i < |cuts| ==> cuts[i - 1] < cuts[i]
  }

  function CutEnd(cuts: seq<int>, n: int, i: int): int
    requires 0 <= i < |cuts|
  {
    if i + 1 < |cuts| then cuts[i + 1] else n
  }

  lemma CutInside(cuts: seq<int>, n: int, i: int)
    requires Cuts(cuts, n) && 0 <= i < |cuts|
    ensures 0 <= cuts[i] <= CutEnd(cuts, n, i) <= n && (i > 0 ==> cuts[i] > 0)
    ensures cuts[|cuts| - 1] < n ==> cuts[i] < CutEnd(cuts, n, i)
  {
    CutsGrow(cuts, n, 0, i);
    CutsGrow(cuts, n, i, |cuts| - 1);
    if i + 1 < |cuts| {
      CutsGrow(cuts, n, i + 1, |cuts| - 1);
    }
  }

  lemma {:induction false} CutsGrow(cuts: seq<int>, n: int, i: int, j: int)
    requires Cuts(cuts, n) && 0 <= i <= j < |cuts|
    ensures cuts[i] + (j - i) <= cuts[j]
    decreases j - i
  {
    if i < j {
      CutsGrow(cuts, n, i, j - 1);
    }
  }

  /** The columns before c have been added to every row, and beta applied if there were any passes. */
  ghost predicate PassesDone(a: Adaptor, alpha: real, beta: real, x: seq<real>, y0: seq<real>, y: seq<real>,
                             c: int, started: bool)
    requires 0 <= c <= |x|
  {
    && |y| == |y0|
    && forall s :: 0 <= s < |y| ==>
         y[s] == if started then Mul(beta, y0[s]) + Part(Row(a, s), alpha, x, 0, c) else y0[s]
  }

  lemma PassesStep(a: Adaptor, alpha: real, beta: real, x: seq<real>, y0: seq<real>, was: seq<real>, y: seq<real>,
                   c: int, to: int, started: bool, pass: real)
    requires 0 <= c <= to <= |x| && (!started ==> c == 0) && pass == (if started then 1.0 else beta)
    requires PassesDone(a, alpha, beta, x, y0, was, c, started)
    requires Product(a.Sub(c, to - c, 0, a.base.strd), alpha, pass, x[c..to], was, y)
    ensures PassesDone(a, alpha, beta, x, y0, y, to, true)
  {
    hide Dot, Mul, Part, Row;
    forall s | 0 <= s < |y|
      ensures y[s] == Mul(beta, y0[s]) + Part(Row(a, s), alpha, x, 0, to)
    {
      RowOfSub(a, alpha, x, c, to - c, 0, a.base.strd, s);
      PartJoin(Row(a, s), alpha, x, 0, c, to);
      PartEmpty(Row(a, s), alpha, x, 0);
      MulFacts(1.0, was[s]);
    }
  }

  lemma PassesEnd(a: Adaptor, alpha: real, beta: real, x: seq<real>, y0: seq<real>, y: seq<real>)
    requires PassesDone(a, alpha, beta, x, y0, y, |x|, true)
    ensures Product(a, alpha, beta, x, y0, y)
  {
    hide Dot, Mul;
    assert x[0..|x|] == x;
  }

  /** One pass per panel of columns, each told where its panel starts, is one product. */
  method RunColumnPanels(a: Adaptor, x: Vec, y: Vec, alpha: real, beta: real, cuts: seq<int>)
    requires x.Valid() && y.Valid() && x.data != y.data && a.base.cntg == x.n && a.base.strd == y.n
    requires Cuts(cuts, x.n)
    modifies y.data
    ensures Product(a, alpha, beta, x.Elems(), old(y.Elems()), y.Elems())
    ensures y.Others() == old(y.Others())
  {
    hide Mul, Dot, Part, Row, Product, PassesDone, Vec.Addr, Vec.Valid;
    ghost var xs, y0, others := x.Elems(), y.Elems(), y.Others();
    assert PassesDone(a, alpha, beta, xs, y0, y0, 0, false) by { NoPasses(a, alpha, beta, xs, y0); }
    for i := 0 to |cuts|
      invariant i < |cuts| ==> 0 <= cuts[i] <= x.n
      invariant PassesDone(a, alpha, beta, xs, y0, y.Elems(), if i < |cuts| then cuts[i] else x.n, i > 0)
      invariant y.Others() == others
    {
      ghost var was := y.Elems();
      CutInside(cuts, x.n, i);
      var c, to := cuts[i], CutEnd(cuts, x.n, i);
      SubVec(x, c, to - c);
      NaiveMv(a.Sub(c, to - c, 0, a.base.strd), x.Sub(c, to - c), y, alpha, beta, c, 0);
      PassesStep(a, alpha, beta, xs, y0, was, y.Elems(), c, to, i > 0, if i > 0 then 1.0 else beta);
    }
    PassesEnd(a, alpha, beta, xs, y0, y.Elems());
  }

  lemma NoPasses(a: Adaptor, alpha: real, beta: real, x: seq<real>, y0: seq<real>)
    ensures PassesDone(a, alpha, beta, x, y0, y0, 0, false)
  {
  }

  // ---------- a second pass with another matrix ----------

  /** Both products and beta once: y = beta * y0 + alpha * A * x + alpha * B * z. */
  ghost predicate TwoProducts(a: Adaptor, x: seq<real>, b: Adaptor, z: seq<real>, alpha: real, beta: real,
                              y0: seq<real>, y: seq<real>) {
    && |y| == |y0|
    && forall s :: 0 <= s < |y| ==>
         y[s] == Mul(beta, y0[s]) + Mul(alpha, Dot(Row(a, s), 0, x)) + Mul(alpha, Dot(Row(b, s), 0, z))
  }

  lemma ProductThenProduct(a: Adaptor, x: seq<real>, b: Adaptor, z: seq<real>, alpha: real, beta: real,
                           y0: seq<real>, mid: seq<real>, y: seq<real>)
    requires Product(a, alpha, beta, x, y0, mid) && Product(b, alpha, 1.0, z, mid, y)
    ensures TwoProducts(a, x, b, z, alpha, beta, y0, y)
  {
    hide Dot, Mul, Row;
    forall s | 0 <= s < |y|
      ensures Mul(1.0, mid[s]) == mid[s]
    {
      MulFacts(1.0, mid[s]);
    }
  }

  /** The second of two passes adds its own product and leaves the first unscaled. */
  method TwoNaivePasses(a: Adaptor, x: Vec, b: Adaptor, z: Vec, y: Vec, alpha: real, beta: real)
    requires x.Valid() && y.Valid() && z.Valid() && x.data != y.data && z.data != y.data
    requires a.base.cntg == x.n && b.base.cntg == z.n && a.base.strd == y.n == b.base.strd
    modifies y.data
    ensures TwoProducts(a, x.Elems(), b, z.Elems(), alpha, beta, old(y.Elems()), y.Elems())
    ensures y.Others() == old(y.Others())
  {
    hide Product, TwoProducts, Vec.Addr, Vec.Valid;
    ghost var xs, zs, y0 := x.Elems(), z.Elems(), y.Elems();
    NaiveMv(a, x, y, alpha, beta, 0, 0);
    ghost var mid := y.Elems();
    NaiveMv(b, z, y, alpha, beta, 0, 1);
    ProductThenProduct(a, xs, b, zs, alpha, beta, y0, mid, y.Elems());
  }

  /** The same of the column walk. */
  method TwoReflectPasses(a: Adaptor, x: Vec, b: Adaptor, z: Vec, n: int, y: Vec, alpha: real, beta: real)
    requires Conform(a, n, x, y) && Conform(b, n, z, y) && a.base.strdStep == 1 == b.base.strdStep
    modifies y.data
    ensures TwoProducts(a, x.Elems(), b, z.Elems(), alpha, beta, old(y.Elems()), y.Elems())
    ensures y.Others() == old(y.Others())
  {
    hide Product, TwoProducts, Vec.Addr;
    ghost var xs, zs, y0 := x.Elems(), z.Elems(), y.Elems();
    MvReflect(a, n, x, y, alpha, beta, 0, 0);
    ghost var mid := y.Elems();
    MvReflect(b, n, z, y, alpha, beta, 0, 1);
    ProductThenProduct(a, xs, b, zs, alpha, beta, y0, mid, y.Elems());
  }

  // ---------- the square on the diagonal, then the panel beside it ----------

  function WindowOf(a: Adaptor): TriangularForm.Window {
    TriangularForm.Window(!a.upper, !(a.Triangular? && a.unit), a.base.cntg, a.base.strd, a.base.absCntg, a.base.absStrd)
  }

  /** Where the square and the panel of a block of rows start, read off the bounds of its first row. */
  function SquareStart(rows: Adaptor): int {
    var (cntgFirst, cntgLast) := TriangularForm.CntgBounds(WindowOf(rows), 0);
    if rows.upper then cntgLast - 1 else cntgFirst
  }
  function PanelStart(rows: Adaptor): int {
    if rows.upper then 0 else SquareStart(rows) + rows.base.strd
  }
  function PanelSize(rows: Adaptor): int {
    if rows.upper then SquareStart(rows) else rows.base.cntg - SquareStart(rows) - rows.base.strd
  }

  /** The square of rows p .. p + h - 1 is the part of a on its diagonal there. */
  lemma SquareOfRows(a: Adaptor, n: int, p: int, h: int)
    requires Square(a, n) && 0 <= p && 1 <= h && p + h <= n
    ensures var rows := a.Sub(0, n, p, h);
            && SquareStart(rows) == p && PanelSize(rows) == (if a.upper then p else n - p - h)
            && PanelStart(rows) == (if a.upper then 0 else p + h)
            && rows.Sub(p, h, 0, h) == a.Sub(p, h, p, h) && Square(a.Sub(p, h, p, h), h)
  {
    SubAddr(a.base, 0, n, p, h, p, 0);
    forall c, s | 0 <= c < h && 0 <= s < h && a.Sub(p, h, p, h).Physical(c, s)
      ensures 0 <= a.base.Sub(p, h, p, h).Addr(c, s) < |a.base.data|
    {
      SubAddr(a.base, p, h, p, h, c, s);
      assert a.Physical(p + c, p + s);
    }
  }

  /** What the rows of a block get from its square and its panel is the whole row: the rest is zero. */
  lemma SquareAndPanel(a: Adaptor, n: int, p: int, h: int, alpha: real, beta: real, x: seq<real>,
                       y0: seq<real>, mid: seq<real>, y: seq<real>)
    requires Square(a, n) && a.Triangular? && 0 <= p && 1 <= h && p + h <= n == |x| && |y0| == h
    requires Product(a.Sub(p, h, p, h), alpha, beta, x[p..p + h], y0, mid)
    requires var ps, pn := if a.upper then 0 else p + h, if a.upper then p else n - p - h;
             if pn == 0 then y == mid
             else Product(a.Sub(0, n, p, h).Sub(ps, pn, 0, h), alpha, 1.0, x[ps..ps + pn], mid, y)
    ensures Product(a.Sub(0, n, p, h), alpha, beta, x, y0, y)
  {
    hide Dot, Mul, Part, View.Addr;
    var ps, pn := if a.upper then 0 else p + h, if a.upper then p else n - p - h;
    forall s | 0 <= s < h
      ensures y[s] == Mul(beta, y0[s]) + Mul(alpha, Dot(Row(a.Sub(0, n, p, h), s), 0, x))
    {
      var f := Row(a.Sub(0, n, p, h), s);
      RowZeros(a, n, p, h, s);
      RowOfSub(a, alpha, x, p, h, p, h, s);
      RowOfSub(a.Sub(0, n, p, h), alpha, x, ps, pn, 0, h, s);
      SameRow(a, alpha, x, n, p, h, s);
      assert x[0..n] == x;
      PartJoin(f, alpha, x, 0, p, n);
      PartJoin(f, alpha, x, p, p + h, n);
      if a.upper {
        PartZero(f, alpha, x, p + h, n);
      } else {
        PartZero(f, alpha, x, 0, p);
      }
      PartEmpty(f, alpha, x, ps);
      MulFacts(1.0, mid[s]);
      assert Mul(alpha, Dot(f, 0, x)) == Part(f, alpha, x, 0, n) by { PartWhole(f, alpha, x); }
    }
  }

  lemma PartWhole(f: int -> real, alpha: real, x: seq<real>)
    ensures Part(f, alpha, x, 0, |x|) == Mul(alpha, Dot(f, 0, x))
  {
    assert x[0..|x|] == x;
  }

  lemma SameRow(a: Adaptor, alpha: real, x: seq<real>, n: int, p: int, h: int, s: int)
    requires 0 <= p && 0 <= h && p + h <= n == |x|
    ensures Part(Row(a, p + s), alpha, x, p, p + h) == Part(Row(a.Sub(0, n, p, h), s), alpha, x, p, p + h)
  {
    hide Dot, Mul, Adaptor.Value;
    forall k
      ensures Row(a, p + s)(k) == Row(a.Sub(0, n, p, h), s)(k)
    {
      SubValue(a, 0, n, p, h, k, s);
    }
    DotAgree(Row(a, p + s), Row(a.Sub(0, n, p, h), s), p, x[p..p + h]);
  }

  lemma RowZeros(a: Adaptor, n: int, p: int, h: int, s: int)
    requires Square(a, n) && a.Triangular? && 0 <= p && p + h <= n && 0 <= s < h
    ensures forall k :: (if a.upper then p + h <= k else k < p) ==> Row(a.Sub(0, n, p, h), s)(k) == 0.0
  {
    hide View.Addr;
  }

  /**
   * symv_square_panel over the columns of rows p .. p + h - 1: the square by rows or by columns, and then,
   * as iteration one, the panel.
   */
  method SquarePanel(a: Adaptor, n: int, p: int, h: int, x: Vec, y: Vec, alpha: real, beta: real)
    requires Square(a, n) && a.Triangular? && 0 <= p && 1 <= h && p + h <= n
    requires a.base.cntgStep == 1 || a.base.strdStep == 1
    requires x.Valid() && y.Valid() && x.data != y.data && x.n == n && y.n == h
    modifies y.data
    ensures Product(a.Sub(0, n, p, h), alpha, beta, x.Elems(), old(y.Elems()), y.Elems())
    ensures y.Others() == old(y.Others())
  {
    hide Product, Dot, Mul, View.Addr, Vec.Addr, Vec.Valid;
    ghost var xs, y0 := x.Elems(), y.Elems();
    var rows := a.Sub(0, n, p, h);
    SquareOfRows(a, n, p, h);
    var start := SquareStart(rows);
    var square := rows.Sub(start, h, 0, h);
    SubVec(x, start, h);
    if a.base.cntgStep == 1 {
      TrmvVectorSplit(square, h, x.Sub(start, h), y, alpha, beta);
    } else {
      MvReflect(square, h, x.Sub(start, h), y, alpha, beta, 0, 0);
    }
    ghost var mid := y.Elems();
    var panelStart, panelSize := PanelStart(rows), PanelSize(rows);
    if panelSize != 0 {
      SubVec(x, panelStart, panelSize);
      NaiveMv(rows.Sub(panelStart, panelSize, 0, h), x.Sub(panelStart, panelSize), y, alpha, beta, 0, 1);
    }
    SquareAndPanel(a, n, p, h, alpha, beta, xs, y0, mid, y.Elems());
  }

  /** A finished block extends the finished rows. */
  lemma BlockStep(a: Adaptor, n: int, p: int, h: int, alpha: real, beta: real, x: seq<real>,
                  y0: seq<real>, was: seq<real>, y: seq<real>)
    requires 0 <= p && 1 <= h && p + h <= n == |y0| == |y|
    requires ProductSoFar(a, alpha, beta, x, y0, was, p)
    requires Product(a.Sub(0, n, p, h), alpha, beta, x, was[p..p + h], y[p..p + h]) && n == |x|
    requires forall s :: 0 <= s < n && !(p <= s < p + h) ==> y[s] == was[s]
    ensures ProductSoFar(a, alpha, beta, x, y0, y, p + h)
  {
    hide Dot, Mul, Row;
    forall s | p <= s < p + h
      ensures y[s] == Mul(beta, y0[s]) + Mul(alpha, Dot(Row(a, s), 0, x))
    {
      assert y[p..p + h][s - p] == y[s] && was[p..p + h][s - p] == was[s] == y0[s];
      RowOfSub(a, alpha, x, 0, n, p, h, s - p);
      assert x[0..n] == x;
      PartWhole(Row(a, p + (s - p)), alpha, x);
    }
  }

  /** One block of rows of y. */
  method OneBlock(a: Adaptor, n: int, p: int, h: int, x: Vec, y: Vec, alpha: real, beta: real)
    requires Conform(a, n, x, y) && a.Triangular? && (a.base.cntgStep == 1 || a.base.strdStep == 1)
    requires 0 <= p && 1 <= h && p + h <= n
    modifies y.data
    ensures Product(a.Sub(0, n, p, h), alpha, beta, x.Elems(), old(y.Elems())[p..p + h], y.Elems()[p..p + h])
    ensures forall s :: 0 <= s < n && !(p <= s < p + h) ==> y.Elems()[s] == old(y.Elems())[s]
    ensures y.Others() == old(y.Others())
  {
    hide Product, Square, Vec.Addr, Vec.Occupied;
    var rows := y.Sub(p, h);
    ghost var was, others := y.data[..], rows.Others();
    SubVec(y, p, h);
    SquarePanel(a, n, p, h, x, rows, alpha, beta);
    SubVec(y, p, h);
    forall k | 0 <= k < |was| && !rows.Occupied(k)
      ensures y.data[..][k] == was[k]
    {
      assert rows.Others()[k] == others[k];
    }
    SubChanged(y, p, h, was, y.data[..]);
  }

  /**
   * A triangle times a vector, one block of rows after another, each by its square and its panel: one
   * product, with beta applied once however the rows are cut.
   */
  method RunRowBlocks(a: Adaptor, n: int, x: Vec, y: Vec, alpha: real, beta: real, cuts: seq<int>)
    requires Conform(a, n, x, y) && a.Triangular? && (a.base.cntgStep == 1 || a.base.strdStep == 1)
    requires Cuts(cuts, n) && cuts[|cuts| - 1] < n
    modifies y.data
    ensures Product(a, alpha, beta, x.Elems(), old(y.Elems()), y.Elems())
    ensures y.Others() == old(y.Others())
  {
    hide Product, Dot, Mul, ProductSoFar, Square, Vec.Addr, Vec.Valid;
    ghost var xs, y0, others := x.Elems(), y.Elems(), y.Others();
    assert ProductSoFar(a, alpha, beta, xs, y0, y0, 0) by { NothingYet(a, alpha, beta, xs, y0); }
    for i := 0 to |cuts|
      invariant i < |cuts| ==> 0 <= cuts[i] <= n
      invariant ProductSoFar(a, alpha, beta, xs, y0, y.Elems(), if i < |cuts| then cuts[i] else n)
      invariant y.Others() == others
    {
      ghost var was := y.Elems();
      CutInside(cuts, n, i);
      var p, end := cuts[i], CutEnd(cuts, n, i);
      OneBlock(a, n, p, end - p, x, y, alpha, beta);
      BlockStep(a, n, p, end - p, alpha, beta, xs, y0, was, y.Elems());
    }
    AllSoFar(a, alpha, beta, xs, y0, y.Elems());
  }

  lemma NothingYet(a: Adaptor, alpha: real, beta: real, x: seq<real>, y0: seq<real>)
    ensures ProductSoFar(a, alpha, beta, x, y0, y0, 0)
  {
  }

  lemma AllSoFar(a: Adaptor, alpha: real, beta: real, x: seq<real>, y0: seq<real>, y: seq<real>)
    requires ProductSoFar(a, alpha, beta, x, y0, y, |y|)
    ensures Product(a, alpha, beta, x, y0, y)
  {
  }
}
