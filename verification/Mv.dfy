/**
 * y = alpha * A * x + beta * y for a square triangular or symmetric A: column by column with an axpby on
 * the stored half and a dot product on its mirror image, or row by row with dot products alone. Both must
 * leave what the plain double loop leaves.
 */
module Mv {
  import opened NumericUtils
  import opened Sums
  import opened Kernels
  import opened Views

  /** A square matrix cut along its parent's diagonal, its stored half inside the memory it is given. */
  ghost predicate Square(a: Adaptor, n: int) {
    && 0 <= n == a.base.cntg == a.base.strd && a.base.absCntg == a.base.absStrd
    && forall c, s :: 0 <= c < n && 0 <= s < n && a.Physical(c, s) ==> 0 <= a.base.Addr(c, s) < |a.base.data|
  }

  /** Row s of the matrix: the strided position is the row, the contiguous one the column. */
  ghost function Row(a: Adaptor, s: int): int -> real {
    c => a.Value(c, s)
  }

  /** What every form must leave. */
  ghost predicate Product(a: Adaptor, alpha: real, beta: real, x: seq<real>, y0: seq<real>, y: seq<real>) {
    && |y| == |y0|
    && forall s :: 0 <= s < |y| ==> y[s] == Mul(beta, y0[s]) + Mul(alpha, Dot(Row(a, s), 0, x))
  }

  /** Rows before i as they must be left, the others untouched. */
  ghost predicate ProductSoFar(a: Adaptor, alpha: real, beta: real, x: seq<real>, y0: seq<real>, y: seq<real>, i: int) {
    && |y| == |y0|
    && forall s :: 0 <= s < |y| ==>
         y[s] == if s < i then Mul(beta, y0[s]) + Mul(alpha, Dot(Row(a, s), 0, x)) else y0[s]
  }

  /** Only the first pass over the contiguous dimension scales y. */
  function Beta(beta: real, posCntg: int, posIteration: int): real {
    if posCntg != 0 || posIteration != 0 then 1.0 else beta
  }

  /** Operands of one product: y is not stored over x. */
  ghost predicate Conform(a: Adaptor, n: int, x: Vec, y: Vec) {
    Square(a, n) && x.Valid() && y.Valid() && x.data != y.data && x.n == n == y.n
  }

  // ---------- the plain form ----------

  method RowTimes(a: Adaptor, i: int, x: Vec) returns (tmp: real)
    requires x.Valid()
    ensures tmp == Dot(Row(a, i), 0, x.Elems())
  {
    hide Mul, Adaptor.Value, Vec.Addr, Vec.Valid;
    ghost var xs := x.Elems();
    tmp := 0.0;
    for j := 0 to x.n
      invariant tmp == Dot(Row(a, i), 0, xs[..j])
    {
      DotSnoc(Row(a, i), 0, xs[..j], xs[j]);
      assert xs[..j + 1] == xs[..j] + [xs[j]];
      MulFacts(a.Value(j, i), x.Get(j));
      tmp := tmp + a.Value(j, i) * x.Get(j);
    }
    assert xs[..x.n] == xs;
  }

  method NaiveMv(a: Adaptor, x: Vec, y: Vec, alpha: real, beta: real, posCntg: int, posIteration: int)
    requires x.Valid() && y.Valid() && x.data != y.data && a.base.cntg == x.n && a.base.strd == y.n
    modifies y.data
    ensures Product(a, alpha, Beta(beta, posCntg, posIteration), x.Elems(), old(y.Elems()), y.Elems())
    ensures y.Others() == old(y.Others())
  {
    hide Mul, Dot, Row, Vec.Addr, Vec.Valid;
    var b := Beta(beta, posCntg, posIteration);
    ghost var xs, y0, others := x.Elems(), y.Elems(), y.Others();
    for i := 0 to y.n
      invariant ProductSoFar(a, alpha, b, xs, y0, y.Elems(), i)
      invariant y.Others() == others
    {
      var tmp := RowTimes(a, i, x);
      MulFacts(alpha, tmp);
      MulFacts(b, y.Get(i));
      y.Set(i, alpha * tmp + b * y.Get(i));
    }
  }

  // ---------- one stored column, one mirrored column ----------

  function Lower(a: Adaptor, i: int, n: int): int { if a.upper then i else 0 }
  function Upper(a: Adaptor, i: int, n: int): int { if a.upper then n else i + 1 }

  lemma HalfIsPhysical(a: Adaptor, n: int, i: int, k: int)
    requires Square(a, n) && 0 <= i < n && 0 <= k < n
    ensures i != k ==> (Lower(a, i, n) <= k < Upper(a, i, n) <==> a.Physical(i, k))
    ensures i == k && a.Triangular? && a.unit ==> a.Value(i, k) == 1.0
    ensures i == k && !(a.Triangular? && a.unit) ==> a.Physical(i, k)
    ensures a.Triangular? && !(Lower(a, i, n) <= k < Upper(a, i, n)) ==> a.Value(i, k) == 0.0
    ensures a.Physical(i, k) ==>
              0 <= a.base.Addr(i, k) < |a.base.data| && a.Value(i, k) == a.base.data[a.base.Addr(i, k)]
  {
    if a.Physical(i, k) {
      PhysicalValue(a, i, k);
    }
  }

  /** A stretch of a stored column is contiguous. */
  lemma ColumnInMemory(a: Adaptor, n: int, i: int, lo: int, length: int)
    requires Square(a, n) && a.base.strdStep == 1 && 0 <= i < n && 0 <= lo && 0 < length && lo + length <= n
    requires forall k :: lo <= k < lo + length ==> a.Physical(i, k)
    ensures 0 <= a.base.Addr(i, lo) && a.base.Addr(i, lo) + length <= |a.base.data|
    ensures forall k :: lo <= k < lo + length ==> a.Value(i, k) == a.base.data[a.base.Addr(i, lo) + k - lo]
  {
    hide View.Addr, Adaptor.Value, Adaptor.Physical;
    forall k | lo <= k < lo + length
      ensures a.base.Addr(i, k) == a.base.Addr(i, lo) + k - lo && 0 <= a.base.Addr(i, k) < |a.base.data|
      ensures a.Value(i, k) == a.base.data[a.base.Addr(i, k)]
    {
      AddrShift(a.base, i, lo, 0, k - lo);
      HalfIsPhysical(a, n, i, k);
    }
    assert a.base.Addr(i, lo + length - 1) == a.base.Addr(i, lo) + (lo + length - 1) - lo;
    assert 0 <= a.base.Addr(i, lo);
  }

  /** Elements lo to hi - 1 of a vector have become alpha * x(i) * A(i, k) plus beta times themselves. */
  ghost predicate ColumnAdded(a: Adaptor, i: int, lo: int, hi: int, alpha: real, beta: real, xi: real,
                              was: seq<real>, y: seq<real>) {
    && |y| == |was|
    && forall k :: 0 <= k < |y| ==>
         y[k] == if lo <= k < hi then Mul(Mul(alpha, xi), a.Value(i, k)) + Mul(beta, was[k]) else was[k]
  }

  /** axpby_exec on length elements of column i from row lo. */
  method AxpbyExec(a: Adaptor, n: int, i: int, lo: int, length: int, x: Vec, y: Vec, alpha: real, beta: real)
    requires Conform(a, n, x, y) && a.base.strdStep == 1 && 0 <= i < n
    requires 0 <= lo && 0 <= length && lo + length <= n
    requires forall k :: lo <= k < lo + length ==> a.Physical(i, k)
    modifies y.data
    ensures ColumnAdded(a, i, lo, lo + length, alpha, beta, x.Elems()[i], old(y.Elems()), y.Elems())
    ensures y.Others() == old(y.Others())
  {
    hide Mul, View.Addr, Adaptor.Value, Adaptor.Physical, Square, Vec.Addr, Vec.Valid;
    var aVec := a.Sub(i, 1, lo, length);
    var alphaX := alpha * x.Get(i);
    ghost var xi := x.Elems()[i];
    assert alphaX == Mul(alpha, xi) by { MulFacts(alpha, xi); }
    if length != 0 {
      ColumnInMemory(a, n, i, lo, length);
      Axpby(length, alphaX, a.base.data, aVec.base.origin, beta, y, lo);
    }
  }

  /** The stored half of column i, an implicit one on the diagonal. */
  method PhysicalColumn(a: Adaptor, n: int, i: int, x: Vec, y: Vec, alpha: real, beta: real)
    requires Conform(a, n, x, y) && a.base.strdStep == 1 && 0 <= i < n
    modifies y.data
    ensures ColumnAdded(a, i, Lower(a, i, n), Upper(a, i, n), alpha, beta, x.Elems()[i], old(y.Elems()), y.Elems())
    ensures y.Others() == old(y.Others())
  {
    hide Mul, View.Addr, Adaptor.Value, Adaptor.Physical, Square, Vec.Addr, Vec.Valid;
    var mod := 0;
    if a.Triangular? && a.unit {
      HalfIsPhysical(a, n, i, i);
      MulFacts(beta, y.Get(i));
      MulFacts(alpha, x.Get(i));
      MulFacts(Mul(alpha, x.Get(i)), 1.0);
      var v := beta * y.Get(i) + alpha * a.Value(i, i) * x.Get(i);
      assert v == Mul(Mul(alpha, x.Get(i)), a.Value(i, i)) + Mul(beta, y.Get(i));
      y.Set(i, v);
      mod := 1;
    }
    var lo := if a.upper then i + mod else 0;
    var vlen := if a.upper then n - i - mod else i + 1 - mod;
    forall k | lo <= k < lo + vlen
      ensures a.Physical(i, k)
    {
      HalfIsPhysical(a, n, i, k);
    }
    AxpbyExec(a, n, i, lo, vlen, x, y, alpha, beta);
  }

  /** The mirror image of the part of row i that column i stores is contiguous where column i stores it. */
  lemma ReflectedOrigin(a: Adaptor, n: int, i: int, lo: int, length: int)
    requires Square(a, n) && a.Symmetric?
    ensures a.Sub(lo, length, i, 1).ReflectTranspose().base.origin == a.base.Addr(i, lo)
    ensures forall k :: a.Value(k, i) == a.Value(i, k)
  {
    hide View.ParentOrigin, View.Addr, Adaptor.Value;
    var v := a.base.Sub(lo, length, i, 1);
    SubAddr(a.base, lo, length, i, 1, 0, 0);
    SameAbsAddr(v, a.base, i + a.base.absStrd, lo + a.base.absCntg);
    AddrShift(a.base, i, lo, 0, 0);
    forall k
      ensures a.Value(k, i) == a.Value(i, k)
    {
      MirrorValue(a, k, i);
    }
  }

  lemma SameAbsAddr(v: View, w: View, c: int, s: int)
    requires v.ParentOrigin() == w.ParentOrigin() && v.cntgStep == w.cntgStep && v.strdStep == w.strdStep
    ensures v.AbsAddr(c, s) == w.AbsAddr(c, s)
  {
  }

  /** The dot product of the mirrored half of row i, added to y(i). */
  method VirtualRow(a: Adaptor, n: int, i: int, x: Vec, y: Vec, alpha: real, beta: real)
    requires Conform(a, n, x, y) && a.Symmetric? && a.base.strdStep == 1 && 0 <= i < n
    modifies y.data
    ensures var lo, length := if a.upper then i + 1 else 0, if a.upper then n - i - 1 else i;
            y.Elems() == if length == 0 then old(y.Elems())
                         else old(y.Elems())[i := Mul(beta, old(y.Elems())[i])
                                                  + Part(Row(a, i), alpha, x.Elems(), lo, lo + length)]
    ensures y.Others() == old(y.Others())
  {
    hide Mul, Dot, View.Addr, Adaptor.Value, Vec.Addr, Vec.Valid;
    var lo, vlen := if a.upper then i + 1 else 0, if a.upper then n - i - 1 else i;
    if vlen > 0 {
      var aRfl := a.Sub(lo, vlen, i, 1).ReflectTranspose();
      ReflectedOrigin(a, n, i, lo, vlen);
      ColumnInMemory(a, n, i, lo, vlen);
      assert forall k :: lo <= k < lo + vlen ==> Row(a, i)(k) == a.Value(i, k);
      var dot := DotKernel(vlen, a.base.data, aRfl.base.origin, x, lo, Row(a, i));
      MulFacts(beta, y.Get(i));
      MulFacts(alpha, dot);
      var v := y.Get(i) * beta + alpha * dot;
      assert v == Mul(beta, y.Elems()[i]) + Part(Row(a, i), alpha, x.Elems(), lo, lo + vlen);
      y.Set(i, v);
    }
  }

  // ---------- which part of each row has been added after t columns ----------

  /** The column a walk visits at step t, and the columns it has visited before it. */
  function Visited(a: Adaptor, n: int, t: int): int { if a.upper then t else n - t - 1 }
  function From(a: Adaptor, n: int, t: int): int { if a.upper then 0 else n - t }
  function To(a: Adaptor, n: int, t: int): int { if a.upper then t else n }

  /** A symmetric row is complete once its own column has been visited. */
  predicate Complete(a: Adaptor, n: int, s: int, t: int) {
    a.Symmetric? && From(a, n, t) <= s < To(a, n, t)
  }

  ghost function Gathered(a: Adaptor, alpha: real, x: seq<real>, s: int, t: int): real
    requires 0 <= t <= |x|
  {
    if Complete(a, |x|, s, t) then Part(Row(a, s), alpha, x, 0, |x|)
    else Part(Row(a, s), alpha, x, From(a, |x|, t), To(a, |x|, t))
  }

  /** What step t adds to row s: the stored half of the column, and on the diagonal the mirrored half of the row. */
  ghost function Added(a: Adaptor, alpha: real, x: seq<real>, s: int, t: int): real
    requires 0 <= t < |x|
  {
    var i := Visited(a, |x|, t);
    (if Lower(a, i, |x|) <= s < Upper(a, i, |x|) then Mul(Mul(alpha, x[i]), a.Value(i, s)) else 0.0)
    + if s == i && a.Symmetric? then Mirrored(a, alpha, x, i) else 0.0
  }

  ghost function Mirrored(a: Adaptor, alpha: real, x: seq<real>, i: int): real
    requires 0 <= i < |x|
  {
    if a.upper then Part(Row(a, i), alpha, x, i + 1, |x|) else Part(Row(a, i), alpha, x, 0, i)
  }

  lemma GatheredStep(a: Adaptor, n: int, alpha: real, x: seq<real>, s: int, t: int)
    requires Square(a, n) && |x| == n && 0 <= t < n && 0 <= s < n
    ensures Gathered(a, alpha, x, s, t + 1) == Gathered(a, alpha, x, s, t) + Added(a, alpha, x, s, t)
  {
    hide Part, Mul, Adaptor.Value, Adaptor.Physical;
    var i := Visited(a, n, t);
    var f := Row(a, s);
    HalfIsPhysical(a, n, i, s);
    MulFacts(Mul(alpha, x[i]), a.Value(i, s));
    if !Complete(a, n, s, t) {
      if a.Symmetric? && s == i {
        PartJoinOne(f, alpha, x, 0, i, n);
      } else if a.upper {
        PartJoinOne(f, alpha, x, 0, i, i + 1);
        PartEmpty(f, alpha, x, i + 1);
      } else {
        PartJoinOne(f, alpha, x, i, i, n);
        PartEmpty(f, alpha, x, i);
      }
    }
  }

  lemma GatheredEnds(a: Adaptor, alpha: real, x: seq<real>, s: int)
    ensures Gathered(a, alpha, x, s, 0) == 0.0
    ensures 0 <= s < |x| ==> Gathered(a, alpha, x, s, |x|) == Mul(alpha, Dot(Row(a, s), 0, x))
  {
    hide Mul, Dot;
    PartEmpty(Row(a, s), alpha, x, From(a, |x|, 0));
    assert x[0..|x|] == x;
  }

  // ---------- the walk over the columns ----------

  /** scale is the factor y still has to be multiplied by: beta until the first column, one from then on. */
  ghost predicate Reached(a: Adaptor, alpha: real, beta: real, x: seq<real>, y0: seq<real>,
                          y: seq<real>, scale: real, t: int) {
    && |y| == |y0| == |x| && 0 <= t <= |x|
    && (t > 0 ==> scale == 1.0)
    && forall s :: 0 <= s < |y| ==> Mul(scale, y[s]) == Mul(beta, y0[s]) + Gathered(a, alpha, x, s, t)
  }

  lemma ReachedStart(a: Adaptor, alpha: real, beta: real, x: seq<real>, y0: seq<real>)
    requires |y0| == |x|
    ensures Reached(a, alpha, beta, x, y0, y0, beta, 0)
  {
    hide Mul, Gathered;
    forall s | 0 <= s < |y0|
      ensures Gathered(a, alpha, x, s, 0) == 0.0
    {
      GatheredEnds(a, alpha, x, s);
    }
  }

  /** What step t leaves: the stored half scaled and added to, the mirrored half added to the diagonal's row. */
  ghost predicate StepTaken(a: Adaptor, n: int, t: int, alpha: real, scale: real, x: seq<real>,
                            was: seq<real>, y: seq<real>)
    requires 0 <= t < |x|
  {
    && |was| == |y| == n
    && forall s :: 0 <= s < n ==>
         y[s] == (if Lower(a, Visited(a, n, t), n) <= s < Upper(a, Visited(a, n, t), n) then Mul(scale, was[s])
                  else was[s]) + Added(a, alpha, x, s, t)
  }

  lemma ReachedStep(a: Adaptor, n: int, alpha: real, beta: real, x: seq<real>, y0: seq<real>,
                    was: seq<real>, y: seq<real>, scale: real, t: int)
    requires Square(a, n) && n == |x| == |y| && t < n && Reached(a, alpha, beta, x, y0, was, scale, t)
    requires StepTaken(a, n, t, alpha, scale, x, was, y)
    ensures Reached(a, alpha, beta, x, y0, y, 1.0, t + 1)
  {
    hide Mul, Gathered, Added;
    forall s | 0 <= s < n
      ensures Mul(1.0, y[s]) == Mul(beta, y0[s]) + Gathered(a, alpha, x, s, t + 1)
    {
      GatheredStep(a, n, alpha, x, s, t);
      MulFacts(1.0, y[s]);
      MulFacts(1.0, was[s]);
    }
  }

  lemma ReachedEnd(a: Adaptor, alpha: real, beta: real, x: seq<real>, y0: seq<real>, y: seq<real>, scale: real)
    requires Reached(a, alpha, beta, x, y0, y, scale, |x|)
    ensures Product(a, alpha, beta, x, y0, y)
  {
    hide Mul, Dot, Gathered, Row;
    forall s | 0 <= s < |y|
      ensures y[s] == Mul(beta, y0[s]) + Mul(alpha, Dot(Row(a, s), 0, x))
    {
      GatheredEnds(a, alpha, x, s);
      MulFacts(1.0, y[s]);
    }
  }

  lemma StepAdds(a: Adaptor, n: int, t: int, alpha: real, scale: real, x: seq<real>,
                 was: seq<real>, mid: seq<real>, y: seq<real>)
    requires 0 <= t < n == |x| == |was|
    requires var i := Visited(a, n, t);
             && ColumnAdded(a, i, Lower(a, i, n), Upper(a, i, n), alpha, scale, x[i], was, mid)
             && y == if a.Symmetric? then mid[i := mid[i] + Mirrored(a, alpha, x, i)] else mid
    ensures StepTaken(a, n, t, alpha, scale, x, was, y)
  {
    hide Mul, Mirrored, Adaptor.Value;
  }

  /** One column of the walk. */
  method ReflectStep(a: Adaptor, n: int, t: int, x: Vec, y: Vec, alpha: real, scale: real)
    requires Conform(a, n, x, y) && a.base.strdStep == 1 && 0 <= t < n
    modifies y.data
    ensures StepTaken(a, n, t, alpha, scale, x.Elems(), old(y.Elems()), y.Elems())
    ensures y.Others() == old(y.Others())
  {
    hide Mul, Part, ColumnAdded, Adaptor.Value, Square, Vec.Addr, Vec.Valid;
    var i := Visited(a, n, t);
    ghost var xs, was := x.Elems(), y.Elems();
    PhysicalColumn(a, n, i, x, y, alpha, scale);
    ghost var mid := y.Elems();
    if a.Symmetric? {
      MulFacts(1.0, mid[i]);
      PartEmpty(Row(a, i), alpha, xs, if a.upper then n else 0);
      VirtualRow(a, n, i, x, y, alpha, 1.0);
      assert y.Elems() == mid[i := mid[i] + Mirrored(a, alpha, xs, i)];
    }
    StepAdds(a, n, t, alpha, scale, xs, was, mid, y.Elems());
  }

  /** mv_reflect, upper half left to right or lower half right to left. */
  method MvReflect(a: Adaptor, n: int, x: Vec, y: Vec, alpha: real, beta: real, posCntg: int, posIteration: int)
    requires Conform(a, n, x, y) && a.base.strdStep == 1
    modifies y.data
    ensures Product(a, alpha, Beta(beta, posCntg, posIteration), x.Elems(), old(y.Elems()), y.Elems())
    ensures y.Others() == old(y.Others())
  {
    hide Reached, Product, StepTaken, Mul, Square, Vec.Addr, Vec.Valid;
    ghost var xs, y0, others := x.Elems(), y.Elems(), y.Others();
    var scale := Beta(beta, posCntg, posIteration);
    ghost var b := scale;
    ReachedStart(a, alpha, b, xs, y0);
    for t := 0 to n
      invariant Reached(a, alpha, b, xs, y0, y.Elems(), scale, t)
      invariant y.Others() == others
    {
      ghost var was := y.Elems();
      ReflectStep(a, n, t, x, y, alpha, scale);
      ReachedStep(a, n, alpha, b, xs, y0, was, y.Elems(), scale, t);
      scale := 1.0;
    }
    ReachedEnd(a, alpha, b, xs, y0, y.Elems(), scale);
  }

  // ---------- row by row ----------

  /** Row i of a triangle: its diagonal, the elements stored beside it, and zeros. */
  lemma TriangularRow(a: Adaptor, n: int, alpha: real, x: seq<real>, i: int)
    requires Square(a, n) && a.Triangular? && |x| == n && 0 <= i < n
    ensures Mul(alpha, Dot(Row(a, i), 0, x))
         == Mul(Mul(alpha, x[i]), a.Value(i, i))
            + if a.upper then Part(Row(a, i), alpha, x, 0, i) else Part(Row(a, i), alpha, x, i + 1, n)
  {
    hide Dot, Mul, View.Addr;
    var f := Row(a, i);
    assert x[0..n] == x;
    PartJoinOne(f, alpha, x, 0, i, n);
    if a.upper {
      PartZero(f, alpha, x, i + 1, n);
    } else {
      PartZero(f, alpha, x, 0, i);
    }
  }

  /** A stretch of a stored row is contiguous when the matrix is. */
  lemma RowInMemory(a: Adaptor, n: int, i: int, lo: int, length: int)
    requires Square(a, n) && a.base.cntgStep == 1 && 0 <= i < n && 0 <= lo && 0 < length && lo + length <= n
    requires forall k :: lo <= k < lo + length ==> a.Physical(k, i)
    ensures 0 <= a.base.Addr(lo, i) && a.base.Addr(lo, i) + length <= |a.base.data|
    ensures forall k :: lo <= k < lo + length ==> a.Value(k, i) == a.base.data[a.base.Addr(lo, i) + k - lo]
  {
    hide View.Addr, Adaptor.Value, Adaptor.Physical;
    forall k | lo <= k < lo + length
      ensures a.base.Addr(k, i) == a.base.Addr(lo, i) + k - lo && 0 <= a.base.Addr(k, i) < |a.base.data|
      ensures a.Value(k, i) == a.base.data[a.base.Addr(k, i)]
    {
      AddrShift(a.base, lo, i, k - lo, 0);
      HalfIsPhysical(a, n, k, i);
    }
    assert a.base.Addr(lo + length - 1, i) == a.base.Addr(lo, i) + (lo + length - 1) - lo;
    assert 0 <= a.base.Addr(lo, i);
  }

  /** dot_exec on length elements of row i from column lo. */
  method DotExec(a: Adaptor, n: int, i: int, lo: int, length: int, x: Vec, y: Vec, alpha: real, beta: real)
    requires Conform(a, n, x, y) && a.base.cntgStep == 1 && 0 <= i < n
    requires 0 <= lo && 0 < length && lo + length <= n
    requires forall k :: lo <= k < lo + length ==> a.Physical(k, i)
    modifies y.data
    ensures y.Elems() == old(y.Elems())[i := Mul(beta, old(y.Elems())[i])
                                             + Part(Row(a, i), alpha, x.Elems(), lo, lo + length)]
    ensures y.Others() == old(y.Others())
  {
    hide Mul, Dot, View.Addr, Adaptor.Value, Adaptor.Physical, Square, Vec.Addr, Vec.Valid;
    var aV := a.Sub(lo, length, i, 1);
    RowInMemory(a, n, i, lo, length);
    assert forall k :: lo <= k < lo + length ==> Row(a, i)(k) == a.Value(k, i);
    var dot := DotKernel(length, a.base.data, aV.base.origin, x, lo, Row(a, i));
    MulFacts(beta, y.Get(i));
    MulFacts(alpha, dot);
    var v := y.Get(i) * beta + alpha * dot;
    assert v == Mul(beta, y.Elems()[i]) + Part(Row(a, i), alpha, x.Elems(), lo, lo + length);
    y.Set(i, v);
  }

  /** What row i holds besides an implicit one, and where: from column RowFrom on, RowLength elements. */
  function RowFrom(a: Adaptor, i: int): int
    requires a.Triangular?
  {
    if a.upper then 0 else if a.unit then i + 1 else i
  }
  function RowLength(a: Adaptor, n: int, i: int): int
    requires a.Triangular?
  {
    if !a.upper then n - RowFrom(a, i) else if a.unit then i else i + 1
  }

  lemma RowHalf(a: Adaptor, n: int, i: int)
    requires Square(a, n) && a.Triangular? && 0 <= i < n
    ensures 0 <= RowFrom(a, i) && 0 <= RowLength(a, n, i) && RowFrom(a, i) + RowLength(a, n, i) <= n
    ensures forall k :: RowFrom(a, i) <= k < RowFrom(a, i) + RowLength(a, n, i) ==> a.Physical(k, i)
    ensures a.unit ==> a.Value(i, i) == 1.0
  {
  }

  lemma RowParts(a: Adaptor, n: int, alpha: real, x: seq<real>, i: int)
    requires Square(a, n) && a.Triangular? && |x| == n && 0 <= i < n
    requires 0 <= RowFrom(a, i) && 0 <= RowLength(a, n, i) && RowFrom(a, i) + RowLength(a, n, i) <= n
    ensures var part := Part(Row(a, i), alpha, x, RowFrom(a, i), RowFrom(a, i) + RowLength(a, n, i));
            && Mul(alpha, Dot(Row(a, i), 0, x)) == (if a.unit then Mul(alpha, x[i]) else 0.0) + part
            && (RowLength(a, n, i) == 0 ==> part == 0.0)
  {
    hide Mul, Dot, Part, Adaptor.Value, Adaptor.Physical;
    var f := Row(a, i);
    TriangularRow(a, n, alpha, x, i);
    PartEmpty(f, alpha, x, RowFrom(a, i));
    if a.unit {
      RowHalf(a, n, i);
      MulFacts(Mul(alpha, x[i]), 1.0);
    } else if a.upper {
      PartJoinOne(f, alpha, x, 0, i, i + 1);
      PartEmpty(f, alpha, x, i + 1);
    } else {
      PartJoinOne(f, alpha, x, i, i, n);
      PartEmpty(f, alpha, x, i);
    }
  }

  /** One row: the implicit one first, then the elements beside it, or all of them at once. */
  method SplitRow(a: Adaptor, n: int, i: int, x: Vec, y: Vec, alpha: real, beta: real)
    requires Conform(a, n, x, y) && a.Triangular? && a.base.cntgStep == 1 && 0 <= i < n
    modifies y.data
    ensures y.Elems() == old(y.Elems())[i := Mul(beta, old(y.Elems())[i]) + Mul(alpha, Dot(Row(a, i), 0, x.Elems()))]
    ensures y.Others() == old(y.Others())
  {
    hide Mul, Dot, Part, Row, Adaptor.Value, Adaptor.Physical, Square, Vec.Addr, Vec.Valid;
    var lo, vlen := RowFrom(a, i), RowLength(a, n, i);
    RowHalf(a, n, i);
    ghost var xs, y0 := x.Elems(), y.Elems();
    RowParts(a, n, alpha, xs, i);
    var beta2 := beta;
    if a.unit {
      MulFacts(beta, y.Get(i));
      MulFacts(alpha, x.Get(i));
      var v := beta * y.Get(i) + alpha * a.Value(i, i) * x.Get(i);
      assert v == Mul(beta, y0[i]) + Mul(alpha, xs[i]);
      y.Set(i, v);
      beta2 := 1.0;
      MulFacts(1.0, v);
    }
    ghost var y1 := y.Elems();
    assert y1 == y0[i := y1[i]];
    assert vlen != 0 ==> Mul(beta2, y1[i]) == Mul(beta, y0[i]) + if a.unit then Mul(alpha, xs[i]) else 0.0;
    if vlen != 0 {
      DotExec(a, n, i, lo, vlen, x, y, alpha, beta2);
    }
  }

  /** trmv_vector_split over dot_exec. */
  method TrmvVectorSplit(a: Adaptor, n: int, x: Vec, y: Vec, alpha: real, beta: real)
    requires Conform(a, n, x, y) && a.Triangular? && a.base.cntgStep == 1
    modifies y.data
    ensures Product(a, alpha, beta, x.Elems(), old(y.Elems()), y.Elems())
    ensures y.Others() == old(y.Others())
  {
    hide Mul, Dot, Row, Square, Vec.Addr, Vec.Valid;
    ghost var xs, y0, others := x.Elems(), y.Elems(), y.Others();
    for i := 0 to n
      invariant ProductSoFar(a, alpha, beta, xs, y0, y.Elems(), i)
      invariant y.Others() == others
    {
      SplitRow(a, n, i, x, y, alpha, beta);
    }
  }

  // ---------- one product ----------

  lemma ProductUnique(a: Adaptor, alpha: real, beta: real, x: seq<real>, y0: seq<real>, y: seq<real>, z: seq<real>)
    requires Product(a, alpha, beta, x, y0, y) && Product(a, alpha, beta, x, y0, z)
    ensures y == z
  {
  }

  /** The column walk and the double loop agree on every symmetric or triangular matrix. */
  method ReflectMatchesNaive(a: Adaptor, n: int, x: Vec, y: Vec, z: Vec,
                             alpha: real, beta: real, posCntg: int, posIteration: int)
    requires Conform(a, n, x, y) && Conform(a, n, x, z) && a.base.strdStep == 1
    requires y.data != z.data && y.Elems() == z.Elems()
    modifies y.data, z.data
    ensures y.Elems() == z.Elems()
    ensures Product(a, alpha, Beta(beta, posCntg, posIteration), x.Elems(), old(y.Elems()), y.Elems())
  {
    hide Product, Vec.Addr;
    ghost var xs, y0 := x.Elems(), y.Elems();
    MvReflect(a, n, x, y, alpha, beta, posCntg, posIteration);
    NaiveMv(a, x, z, alpha, beta, posCntg, posIteration);
    ProductUnique(a, alpha, Beta(beta, posCntg, posIteration), xs, y0, y.Elems(), z.Elems());
  }
}
