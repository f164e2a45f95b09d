/**
 * The in-place triangular product, B = alpha * op(A) * B or B = alpha * B * op(A).
 * One method per loop nest of the source. As in the solve, a column of op(A) is
 * either spread over the entries that need it or gathered entry by entry.
 */
module Trmm {
  import opened Sums
  import opened TriangularSystem
  import opened MatrixStore

  /** alpha * op(A) * xs. */
  ghost function Product(t: Tri, alpha: real, xs: seq<real>): (r: seq<real>)
    ensures |r| == t.n
  {
    seq(t.n, i requires 0 <= i < t.n => Mul(alpha, Dot(t.Row(i), 0, xs)))
  }

  // ---------- the states, on one column or row ----------

  /** Rows before k hold alpha times their product with the first k entries of b0. */
  ghost predicate UpperSpread(t: Tri, xs: seq<real>, b0: seq<real>, alpha: real, k: int) {
    && 0 <= k <= t.n == |xs| == |b0|
    && (forall i :: 0 <= i < k ==> xs[i] == Mul(alpha, Dot(t.Row(i), 0, b0[..k])))
    && forall i :: k <= i < t.n ==> xs[i] == b0[i]
  }

  /** Rows after k hold alpha times their product with the entries of b0 after k. */
  ghost predicate LowerSpread(t: Tri, xs: seq<real>, b0: seq<real>, alpha: real, k: int) {
    && -1 <= k < t.n == |xs| == |b0|
    && (forall i :: k < i < t.n ==> xs[i] == Mul(alpha, Dot(t.Row(i), k + 1, b0[k + 1..])))
    && forall i :: 0 <= i <= k ==> xs[i] == b0[i]
  }

  /** Rows from lo to hi - 1 are final, the others untouched. */
  ghost predicate Gathered(t: Tri, xs: seq<real>, b0: seq<real>, alpha: real, lo: int, hi: int) {
    && |xs| == |b0| == t.n
    && forall i :: 0 <= i < t.n ==> xs[i] == if lo <= i < hi then Product(t, alpha, b0)[i] else b0[i]
  }

  /** Rows lo to hi - 1 with temp times column k of op(A) added. */
  ghost function Accumulated(t: Tri, xs: seq<real>, k: int, temp: real, lo: int, hi: int): (r: seq<real>)
    requires 0 <= k < t.n == |xs|
    ensures |r| == t.n
    ensures forall i :: 0 <= i < t.n ==> r[i] == if lo <= i < hi then xs[i] + Mul(t.At(i, k), temp) else xs[i]
  {
    seq(t.n, i requires 0 <= i < t.n => if lo <= i < hi then xs[i] + Mul(t.At(i, k), temp) else xs[i])
  }

  lemma UpperSpreadStep(t: Tri, xs: seq<real>, b0: seq<real>, alpha: real, k: int)
    requires t.OpUpper() && UpperSpread(t, xs, b0, alpha, k) && k < t.n
    ensures var temp := Mul(alpha, xs[k]);
            UpperSpread(t, Accumulated(t, xs, k, temp, 0, k)[k := Mul(t.At(k, k), temp)], b0, alpha, k + 1)
  {
    hide Dot, Mul;
    var temp := Mul(alpha, xs[k]);
    var ys := Accumulated(t, xs, k, temp, 0, k)[k := Mul(t.At(k, k), temp)];
    assert b0[..k + 1] == b0[..k] + [b0[k]];
    DotZero(t.Row(k), 0, b0[..k]);
    forall i | 0 <= i < k + 1
      ensures ys[i] == Mul(alpha, Dot(t.Row(i), 0, b0[..k + 1]))
    {
      DotSnoc(t.Row(i), 0, b0[..k], b0[k]);
      MulDistribute(alpha, Dot(t.Row(i), 0, b0[..k]), Mul(t.At(i, k), b0[k]));
      MulSwap(alpha, t.At(i, k), b0[k]);
      MulFacts(alpha, 0.0);
    }
  }

  lemma LowerSpreadStep(t: Tri, xs: seq<real>, b0: seq<real>, alpha: real, k: int)
    requires !t.OpUpper() && LowerSpread(t, xs, b0, alpha, k) && 0 <= k
    ensures var temp := Mul(alpha, xs[k]);
            LowerSpread(t, Accumulated(t, xs, k, temp, k + 1, t.n)[k := Mul(t.At(k, k), temp)], b0, alpha, k - 1)
  {
    hide Dot, Mul;
    var temp := Mul(alpha, xs[k]);
    var ys := Accumulated(t, xs, k, temp, k + 1, t.n)[k := Mul(t.At(k, k), temp)];
    assert b0[k..] == [b0[k]] + b0[k + 1..];
    DotZero(t.Row(k), k + 1, b0[k + 1..]);
    forall i | k <= i < t.n
      ensures ys[i] == Mul(alpha, Dot(t.Row(i), k, b0[k..]))
    {
      DotCons(t.Row(i), k, b0[k], b0[k + 1..]);
      MulDistribute(alpha, Mul(t.At(i, k), b0[k]), Dot(t.Row(i), k + 1, b0[k + 1..]));
      MulSwap(alpha, t.At(i, k), b0[k]);
      MulFacts(alpha, 0.0);
    }
  }

  lemma LowerSpreadInit(t: Tri, b0: seq<real>, alpha: real)
    requires t.n == |b0|
    ensures LowerSpread(t, b0, b0, alpha, t.n - 1)
  {
  }

  lemma UpperSpreadDone(t: Tri, xs: seq<real>, b0: seq<real>, alpha: real)
    requires UpperSpread(t, xs, b0, alpha, t.n)
    ensures xs == Product(t, alpha, b0)
  {
    hide Dot, Mul;
    assert b0[..t.n] == b0;
  }

  lemma LowerSpreadDone(t: Tri, xs: seq<real>, b0: seq<real>, alpha: real)
    requires LowerSpread(t, xs, b0, alpha, -1)
    ensures xs == Product(t, alpha, b0)
  {
    hide Dot, Mul;
    assert b0[0..] == b0;
  }

  // ---------- left side: one column of B at a time ----------

  lemma AccumulatedWrite(t: Tri, xs: seq<real>, k: int, temp: real, lo: int, i: int)
    requires 0 <= k < t.n == |xs| && 0 <= lo <= i < t.n
    ensures Accumulated(t, xs, k, temp, lo, i + 1)
         == Accumulated(t, xs, k, temp, lo, i)[i := xs[i] + Mul(t.At(i, k), temp)]
  {
    hide Mul;
  }

  /** B(i, j) = B(i, j) + temp * A(i, k) for lo <= i < hi. */
  method Accumulate(t: Tri, b: array2<real>, j: int, k: int, temp: real, lo: int, hi: int)
    requires t.Valid() && !t.trans && t.n == b.Length0 && 0 <= j < b.Length1
    requires 0 <= lo <= hi <= t.n && 0 <= k < t.n
    requires forall i :: lo <= i < hi ==> t.Stored(i, k)
    modifies b
    ensures forall c :: 0 <= c < b.Length1 && c != j ==> Column(b, c) == old(Column(b, c))
    ensures Column(b, j) == Accumulated(t, old(Column(b, j)), k, temp, lo, hi)
  {
    hide Mul;
    ghost var xs := Column(b, j);
    for i := lo to hi
      invariant forall c :: 0 <= c < b.Length1 && c != j ==> Column(b, c) == old(Column(b, c))
      invariant Column(b, j) == Accumulated(t, xs, k, temp, lo, i)
    {
      assert b[i, j] == Column(b, j)[i] == xs[i] && t.Stored(i, k);
      FlipAt(t, i, k);
      MulFacts(t.a(i, k), temp);
      AccumulatedWrite(t, xs, k, temp, lo, i);
      var v := b[i, j] + temp * t.a(i, k);
      assert v == xs[i] + Mul(t.At(i, k), temp);
      Write(b, i, j, v);
    }
  }

  /** if(nounit) temp = temp * A(k, k); */
  method TimesDiagonal(t: Tri, k: int, start: real) returns (temp: real)
    requires t.Valid() && 0 <= k < t.n
    ensures temp == Mul(t.At(k, k), start)
  {
    hide Mul;
    temp := start;
    MulFacts(1.0, start);
    if !t.unit {
      FlipAt(t, k, k);
      MulFacts(t.a(k, k), start);
      temp := temp * t.a(k, k);
    }
  }

  /** Left, no transpose, upper. */
  method LeftNoTransUpper(t: Tri, b: array2<real>, j: int, alpha: real)
    requires t.Valid() && t.upper && !t.trans && t.n == b.Length0 && 0 <= j < b.Length1
    modifies b
    ensures forall c :: 0 <= c < b.Length1 && c != j ==> Column(b, c) == old(Column(b, c))
    ensures Column(b, j) == Product(t, alpha, old(Column(b, j)))
  {
    hide Dot, Mul, Accumulated, Product;
    ghost var b0 := Column(b, j);
    for k := 0 to t.n
      invariant UpperSpread(t, Column(b, j), b0, alpha, k)
      invariant forall c :: 0 <= c < b.Length1 && c != j ==> Column(b, c) == old(Column(b, c))
    {
      ghost var xs := Column(b, j);
      UpperSpreadStep(t, xs, b0, alpha, k);
      MulFacts(alpha, b[k, j]);
      var temp := alpha * b[k, j];
      assert temp == Mul(alpha, xs[k]);
      Accumulate(t, b, j, k, temp, 0, k);
      temp := TimesDiagonal(t, k, temp);
      Write(b, k, j, temp);
    }
    UpperSpreadDone(t, Column(b, j), b0, alpha);
  }

  /** Writing the diagonal entry before or after the entries below it is the same. */
  lemma AccumulatedPivot(t: Tri, xs: seq<real>, k: int, temp: real, diag: real)
    requires 0 <= k < t.n == |xs|
    ensures Accumulated(t, xs[k := diag], k, temp, k + 1, t.n) == Accumulated(t, xs, k, temp, k + 1, t.n)[k := diag]
  {
    hide Mul;
  }

  /** temp = alpha * B(k, j) replaces B(k, j), which the diagonal then multiplies. */
  method ScaleEntry(t: Tri, b: array2<real>, k: int, j: int, alpha: real) returns (temp: real)
    requires t.Valid() && t.n == b.Length0 && 0 <= k < t.n && 0 <= j < b.Length1
    modifies b
    ensures temp == Mul(alpha, old(Column(b, j))[k]) && b[k, j] == Mul(t.At(k, k), temp)
    ensures Column(b, j) == old(Column(b, j))[k := b[k, j]]
    ensures forall c :: 0 <= c < b.Length1 && c != j ==> Column(b, c) == old(Column(b, c))
  {
    hide Mul;
    MulFacts(alpha, b[k, j]);
    temp := alpha * b[k, j];
    Write(b, k, j, temp);
    var diag := TimesDiagonal(t, k, b[k, j]);
    Write(b, k, j, diag);
  }

  /** Left, no transpose, lower. */
  method LeftNoTransLower(t: Tri, b: array2<real>, j: int, alpha: real)
    requires t.Valid() && !t.upper && !t.trans && t.n == b.Length0 && 0 <= j < b.Length1
    modifies b
    ensures forall c :: 0 <= c < b.Length1 && c != j ==> Column(b, c) == old(Column(b, c))
    ensures Column(b, j) == Product(t, alpha, old(Column(b, j)))
  {
    LowerSpreadInit(t, Column(b, j), alpha);
    hide Dot, Mul, Product, Accumulated, LowerSpread;
    ghost var b0 := Column(b, j);
    var k := t.n - 1;
    while k >= 0
      invariant -1 <= k < t.n
      invariant LowerSpread(t, Column(b, j), b0, alpha, k)
      invariant forall c :: 0 <= c < b.Length1 && c != j ==> Column(b, c) == old(Column(b, c))
    {
      ghost var xs := Column(b, j);
      LowerSpreadStep(t, xs, b0, alpha, k);
      var temp := ScaleEntry(t, b, k, j, alpha);
      AccumulatedPivot(t, xs, k, temp, b[k, j]);
      Accumulate(t, b, j, k, temp, k + 1, t.n);
      k := k - 1;
    }
    LowerSpreadDone(t, Column(b, j), b0, alpha);
  }

  /** Entry i of op(A) * B(:, j) from its diagonal and the entries lo <= k < hi. */
  method GatherEntry(t: Tri, b: array2<real>, j: int, i: int, lo: int, hi: int) returns (temp: real)
    requires t.Valid() && t.trans && t.n == b.Length0 && 0 <= j < b.Length1
    requires 0 <= lo <= hi <= t.n && 0 <= i < t.n
    requires forall k :: lo <= k < hi ==> t.Stored(k, i)
    ensures temp == Mul(t.At(i, i), b[i, j]) + Dot(t.Row(i), lo, Column(b, j)[lo..hi])
  {
    hide Dot, Mul;
    ghost var xs := Column(b, j);
    temp := TimesDiagonal(t, i, b[i, j]);
    assert Dot(t.Row(i), lo, xs[lo..lo]) == 0.0 by { DotZero(t.Row(i), lo, xs[lo..lo]); }
    for k := lo to hi
      invariant temp == Mul(t.At(i, i), b[i, j]) + Dot(t.Row(i), lo, xs[lo..k])
    {
      DotSnoc(t.Row(i), lo, xs[lo..k], xs[k]);
      assert xs[lo..k + 1] == xs[lo..k] + [xs[k]];
      assert t.Stored(k, i);
      FlipAt(t, k, i);
      MulFacts(t.a(k, i), b[k, j]);
      assert t.Row(i)(k) == t.a(k, i) && xs[k] == b[k, j];
      temp := temp + t.a(k, i) * b[k, j];
    }
  }

  lemma GatherHead(t: Tri, xs: seq<real>, i: int)
    requires 0 <= i < t.n == |xs| && !t.OpUpper()
    ensures Dot(t.Row(i), 0, xs) == Mul(t.At(i, i), xs[i]) + Dot(t.Row(i), 0, xs[..i])
  {
    hide Dot, Mul;
    RowHead(t, i, xs);
    DotSnoc(t.Row(i), 0, xs[..i], xs[i]);
    assert xs[..i + 1] == xs[..i] + [xs[i]];
  }

  lemma GatherTail(t: Tri, xs: seq<real>, i: int)
    requires 0 <= i < t.n == |xs| && t.OpUpper()
    ensures Dot(t.Row(i), 0, xs) == Mul(t.At(i, i), xs[i]) + Dot(t.Row(i), i + 1, xs[i + 1..])
  {
    hide Dot, Mul;
    RowTail(t, i, xs);
    DotCons(t.Row(i), i, xs[i], xs[i + 1..]);
    assert xs[i..] == [xs[i]] + xs[i + 1..];
  }

  /** The sum GatherEntry forms only needs entries that are still untouched. */
  lemma GatheredHead(t: Tri, xs: seq<real>, b0: seq<real>, alpha: real, i: int)
    requires 0 <= i < t.n && !t.OpUpper() && Gathered(t, xs, b0, alpha, i + 1, t.n)
    ensures Product(t, alpha, b0)[i] == Mul(alpha, Mul(t.At(i, i), xs[i]) + Dot(t.Row(i), 0, xs[0..i]))
  {
    hide Dot, Mul;
    GatherHead(t, b0, i);
    assert xs[0..i] == b0[..i];
  }

  lemma GatheredTail(t: Tri, xs: seq<real>, b0: seq<real>, alpha: real, i: int)
    requires 0 <= i < t.n && t.OpUpper() && Gathered(t, xs, b0, alpha, 0, i)
    ensures Product(t, alpha, b0)[i] == Mul(alpha, Mul(t.At(i, i), xs[i]) + Dot(t.Row(i), i + 1, xs[i + 1..t.n]))
  {
    hide Dot, Mul;
    GatherTail(t, b0, i);
    assert xs[i + 1..t.n] == b0[i + 1..];
  }

  /** Left, transpose, upper. */
  method LeftTransUpper(t: Tri, b: array2<real>, j: int, alpha: real)
    requires t.Valid() && t.upper && t.trans && t.n == b.Length0 && 0 <= j < b.Length1
    modifies b
    ensures forall c :: 0 <= c < b.Length1 && c != j ==> Column(b, c) == old(Column(b, c))
    ensures Column(b, j) == Product(t, alpha, old(Column(b, j)))
  {
    hide Dot, Mul, Product;
    ghost var b0 := Column(b, j);
    var i := t.n - 1;
    while i >= 0
      invariant -1 <= i < t.n
      invariant Gathered(t, Column(b, j), b0, alpha, i + 1, t.n)
      invariant forall c :: 0 <= c < b.Length1 && c != j ==> Column(b, c) == old(Column(b, c))
    {
      GatheredHead(t, Column(b, j), b0, alpha, i);
      var temp := GatherEntry(t, b, j, i, 0, i);
      MulFacts(alpha, temp);
      Write(b, i, j, alpha * temp);
      i := i - 1;
    }
    assert Column(b, j) == Product(t, alpha, b0);
  }

  /** Left, transpose, lower. */
  method LeftTransLower(t: Tri, b: array2<real>, j: int, alpha: real)
    requires t.Valid() && !t.upper && t.trans && t.n == b.Length0 && 0 <= j < b.Length1
    modifies b
    ensures forall c :: 0 <= c < b.Length1 && c != j ==> Column(b, c) == old(Column(b, c))
    ensures Column(b, j) == Product(t, alpha, old(Column(b, j)))
  {
    hide Dot, Mul, Product;
    ghost var b0 := Column(b, j);
    for i := 0 to t.n
      invariant Gathered(t, Column(b, j), b0, alpha, 0, i)
      invariant forall c :: 0 <= c < b.Length1 && c != j ==> Column(b, c) == old(Column(b, c))
    {
      GatheredTail(t, Column(b, j), b0, alpha, i);
      var temp := GatherEntry(t, b, j, i, i + 1, t.n);
      MulFacts(alpha, temp);
      Write(b, i, j, alpha * temp);
    }
    assert Column(b, j) == Product(t, alpha, b0);
  }

  // ---------- right side: every row of B at once, column by column ----------

  /** A column scaled by alpha and, unless the diagonal is unit, by A(k, k). */
  method ScaleByDiagonal(t: Tri, b: array2<real>, k: int, alpha: real)
    requires t.Valid() && t.n == b.Length1 && 0 <= k < t.n
    modifies b
    ensures forall i :: 0 <= i < b.Length0 ==>
              RowOf(b, i) == old(RowOf(b, i))[k := Mul(t.At(k, k), Mul(alpha, old(RowOf(b, i))[k]))]
  {
    hide Mul;
    var temp := TimesDiagonal(t, k, alpha);
    ScaleColumn(b, k, temp);
    forall i | 0 <= i < b.Length0
      ensures Mul(temp, old(b[i, k])) == Mul(t.At(k, k), Mul(alpha, old(b[i, k])))
    {
      MulSwap(t.At(k, k), alpha, old(b[i, k]));
    }
  }

  /** Entry j of a row as it is gathered: its diagonal term and entries lo to k - 1. */
  ghost function GatheredRow(t: Tri, row: seq<real>, j: int, lo: int, k: int, alpha: real): seq<real>
    requires 0 <= j < t.n == |row| && 0 <= lo <= k <= t.n
  {
    row[j := Mul(alpha, Mul(t.At(j, j), row[j]) + Dot(t.Row(j), lo, row[lo..k]))]
  }

  lemma GatheredRowInit(t: Tri, row: seq<real>, j: int, lo: int, alpha: real)
    requires 0 <= j < t.n == |row| && 0 <= lo <= t.n
    ensures GatheredRow(t, row, j, lo, lo, alpha) == row[j := Mul(t.At(j, j), Mul(alpha, row[j]))]
  {
    hide Dot, Mul;
    DotZero(t.Row(j), lo, row[lo..lo]);
    MulSwap(alpha, t.At(j, j), row[j]);
  }

  lemma GatheredRowStep(t: Tri, row: seq<real>, j: int, lo: int, k: int, alpha: real, temp: real)
    requires 0 <= j < t.n == |row| && 0 <= lo <= k < t.n && k != j && temp == Mul(alpha, t.At(j, k))
    ensures GatheredRow(t, row, j, lo, k + 1, alpha) == AddedAt(GatheredRow(t, row, j, lo, k, alpha), j, temp, k)
  {
    hide Dot, Mul;
    DotSnoc(t.Row(j), lo, row[lo..k], row[k]);
    assert row[lo..k + 1] == row[lo..k] + [row[k]];
    var sum, term := Mul(t.At(j, j), row[j]) + Dot(t.Row(j), lo, row[lo..k]), Mul(t.At(j, k), row[k]);
    MulDistribute(alpha, sum, term);
    MulSwap(alpha, t.At(j, k), row[k]);
    assert GatheredRow(t, row, j, lo, k + 1, alpha)[j] == Mul(alpha, sum + term);
  }

  /** Column j becomes alpha times (its diagonal term plus A(k, j) * B(:, k) over lo <= k < hi). */
  method GatherColumn(t: Tri, b: array2<real>, j: int, lo: int, hi: int, alpha: real)
    requires t.Valid() && !t.trans && t.n == b.Length1
    requires 0 <= lo <= hi <= t.n && 0 <= j < t.n && !(lo <= j < hi)
    requires forall k :: lo <= k < hi ==> t.Stored(k, j)
    modifies b
    ensures forall i :: 0 <= i < b.Length0 ==>
              RowOf(b, i) == GatheredRow(t.Flip(), old(RowOf(b, i)), j, lo, hi, alpha)
  {
    hide GatheredRow, AddedAt, Dot, Mul;
    ghost var t', rows := t.Flip(), Rows(b);
    ScaleByDiagonal(t, b, j, alpha);
    FlipAt(t, j, j);
    forall i | 0 <= i < b.Length0
      ensures RowOf(b, i) == GatheredRow(t', rows[i], j, lo, lo, alpha)
    {
      GatheredRowInit(t', rows[i], j, lo, alpha);
    }
    for k := lo to hi
      invariant forall i :: 0 <= i < b.Length0 ==> RowOf(b, i) == GatheredRow(t', rows[i], j, lo, k, alpha)
    {
      assert t.Stored(k, j);
      FlipAt(t, k, j);
      FlipAt(t, j, k);
      MulFacts(alpha, t.a(k, j));
      var temp := alpha * t.a(k, j);
      forall i | 0 <= i < b.Length0
        ensures GatheredRow(t', rows[i], j, lo, k + 1, alpha) == AddedAt(RowOf(b, i), j, temp, k)
      {
        GatheredRowStep(t', rows[i], j, lo, k, alpha, temp);
      }
      AddColumn(b, j, temp, k);
    }
  }

  lemma GatheredRowHead(t: Tri, row: seq<real>, b0: seq<real>, alpha: real, j: int)
    requires 0 <= j < t.n && !t.OpUpper() && Gathered(t, row, b0, alpha, j + 1, t.n)
    ensures Gathered(t, GatheredRow(t, row, j, 0, j, alpha), b0, alpha, j, t.n)
  {
    hide Dot, Mul, Product;
    GatheredHead(t, row, b0, alpha, j);
  }

  lemma GatheredRowTail(t: Tri, row: seq<real>, b0: seq<real>, alpha: real, j: int)
    requires 0 <= j < t.n && t.OpUpper() && Gathered(t, row, b0, alpha, 0, j)
    ensures Gathered(t, GatheredRow(t, row, j, j + 1, t.n, alpha), b0, alpha, 0, j + 1)
  {
    hide Dot, Mul, Product;
    GatheredTail(t, row, b0, alpha, j);
  }

  /** Right, no transpose, upper. */
  method RightNoTransUpper(t: Tri, b: array2<real>, alpha: real)
    requires t.Valid() && t.upper && !t.trans && t.n == b.Length1
    modifies b
    ensures forall i :: 0 <= i < b.Length0 ==> RowOf(b, i) == Product(t.Flip(), alpha, old(RowOf(b, i)))
  {
    hide GatheredRow, Dot, Mul, Product;
    ghost var t', rows := t.Flip(), Rows(b);
    var j := t.n - 1;
    while j >= 0
      invariant -1 <= j < t.n
      invariant forall i :: 0 <= i < b.Length0 ==> Gathered(t', RowOf(b, i), rows[i], alpha, j + 1, t.n)
    {
      forall i | 0 <= i < b.Length0
        ensures Gathered(t', GatheredRow(t', RowOf(b, i), j, 0, j, alpha), rows[i], alpha, j, t.n)
      {
        GatheredRowHead(t', RowOf(b, i), rows[i], alpha, j);
      }
      GatherColumn(t, b, j, 0, j, alpha);
      j := j - 1;
    }
    assert forall i :: 0 <= i < b.Length0 ==> RowOf(b, i) == Product(t', alpha, rows[i]);
  }

  /** Right, no transpose, lower. */
  method RightNoTransLower(t: Tri, b: array2<real>, alpha: real)
    requires t.Valid() && !t.upper && !t.trans && t.n == b.Length1
    modifies b
    ensures forall i :: 0 <= i < b.Length0 ==> RowOf(b, i) == Product(t.Flip(), alpha, old(RowOf(b, i)))
  {
    hide GatheredRow, Dot, Mul, Product;
    ghost var t', rows := t.Flip(), Rows(b);
    for j := 0 to t.n
      invariant forall i :: 0 <= i < b.Length0 ==> Gathered(t', RowOf(b, i), rows[i], alpha, 0, j)
    {
      forall i | 0 <= i < b.Length0
        ensures Gathered(t', GatheredRow(t', RowOf(b, i), j, j + 1, t.n, alpha), rows[i], alpha, 0, j + 1)
      {
        GatheredRowTail(t', RowOf(b, i), rows[i], alpha, j);
      }
      GatherColumn(t, b, j, j + 1, t.n, alpha);
    }
    assert forall i :: 0 <= i < b.Length0 ==> RowOf(b, i) == Product(t', alpha, rows[i]);
  }

  lemma AccumulatedStep(t: Tri, xs: seq<real>, k: int, alpha: real, lo: int, j: int, temp: real)
    requires 0 <= k < t.n == |xs| && 0 <= lo <= j < t.n && j != k && !(lo <= k < j)
    requires temp == Mul(alpha, t.At(j, k))
    ensures Accumulated(t, xs, k, Mul(alpha, xs[k]), lo, j + 1)
         == AddedAt(Accumulated(t, xs, k, Mul(alpha, xs[k]), lo, j), j, temp, k)
  {
    hide Mul;
    MulSwap(alpha, t.At(j, k), xs[k]);
  }

  /** alpha * A(j, k) * B(:, k) is added to columns lo to hi - 1, then column k is scaled. */
  method SpreadColumn(t: Tri, b: array2<real>, k: int, lo: int, hi: int, alpha: real)
    requires t.Valid() && t.trans && t.n == b.Length1
    requires 0 <= lo <= hi <= t.n && 0 <= k < t.n && !(lo <= k < hi)
    requires forall j :: lo <= j < hi ==> t.Stored(j, k)
    modifies b
    ensures forall i :: 0 <= i < b.Length0 ==>
              var temp := Mul(alpha, old(RowOf(b, i))[k]);
              RowOf(b, i) == Accumulated(t.Flip(), old(RowOf(b, i)), k, temp, lo, hi)
                               [k := Mul(t.Flip().At(k, k), temp)]
  {
    hide AddedAt, Mul;
    ghost var t', rows := t.Flip(), Rows(b);
    for j := lo to hi
      invariant forall i :: 0 <= i < b.Length0 ==>
                  RowOf(b, i) == Accumulated(t', rows[i], k, Mul(alpha, rows[i][k]), lo, j)
    {
      assert t.Stored(j, k);
      FlipAt(t, j, k);
      MulFacts(alpha, t.a(j, k));
      var temp := alpha * t.a(j, k);
      forall i | 0 <= i < b.Length0
        ensures Accumulated(t', rows[i], k, Mul(alpha, rows[i][k]), lo, j + 1) == AddedAt(RowOf(b, i), j, temp, k)
      {
        AccumulatedStep(t', rows[i], k, alpha, lo, j, temp);
      }
      AddColumn(b, j, temp, k);
    }
    FlipAt(t, k, k);
    ScaleByDiagonal(t, b, k, alpha);
  }

  /** Right, transpose, upper. */
  method RightTransUpper(t: Tri, b: array2<real>, alpha: real)
    requires t.Valid() && t.upper && t.trans && t.n == b.Length1
    modifies b
    ensures forall i :: 0 <= i < b.Length0 ==> RowOf(b, i) == Product(t.Flip(), alpha, old(RowOf(b, i)))
  {
    hide Accumulated, Dot, Mul, Product;
    ghost var t', rows := t.Flip(), Rows(b);
    for k := 0 to t.n
      invariant forall i :: 0 <= i < b.Length0 ==> UpperSpread(t', RowOf(b, i), rows[i], alpha, k)
    {
      ghost var was := Rows(b);
      SpreadColumn(t, b, k, 0, k, alpha);
      forall i | 0 <= i < b.Length0
        ensures UpperSpread(t', RowOf(b, i), rows[i], alpha, k + 1)
      {
        UpperSpreadStep(t', was[i], rows[i], alpha, k);
      }
    }
    forall i | 0 <= i < b.Length0
      ensures RowOf(b, i) == Product(t', alpha, rows[i])
    {
      UpperSpreadDone(t', RowOf(b, i), rows[i], alpha);
    }
  }

  /** Right, transpose, lower. */
  method RightTransLower(t: Tri, b: array2<real>, alpha: real)
    requires t.Valid() && !t.upper && t.trans && t.n == b.Length1
    modifies b
    ensures forall i :: 0 <= i < b.Length0 ==> RowOf(b, i) == Product(t.Flip(), alpha, old(RowOf(b, i)))
  {
    hide Accumulated, Dot, Mul, Product;
    ghost var t', rows := t.Flip(), Rows(b);
    var k := t.n - 1;
    while k >= 0
      invariant -1 <= k < t.n
      invariant forall i :: 0 <= i < b.Length0 ==> LowerSpread(t', RowOf(b, i), rows[i], alpha, k)
    {
      ghost var was := Rows(b);
      SpreadColumn(t, b, k, k + 1, t.n, alpha);
      forall i | 0 <= i < b.Length0
        ensures LowerSpread(t', RowOf(b, i), rows[i], alpha, k - 1)
      {
        LowerSpreadStep(t', was[i], rows[i], alpha, k);
      }
      k := k - 1;
    }
    forall i | 0 <= i < b.Length0
      ensures RowOf(b, i) == Product(t', alpha, rows[i])
    {
      LowerSpreadDone(t', RowOf(b, i), rows[i], alpha);
    }
  }

  // ---------- the operator ----------

  /** naive_trmm, the branches of one column of the left side. */
  method MultiplyColumn(t: Tri, b: array2<real>, j: int, alpha: real)
    requires t.Valid() && t.n == b.Length0 && 0 <= j < b.Length1
    modifies b
    ensures forall c :: 0 <= c < b.Length1 && c != j ==> Column(b, c) == old(Column(b, c))
    ensures Column(b, j) == Product(t, alpha, old(Column(b, j)))
  {
    if !t.trans {
      if t.upper {
        LeftNoTransUpper(t, b, j, alpha);
      } else {
        LeftNoTransLower(t, b, j, alpha);
      }
    } else if t.upper {
      LeftTransUpper(t, b, j, alpha);
    } else {
      LeftTransLower(t, b, j, alpha);
    }
  }

  /** naive_trmm: B becomes alpha * op(A) * B, or alpha * B * op(A) on the right. */
  method NaiveTrmm(left: bool, t: Tri, b: array2<real>, alpha: real)
    requires t.Valid() && t.n == if left then b.Length0 else b.Length1
    modifies b
    ensures left ==> forall j :: 0 <= j < b.Length1 ==> Column(b, j) == Product(t, alpha, old(Column(b, j)))
    ensures !left ==> forall i :: 0 <= i < b.Length0 ==>
              RowOf(b, i) == Product(t.Flip(), alpha, old(RowOf(b, i)))
  {
    hide Product;
    if left {
      for j := 0 to b.Length1
        invariant forall c :: 0 <= c < j ==> Column(b, c) == Product(t, alpha, old(Column(b, c)))
        invariant forall c :: j <= c < b.Length1 ==> Column(b, c) == old(Column(b, c))
      {
        MultiplyColumn(t, b, j, alpha);
      }
    } else if !t.trans {
      if t.upper {
        RightNoTransUpper(t, b, alpha);
      } else {
        RightNoTransLower(t, b, alpha);
      }
    } else if t.upper {
      RightTransUpper(t, b, alpha);
    } else {
      RightTransLower(t, b, alpha);
    }
  }
}
