/**
 * The in-place triangular solve with many right-hand sides, op(A) * X = alpha * B
 * or X * op(A) = alpha * B. One method per loop nest of the source.
 *
 * A solve walks through one of four states, according to whether op(A) is upper or
 * lower and whether a found unknown is eliminated from the rest at once (Eliminated)
 * or only when the rest needs it (Gathered).
 */
module Trsm {
  import opened Sums
  import opened TriangularSystem
  import opened MatrixStore

  // ---------- the four states, on one right-hand side ----------

  /** Unknowns after k are final and have been subtracted from every row up to k. */
  ghost predicate UpperEliminated(t: Tri, xs: seq<real>, rhs: seq<real>, k: int) {
    && -1 <= k < t.n == |xs| == |rhs|
    && (forall i :: 0 <= i <= k ==> xs[i] == rhs[i] - Dot(t.Row(i), k + 1, xs[k + 1..]))
    && forall i :: k < i < t.n ==> Dot(t.Row(i), k + 1, xs[k + 1..]) == rhs[i]
  }

  /** Unknowns before k are final and have been subtracted from every row from k. */
  ghost predicate LowerEliminated(t: Tri, xs: seq<real>, rhs: seq<real>, k: int) {
    && 0 <= k <= t.n == |xs| == |rhs|
    && (forall i :: k <= i < t.n ==> xs[i] == rhs[i] - Dot(t.Row(i), 0, xs[..k]))
    && forall i :: 0 <= i < k ==> Dot(t.Row(i), 0, xs[..k]) == rhs[i]
  }

  /** Unknowns after k are final; rows up to k still hold B, which alpha has not touched. */
  ghost predicate UpperGathered(t: Tri, xs: seq<real>, b0: seq<real>, alpha: real, k: int) {
    && -1 <= k < t.n == |xs| == |b0|
    && xs[..k + 1] == b0[..k + 1]
    && forall i :: k < i < t.n ==> Dot(t.Row(i), k + 1, xs[k + 1..]) == Mul(alpha, b0[i])
  }

  /** Unknowns before k are final; rows from k still hold B, which alpha has not touched. */
  ghost predicate LowerGathered(t: Tri, xs: seq<real>, b0: seq<real>, alpha: real, k: int) {
    && 0 <= k <= t.n == |xs| == |b0|
    && xs[k..] == b0[k..]
    && forall i :: 0 <= i < k ==> Dot(t.Row(i), 0, xs[..k]) == Mul(alpha, b0[i])
  }

  /** Rows lo to hi - 1 with their share of unknown k subtracted. */
  ghost function Eliminated(t: Tri, xs: seq<real>, k: int, lo: int, hi: int): (r: seq<real>)
    requires 0 <= k < t.n == |xs|
    ensures |r| == t.n
    ensures forall i :: 0 <= i < t.n ==> r[i] == if lo <= i < hi then xs[i] - Mul(t.At(i, k), xs[k]) else xs[i]
  {
    seq(t.n, i requires 0 <= i < t.n => if lo <= i < hi then xs[i] - Mul(t.At(i, k), xs[k]) else xs[i])
  }

  lemma UpperEliminateStep(t: Tri, xs: seq<real>, rhs: seq<real>, k: int, v: real)
    requires t.OpUpper() && UpperEliminated(t, xs, rhs, k) && 0 <= k && Mul(t.At(k, k), v) == xs[k]
    ensures UpperEliminated(t, Eliminated(t, xs[k := v], k, 0, k), rhs, k - 1)
  {
    hide Dot, Mul;
    var ys := Eliminated(t, xs[k := v], k, 0, k);
    assert ys[k..] == [v] + xs[k + 1..];
    forall i | 0 <= i < t.n
      ensures i < k ==> ys[i] == rhs[i] - Dot(t.Row(i), k, ys[k..])
      ensures i >= k ==> Dot(t.Row(i), k, ys[k..]) == rhs[i]
    {
      DotCons(t.Row(i), k, v, xs[k + 1..]);
      MulFacts(t.At(i, k), v);
    }
  }

  lemma LowerEliminateStep(t: Tri, xs: seq<real>, rhs: seq<real>, k: int, v: real)
    requires !t.OpUpper() && LowerEliminated(t, xs, rhs, k) && k < t.n && Mul(t.At(k, k), v) == xs[k]
    ensures LowerEliminated(t, Eliminated(t, xs[k := v], k, k + 1, t.n), rhs, k + 1)
  {
    hide Dot, Mul;
    var ys := Eliminated(t, xs[k := v], k, k + 1, t.n);
    assert ys[..k + 1] == xs[..k] + [v];
    forall i | 0 <= i < t.n
      ensures i > k ==> ys[i] == rhs[i] - Dot(t.Row(i), 0, ys[..k + 1])
      ensures i <= k ==> Dot(t.Row(i), 0, ys[..k + 1]) == rhs[i]
    {
      DotSnoc(t.Row(i), 0, xs[..k], v);
      MulFacts(t.At(i, k), v);
    }
  }

  lemma UpperGatherStep(t: Tri, xs: seq<real>, b0: seq<real>, alpha: real, k: int, v: real)
    requires t.OpUpper() && UpperGathered(t, xs, b0, alpha, k) && 0 <= k
    requires Mul(t.At(k, k), v) == Mul(alpha, b0[k]) - Dot(t.Row(k), k + 1, xs[k + 1..])
    ensures UpperGathered(t, xs[k := v], b0, alpha, k - 1)
  {
    hide Dot, Mul;
    assert xs[k := v][k..] == [v] + xs[k + 1..];
    assert xs[k := v][..k] == xs[..k + 1][..k] == b0[..k + 1][..k] == b0[..k];
    forall i | k <= i < t.n
      ensures Dot(t.Row(i), k, xs[k := v][k..]) == Mul(alpha, b0[i])
    {
      DotCons(t.Row(i), k, v, xs[k + 1..]);
      assert i > k ==> t.At(i, k) == 0.0;
      MulFacts(t.At(i, k), v);
    }
  }

  lemma LowerGatherStep(t: Tri, xs: seq<real>, b0: seq<real>, alpha: real, k: int, v: real)
    requires !t.OpUpper() && LowerGathered(t, xs, b0, alpha, k) && k < t.n
    requires Mul(t.At(k, k), v) == Mul(alpha, b0[k]) - Dot(t.Row(k), 0, xs[..k])
    ensures LowerGathered(t, xs[k := v], b0, alpha, k + 1)
  {
    hide Dot, Mul;
    assert xs[k := v][..k + 1] == xs[..k] + [v];
    assert xs[k := v][k + 1..] == xs[k..][1..] == b0[k..][1..] == b0[k + 1..];
    forall i | 0 <= i < k + 1
      ensures Dot(t.Row(i), 0, xs[k := v][..k + 1]) == Mul(alpha, b0[i])
    {
      DotSnoc(t.Row(i), 0, xs[..k], v);
      assert i < k ==> t.At(i, k) == 0.0;
      MulFacts(t.At(i, k), v);
    }
  }

  // ---------- where each walk starts and ends ----------

  lemma EliminatedInit(t: Tri, rhs: seq<real>)
    requires t.n == |rhs|
    ensures UpperEliminated(t, rhs, rhs, t.n - 1) && LowerEliminated(t, rhs, rhs, 0)
  {
    hide Mul;
  }

  lemma UpperEliminatedDone(t: Tri, xs: seq<real>, rhs: seq<real>)
    requires UpperEliminated(t, xs, rhs, -1)
    ensures Solves(t, xs, rhs)
  {
    hide Dot, Mul;
    assert xs[0..] == xs;
  }

  lemma LowerEliminatedDone(t: Tri, xs: seq<real>, rhs: seq<real>)
    requires LowerEliminated(t, xs, rhs, t.n)
    ensures Solves(t, xs, rhs)
  {
    hide Dot, Mul;
    assert xs[..t.n] == xs;
  }

  lemma UpperGatheredDone(t: Tri, xs: seq<real>, b0: seq<real>, alpha: real)
    requires UpperGathered(t, xs, b0, alpha, -1)
    ensures Solves(t, xs, Scaled(alpha, b0))
  {
    hide Dot, Mul;
    assert xs[0..] == xs;
  }

  lemma LowerGatheredDone(t: Tri, xs: seq<real>, b0: seq<real>, alpha: real)
    requires LowerGathered(t, xs, b0, alpha, t.n)
    ensures Solves(t, xs, Scaled(alpha, b0))
  {
    hide Dot, Mul;
    assert xs[..t.n] == xs;
  }

  // ---------- left side: one column of B at a time ----------

  lemma EliminatedWrite(t: Tri, xs: seq<real>, k: int, lo: int, i: int)
    requires 0 <= k < t.n == |xs| && 0 <= lo <= i < t.n && i != k
    ensures Eliminated(t, xs, k, lo, i + 1) == Eliminated(t, xs, k, lo, i)[i := xs[i] - Mul(t.At(i, k), xs[k])]
  {
    hide Mul;
  }

  /** B(i, j) = B(i, j) - B(k, j) * A(i, k) for lo <= i < hi. */
  method Eliminate(t: Tri, b: array2<real>, j: int, k: int, lo: int, hi: int)
    requires t.Valid() && !t.trans && t.n == b.Length0 && 0 <= j < b.Length1
    requires 0 <= lo <= hi <= t.n && 0 <= k < t.n && !(lo <= k < hi)
    requires forall i :: lo <= i < hi ==> t.Stored(i, k)
    modifies b
    ensures forall c :: 0 <= c < b.Length1 && c != j ==> Column(b, c) == old(Column(b, c))
    ensures Column(b, j) == Eliminated(t, old(Column(b, j)), k, lo, hi)
  {
    hide Mul;
    ghost var xs := Column(b, j);
    for i := lo to hi
      invariant forall c :: 0 <= c < b.Length1 && c != j ==> Column(b, c) == old(Column(b, c))
      invariant Column(b, j) == Eliminated(t, xs, k, lo, i)
    {
      assert b[k, j] == Column(b, j)[k] == xs[k] && b[i, j] == Column(b, j)[i] == xs[i] && t.Stored(i, k);
      FlipAt(t, i, k);
      MulFacts(t.a(i, k), b[k, j]);
      EliminatedWrite(t, xs, k, lo, i);
      var v := b[i, j] - b[k, j] * t.a(i, k);
      assert v == xs[i] - Mul(t.At(i, k), xs[k]);
      Write(b, i, j, v);
    }
  }

  /** if(nounit) B(k, j) = B(k, j) / A(k, k); */
  method DivideByDiagonal(t: Tri, b: array2<real>, k: int, j: int)
    requires t.Valid() && t.Regular() && t.n == b.Length0 && 0 <= k < t.n && 0 <= j < b.Length1
    modifies b
    ensures forall c :: 0 <= c < b.Length1 && c != j ==> Column(b, c) == old(Column(b, c))
    ensures Column(b, j) == old(Column(b, j))[k := b[k, j]] && Mul(t.At(k, k), b[k, j]) == old(b[k, j])
  {
    hide Mul;
    MulFacts(1.0, b[k, j]);
    if !t.unit {
      assert t.Elem(k, k) != 0.0;
      MulDivide(t.a(k, k), b[k, j]);
      Write(b, k, j, b[k, j] / t.a(k, k));
    }
  }

  /** Left, no transpose, upper: back substitution that updates the rows above. */
  method LeftNoTransUpper(t: Tri, b: array2<real>, j: int)
    requires t.Valid() && t.Regular() && t.upper && !t.trans
    requires t.n == b.Length0 && 0 <= j < b.Length1
    modifies b
    ensures forall c :: 0 <= c < b.Length1 && c != j ==> Column(b, c) == old(Column(b, c))
    ensures Solves(t, Column(b, j), old(Column(b, j)))
  {
    ghost var rhs := Column(b, j);
    hide UpperEliminated, Eliminated, Dot, Mul;
    EliminatedInit(t, rhs);
    var k := t.n - 1;
    while k >= 0
      invariant UpperEliminated(t, Column(b, j), rhs, k)
      invariant forall c :: 0 <= c < b.Length1 && c != j ==> Column(b, c) == old(Column(b, c))
    {
      ghost var xs := Column(b, j);
      DivideByDiagonal(t, b, k, j);
      UpperEliminateStep(t, xs, rhs, k, b[k, j]);
      Eliminate(t, b, j, k, 0, k);
      k := k - 1;
    }
    UpperEliminatedDone(t, Column(b, j), rhs);
  }

  /** Left, no transpose, lower: forward substitution that updates the rows below. */
  method LeftNoTransLower(t: Tri, b: array2<real>, j: int)
    requires t.Valid() && t.Regular() && !t.upper && !t.trans
    requires t.n == b.Length0 && 0 <= j < b.Length1
    modifies b
    ensures forall c :: 0 <= c < b.Length1 && c != j ==> Column(b, c) == old(Column(b, c))
    ensures Solves(t, Column(b, j), old(Column(b, j)))
  {
    ghost var rhs := Column(b, j);
    hide LowerEliminated, Eliminated, Dot, Mul;
    EliminatedInit(t, rhs);
    for k := 0 to t.n
      invariant LowerEliminated(t, Column(b, j), rhs, k)
      invariant forall c :: 0 <= c < b.Length1 && c != j ==> Column(b, c) == old(Column(b, c))
    {
      ghost var xs := Column(b, j);
      DivideByDiagonal(t, b, k, j);
      LowerEliminateStep(t, xs, rhs, k, b[k, j]);
      Eliminate(t, b, j, k, k + 1, t.n);
    }
    LowerEliminatedDone(t, Column(b, j), rhs);
  }

  /** temp - sum of A(k, i) * B(k, j) over lo <= k < hi, divided by the diagonal unless it is unit. */
  method GatherEntry(t: Tri, b: array2<real>, j: int, i: int, lo: int, hi: int, start: real) returns (temp: real)
    requires t.Valid() && t.Regular() && t.trans && t.n == b.Length0 && 0 <= j < b.Length1
    requires 0 <= lo <= hi <= t.n && 0 <= i < t.n
    requires forall k :: lo <= k < hi ==> t.Stored(k, i)
    ensures Mul(t.At(i, i), temp) == start - Dot(t.Row(i), lo, Column(b, j)[lo..hi])
  {
    hide Dot, Mul;
    ghost var xs := Column(b, j);
    temp := start;
    assert Dot(t.Row(i), lo, xs[lo..lo]) == 0.0 by { DotZero(t.Row(i), lo, xs[lo..lo]); }
    for k := lo to hi
      invariant temp == start - Dot(t.Row(i), lo, xs[lo..k])
    {
      DotSnoc(t.Row(i), lo, xs[lo..k], xs[k]);
      assert xs[lo..k + 1] == xs[lo..k] + [xs[k]];
      assert t.Stored(k, i);
      FlipAt(t, k, i);
      MulFacts(t.a(k, i), b[k, j]);
      assert t.Row(i)(k) == t.a(k, i) && xs[k] == b[k, j];
      temp := temp - t.a(k, i) * b[k, j];
    }
    MulFacts(1.0, temp);
    if !t.unit {
      assert t.Elem(i, i) != 0.0;
      MulDivide(t.a(i, i), temp);
      temp := temp / t.a(i, i);
    }
  }

  /** Left, transpose, upper: op(A) is lower, each row gathers the unknowns before it. */
  method LeftTransUpper(t: Tri, b: array2<real>, j: int, alpha: real)
    requires t.Valid() && t.Regular() && t.upper && t.trans
    requires t.n == b.Length0 && 0 <= j < b.Length1
    modifies b
    ensures forall c :: 0 <= c < b.Length1 && c != j ==> Column(b, c) == old(Column(b, c))
    ensures Solves(t, Column(b, j), Scaled(alpha, old(Column(b, j))))
  {
    hide Dot, Mul;
    ghost var b0 := Column(b, j);
    for i := 0 to t.n
      invariant LowerGathered(t, Column(b, j), b0, alpha, i)
      invariant forall c :: 0 <= c < b.Length1 && c != j ==> Column(b, c) == old(Column(b, c))
    {
      ghost var xs := Column(b, j);
      assert b[i, j] == xs[i..][0] == b0[i];
      MulFacts(alpha, b[i, j]);
      var temp := GatherEntry(t, b, j, i, 0, i, alpha * b[i, j]);
      LowerGatherStep(t, xs, b0, alpha, i, temp);
      Write(b, i, j, temp);
    }
    LowerGatheredDone(t, Column(b, j), b0, alpha);
  }

  /** Left, transpose, lower: op(A) is upper, each row gathers the unknowns after it. */
  method LeftTransLower(t: Tri, b: array2<real>, j: int, alpha: real)
    requires t.Valid() && t.Regular() && !t.upper && t.trans
    requires t.n == b.Length0 && 0 <= j < b.Length1
    modifies b
    ensures forall c :: 0 <= c < b.Length1 && c != j ==> Column(b, c) == old(Column(b, c))
    ensures Solves(t, Column(b, j), Scaled(alpha, old(Column(b, j))))
  {
    hide Dot, Mul;
    ghost var b0 := Column(b, j);
    var i := t.n - 1;
    while i >= 0
      invariant UpperGathered(t, Column(b, j), b0, alpha, i)
      invariant forall c :: 0 <= c < b.Length1 && c != j ==> Column(b, c) == old(Column(b, c))
    {
      ghost var xs := Column(b, j);
      assert b[i, j] == xs[..i + 1][i] == b0[..i + 1][i] == b0[i];
      MulFacts(alpha, b[i, j]);
      var temp := GatherEntry(t, b, j, i, i + 1, t.n, alpha * b[i, j]);
      SliceToEnd(xs, i + 1, t.n);
      UpperGatherStep(t, xs, b0, alpha, i, temp);
      Write(b, i, j, temp);
      i := i - 1;
    }
    UpperGatheredDone(t, Column(b, j), b0, alpha);
  }

  // ---------- right side: every row of B at once, column by column ----------

  /** if(nounit) { temp = 1.0 / A(k, k); B(:, k) = temp * B(:, k); } */
  method DivideColumn(t: Tri, b: array2<real>, k: int) returns (ghost vs: seq<real>)
    requires t.Valid() && t.Regular() && t.n == b.Length1 && 0 <= k < t.n
    modifies b
    ensures |vs| == b.Length0
    ensures forall i :: 0 <= i < b.Length0 ==>
              && RowOf(b, i) == old(RowOf(b, i))[k := vs[i]]
              && Mul(t.At(k, k), vs[i]) == old(RowOf(b, i))[k]
  {
    hide Mul;
    if !t.unit {
      assert t.Elem(k, k) != 0.0;
      var temp := 1.0 / t.a(k, k);
      ScaleColumn(b, k, temp);
      forall i | 0 <= i < b.Length0
        ensures Mul(t.At(k, k), Column(b, k)[i]) == old(RowOf(b, i))[k]
      {
        MulDivide(t.a(k, k), old(b[i, k]));
      }
    } else {
      forall i | 0 <= i < b.Length0
        ensures Mul(t.At(k, k), b[i, k]) == b[i, k]
      {
        MulFacts(1.0, b[i, k]);
      }
    }
    vs := Column(b, k);
  }

  /** if(alpha_not1) B(:, j) = alpha * B(:, j); */
  method ApplyAlpha(b: array2<real>, j: int, alpha: real)
    requires 0 <= j < b.Length1
    modifies b
    ensures forall c :: 0 <= c < b.Length1 && c != j ==> Column(b, c) == old(Column(b, c))
    ensures Column(b, j) == Scaled(alpha, old(Column(b, j)))
    ensures forall i :: 0 <= i < b.Length0 ==> RowOf(b, i) == ScaledAt(old(RowOf(b, i)), j, alpha)
  {
    hide Mul;
    if alpha != 1.0 {
      ScaleColumn(b, j, alpha);
    } else {
      forall i | 0 <= i < b.Length0
        ensures Mul(alpha, b[i, j]) == b[i, j]
      {
        MulFacts(alpha, b[i, j]);
      }
      assert Column(b, j) == Scaled(alpha, Column(b, j));
      assert forall i :: 0 <= i < b.Length0 ==> RowOf(b, i) == ScaledAt(RowOf(b, i), j, alpha);
    }
  }

  /** Entry j of a row once the unknowns from lo to k - 1 have been gathered into it. */
  ghost function Gathered(t: Tri, row: seq<real>, j: int, lo: int, k: int, alpha: real): seq<real>
    requires 0 <= j < t.n == |row| && 0 <= lo <= k <= t.n
  {
    row[j := Mul(alpha, row[j]) - Dot(t.Row(j), lo, row[lo..k])]
  }

  lemma GatheredInit(t: Tri, row: seq<real>, j: int, lo: int, alpha: real)
    requires 0 <= j < t.n == |row| && 0 <= lo <= t.n
    ensures Gathered(t, row, j, lo, lo, alpha) == ScaledAt(row, j, alpha)
  {
    assert row[lo..lo] == [];
  }

  lemma GatheredStep(t: Tri, row: seq<real>, j: int, lo: int, k: int, alpha: real)
    requires 0 <= j < t.n == |row| && 0 <= lo <= k < t.n && k != j
    ensures Gathered(t, row, j, lo, k + 1, alpha) == AddedAt(Gathered(t, row, j, lo, k, alpha), j, -t.At(j, k), k)
  {
    hide Dot, Mul;
    DotSnoc(t.Row(j), lo, row[lo..k], row[k]);
    assert row[lo..k + 1] == row[lo..k] + [row[k]];
    MulFacts(t.At(j, k), row[k]);
    var was, now := Gathered(t, row, j, lo, k, alpha), Gathered(t, row, j, lo, k + 1, alpha);
    assert t.Row(j)(k) == t.At(j, k) && now[j] == was[j] - Mul(t.At(j, k), row[k]);
    assert AddedAt(was, j, -t.At(j, k), k)[j] == was[j] - Mul(t.At(j, k), row[k]);
    assert now == was[j := now[j]];
  }

  /** Column j becomes alpha * B(:, j) less A(k, j) * B(:, k) over lo <= k < hi. */
  method GatherColumn(t: Tri, b: array2<real>, j: int, lo: int, hi: int, alpha: real)
    requires t.Valid() && !t.trans && t.n == b.Length1
    requires 0 <= lo <= hi <= t.n && 0 <= j < t.n && !(lo <= j < hi)
    requires forall k :: lo <= k < hi ==> t.Stored(k, j)
    modifies b
    ensures forall i :: 0 <= i < b.Length0 ==>
              RowOf(b, i) == Gathered(t.Flip(), old(RowOf(b, i)), j, lo, hi, alpha)
  {
    ghost var t', rows := t.Flip(), Rows(b);
    ApplyAlpha(b, j, alpha);
    forall i | 0 <= i < b.Length0
      ensures RowOf(b, i) == Gathered(t', rows[i], j, lo, lo, alpha)
    {
      GatheredInit(t', rows[i], j, lo, alpha);
    }
    hide Gathered, AddedAt, Mul;
    for k := lo to hi
      invariant forall i :: 0 <= i < b.Length0 ==> RowOf(b, i) == Gathered(t', rows[i], j, lo, k, alpha)
    {
      assert t.Stored(k, j);
      FlipAt(t, j, k);
      FlipAt(t, k, j);
      forall i | 0 <= i < b.Length0
        ensures Gathered(t', rows[i], j, lo, k + 1, alpha) == AddedAt(RowOf(b, i), j, -t.a(k, j), k)
      {
        GatheredStep(t', rows[i], j, lo, k, alpha);
      }
      AddColumn(b, j, -t.a(k, j), k);
    }
  }

  lemma LowerGatheredStep(t: Tri, row: seq<real>, b0: seq<real>, alpha: real, j: int, v: real)
    requires !t.OpUpper() && LowerGathered(t, row, b0, alpha, j) && j < t.n
    requires Mul(t.At(j, j), v) == Gathered(t, row, j, 0, j, alpha)[j]
    ensures LowerGathered(t, Gathered(t, row, j, 0, j, alpha)[j := v], b0, alpha, j + 1)
  {
    hide Dot, Mul;
    assert row[0..j] == row[..j] && row[j] == row[j..][0] == b0[j..][0] == b0[j];
    assert Gathered(t, row, j, 0, j, alpha)[j := v] == row[j := v];
    LowerGatherStep(t, row, b0, alpha, j, v);
  }

  lemma UpperGatheredStep(t: Tri, row: seq<real>, b0: seq<real>, alpha: real, j: int, v: real)
    requires t.OpUpper() && UpperGathered(t, row, b0, alpha, j) && 0 <= j
    requires Mul(t.At(j, j), v) == Gathered(t, row, j, j + 1, t.n, alpha)[j]
    ensures UpperGathered(t, Gathered(t, row, j, j + 1, t.n, alpha)[j := v], b0, alpha, j - 1)
  {
    hide Dot, Mul;
    SliceToEnd(row, j + 1, t.n);
    assert row[j] == row[..j + 1][j] == b0[..j + 1][j] == b0[j];
    assert Gathered(t, row, j, j + 1, t.n, alpha)[j := v] == row[j := v];
    UpperGatherStep(t, row, b0, alpha, j, v);
  }

  /** Right, no transpose, upper. */
  method RightNoTransUpper(t: Tri, b: array2<real>, alpha: real)
    requires t.Valid() && t.Regular() && t.upper && !t.trans && t.n == b.Length1
    modifies b
    ensures forall i :: 0 <= i < b.Length0 ==>
              Solves(t.Flip(), RowOf(b, i), Scaled(alpha, old(RowOf(b, i))))
  {
    hide Dot, Mul;
    ghost var t', rows := t.Flip(), Rows(b);
    for j := 0 to t.n
      invariant forall i :: 0 <= i < b.Length0 ==> LowerGathered(t', RowOf(b, i), rows[i], alpha, j)
    {
      ghost var was := Rows(b);
      GatherColumn(t, b, j, 0, j, alpha);
      ghost var vs := DivideColumn(t, b, j);
      forall i | 0 <= i < b.Length0
        ensures LowerGathered(t', RowOf(b, i), rows[i], alpha, j + 1)
      {
        LowerGatheredStep(t', was[i], rows[i], alpha, j, vs[i]);
      }
    }
    forall i | 0 <= i < b.Length0
      ensures Solves(t', RowOf(b, i), Scaled(alpha, rows[i]))
    {
      LowerGatheredDone(t', RowOf(b, i), rows[i], alpha);
    }
  }

  /** Right, no transpose, lower. */
  method RightNoTransLower(t: Tri, b: array2<real>, alpha: real)
    requires t.Valid() && t.Regular() && !t.upper && !t.trans && t.n == b.Length1
    modifies b
    ensures forall i :: 0 <= i < b.Length0 ==>
              Solves(t.Flip(), RowOf(b, i), Scaled(alpha, old(RowOf(b, i))))
  {
    hide Dot, Mul;
    ghost var t', rows := t.Flip(), Rows(b);
    var j := t.n - 1;
    while j >= 0
      invariant -1 <= j < t.n
      invariant forall i :: 0 <= i < b.Length0 ==> UpperGathered(t', RowOf(b, i), rows[i], alpha, j)
    {
      ghost var was := Rows(b);
      GatherColumn(t, b, j, j + 1, t.n, alpha);
      ghost var vs := DivideColumn(t, b, j);
      forall i | 0 <= i < b.Length0
        ensures UpperGathered(t', RowOf(b, i), rows[i], alpha, j - 1)
      {
        UpperGatheredStep(t', was[i], rows[i], alpha, j, vs[i]);
      }
      j := j - 1;
    }
    forall i | 0 <= i < b.Length0
      ensures Solves(t', RowOf(b, i), Scaled(alpha, rows[i]))
    {
      UpperGatheredDone(t', RowOf(b, i), rows[i], alpha);
    }
  }

  lemma EliminatedStep(t: Tri, xs: seq<real>, k: int, lo: int, j: int)
    requires 0 <= k < t.n == |xs| && 0 <= lo <= j < t.n && j != k && !(lo <= k < j)
    ensures Eliminated(t, xs, k, lo, j + 1) == AddedAt(Eliminated(t, xs, k, lo, j), j, -t.At(j, k), k)
  {
    hide Mul;
    MulFacts(t.At(j, k), xs[k]);
    var ys, zs := Eliminated(t, xs, k, lo, j + 1), AddedAt(Eliminated(t, xs, k, lo, j), j, -t.At(j, k), k);
    assert ys[j] == zs[j];
    assert forall i :: 0 <= i < t.n && i != j ==> ys[i] == zs[i];
  }

  lemma EliminatedNone(t: Tri, xs: seq<real>, k: int, lo: int)
    requires 0 <= k < t.n == |xs|
    ensures Eliminated(t, xs, k, lo, lo) == xs
  {
    hide Mul;
  }

  /** Unknown k of every row is found, subtracted from columns lo to hi - 1, and only then scaled. */
  method SpreadColumn(t: Tri, b: array2<real>, k: int, lo: int, hi: int, alpha: real) returns (ghost vs: seq<real>)
    requires t.Valid() && t.Regular() && t.trans && t.n == b.Length1
    requires 0 <= lo <= hi <= t.n && 0 <= k < t.n && !(lo <= k < hi)
    requires forall j :: lo <= j < hi ==> t.Stored(j, k)
    modifies b
    ensures |vs| == b.Length0
    ensures forall i :: 0 <= i < b.Length0 ==>
              && Mul(t.Flip().At(k, k), vs[i]) == old(RowOf(b, i))[k]
              && RowOf(b, i) == ScaledAt(Eliminated(t.Flip(), old(RowOf(b, i))[k := vs[i]], k, lo, hi), k, alpha)
  {
    ghost var t', rows := t.Flip(), Rows(b);
    vs := DivideColumn(t, b, k);
    FlipAt(t, k, k);
    ghost var mid := Rows(b);
    forall i | 0 <= i < b.Length0
      ensures RowOf(b, i) == Eliminated(t', mid[i], k, lo, lo)
    {
      EliminatedNone(t', mid[i], k, lo);
    }
    hide Eliminated, AddedAt, ScaledAt, Mul;
    for j := lo to hi
      invariant forall i :: 0 <= i < b.Length0 ==> RowOf(b, i) == Eliminated(t', mid[i], k, lo, j)
    {
      assert t.Stored(j, k);
      FlipAt(t, j, k);
      forall i | 0 <= i < b.Length0
        ensures Eliminated(t', mid[i], k, lo, j + 1) == AddedAt(RowOf(b, i), j, -t.a(j, k), k)
      {
        EliminatedStep(t', mid[i], k, lo, j);
      }
      AddColumn(b, j, -t.a(j, k), k);
    }
    ApplyAlpha(b, k, alpha);
  }

  lemma ScaledSolves(t: Tri, ys: seq<real>, rhs: seq<real>, alpha: real)
    requires Solves(t, ys, rhs)
    ensures Solves(t, Scaled(alpha, ys), Scaled(alpha, rhs))
  {
    hide Dot, Mul;
    forall i | 0 <= i < t.n
      ensures Dot(t.Row(i), 0, Scaled(alpha, ys)) == Mul(alpha, rhs[i])
    {
      DotScaled(t.Row(i), 0, alpha, ys);
    }
  }

  /** row is ys with the entries from lo to hi - 1 multiplied by alpha. */
  ghost predicate CarriesAlpha(row: seq<real>, ys: seq<real>, alpha: real, lo: int, hi: int) {
    |row| == |ys| && forall q :: 0 <= q < |row| ==> row[q] == if lo <= q < hi then Mul(alpha, ys[q]) else ys[q]
  }

  /** Unknowns after k already carry alpha; without it the row is an elimination under way. */
  ghost predicate UpperSpread(t: Tri, row: seq<real>, rhs: seq<real>, alpha: real, k: int) {
    exists ys ::
      && UpperEliminated(t, ys, rhs, k)
      && CarriesAlpha(row, ys, alpha, k + 1, t.n)
  }

  /** Unknowns before k already carry alpha; without it the row is an elimination under way. */
  ghost predicate LowerSpread(t: Tri, row: seq<real>, rhs: seq<real>, alpha: real, k: int) {
    exists ys ::
      && LowerEliminated(t, ys, rhs, k)
      && CarriesAlpha(row, ys, alpha, 0, k)
  }

  lemma SpreadInit(t: Tri, rhs: seq<real>, alpha: real)
    requires t.n == |rhs|
    ensures UpperSpread(t, rhs, rhs, alpha, t.n - 1) && LowerSpread(t, rhs, rhs, alpha, 0)
  {
    EliminatedInit(t, rhs);
    hide UpperEliminated, LowerEliminated, Mul;
  }

  lemma UpperSpreadStep(t: Tri, row: seq<real>, rhs: seq<real>, alpha: real, k: int, v: real)
    requires t.OpUpper() && 0 <= k < t.n == |row|
    requires UpperSpread(t, row, rhs, alpha, k) && Mul(t.At(k, k), v) == row[k]
    ensures UpperSpread(t, ScaledAt(Eliminated(t, row[k := v], k, 0, k), k, alpha), rhs, alpha, k - 1)
  {
    hide Mul;
    var ys :| UpperEliminated(t, ys, rhs, k) && CarriesAlpha(row, ys, alpha, k + 1, t.n);
    UpperEliminateStep(t, ys, rhs, k, v);
    hide UpperEliminated;
    var zs := Eliminated(t, ys[k := v], k, 0, k);
    assert UpperEliminated(t, zs, rhs, k - 1);
  }

  lemma LowerSpreadStep(t: Tri, row: seq<real>, rhs: seq<real>, alpha: real, k: int, v: real)
    requires !t.OpUpper() && 0 <= k < t.n == |row|
    requires LowerSpread(t, row, rhs, alpha, k) && Mul(t.At(k, k), v) == row[k]
    ensures LowerSpread(t, ScaledAt(Eliminated(t, row[k := v], k, k + 1, t.n), k, alpha), rhs, alpha, k + 1)
  {
    hide Mul;
    var ys :| LowerEliminated(t, ys, rhs, k) && CarriesAlpha(row, ys, alpha, 0, k);
    LowerEliminateStep(t, ys, rhs, k, v);
    hide LowerEliminated;
    var zs := Eliminated(t, ys[k := v], k, k + 1, t.n);
    assert LowerEliminated(t, zs, rhs, k + 1);
  }

  lemma UpperSpreadDone(t: Tri, row: seq<real>, rhs: seq<real>, alpha: real)
    requires UpperSpread(t, row, rhs, alpha, -1)
    ensures Solves(t, row, Scaled(alpha, rhs))
  {
    hide Mul;
    var ys :| UpperEliminated(t, ys, rhs, -1) && CarriesAlpha(row, ys, alpha, 0, t.n);
    UpperEliminatedDone(t, ys, rhs);
    ScaledSolves(t, ys, rhs, alpha);
    hide UpperEliminated;
    assert row == Scaled(alpha, ys);
  }

  lemma LowerSpreadDone(t: Tri, row: seq<real>, rhs: seq<real>, alpha: real)
    requires LowerSpread(t, row, rhs, alpha, t.n)
    ensures Solves(t, row, Scaled(alpha, rhs))
  {
    hide Mul;
    var ys :| LowerEliminated(t, ys, rhs, t.n) && CarriesAlpha(row, ys, alpha, 0, t.n);
    LowerEliminatedDone(t, ys, rhs);
    ScaledSolves(t, ys, rhs, alpha);
    hide LowerEliminated;
    assert row == Scaled(alpha, ys);
  }

  /** Right, transpose, upper. */
  method RightTransUpper(t: Tri, b: array2<real>, alpha: real)
    requires t.Valid() && t.Regular() && t.upper && t.trans && t.n == b.Length1
    modifies b
    ensures forall i :: 0 <= i < b.Length0 ==>
              Solves(t.Flip(), RowOf(b, i), Scaled(alpha, old(RowOf(b, i))))
  {
    hide UpperSpread, LowerSpread, ScaledAt, Eliminated, Mul;
    ghost var t', rows := t.Flip(), Rows(b);
    forall i | 0 <= i < b.Length0
      ensures UpperSpread(t', RowOf(b, i), rows[i], alpha, t.n - 1)
    {
      SpreadInit(t', rows[i], alpha);
    }
    var k := t.n - 1;
    while k >= 0
      invariant -1 <= k < t.n
      invariant forall i :: 0 <= i < b.Length0 ==> UpperSpread(t', RowOf(b, i), rows[i], alpha, k)
    {
      ghost var was := Rows(b);
      ghost var vs := SpreadColumn(t, b, k, 0, k, alpha);
      forall i | 0 <= i < b.Length0
        ensures UpperSpread(t', RowOf(b, i), rows[i], alpha, k - 1)
      {
        UpperSpreadStep(t', was[i], rows[i], alpha, k, vs[i]);
      }
      k := k - 1;
    }
    forall i | 0 <= i < b.Length0
      ensures Solves(t', RowOf(b, i), Scaled(alpha, rows[i]))
    {
      UpperSpreadDone(t', RowOf(b, i), rows[i], alpha);
    }
  }

  /** Right, transpose, lower. */
  method RightTransLower(t: Tri, b: array2<real>, alpha: real)
    requires t.Valid() && t.Regular() && !t.upper && t.trans && t.n == b.Length1
    modifies b
    ensures forall i :: 0 <= i < b.Length0 ==>
              Solves(t.Flip(), RowOf(b, i), Scaled(alpha, old(RowOf(b, i))))
  {
    hide UpperSpread, LowerSpread, ScaledAt, Eliminated, Mul;
    ghost var t', rows := t.Flip(), Rows(b);
    forall i | 0 <= i < b.Length0
      ensures LowerSpread(t', RowOf(b, i), rows[i], alpha, 0)
    {
      SpreadInit(t', rows[i], alpha);
    }
    for k := 0 to t.n
      invariant forall i :: 0 <= i < b.Length0 ==> LowerSpread(t', RowOf(b, i), rows[i], alpha, k)
    {
      ghost var was := Rows(b);
      ghost var vs := SpreadColumn(t, b, k, k + 1, t.n, alpha);
      forall i | 0 <= i < b.Length0
        ensures LowerSpread(t', RowOf(b, i), rows[i], alpha, k + 1)
      {
        LowerSpreadStep(t', was[i], rows[i], alpha, k, vs[i]);
      }
    }
    forall i | 0 <= i < b.Length0
      ensures Solves(t', RowOf(b, i), Scaled(alpha, rows[i]))
    {
      LowerSpreadDone(t', RowOf(b, i), rows[i], alpha);
    }
  }

  // ---------- the operator ----------

  /** naive_trsm, the branches of one column of the left side. */
  method SolveColumn(t: Tri, b: array2<real>, j: int, alpha: real)
    requires t.Valid() && t.Regular() && t.n == b.Length0 && 0 <= j < b.Length1
    modifies b
    ensures forall c :: 0 <= c < b.Length1 && c != j ==> Column(b, c) == old(Column(b, c))
    ensures Solves(t, Column(b, j), Scaled(alpha, old(Column(b, j))))
  {
    if !t.trans {
      ApplyAlpha(b, j, alpha);
      if t.upper {
        LeftNoTransUpper(t, b, j);
      } else {
        LeftNoTransLower(t, b, j);
      }
    } else if t.upper {
      LeftTransUpper(t, b, j, alpha);
    } else {
      LeftTransLower(t, b, j, alpha);
    }
  }

  /** naive_trsm: X overwrites B with op(A) * X == alpha * B, or X * op(A) == alpha * B on the right. */
  method NaiveTrsm(left: bool, t: Tri, b: array2<real>, alpha: real)
    requires t.Valid() && t.Regular() && t.n == if left then b.Length0 else b.Length1
    modifies b
    ensures left ==> forall j :: 0 <= j < b.Length1 ==>
              Solves(t, Column(b, j), Scaled(alpha, old(Column(b, j))))
    ensures !left ==> forall i :: 0 <= i < b.Length0 ==>
              Solves(t.Flip(), RowOf(b, i), Scaled(alpha, old(RowOf(b, i))))
  {
    if left {
      hide Solves;
      for j := 0 to b.Length1
        invariant forall c :: 0 <= c < j ==> Solves(t, Column(b, c), Scaled(alpha, old(Column(b, c))))
        invariant forall c :: j <= c < b.Length1 ==> Column(b, c) == old(Column(b, c))
      {
        SolveColumn(t, b, j, alpha);
      }
    } else if !t.trans {
      if t.upper {
        RightNoTransUpper(t, b, alpha);
      } else {
        RightNoTransLower(t, b, alpha);
      }
    } else if t.upper {
      RightTransUpper(t, b, alpha);
    } else {
      RightTransLower(t, b, alpha);
    }
  }
}
