/** A dense matrix updated in place, element (i, j) standing for B(i, j) of the source. */
module MatrixStore {
  import opened Sums

  ghost function Column(b: array2<real>, j: int): (r: seq<real>)
    requires 0 <= j < b.Length1
    reads b
    ensures |r| == b.Length0 && forall i :: 0 <= i < b.Length0 ==> r[i] == b[i, j]
  {
    seq(b.Length0, i requires 0 <= i < b.Length0 reads b => b[i, j])
  }

  ghost function RowOf(b: array2<real>, i: int): (r: seq<real>)
    requires 0 <= i < b.Length0
    reads b
    ensures |r| == b.Length1 && forall j :: 0 <= j < b.Length1 ==> r[j] == b[i, j]
  {
    seq(b.Length1, j requires 0 <= j < b.Length1 reads b => b[i, j])
  }

  /** The contents of the matrix, row by row. */
  ghost function Rows(b: array2<real>): (r: seq<seq<real>>)
    reads b
    ensures |r| == b.Length0 && forall i :: 0 <= i < b.Length0 ==> r[i] == RowOf(b, i)
  {
    seq(b.Length0, i requires 0 <= i < b.Length0 reads b => RowOf(b, i))
  }

  ghost function ScaledAt(row: seq<real>, j: int, a: real): seq<real>
    requires 0 <= j < |row|
  {
    row[j := Mul(a, row[j])]
  }

  ghost function AddedAt(row: seq<real>, j: int, a: real, k: int): seq<real>
    requires 0 <= j < |row| && 0 <= k < |row|
  {
    row[j := row[j] + Mul(a, row[k])]
  }

  /** B(i, j) = v, seen as one entry of column j changing. */
  method Write(b: array2<real>, i: int, j: int, v: real)
    requires 0 <= i < b.Length0 && 0 <= j < b.Length1
    modifies b
    ensures Column(b, j) == old(Column(b, j))[i := v]
    ensures forall c :: 0 <= c < b.Length1 && c != j ==> Column(b, c) == old(Column(b, c))
  {
    b[i, j] := v;
  }

  /** B(:, j) = a * B(:, j), seen as one entry of every row changing. */
  method ScaleColumn(b: array2<real>, j: int, a: real)
    requires 0 <= j < b.Length1
    modifies b
    ensures Column(b, j) == Scaled(a, old(Column(b, j)))
    ensures forall c :: 0 <= c < b.Length1 && c != j ==> Column(b, c) == old(Column(b, c))
    ensures forall i :: 0 <= i < b.Length0 ==> RowOf(b, i) == ScaledAt(old(RowOf(b, i)), j, a)
  {
    hide Mul;
    for i := 0 to b.Length0
      invariant forall q :: 0 <= q < i ==> b[q, j] == Mul(a, old(b[q, j]))
      invariant forall q :: i <= q < b.Length0 ==> b[q, j] == old(b[q, j])
      invariant forall q, c :: 0 <= q < b.Length0 && 0 <= c < b.Length1 && c != j ==> b[q, c] == old(b[q, c])
    {
      MulFacts(a, b[i, j]);
      b[i, j] := a * b[i, j];
    }
    assert Column(b, j) == Scaled(a, old(Column(b, j)));
  }

  /** B(:, j) = B(:, j) + a * B(:, k), seen as one entry of every row changing. */
  method AddColumn(b: array2<real>, j: int, a: real, k: int)
    requires 0 <= j < b.Length1 && 0 <= k < b.Length1 && j != k
    modifies b
    ensures forall i :: 0 <= i < b.Length0 ==> RowOf(b, i) == AddedAt(old(RowOf(b, i)), j, a, k)
  {
    hide Mul;
    for i := 0 to b.Length0
      invariant forall q :: 0 <= q < i ==> b[q, j] == old(b[q, j]) + Mul(a, old(b[q, k]))
      invariant forall q :: i <= q < b.Length0 ==> b[q, j] == old(b[q, j])
      invariant forall q, c :: 0 <= q < b.Length0 && 0 <= c < b.Length1 && c != j ==> b[q, c] == old(b[q, c])
    {
      MulFacts(a, b[i, k]);
      b[i, j] := b[i, j] + a * b[i, k];
    }
  }
}
