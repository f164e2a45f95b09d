/**
 * Band storage: column j of the band lies in column j of the array, or, stored transposed,
 * row i of the band in column i.
 */
module BandStorage {
  import opened NumericUtils

  /** kl sub- and ku superdiagonals of a matrix with `rows` rows and `cols` columns. */
  datatype Band = Band(data: seq<real>, rows: int, cols: int, kl: int, ku: int, lda: int, trans: bool) {

    ghost predicate Valid() {
      && rows >= 0 && cols >= 0 && kl >= 0 && ku >= 0 && lda >= kl + ku + 1
      && |data| >= (if trans then rows else cols) * lda
    }

    predicate InBand(i: int, j: int) {
      0 <= i < rows && 0 <= j < cols && i - kl <= j <= i + ku
    }

    /** Steps between neighbours in the two storage dimensions. */
    function CntgStride(): int {
      if trans then lda else 1
    }

    function StrdStride(): int {
      if trans then 1 else lda
    }

    /** get_logical_elem and get_absolute_physical_elem, where cntg is the row and strd the column. */
    function LogicalAddr(cntg: int, strd: int): int {
      if !trans then (ku + cntg - strd) * CntgStride() + strd * StrdStride()
      else (kl + strd - cntg) * StrdStride() + cntg * CntgStride()
    }

    /** get_physical_cntg, where strd is the row and cntg the column. */
    function PhysicalAddr(cntg: int, strd: int): int {
      var bandStart := Max(0, cntg - ku);
      var cntgStart := if cntg > bandStart then cntg else bandStart;
      if !trans then cntgStart * StrdStride() + (strd + ku - cntgStart) * CntgStride()
      else (cntgStart + kl - strd) * StrdStride() + strd * CntgStride()
    }

    /** The value of element (i, j) of the matrix; zero off the band. */
    function At(i: int, j: int): real {
      if InBand(i, j) && 0 <= LogicalAddr(i, j) < |data| then data[LogicalAddr(i, j)] else 0.0
    }

    /** Row i has length elements in the band from column lo on. */
    ghost predicate RowPart(i: int, lo: int, length: int) {
      forall k :: lo <= k < lo + length ==> InBand(i, k)
    }

    /** Column j has length elements in the band from row lo on. */
    ghost predicate ColumnPart(j: int, lo: int, length: int) {
      forall k :: lo <= k < lo + length ==> InBand(k, j)
    }

    /** Where a walk down column j (or, transposed, along row i) starts and ends. */
    function ColumnStart(j: int): int { Max(0, j - ku) }
    function ColumnEnd(j: int): int { Min(rows - 1, j + kl) }
    function RowStart(i: int): int { Max(0, i - kl) }
    function RowEnd(i: int): int { Min(cols - 1, i + ku) }
  }

  /** Every element of the band has an address of its own, inside the array. */
  lemma AddressInside(b: Band, i: int, j: int)
    requires b.Valid() && b.InBand(i, j)
    ensures 0 <= b.LogicalAddr(i, j) < |b.data| && b.At(i, j) == b.data[b.LogicalAddr(i, j)]
  {
    var major, minor, count := if b.trans then i else j, if b.trans then b.kl + j - i else b.ku + i - j,
                               if b.trans then b.rows else b.cols;
    assert b.LogicalAddr(i, j) == major * b.lda + minor;
    MulMonotone(0, major, b.lda);
    MulMonotone(major + 1, count, b.lda);
    MulAdd(major, 1, b.lda);
  }

  /**
   * Where the band starts: the top of the band of column j is the first place of array column j, and
   * stored transposed the left end of the band of row i is the first place of array column i.
   */
  lemma BandAtTop(b: Band, i: int, j: int)
    ensures !b.trans ==> b.LogicalAddr(j - b.ku, j) == j * b.lda
    ensures b.trans ==> b.LogicalAddr(i, i - b.kl) == i * b.lda
  {
  }

  /** The LAPACK layout: element (i, j) is the one at place ku + i - j of array column j, or kl + j - i of column i. */
  lemma BandLayout(b: Band, i: int, j: int)
    requires b.Valid() && b.InBand(i, j)
    ensures var column := if b.trans then i else j;
            && 0 <= column * b.lda <= (column + 1) * b.lda <= |b.data|
            && var place := if b.trans then b.kl + j - i else b.ku + i - j;
            0 <= place < b.lda && b.At(i, j) == b.data[column * b.lda..(column + 1) * b.lda][place]
  {
    var column, count := if b.trans then i else j, if b.trans then b.rows else b.cols;
    MulMonotone(0, column, b.lda);
    MulMonotone(column + 1, count, b.lda);
    MulAdd(column, 1, b.lda);
    AddressInside(b, i, j);
  }

  lemma AddressesDistinct(b: Band, i: int, j: int, i': int, j': int)
    requires b.Valid() && b.InBand(i, j) && b.InBand(i', j')
    requires b.LogicalAddr(i, j) == b.LogicalAddr(i', j')
    ensures i == i' && j == j'
  {
    if b.trans {
      DivMod(i, b.kl + j - i, b.lda);
      DivMod(i', b.kl + j' - i', b.lda);
    } else {
      DivMod(j, b.ku + i - j, b.lda);
      DivMod(j', b.ku + i' - j', b.lda);
    }
  }

  /** The two index conventions name the same place: they differ only in which argument is the row. */
  lemma ConventionsAgree(b: Band, i: int, j: int)
    requires b.Valid() && b.InBand(i, j)
    ensures b.PhysicalAddr(j, i) == b.LogicalAddr(i, j)
  {
  }

  /** Consecutive addresses walk down a column, or along a row when the band is stored transposed. */
  lemma NextInStorage(b: Band, i: int, j: int, q: int)
    ensures !b.trans ==> b.LogicalAddr(i + q, j) == b.LogicalAddr(i, j) + q
    ensures b.trans ==> b.LogicalAddr(i, j + q) == b.LogicalAddr(i, j) + q
  {
    MulAdd(b.ku + i - j, q, 1);
    MulAdd(b.kl + j - i, q, 1);
  }

  /** A stretch of a row lies in consecutive places when the storage is transposed. */
  lemma RowInStorage(b: Band, i: int, lo: int, length: int)
    requires b.Valid() && b.trans && b.RowPart(i, lo, length) && length > 0
    ensures 0 <= b.LogicalAddr(i, lo) && b.LogicalAddr(i, lo) + length <= |b.data|
    ensures forall k :: lo <= k < lo + length ==> b.At(i, k) == b.data[b.LogicalAddr(i, lo) + k - lo]
  {
    hide Band.LogicalAddr, Band.InBand, Band.At;
    AddressInside(b, i, lo);
    AddressInside(b, i, lo + length - 1);
    NextInStorage(b, i, lo, length - 1);
    forall k | lo <= k < lo + length
      ensures b.At(i, k) == b.data[b.LogicalAddr(i, lo) + k - lo]
    {
      AddressInside(b, i, k);
      NextInStorage(b, i, lo, k - lo);
    }
  }

  /** A stretch of a column lies in consecutive places when it is not. */
  lemma ColumnInStorage(b: Band, j: int, lo: int, length: int)
    requires b.Valid() && !b.trans && b.ColumnPart(j, lo, length) && length > 0
    ensures 0 <= b.LogicalAddr(lo, j) && b.LogicalAddr(lo, j) + length <= |b.data|
    ensures forall k :: lo <= k < lo + length ==> b.At(k, j) == b.data[b.LogicalAddr(lo, j) + k - lo]
  {
    hide Band.LogicalAddr, Band.InBand, Band.At;
    AddressInside(b, lo, j);
    AddressInside(b, lo + length - 1, j);
    NextInStorage(b, lo, j, length - 1);
    forall k | lo <= k < lo + length
      ensures b.At(k, j) == b.data[b.LogicalAddr(lo, j) + k - lo]
    {
      AddressInside(b, k, j);
      NextInStorage(b, lo, j, k - lo);
    }
  }

  /** Element (i, j) lies in the walk of its column and in the walk of its row, and nothing else does. */
  lemma WalksAreTheBand(b: Band, i: int, j: int)
    requires b.Valid() && 0 <= i < b.rows && 0 <= j < b.cols
    ensures b.InBand(i, j) <==> b.ColumnStart(j) <= i <= b.ColumnEnd(j)
    ensures b.InBand(i, j) <==> b.RowStart(i) <= j <= b.RowEnd(i)
  {
  }
}
