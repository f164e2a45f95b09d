/** Cutting the virtual margin off a triangular C, in whole units of the packing of A and B. */
module Crop {
  import opened NumericUtils
  import opened TriangularForm

  /** First position and size of the block kept in each dimension. */
  datatype Block = Block(cntgFirst: int, cntgSize: int, strdFirst: int, strdSize: int)

  function CropBlock(c: Window, cntgUnroll: int, strdUnroll: int): Block
    requires cntgUnroll > 0 && strdUnroll > 0
  {
    var (cntgFirst, cntgLast) := CntgBoundsAll(c);
    var (strdFirst, strdLast) := StrdBoundsAll(c);
    var cntgFirstFlr := Max(IRoundFloor(cntgFirst, cntgUnroll), 0);
    var cntgLastCeil := Min(IRound(cntgLast, cntgUnroll), c.cntg);
    var strdFirstFlr := Max(IRoundFloor(strdFirst, strdUnroll), 0);
    var strdLastCeil := Min(IRound(strdLast, strdUnroll), c.strd);
    Block(cntgFirstFlr, cntgLastCeil - cntgFirstFlr, strdFirstFlr, strdLastCeil - strdFirstFlr)
  }

  /** Whether an element of C survives. */
  predicate Kept(b: Block, c: int, s: int) {
    b.cntgFirst <= c < b.cntgFirst + b.cntgSize && b.strdFirst <= s < b.strdFirst + b.strdSize
  }

  /** The bounds of a window that is not empty lie inside it. */
  lemma HullsInside(w: Window)
    requires w.cntg > 0 && w.strd > 0
    ensures 0 <= CntgBoundsAll(w).0 <= CntgBoundsAll(w).1 <= w.cntg
    ensures 0 <= StrdBoundsAll(w).0 <= StrdBoundsAll(w).1 <= w.strd
  {
  }

  /** Rounding bounds outwards to units, but not beyond the window, keeps them and adds less than a unit. */
  lemma RoundedOut(first: int, last: int, size: int, unroll: int)
    requires unroll > 0 && 0 <= first <= last <= size
    ensures var lo, hi := Max(IRoundFloor(first, unroll), 0), Min(IRound(last, unroll), size);
            0 <= lo <= first < lo + unroll && last <= hi < last + unroll && hi <= size
            && lo % unroll == 0 && (hi % unroll == 0 || hi == size)
  {
    IRoundFloorIsFloor(first, unroll);
    IRoundIsCeiling(last, unroll);
    if IRoundFloor(first, unroll) < 0 {
      DivModEquation(IRoundFloor(first, unroll), unroll);
      RemDivides(first, unroll);
      DivModEquation(first, unroll);
    }
    ModOfMultiple(0, unroll);
  }

  /** crop never discards an element of C that is really there, and stays inside C and on unit boundaries. */
  lemma CropKeepsEverything(c: Window, cntgUnroll: int, strdUnroll: int, i: int, j: int)
    requires c.cntg > 0 && c.strd > 0 && cntgUnroll > 0 && strdUnroll > 0
    ensures var b := CropBlock(c, cntgUnroll, strdUnroll);
            && 0 <= b.cntgFirst && 0 <= b.cntgSize && b.cntgFirst + b.cntgSize <= c.cntg
            && 0 <= b.strdFirst && 0 <= b.strdSize && b.strdFirst + b.strdSize <= c.strd
            && b.cntgFirst % cntgUnroll == 0 && b.strdFirst % strdUnroll == 0
            && ((b.cntgFirst + b.cntgSize) % cntgUnroll == 0 || b.cntgFirst + b.cntgSize == c.cntg)
            && ((b.strdFirst + b.strdSize) % strdUnroll == 0 || b.strdFirst + b.strdSize == c.strd)
            && (0 <= i < c.cntg && 0 <= j < c.strd && NonVirtual(c, i, j) ==> Kept(b, i, j))
  {
    HullsInside(c);
    RoundedOut(CntgBoundsAll(c).0, CntgBoundsAll(c).1, c.cntg, cntgUnroll);
    RoundedOut(StrdBoundsAll(c).0, StrdBoundsAll(c).1, c.strd, strdUnroll);
    if 0 <= i < c.cntg && 0 <= j < c.strd && NonVirtual(c, i, j) {
      HullsHoldEverything(c, i, j);
    }
  }

  /** An element of the block is an element of C, and as virtual there as here. */
  lemma CropMoves(c: Window, b: Block, i: int, j: int)
    ensures var block := SubWindow(c, b.cntgFirst, b.cntgSize, b.strdFirst, b.strdSize);
            NonVirtual(block, i - b.cntgFirst, j - b.strdFirst) <==> NonVirtual(c, i, j)
  {
  }

  /** Nothing smaller would do: each of the four bounds has an element of C at it. */
  lemma HullsAreTight(w: Window, c: int, s: int) returns (first: int, last: int, low: int, high: int)
    requires 0 <= c < w.cntg && 0 <= s < w.strd && NonVirtual(w, c, s)
    ensures 0 <= first < w.strd && NonVirtual(w, CntgBoundsAll(w).0, first)
    ensures 0 <= last < w.strd && NonVirtual(w, CntgBoundsAll(w).1 - 1, last)
    ensures 0 <= low < w.cntg && NonVirtual(w, low, StrdBoundsAll(w).0)
    ensures 0 <= high < w.cntg && NonVirtual(w, high, StrdBoundsAll(w).1 - 1)
  {
    if w.lower {
      first, last, low, high := 0, 0, w.cntg - 1, w.cntg - 1;
    } else {
      first, last, low, high := w.strd - 1, w.strd - 1, 0, 0;
    }
  }

  /** So the block exceeds the elements it must hold by less than a unit on every side. */
  lemma CropIsTight(c: Window, cntgUnroll: int, strdUnroll: int)
    requires c.cntg > 0 && c.strd > 0 && cntgUnroll > 0 && strdUnroll > 0
    ensures var b := CropBlock(c, cntgUnroll, strdUnroll);
            && CntgBoundsAll(c).0 < b.cntgFirst + cntgUnroll && b.cntgFirst + b.cntgSize < CntgBoundsAll(c).1 + cntgUnroll
            && StrdBoundsAll(c).0 < b.strdFirst + strdUnroll && b.strdFirst + b.strdSize < StrdBoundsAll(c).1 + strdUnroll
  {
    HullsInside(c);
    RoundedOut(CntgBoundsAll(c).0, CntgBoundsAll(c).1, c.cntg, cntgUnroll);
    RoundedOut(StrdBoundsAll(c).0, StrdBoundsAll(c).1, c.strd, strdUnroll);
  }
}
