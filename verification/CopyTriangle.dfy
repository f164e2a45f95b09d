/** Copying into, or out of, a window of a triangle: nothing on the virtual side may change. */
module CopyTriangle {
  import opened NumericUtils
  import opened TriangularForm

  /** A length-long stretch of row s, from column first. */
  method CopyKernel(src: array2<real>, dst: array2<real>, s: int, first: int, length: int)
    requires src != dst && 0 <= s < src.Length1 && s < dst.Length1
    requires 0 <= first && 0 <= length && first + length <= src.Length0 && first + length <= dst.Length0
    modifies dst
    ensures forall i, j :: 0 <= i < dst.Length0 && 0 <= j < dst.Length1 ==>
              dst[i, j] == if j == s && first <= i < first + length then src[i, j] else old(dst[i, j])
  {
    for q := 0 to length
      invariant forall i, j :: 0 <= i < dst.Length0 && 0 <= j < dst.Length1 ==>
                  dst[i, j] == if j == s && first <= i < first + q then src[i, j] else old(dst[i, j])
    {
      dst[first + q, s] := src[first + q, s];
    }
  }

  /** Element (i, j) is copied when it is stored; everything else stays. */
  twostate predicate Copied(w: Window, src: array2<real>, dst: array2<real>, rows: int)
    requires src.Length0 == dst.Length0 && src.Length1 == dst.Length1
    reads src, dst
  {
    forall i, j :: 0 <= i < dst.Length0 && 0 <= j < dst.Length1 ==>
      dst[i, j] == if j < rows && NonVirtual(w, i, j) then src[i, j] else old(dst[i, j])
  }

  /**
   * copy_to_tri and copy_from_tri between matrices of one size, w describing the triangular one: the
   * first and last column of a row are not computed again but moved along with the diagonal.
   */
  method CopyTri(w: Window, src: array2<real>, dst: array2<real>)
    requires src != dst && src.Length0 == dst.Length0 == w.cntg && src.Length1 == dst.Length1 == w.strd
    modifies dst
    ensures Copied(w, src, dst, w.strd)
  {
    if !w.lower {
      var (strdFirst, strdLast) := StrdBounds(w, 0);
      var (_, cntgLast) := CntgBounds(w, strdFirst);
      var end := Min(strdLast, src.Length1);
      for i := strdFirst to end
        invariant i < w.strd ==> cntgLast == CntgBounds(w, i).1
        invariant Copied(w, src, dst, i)
      {
        CopyKernel(src, dst, i, 0, cntgLast);
        cntgLast := Min(cntgLast + 1, w.cntg);
      }
    } else {
      var (_, strdLast) := StrdBounds(w, 0);
      var (cntgFirst, cntgLast) := CntgBounds(w, strdLast);
      var end := Min(strdLast + w.cntg - 1, w.strd);
      for i := 0 to strdLast
        invariant Copied(w, src, dst, i)
      {
        CopyKernel(src, dst, i, 0, w.cntg);
      }
      for i := strdLast to Max(end, strdLast)
        invariant i < w.strd ==> cntgFirst == CntgBounds(w, i).0
        invariant Copied(w, src, dst, i)
      {
        var length := cntgLast - cntgFirst;
        if length == 0 {
          break;
        }
        CopyKernel(src, dst, i, cntgFirst, length);
        cntgFirst := cntgFirst + 1;
      }
    }
  }

  // ---------- the general copy, between matrices of any two sizes ----------

  /** The stretch of row j that the general copy fills with zeros when the source is narrower. */
  predicate ZeroedInRow(w: Window, srcCntg: int, i: int, j: int) {
    Min(srcCntg, CntgBounds(w, j).1) <= i < CntgBounds(w, j).1
  }

  /** What element (i, j) of the destination holds afterwards. */
  function Fallback(w: Window, srcCntg: int, rows: int, zeroSlack: bool, src: real, was: real, i: int, j: int): real {
    if j < rows then
      if NonVirtual(w, i, j) && i < srcCntg then src
      else if zeroSlack && ZeroedInRow(w, srcCntg, i, j) then 0.0
      else was
    else if zeroSlack && NonVirtual(w, i, j) then 0.0
    else was
  }

  method FillZeros(dst: array2<real>, s: int, first: int, last: int)
    requires 0 <= s < dst.Length1 && 0 <= first && last <= dst.Length0
    modifies dst
    ensures forall i, j :: 0 <= i < dst.Length0 && 0 <= j < dst.Length1 ==>
              dst[i, j] == if j == s && first <= i < last then 0.0 else old(dst[i, j])
  {
    var i := first;
    while i < last
      invariant forall i', j :: 0 <= i' < dst.Length0 && 0 <= j < dst.Length1 ==>
                  dst[i', j] == if j == s && first <= i' < Min(i, last) then 0.0 else old(dst[i', j])
      invariant first <= i
    {
      dst[i, s] := 0.0;
      i := i + 1;
    }
  }

  /** copy_fallback. */
  method CopyFallback(w: Window, src: array2<real>, dst: array2<real>, zeroSlack: bool)
    requires src != dst && dst.Length0 == w.cntg && dst.Length1 == w.strd
    modifies dst
    ensures forall i, j :: 0 <= i < dst.Length0 && 0 <= j < dst.Length1 ==>
              dst[i, j] == Fallback(w, src.Length0, Min(src.Length1, w.strd), zeroSlack,
                                    if i < src.Length0 && j < src.Length1 then src[i, j] else 0.0, old(dst[i, j]), i, j)
  {
    var strdLast := Min(src.Length1, w.strd);
    for i := 0 to strdLast
      invariant forall c, s :: 0 <= c < dst.Length0 && 0 <= s < dst.Length1 ==>
                  dst[c, s] == if s >= i then old(dst[c, s])
                               else Fallback(w, src.Length0, strdLast, zeroSlack,
                                             if c < src.Length0 && s < src.Length1 then src[c, s] else 0.0,
                                             old(dst[c, s]), c, s)
    {
      var (cntgFirst, dstCntgLast) := CntgBounds(w, i);
      var cntgLast := Min(src.Length0, dstCntgLast);
      if cntgFirst < cntgLast {
        CopyKernel(src, dst, i, cntgFirst, cntgLast - cntgFirst);
      }
      if zeroSlack {
        FillZeros(dst, i, cntgLast, dstCntgLast);
      }
      forall c | 0 <= c < dst.Length0
        ensures NonVirtual(w, c, i) <==> cntgFirst <= c < dstCntgLast
      {
        CntgBoundsExact(w, c, i, Yes);
      }
    }
    if zeroSlack {
      for i := strdLast to w.strd
        invariant forall c, s :: 0 <= c < dst.Length0 && 0 <= s < dst.Length1 ==>
                    dst[c, s] == if s >= i then old(dst[c, s])
                                 else Fallback(w, src.Length0, strdLast, zeroSlack,
                                               if c < src.Length0 && s < src.Length1 then src[c, s] else 0.0,
                                               old(dst[c, s]), c, s)
      {
        var (cntgFirst, cntgLast) := CntgBounds(w, i);
        FillZeros(dst, i, cntgFirst, cntgLast);
        forall c | 0 <= c < dst.Length0
          ensures NonVirtual(w, c, i) <==> cntgFirst <= c < cntgLast
        {
          CntgBoundsExact(w, c, i, Yes);
        }
      }
    }
  }

  /**
   * The zeros stay on the stored side exactly when the last row that is copied starts within the source.
   * Otherwise, for a narrow source and a lower destination, they reach into the virtual side of it.
   */
  lemma ZerosSpareTheVirtualSide(w: Window, srcCntg: int, rows: int)
    requires 0 <= srcCntg && 0 <= rows <= w.strd && 0 <= w.cntg
    ensures (forall i, j :: 0 <= i < w.cntg && 0 <= j < rows && ZeroedInRow(w, srcCntg, i, j) ==> NonVirtual(w, i, j))
            <==> (rows > 0 ==> CntgBounds(w, rows - 1).0 <= srcCntg)
  {
    if rows > 0 && srcCntg < CntgBounds(w, rows - 1).0 {
      assert ZeroedInRow(w, srcCntg, srcCntg, rows - 1) && !NonVirtual(w, srcCntg, rows - 1);
    }
  }

  /**
   * Every stored element of the destination ends as the source's, where the source has it. Where the source
   * is too small for it, it ends as zero if zero slack was asked for and otherwise as it was; and without
   * zero slack nothing else has changed.
   */
  lemma FallbackPads(w: Window, srcCntg: int, srcStrd: int, zeroSlack: bool, src: real, was: real, i: int, j: int)
    requires 0 <= i < w.cntg && 0 <= j < w.strd && 0 <= srcCntg && 0 <= srcStrd
    ensures var v := Fallback(w, srcCntg, Min(srcStrd, w.strd), zeroSlack, src, was, i, j);
            && (NonVirtual(w, i, j) && i < srcCntg && j < srcStrd ==> v == src)
            && (NonVirtual(w, i, j) && !(i < srcCntg && j < srcStrd) ==> v == if zeroSlack then 0.0 else was)
            && (!NonVirtual(w, i, j) && (!zeroSlack || j >= srcStrd || i < srcCntg) ==> v == was)
  {
    CntgBoundsExact(w, i, j, Yes);
  }

  /** Between matrices of one size both copies do the same, zeros or not. */
  lemma FallbackOfOneSize(w: Window, zeroSlack: bool, src: real, was: real, i: int, j: int)
    requires 0 <= i < w.cntg && 0 <= j < w.strd
    ensures Fallback(w, w.cntg, w.strd, zeroSlack, src, was, i, j) == if NonVirtual(w, i, j) then src else was
  {
  }
}
