/** Packing whole windows block by block, and reading the result back as the window itself. */
module InterleaveView {
  import opened NumericUtils
  import opened Interleave
  import opened TriangularForm
  import Views

  /** A packing job: source window, destination shape, and the diagonals of the stored part. */
  datatype Packing = Packing(
    f: Flags, interleave: int,
    srcCntg: int, srcStrd: int, src: Source,
    dstCntg: int, dstStrd: int, dstStride: int,
    cntgFirst: int, cntgLast: int)
  {
    function CntgMin(): int {
      Min(srcCntg, dstCntg)
    }

    /** The rows of block q start at row q * interleave; only the last block can be short. */
    function BlockAt(q: int): Block {
      var s0 := q * interleave;
      Block(f, Min(interleave, srcStrd - s0), interleave, CntgMin(), dstCntg,
            if f.upperVirt then cntgFirst + s0 else cntgFirst,
            if f.lowerVirt then cntgLast + s0 else cntgLast,
            src, s0)
    }

    function Blocks(): int
      requires interleave >= 1 && srcStrd >= 0
    {
      IRoundDiv(srcStrd, interleave)
    }

    predicate IsVirtual(c: int, s: int) {
      (f.upperVirt && s > c - cntgFirst) || (f.lowerVirt && s < c - cntgLast)
    }

    predicate OnDiagonal(c: int, s: int) {
      (f.upperVirt && s == c - cntgFirst) || (f.lowerVirt && s == c - cntgLast)
    }

    /** The elements the kernel may read. */
    predicate Physical(c: int, s: int) {
      0 <= c < CntgMin() && 0 <= s < srcStrd && !IsVirtual(c, s) && !(f.diagVirt && OnDiagonal(c, s))
    }

    /** The kernel supports blocks of up to 20 rows; blocks must not overlap in the destination. */
    ghost predicate Valid() {
      && 1 <= interleave <= 20 && 0 <= srcCntg && 0 <= srcStrd <= dstStrd && 0 <= dstCntg
      && dstStride >= 1 && dstCntg * interleave <= dstStride
      && !(f.upperVirt && f.lowerVirt)
      && forall c, s :: Physical(c, s) ==> src.Has(c, s)
    }

    ghost predicate Fits(length: int)
      requires Valid()
    {
      Blocks() > 0 ==> (Blocks() - 1) * dstStride + dstCntg * interleave <= length
    }

    /** Where element (c, s) is packed. */
    function IndexOf(c: int, s: int): int
      requires interleave >= 1
    {
      (s / interleave) * dstStride + c * interleave + s % interleave
    }
  }

  /** The first `done` blocks are packed and nothing outside the packed blocks has changed. */
  ghost predicate Packed(w: Packing, now: seq<real>, was: seq<real>, done: int)
    requires w.Valid()
  {
    && |now| == |was|
    && forall k :: 0 <= k < |now| ==> now[k] == PackedAt(w, k, was[k], done)
  }

  /** What index k holds once the first `done` blocks are packed. */
  ghost function PackedAt(w: Packing, k: int, prev: real, done: int): real
    requires w.Valid()
  {
    var q, o := k / w.dstStride, k % w.dstStride;
    if 0 <= q < done && o < w.dstCntg * w.interleave
    then w.BlockAt(q).Cell(o / w.interleave, o % w.interleave, prev)
    else prev
  }

  lemma BlockValid(w: Packing, q: int)
    requires w.Valid() && 0 <= q && q * w.interleave < w.srcStrd
    ensures w.BlockAt(q).Valid()
  {
    hide Source.Has, Source.Get;
    var b := w.BlockAt(q);
    forall c, s | b.Physical(c, s - b.s0)
      ensures w.src.Has(c, s)
    {
      MulMonotone(0, q, w.interleave);
      assert w.Physical(c, s);
    }
  }

  /** Packing block q at its own place extends the packed part by that block. */
  lemma BlockStep(w: Packing, now: seq<real>, next: seq<real>, was: seq<real>, q: int)
    requires w.Valid() && 0 <= q && Packed(w, now, was, q)
    requires Filled(w.BlockAt(q), next, now, q * w.dstStride, w.dstCntg)
    ensures Packed(w, next, was, q + 1)
  {
    forall k | 0 <= k < |next|
      ensures next[k] == PackedAt(w, k, was[k], q + 1)
    {
      BlockStepAt(w, now[k], next[k], was[k], q, k);
    }
  }

  lemma BlockStepAt(w: Packing, now: real, next: real, was: real, q: int, k: int)
    requires w.Valid() && 0 <= q && 0 <= k && now == PackedAt(w, k, was, q)
    requires var b, d := w.BlockAt(q), q * w.dstStride;
             next == if d <= k < d + w.dstCntg * w.interleave then b.Cell(b.ColumnAt(k - d), b.LaneAt(k - d), now) else now
    ensures next == PackedAt(w, k, was, q + 1)
  {
    hide Block.Cell;
    var d := q * w.dstStride;
    DivModEquation(k, w.dstStride);
    var q', o := k / w.dstStride, k % w.dstStride;
    if d <= k < d + w.dstStride {
      DivMod(q, k - d, w.dstStride);
    } else {
      assert q' != q;
    }
  }

  lemma BlockCount(w: Packing, q: int)
    requires w.Valid() && 0 <= q
    ensures q < w.Blocks() <==> q * w.interleave < w.srcStrd
  {
    IRoundDivBounds(w.srcStrd, w.interleave);
    hide Source.Has, IRoundDiv;
    var n := w.Blocks();
    if q < n {
      MulMonotone(q, n - 1, w.interleave);
    } else {
      MulMonotone(n, q, w.interleave);
    }
  }

  lemma BlockRoom(w: Packing, q: int, length: int)
    requires w.Valid() && w.Fits(length) && 0 <= q < w.Blocks()
    ensures 0 <= q * w.dstStride && q * w.dstStride + w.dstCntg * w.interleave <= length
  {
    hide Source.Has, IRoundDiv;
    MulMonotone(0, q, w.dstStride);
    MulMonotone(q, w.Blocks() - 1, w.dstStride);
  }

  /** One call of n_interleave_cntg_loop for the rows that start at row q * interleave. */
  method PackBlock(w: Packing, q: int, dst: array<real>, ghost was: seq<real>)
    requires w.Valid() && w.Fits(dst.Length) && 0 <= q && q * w.interleave < w.srcStrd
    requires Packed(w, dst[..], was, q)
    modifies dst
    ensures Packed(w, dst[..], was, q + 1)
  {
    BlockValid(w, q);
    BlockCount(w, q);
    BlockRoom(w, q, dst.Length);
    hide Packed, Filled, Block.Valid, Packing.Valid, Packing.Fits;
    ghost var now := dst[..];
    NInterleaveCntgLoop(w.BlockAt(q), dst, q * w.dstStride);
    BlockStep(w, now, dst[..], was, q);
  }

  /** omni_interleave: full blocks of rows, then whatever rows are left over. */
  method OmniInterleave(w: Packing, dst: array<real>)
    requires w.Valid() && w.Fits(dst.Length)
    modifies dst
    ensures Packed(w, dst[..], old(dst[..]), w.Blocks())
  {
    ghost var was := dst[..];
    assert Packed(w, dst[..], was, 0);
    var strdMin := Min(w.srcStrd, w.dstStrd);
    var fullStrdEnd, q := 0, 0;
    IRoundDivBounds(w.srcStrd, w.interleave);
    hide Packed, IRoundDiv, Source.Has, Packing.IsVirtual;
    while fullStrdEnd <= strdMin - w.interleave
      invariant 0 <= q && fullStrdEnd == q * w.interleave && fullStrdEnd <= w.srcStrd
      invariant Packed(w, dst[..], was, q)
      decreases strdMin - fullStrdEnd
    {
      PackBlock(w, q, dst, was);
      MulAdd(q, 1, w.interleave);
      fullStrdEnd, q := fullStrdEnd + w.interleave, q + 1;
    }
    if w.srcStrd - fullStrdEnd > 0 {
      PackBlock(w, q, dst, was);
      MulAdd(q, 1, w.interleave);
      q := q + 1;
    }
    BlockCountIs(w, q);
  }

  lemma BlockCountIs(w: Packing, q: int)
    requires w.Valid() && 0 <= q && w.srcStrd <= q * w.interleave < w.srcStrd + w.interleave
    ensures q == w.Blocks()
  {
    hide Source.Has, Packing.IsVirtual;
    BlockCount(w, q);
    if q > 0 {
      MulAdd(q, 1, w.interleave);
      BlockCount(w, q - 1);
    } else {
      IRoundDivBounds(w.srcStrd, w.interleave);
      MulCancelLess(-1, w.Blocks(), w.interleave);
    }
  }

  // ---------- reading the packed window back ----------

  /** The cell of element (c, s) holds what its block says, for columns up to the packed width. */
  lemma CellOfElement(w: Packing, now: seq<real>, was: seq<real>, c: int, s: int)
    requires w.Valid() && w.Fits(|now|) && Packed(w, now, was, w.Blocks())
    requires 0 <= c < w.dstCntg && 0 <= s < IRound(w.srcStrd, w.interleave)
    ensures var k := w.IndexOf(c, s);
            && 0 <= k < |now|
            && now[k] == w.BlockAt(s / w.interleave).Cell(c, s % w.interleave, was[k])
  {
    hide Source.Has, Packing.IsVirtual, Block.Cell;
    var i, k := w.interleave, w.IndexOf(c, s);
    var q, l := s / i, s % i;
    DivModEquation(s, i);
    MulCancelLess(-1, q, i);
    IRoundIsCeiling(w.srcStrd, i);
    DivModEquation(IRound(w.srcStrd, i), i);
    MulCancelLess(q, w.Blocks(), i);
    hide IRoundDiv, IRound;
    BlockRoom(w, q, |now|);
    MulMonotone(c + 1, w.dstCntg, i);
    MulAdd(c, 1, i);
    MulMonotone(0, c, i);
    DivMod(q, c * i + l, w.dstStride);
    DivMod(c, l, i);
    assert now[k] == PackedAt(w, k, was[k], w.Blocks());
  }

  /** The job of n_cpp_interleave and t_cpp_interleave for a triangular window. */
  function TriangularPacking(t: Window, unit: bool, zeroPad: bool, interleave: int, src: Source,
                             dstCntg: int, dstStrd: int, dstStride: int): Packing
  {
    // A lower matrix has its virtual part above the diagonal, hence UpperVirt, and the reverse.
    var f := Flags(t.lower, !t.lower, unit, unit, true, zeroPad);
    var offset := t.absStrd - t.absCntg;
    Packing(f, interleave, t.cntg, t.strd, src, dstCntg, dstStrd, dstStride,
            if t.lower then offset else 0, if t.lower then 0 else offset)
  }

  /** triangular_matrix::operator(). */
  ghost function TriangularAt(t: Window, unit: bool, src: Source, c: int, s: int): real {
    if OnDiagonal(t, c, s) && unit then 1.0
    else if !NonVirtual(t, c, s) then 0.0
    else if src.Has(c, s) then src.Get(c, s) else 0.0
  }

  /** The window only reads what it stores. */
  ghost predicate Stored(t: Window, unit: bool, src: Source) {
    forall c, s ::
      0 <= c < t.cntg && 0 <= s < t.strd && NonVirtual(t, c, s) && !(unit && OnDiagonal(t, c, s)) ==> src.Has(c, s)
  }

  lemma TriangularPackingValid(t: Window, unit: bool, zeroPad: bool, interleave: int, src: Source,
                               dstCntg: int, dstStrd: int, dstStride: int)
    requires 1 <= interleave <= 20 && 0 <= t.cntg <= dstCntg && 0 <= t.strd <= dstStrd
    requires dstStride >= 1 && dstCntg * interleave <= dstStride && Stored(t, unit, src)
    ensures TriangularPacking(t, unit, zeroPad, interleave, src, dstCntg, dstStrd, dstStride).Valid()
  {
    hide Source.Has;
  }

  lemma BlockCellIsView(t: Window, unit: bool, w: Packing, q: int, c: int, l: int, prev: real)
    requires w == TriangularPacking(t, unit, w.f.zeroPad, w.interleave, w.src, w.dstCntg, w.dstStrd, w.dstStride)
    requires w.Valid() && t.cntg <= w.dstCntg && Stored(t, unit, w.src)
    requires 0 <= q && 0 <= l < w.interleave && 0 <= c
    ensures var cell := w.BlockAt(q).Cell(c, l, prev);
            && (c < t.cntg && q * w.interleave + l < t.strd ==>
                  cell == TriangularAt(t, unit, w.src, c, q * w.interleave + l))
            && (t.cntg <= c && (q * w.interleave + l < t.strd || w.f.zeroPad) ==> cell == 0.0)
            && (t.strd <= q * w.interleave + l && w.f.zeroPad ==> cell == 0.0)
            && (t.strd <= q * w.interleave + l && !w.f.zeroPad ==> cell == prev)
  {
    hide Source.Get, Source.Addr;
    MulMonotone(0, q, w.interleave);
  }

  /** The triangular view of the library onto the same memory. */
  function ViewOf(t: Window, unit: bool, src: Source): Views.Adaptor {
    var base := Views.View(src.data, src.base, t.cntg, t.strd, src.cntgStride, src.strdStride, t.absCntg, t.absStrd);
    Views.Triangular(base, !t.lower, unit)
  }

  lemma TriangularAtIsView(t: Window, unit: bool, src: Source, c: int, s: int)
    ensures TriangularAt(t, unit, src, c, s) == ViewOf(t, unit, src).Value(c, s)
  {
  }

  /** A cell of the packed memory is where it belongs and holds v. */
  ghost predicate CellHolds(dst: seq<real>, interleave: int, dstStride: int, c: int, s: int, v: real)
    requires interleave >= 1
  {
    var k := (s / interleave) * dstStride + c * interleave + s % interleave;
    0 <= k < |dst| && dst[k] == v
  }

  lemma CellIs(w: Packing, dst: seq<real>, c: int, s: int)
    requires w.interleave >= 1 && 0 <= w.IndexOf(c, s) < |dst|
    ensures CellHolds(dst, w.interleave, w.dstStride, c, s, dst[w.IndexOf(c, s)])
  {
  }

  /** What (c, s) reads back as: the view, zero in the slack, and in unpadded lanes what was there. */
  ghost predicate ReadsAsView(t: Window, unit: bool, zeroPad: bool, interleave: int, src: Source,
                              dstStride: int, was: seq<real>, now: seq<real>, c: int, s: int)
    requires interleave >= 1
  {
    if c < t.cntg && s < t.strd then
      CellHolds(now, interleave, dstStride, c, s, ViewOf(t, unit, src).Value(c, s))
    else if s < t.strd || zeroPad then
      CellHolds(now, interleave, dstStride, c, s, 0.0)
    else
      exists v :: CellHolds(was, interleave, dstStride, c, s, v) && CellHolds(now, interleave, dstStride, c, s, v)
  }

  lemma PackedShape(w: Packing, was: seq<real>, now: seq<real>)
    requires w.Valid() && Packed(w, now, was, w.Blocks())
    ensures w.interleave >= 1 && |was| == |now|
  {
  }

  lemma CellReadsAsView(t: Window, unit: bool, w: Packing, was: seq<real>, now: seq<real>, c: int, s: int)
    requires w == TriangularPacking(t, unit, w.f.zeroPad, w.interleave, w.src, w.dstCntg, w.dstStrd, w.dstStride)
    requires w.Valid() && w.Fits(|now|) && Packed(w, now, was, w.Blocks()) && t.cntg <= w.dstCntg
    requires Stored(t, unit, w.src) && 0 <= c < w.dstCntg && 0 <= s < IRound(t.strd, w.interleave)
    ensures ReadsAsView(t, unit, w.f.zeroPad, w.interleave, w.src, w.dstStride, was, now, c, s)
  {
    hide Packed, Packing.Valid, Packing.Fits, Stored, IRound, IRoundDiv, Packing.IndexOf, CellHolds;
    hide TriangularAt, Views.Adaptor.Value;
    PackedShape(w, was, now);
    CellOfElement(w, now, was, c, s);
    DivModEquation(s, w.interleave);
    MulCancelLess(-1, s / w.interleave, w.interleave);
    BlockCellIsView(t, unit, w, s / w.interleave, c, s % w.interleave, was[w.IndexOf(c, s)]);
    TriangularAtIsView(t, unit, w.src, c, s);
    CellIs(w, now, c, s);
    CellIs(w, was, c, s);
  }

  /**
   * Packing a triangular window writes out the window itself: every element (c, s) of the
   * source reads back as the triangular view gives it, and the slack reads zero.
   */
  method PackTriangle(t: Window, unit: bool, zeroPad: bool, interleave: int, src: Source,
                      dstCntg: int, dstStrd: int, dst: array<real>, dstStride: int)
    requires 1 <= interleave <= 20 && 0 <= t.cntg <= dstCntg && 0 <= t.strd <= dstStrd
    requires dstStride >= 1 && dstCntg * interleave <= dstStride && Stored(t, unit, src)
    requires t.strd > 0 ==> (IRoundDiv(t.strd, interleave) - 1) * dstStride + dstCntg * interleave <= dst.Length
    modifies dst
    ensures forall c, s :: 0 <= c < dstCntg && 0 <= s < IRound(t.strd, interleave) ==>
              ReadsAsView(t, unit, zeroPad, interleave, src, dstStride, old(dst[..]), dst[..], c, s)
  {
    var w := TriangularPacking(t, unit, zeroPad, interleave, src, dstCntg, dstStrd, dstStride);
    TriangularPackingValid(t, unit, zeroPad, interleave, src, dstCntg, dstStrd, dstStride);
    ghost var was := dst[..];
    RoomForBlocks(w, dst.Length);
    OmniInterleave(w, dst);
    hide Packed, Packing.Valid, Packing.Fits, Stored, IRound, IRoundDiv, ReadsAsView;
    forall c, s | 0 <= c < dstCntg && 0 <= s < IRound(t.strd, interleave)
      ensures ReadsAsView(t, unit, zeroPad, interleave, src, dstStride, was, dst[..], c, s)
    {
      CellReadsAsView(t, unit, w, was, dst[..], c, s);
    }
  }

  lemma RoomForBlocks(w: Packing, length: int)
    requires w.Valid()
    requires w.srcStrd > 0 ==> (IRoundDiv(w.srcStrd, w.interleave) - 1) * w.dstStride + w.dstCntg * w.interleave <= length
    ensures w.Fits(length)
  {
    hide Source.Has;
    IRoundDivBounds(w.srcStrd, w.interleave);
    if w.srcStrd == 0 {
      MulCancelLess(w.Blocks() - 1, 0, w.interleave);
    }
  }
}
