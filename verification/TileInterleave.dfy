/**
 * Packing a matrix into tiles: I contiguous by S strided elements per tile, the tiles of one strided
 * band after another, and the matrix that reads the tiles back.
 */
module TileInterleave {
  import opened NumericUtils
  import opened Views

  /** The tile shape, and the distance between two bands of tiles. */
  datatype Tiling = Tiling(cntgInterleave: int, strdInterleave: int, strdTileStep: int) {

    /** Bands of `width` contiguous elements do not run into each other. */
    ghost predicate Fits(width: int) {
      && cntgInterleave > 0 && strdInterleave > 0 && strdTileStep > 0
      && width >= 0 && IRoundDiv(width, cntgInterleave) * TileSize() <= strdTileStep
    }

    ghost predicate Shape() {
      cntgInterleave > 0 && strdInterleave > 0 && strdTileStep > 0 && TileSize() > 0
    }

    function TileSize(): int {
      cntgInterleave * strdInterleave
    }

    /** Where the elements of a tile start in the two dimensions of the matrix. */
    function FirstCntg(ct: int): int {
      ct * cntgInterleave
    }
    function FirstStrd(st: int): int {
      st * strdInterleave
    }

    /** Address of element (ci, si) of tile (ct, st). */
    function Cell(ct: int, ci: int, st: int, si: int): int {
      ct * TileSize() + ci + (st * strdTileStep + si * cntgInterleave)
    }

    /** get_elem_index, for the steps the packing uses. */
    function ElemIndex(cntg: int, strd: int): int
      requires cntgInterleave > 0 && strdInterleave > 0
    {
      Cell(cntg / cntgInterleave, cntg % cntgInterleave, strd / strdInterleave, strd % strdInterleave)
    }

    // Where an address belongs: the inverse of ElemIndex.

    ghost function CntgOf(k: int): int
      requires Shape()
    {
      var inBand := k % strdTileStep;
      (inBand / TileSize()) * cntgInterleave + (inBand % TileSize()) % cntgInterleave
    }

    ghost function StrdOf(k: int): int
      requires Shape()
    {
      (k / strdTileStep) * strdInterleave + ((k % strdTileStep) % TileSize()) / cntgInterleave
    }

    ghost predicate InRect(k: int, c0: int, c1: int, s0: int, s1: int)
      requires Shape()
    {
      c0 <= CntgOf(k) < c1 && s0 <= StrdOf(k) < s1
    }
  }

  lemma TileSizePositive(t: Tiling)
    requires t.cntgInterleave > 0 && t.strdInterleave > 0
    ensures t.TileSize() > 0
  {
    MulMonotone(1, t.cntgInterleave, t.strdInterleave);
  }

  // ---------- the address map and its inverse ----------

  /** Element (ci, si) of a tile, counted inside the tile. */
  lemma InsideTile(t: Tiling, ci: int, si: int)
    requires 0 <= ci < t.cntgInterleave && 0 <= si < t.strdInterleave
    ensures 0 <= si * t.cntgInterleave + ci < t.TileSize()
  {
    MulMonotone(0, si, t.cntgInterleave);
    MulMonotone(si + 1, t.strdInterleave, t.cntgInterleave);
    MulAdd(si, 1, t.cntgInterleave);
  }

  /** The address of a cell leads back to it. */
  lemma CellPlace(t: Tiling, width: int, ct: int, ci: int, st: int, si: int)
    requires t.Fits(width) && 0 <= ct < IRoundDiv(width, t.cntgInterleave) && 0 <= st
    requires 0 <= ci < t.cntgInterleave && 0 <= si < t.strdInterleave
    ensures t.Shape()
    ensures var k := t.Cell(ct, ci, st, si);
            && 0 <= k && t.CntgOf(k) == t.FirstCntg(ct) + ci && t.StrdOf(k) == t.FirstStrd(st) + si
  {
    TileSizePositive(t);
    var tiles := IRoundDiv(width, t.cntgInterleave);
    hide IRoundDiv;
    var inside := si * t.cntgInterleave + ci;
    var inBand := ct * t.TileSize() + inside;
    InsideTile(t, ci, si);
    MulMonotone(0, ct, t.TileSize());
    MulMonotone(ct + 1, tiles, t.TileSize());
    MulAdd(ct, 1, t.TileSize());
    hide Tiling.TileSize;
    DivMod(st, inBand, t.strdTileStep);
    DivMod(ct, inside, t.TileSize());
    DivMod(si, ci, t.cntgInterleave);
    MulMonotone(0, st, t.strdTileStep);
    assert t.Cell(ct, ci, st, si) == st * t.strdTileStep + inBand;
  }

  lemma ElemPlace(t: Tiling, width: int, c: int, s: int)
    requires t.Fits(width) && 0 <= c < IRound(width, t.cntgInterleave) && 0 <= s
    ensures t.Shape()
    ensures 0 <= t.ElemIndex(c, s) && t.CntgOf(t.ElemIndex(c, s)) == c && t.StrdOf(t.ElemIndex(c, s)) == s
  {
    var i := t.cntgInterleave;
    DivModEquation(c, i);
    DivModEquation(s, t.strdInterleave);
    RoundedWidth(width, i);
    hide IRound, IRoundDiv, Tiling.TileSize, Tiling.Cell;
    MulCancelLess(c / i, IRoundDiv(width, i), i);
    MulCancelLess(-1, c / i, i);
    MulCancelLess(-1, s / t.strdInterleave, t.strdInterleave);
    CellPlace(t, width, c / i, c % i, s / t.strdInterleave, s % t.strdInterleave);
  }

  lemma RoundedWidth(width: int, r: int)
    requires r > 0 && width >= 0
    ensures IRoundDiv(width, r) * r == IRound(width, r)
  {
    IRoundIsCeiling(width, r);
    DivModEquation(IRound(width, r), r);
  }

  /** And the place an address belongs to leads back to the address. */
  lemma PlaceElem(t: Tiling, k: int)
    requires t.Shape() && 0 <= k
    ensures t.ElemIndex(t.CntgOf(k), t.StrdOf(k)) == k
  {
    var inBand := k % t.strdTileStep;
    var inside := inBand % t.TileSize();
    DivModEquation(k, t.strdTileStep);
    DivModEquation(inBand, t.TileSize());
    DivModEquation(inside, t.cntgInterleave);
    MulCancelLess(-1, inside / t.cntgInterleave, t.cntgInterleave);
    MulCancelLess(inside / t.cntgInterleave, t.strdInterleave, t.cntgInterleave);
    assert t.TileSize() == t.strdInterleave * t.cntgInterleave;
    hide Tiling.TileSize;
    DivMod(inBand / t.TileSize(), inside % t.cntgInterleave, t.cntgInterleave);
    DivMod(k / t.strdTileStep, inside / t.cntgInterleave, t.strdInterleave);
  }

  /**
   * The layout: within a tile contiguous neighbours are adjacent and strided neighbours one interleave
   * apart; the next tile follows the whole tile, and the next band starts a band's step further.
   */
  lemma TileLayout(t: Tiling, c: int, s: int)
    requires t.cntgInterleave > 0 && t.strdInterleave > 0
    ensures var i, j := t.cntgInterleave, t.strdInterleave;
            && t.ElemIndex(0, 0) == 0
            && (c % i != i - 1 ==> t.ElemIndex(c + 1, s) == t.ElemIndex(c, s) + 1)
            && (s % j != j - 1 ==> t.ElemIndex(c, s + 1) == t.ElemIndex(c, s) + i)
            && t.ElemIndex(c + i, s) == t.ElemIndex(c, s) + i * j
            && t.ElemIndex(c, s + j) == t.ElemIndex(c, s) + t.strdTileStep
  {
    var i, j := t.cntgInterleave, t.strdInterleave;
    DivMod(0, 0, i);
    DivMod(0, 0, j);
    NextIn(c, i, 1);
    NextIn(s, j, 1);
    DivModEquation(c, i);
    DivModEquation(s, j);
    MulAdd(c / i, 1, t.TileSize());
    MulAdd(s / j, 1, t.strdTileStep);
    MulAdd(s % j, 1, i);
    assert t.TileSize() == i * j;
    hide Tiling.TileSize;
  }

  // ---------- what has been packed ----------

  /** A packing: the source, how much of it there is, and the tiles it goes to. */
  datatype Packing = Packing(t: Tiling, src: View, cntg: int) {

    /** What a cell must hold: the source, or zero in the slack of the contiguous dimension. */
    function Value(c: int, s: int): real {
      if c < cntg then src.At(src.Addr(c, s)) else 0.0
    }

    ghost predicate Valid(width: int) {
      t.Fits(width) && t.Shape() && cntg <= width
    }
  }

  /** Cells of the rectangle hold their values, every other place is as before. */
  ghost predicate Filled(p: Packing, was: seq<real>, now: seq<real>, c0: int, c1: int, s0: int, s1: int)
    requires p.t.Shape()
  {
    && |was| == |now|
    && forall k :: 0 <= k < |now| ==>
         now[k] == if p.t.InRect(k, c0, c1, s0, s1) then p.Value(p.t.CntgOf(k), p.t.StrdOf(k)) else was[k]
  }

  lemma FilledNone(p: Packing, width: int, was: seq<real>, c0: int, c1: int, s0: int, s1: int)
    requires p.Valid(width) && (c0 >= c1 || s0 >= s1)
    ensures Filled(p, was, was, c0, c1, s0, s1)
  {
    hide Tiling.CntgOf, Tiling.StrdOf, Tiling.TileSize;
  }

  lemma FilledBeside(p: Packing, width: int, a: seq<real>, b: seq<real>, c: seq<real>,
                     c0: int, c1: int, c2: int, s0: int, s1: int)
    requires p.Valid(width) && c0 <= c1 <= c2
    requires Filled(p, a, b, c0, c1, s0, s1) && Filled(p, b, c, c1, c2, s0, s1)
    ensures Filled(p, a, c, c0, c2, s0, s1)
  {
    hide Tiling.CntgOf, Tiling.StrdOf, Tiling.TileSize, Packing.Value;
  }

  lemma FilledBelow(p: Packing, width: int, a: seq<real>, b: seq<real>, c: seq<real>,
                    c0: int, c1: int, s0: int, s1: int, s2: int)
    requires p.Valid(width) && s0 <= s1 <= s2
    requires Filled(p, a, b, c0, c1, s0, s1) && Filled(p, b, c, c0, c1, s1, s2)
    ensures Filled(p, a, c, c0, c1, s0, s2)
  {
    hide Tiling.CntgOf, Tiling.StrdOf, Tiling.TileSize, Packing.Value;
  }

  lemma FilledOne(p: Packing, width: int, was: seq<real>, k: int, c: int, s: int)
    requires p.Valid(width) && 0 <= k < |was| && p.t.CntgOf(k) == c && p.t.StrdOf(k) == s
    ensures Filled(p, was, was[k := p.Value(c, s)], c, c + 1, s, s + 1)
  {
    hide Tiling.CntgOf, Tiling.StrdOf, Tiling.TileSize, Tiling.ElemIndex, Packing.Value;
    PlaceElem(p.t, k);
    forall k' | 0 <= k' < |was|
      ensures p.t.CntgOf(k') == c && p.t.StrdOf(k') == s ==> k' == k
    {
      PlaceElem(p.t, k');
    }
  }

  // ---------- one tile ----------

  /** The destination has room for strided positions below s1. */
  ghost predicate Room(p: Packing, width: int, s1: int, length: int)
    requires p.Valid(width)
  {
    forall c, s :: 0 <= c < IRound(width, p.t.cntgInterleave) && 0 <= s < s1 ==> p.t.ElemIndex(c, s) < length
  }

  /** Tile ct of band st, n of its strided positions in use. */
  ghost predicate TileInside(p: Packing, width: int, ct: int, st: int, n: int, length: int) {
    && p.Valid(width) && 0 <= ct < IRoundDiv(width, p.t.cntgInterleave) && 0 <= st
    && 0 <= n <= p.t.strdInterleave && Room(p, width, p.t.FirstStrd(st) + n, length)
  }

  lemma CellIsElem(t: Tiling, ct: int, ci: int, st: int, si: int)
    requires t.Shape() && 0 <= ci < t.cntgInterleave && 0 <= si < t.strdInterleave
    ensures t.ElemIndex(t.FirstCntg(ct) + ci, t.FirstStrd(st) + si) == t.Cell(ct, ci, st, si)
  {
    DivMod(ct, ci, t.cntgInterleave);
    DivMod(st, si, t.strdInterleave);
  }

  lemma CellInside(p: Packing, width: int, ct: int, st: int, n: int, length: int, ci: int, si: int)
    requires TileInside(p, width, ct, st, n, length)
    requires 0 <= ci < p.t.cntgInterleave && 0 <= si < n
    ensures var k := p.t.Cell(ct, ci, st, si);
            && 0 <= k < length
            && p.t.CntgOf(k) == p.t.FirstCntg(ct) + ci && p.t.StrdOf(k) == p.t.FirstStrd(st) + si
  {
    CellPlace(p.t, width, ct, ci, st, si);
    CellIsElem(p.t, ct, ci, st, si);
    RoundedWidth(width, p.t.cntgInterleave);
    MulMonotone(0, ct, p.t.cntgInterleave);
    MulMonotone(0, st, p.t.strdInterleave);
    MulMonotone(ct + 1, IRoundDiv(width, p.t.cntgInterleave), p.t.cntgInterleave);
    MulAdd(ct, 1, p.t.cntgInterleave);
    hide Tiling.ElemIndex, Tiling.Cell, Tiling.CntgOf, Tiling.StrdOf, IRound, IRoundDiv;
    assert 0 <= p.t.FirstCntg(ct) + ci < IRound(width, p.t.cntgInterleave);
  }

  /** dst[ci + si * I] = src[ci * src_cntg_step + si * src_strd_step] of a tile, for lo <= ci < hi. */
  method CopyCells(p: Packing, width: int, dst: array<real>, ct: int, st: int, n: int, si: int, lo: int, hi: int)
    requires TileInside(p, width, ct, st, n, dst.Length) && 0 <= si < n
    requires 0 <= lo <= hi <= p.t.cntgInterleave && p.t.FirstCntg(ct) + hi <= p.cntg
    modifies dst
    ensures p.t.Shape()
    ensures Filled(p, old(dst[..]), dst[..], p.t.FirstCntg(ct) + lo, p.t.FirstCntg(ct) + hi,
                   p.t.FirstStrd(st) + si, p.t.FirstStrd(st) + si + 1)
  {
    hide Filled, Tiling.Cell, Tiling.CntgOf, Tiling.StrdOf, Tiling.TileSize, Tiling.FirstCntg;
    hide Tiling.FirstStrd, Tiling.Shape, View.Addr, TileInside, Packing.Valid;
    ghost var was := dst[..];
    var c, s := p.t.FirstCntg(ct), p.t.FirstStrd(st) + si;
    TileIsValid(p, width, ct, st, n, dst.Length);
    FilledNone(p, width, was, c + lo, c + lo, s, s + 1);
    for ci := lo to hi
      invariant Filled(p, was, dst[..], c + lo, c + ci, s, s + 1)
    {
      ghost var before := dst[..];
      CellInside(p, width, ct, st, n, dst.Length, ci, si);
      FilledOne(p, width, before, p.t.Cell(ct, ci, st, si), c + ci, s);
      dst[p.t.Cell(ct, ci, st, si)] := p.src.At(p.src.Addr(c + ci, s));
      assert dst[..] == before[p.t.Cell(ct, ci, st, si) := p.Value(c + ci, s)];
      FilledBeside(p, width, was, before, dst[..], c + lo, c + ci, c + ci + 1, s, s + 1);
    }
  }

  lemma TileIsValid(p: Packing, width: int, ct: int, st: int, n: int, length: int)
    requires TileInside(p, width, ct, st, n, length)
    ensures p.Valid(width) && p.t.Shape()
  {
  }

  /** The same with zeros, beyond the end of the source. */
  method ZeroCells(p: Packing, width: int, dst: array<real>, ct: int, st: int, n: int, si: int, lo: int)
    requires TileInside(p, width, ct, st, n, dst.Length) && 0 <= si < n
    requires 0 <= lo <= p.t.cntgInterleave && p.cntg <= p.t.FirstCntg(ct) + lo
    modifies dst
    ensures p.t.Shape()
    ensures Filled(p, old(dst[..]), dst[..],
                   p.t.FirstCntg(ct) + lo, p.t.FirstCntg(ct) + p.t.cntgInterleave,
                   p.t.FirstStrd(st) + si, p.t.FirstStrd(st) + si + 1)
  {
    hide Filled, Tiling.Cell, Tiling.CntgOf, Tiling.StrdOf, Tiling.TileSize, Tiling.FirstCntg;
    hide Tiling.FirstStrd, Tiling.Shape, View.Addr, TileInside, Packing.Valid;
    ghost var was := dst[..];
    var c, s := p.t.FirstCntg(ct), p.t.FirstStrd(st) + si;
    TileIsValid(p, width, ct, st, n, dst.Length);
    FilledNone(p, width, was, c + lo, c + lo, s, s + 1);
    for ci := lo to p.t.cntgInterleave
      invariant Filled(p, was, dst[..], c + lo, c + ci, s, s + 1)
    {
      ghost var before := dst[..];
      CellInside(p, width, ct, st, n, dst.Length, ci, si);
      FilledOne(p, width, before, p.t.Cell(ct, ci, st, si), c + ci, s);
      dst[p.t.Cell(ct, ci, st, si)] := 0.0;
      assert dst[..] == before[p.t.Cell(ct, ci, st, si) := p.Value(c + ci, s)];
      FilledBeside(p, width, was, before, dst[..], c + lo, c + ci, c + ci + 1, s, s + 1);
    }
  }

  method FullTile(p: Packing, width: int, dst: array<real>, ct: int, st: int, n: int)
    requires TileInside(p, width, ct, st, n, dst.Length) && p.t.FirstCntg(ct) + p.t.cntgInterleave <= p.cntg
    modifies dst
    ensures p.t.Shape()
    ensures Filled(p, old(dst[..]), dst[..], p.t.FirstCntg(ct), p.t.FirstCntg(ct) + p.t.cntgInterleave,
                   p.t.FirstStrd(st), p.t.FirstStrd(st) + n)
  {
    TileIsValid(p, width, ct, st, n, dst.Length);
    hide Filled, Tiling.FirstCntg, Tiling.FirstStrd, Tiling.Shape, TileInside, Packing.Valid;
    ghost var was := dst[..];
    var c, s := p.t.FirstCntg(ct), p.t.FirstStrd(st);
    FilledNone(p, width, was, c, c + p.t.cntgInterleave, s, s);
    for si := 0 to n
      invariant Filled(p, was, dst[..], c, c + p.t.cntgInterleave, s, s + si)
    {
      ghost var before := dst[..];
      CopyCells(p, width, dst, ct, st, n, si, 0, p.t.cntgInterleave);
      FilledBelow(p, width, was, before, dst[..], c, c + p.t.cntgInterleave, s, s + si, s + si + 1);
    }
  }

  method PartialTile(p: Packing, width: int, dst: array<real>, ct: int, st: int, n: int, remaining: int)
    requires TileInside(p, width, ct, st, n, dst.Length)
    requires 0 <= remaining <= p.t.cntgInterleave && p.t.FirstCntg(ct) + remaining == p.cntg
    modifies dst
    ensures p.t.Shape()
    ensures Filled(p, old(dst[..]), dst[..], p.t.FirstCntg(ct), p.t.FirstCntg(ct) + p.t.cntgInterleave,
                   p.t.FirstStrd(st), p.t.FirstStrd(st) + n)
  {
    TileIsValid(p, width, ct, st, n, dst.Length);
    hide Filled, Tiling.FirstCntg, Tiling.FirstStrd, Tiling.Shape, TileInside, Packing.Valid;
    ghost var was := dst[..];
    var c, s := p.t.FirstCntg(ct), p.t.FirstStrd(st);
    FilledNone(p, width, was, c, c + p.t.cntgInterleave, s, s);
    for si := 0 to n
      invariant Filled(p, was, dst[..], c, c + p.t.cntgInterleave, s, s + si)
    {
      ghost var before := dst[..];
      CopyCells(p, width, dst, ct, st, n, si, 0, remaining);
      ghost var middle := dst[..];
      ZeroCells(p, width, dst, ct, st, n, si, remaining);
      FilledBeside(p, width, before, middle, dst[..], c, c + remaining, c + p.t.cntgInterleave, s + si, s + si + 1);
      FilledBelow(p, width, was, before, dst[..], c, c + p.t.cntgInterleave, s, s + si, s + si + 1);
    }
  }

  method EmptyTile(p: Packing, width: int, dst: array<real>, ct: int, st: int, n: int)
    requires TileInside(p, width, ct, st, n, dst.Length) && p.cntg <= p.t.FirstCntg(ct)
    modifies dst
    ensures p.t.Shape()
    ensures Filled(p, old(dst[..]), dst[..], p.t.FirstCntg(ct), p.t.FirstCntg(ct) + p.t.cntgInterleave,
                   p.t.FirstStrd(st), p.t.FirstStrd(st) + n)
  {
    TileIsValid(p, width, ct, st, n, dst.Length);
    hide Filled, Tiling.FirstCntg, Tiling.FirstStrd, Tiling.Shape, TileInside, Packing.Valid;
    ghost var was := dst[..];
    var c, s := p.t.FirstCntg(ct), p.t.FirstStrd(st);
    FilledNone(p, width, was, c, c + p.t.cntgInterleave, s, s);
    for si := 0 to n
      invariant Filled(p, was, dst[..], c, c + p.t.cntgInterleave, s, s + si)
    {
      ghost var before := dst[..];
      ZeroCells(p, width, dst, ct, st, n, si, 0);
      FilledBelow(p, width, was, before, dst[..], c, c + p.t.cntgInterleave, s, s + si, s + si + 1);
    }
  }

  // ---------- one band of tiles ----------

  ghost predicate BandInside(p: Packing, width: int, st: int, n: int, length: int) {
    && p.Valid(width) && 0 <= st && 0 <= n <= p.t.strdInterleave
    && Room(p, width, p.t.FirstStrd(st) + n, length)
  }

  lemma TileOfBand(p: Packing, width: int, st: int, n: int, length: int, ct: int)
    requires BandInside(p, width, st, n, length) && 0 <= ct
    ensures p.t.Shape() && p.Valid(width) && p.t.FirstCntg(0) == 0
    ensures p.t.FirstCntg(ct) < width ==> TileInside(p, width, ct, st, n, length)
    ensures p.t.FirstCntg(ct + 1) == p.t.FirstCntg(ct) + p.t.cntgInterleave
  {
    RoundedWidth(width, p.t.cntgInterleave);
    IRoundIsCeiling(width, p.t.cntgInterleave);
    MulAdd(ct, 1, p.t.cntgInterleave);
    hide IRound, IRoundDiv, Room;
    if p.t.FirstCntg(ct) < width {
      MulCancelLess(ct, IRoundDiv(width, p.t.cntgInterleave), p.t.cntgInterleave);
    }
  }

  /** The first multiple of r at or above width is the rounded width. */
  lemma FirstMultipleAbove(width: int, r: int, q: int)
    requires r > 0 && 0 <= width <= q * r < width + r
    ensures q * r == IRound(width, r)
  {
    IRoundIsCeiling(width, r);
    RoundedWidth(width, r);
    var m := IRoundDiv(width, r);
    hide IRound, IRoundDiv;
    MulAdd(q, m, r);
    MulCancelLess(q - m, 1, r);
    MulCancelLess(-1, q - m, r);
  }

  /** cntg_loops: the full tiles, the partial one, and the empty ones up to the destination's width. */
  method CntgLoops(p: Packing, dstCntg: int, dst: array<real>, st: int, n: int)
    requires BandInside(p, dstCntg, st, n, dst.Length) && 0 <= p.cntg
    modifies dst
    ensures p.t.Shape()
    ensures Filled(p, old(dst[..]), dst[..], 0, IRound(dstCntg, p.t.cntgInterleave),
                   p.t.FirstStrd(st), p.t.FirstStrd(st) + n)
  {
    TileOfBand(p, dstCntg, st, n, dst.Length, 0);
    assert p.cntg <= dstCntg;
    hide Filled, Tiling.FirstCntg, Tiling.FirstStrd, Tiling.Shape, Tiling.TileSize, TileInside, BandInside, Packing.Valid;
    ghost var was := dst[..];
    var i := p.t.cntgInterleave;
    ghost var s, s' := p.t.FirstStrd(st), p.t.FirstStrd(st) + n;
    FilledNone(p, dstCntg, was, 0, 0, s, s');
    var c, ct := 0, 0;
    while c + i <= p.cntg
      invariant 0 <= ct && 0 <= c == p.t.FirstCntg(ct) <= p.cntg
      invariant Filled(p, was, dst[..], 0, c, s, s')
    {
      ghost var before := dst[..];
      TileOfBand(p, dstCntg, st, n, dst.Length, ct);
      FullTile(p, dstCntg, dst, ct, st, n);
      FilledBeside(p, dstCntg, was, before, dst[..], 0, c, c + i, s, s');
      c, ct := c + i, ct + 1;
    }
    var remaining := p.cntg - c;
    if remaining != 0 {
      ghost var before := dst[..];
      TileOfBand(p, dstCntg, st, n, dst.Length, ct);
      PartialTile(p, dstCntg, dst, ct, st, n, remaining);
      FilledBeside(p, dstCntg, was, before, dst[..], 0, c, c + i, s, s');
      c, ct := c + i, ct + 1;
    }
    while c < dstCntg
      invariant 0 <= ct && p.cntg <= c == p.t.FirstCntg(ct) < dstCntg + i && 0 <= c
      invariant Filled(p, was, dst[..], 0, c, s, s')
    {
      ghost var before := dst[..];
      TileOfBand(p, dstCntg, st, n, dst.Length, ct);
      EmptyTile(p, dstCntg, dst, ct, st, n);
      FilledBeside(p, dstCntg, was, before, dst[..], 0, c, c + i, s, s');
      c, ct := c + i, ct + 1;
    }
    assert c == IRound(dstCntg, i) by { LoopsEnd(p, dstCntg, ct, c); }
  }

  lemma LoopsEnd(p: Packing, dstCntg: int, ct: int, c: int)
    requires p.Valid(dstCntg) && 0 <= dstCntg <= c == p.t.FirstCntg(ct) < dstCntg + p.t.cntgInterleave
    ensures c == IRound(dstCntg, p.t.cntgInterleave)
  {
    FirstMultipleAbove(dstCntg, p.t.cntgInterleave, ct);
  }

  // ---------- all the bands ----------

  lemma BandOfPanel(p: Packing, width: int, q: int, strd: int, st: int, n: int, length: int)
    requires p.Valid(width) && 0 <= q && 0 <= st && 0 <= n <= p.t.strdInterleave
    requires Room(p, width, p.t.FirstStrd(q) + strd, length) && p.t.FirstStrd(st) + n <= strd
    ensures p.t.FirstStrd(q) + p.t.FirstStrd(st) == p.t.FirstStrd(q + st)
    ensures BandInside(p, width, q + st, n, length)
    ensures p.t.FirstStrd(st + 1) == p.t.FirstStrd(st) + p.t.strdInterleave
  {
    MulAdd(q, st, p.t.strdInterleave);
    MulAdd(st, 1, p.t.strdInterleave);
  }

  /** tile_interleave_impl on the strided positions from the start of band q: the whole when q is 0. */
  method Pack(p: Packing, dstCntg: int, dst: array<real>, q: int, strd: int)
    requires p.Valid(dstCntg) && 0 <= p.cntg && 0 <= q && 0 <= strd
    requires Room(p, dstCntg, p.t.FirstStrd(q) + strd, dst.Length)
    modifies dst
    ensures Filled(p, old(dst[..]), dst[..], 0, IRound(dstCntg, p.t.cntgInterleave),
                   p.t.FirstStrd(q), p.t.FirstStrd(q) + strd)
  {
    assert p.t.FirstStrd(0) == 0;
    hide Filled, Room, BandInside, Tiling.FirstStrd, Tiling.TileSize, Tiling.Fits, IRound;
    ghost var was := dst[..];
    ghost var width, first := IRound(dstCntg, p.t.cntgInterleave), p.t.FirstStrd(q);
    FilledNone(p, dstCntg, was, 0, width, first, first);
    var s, st := 0, 0;
    while s + p.t.strdInterleave <= strd
      invariant 0 <= st && 0 <= s == p.t.FirstStrd(st) <= strd
      invariant Filled(p, was, dst[..], 0, width, first, first + s)
    {
      ghost var before := dst[..];
      BandOfPanel(p, dstCntg, q, strd, st, p.t.strdInterleave, dst.Length);
      CntgLoops(p, dstCntg, dst, q + st, p.t.strdInterleave);
      FilledBelow(p, dstCntg, was, before, dst[..], 0, width, first, first + s, first + s + p.t.strdInterleave);
      s, st := s + p.t.strdInterleave, st + 1;
    }
    if s < strd {
      ghost var before := dst[..];
      var chunk := Min(p.t.strdInterleave, strd - s);
      BandOfPanel(p, dstCntg, q, strd, st, chunk, dst.Length);
      CntgLoops(p, dstCntg, dst, q + st, chunk);
      FilledBelow(p, dstCntg, was, before, dst[..], 0, width, first, first + s, first + strd);
    }
  }

  // ---------- reading the tiles back ----------

  /** interleaved_tile_matrix_base: a place in memory from which elements are found by their index. */
  datatype TileView = TileView(t: Tiling, origin: int) {

    function Addr(cntg: int, strd: int): int
      requires t.cntgInterleave > 0 && t.strdInterleave > 0
    {
      origin + t.ElemIndex(cntg, strd)
    }

    function Sub(cntg: int, strd: int): TileView
      requires t.cntgInterleave > 0 && t.strdInterleave > 0
    {
      TileView(t, Addr(cntg, strd))
    }
  }

  /** A view that starts at a tile corner reads the elements of the matrix from there on. */
  lemma SubAtTileCorner(v: TileView, c: int, s: int, dc: int, ds: int)
    requires v.t.cntgInterleave > 0 && v.t.strdInterleave > 0
    requires c % v.t.cntgInterleave == 0 && s % v.t.strdInterleave == 0
    ensures v.Sub(c, s).Addr(dc, ds) == v.Addr(c + dc, s + ds)
  {
    var i, j := v.t.cntgInterleave, v.t.strdInterleave;
    DivModEquation(c, i);
    DivModEquation(s, j);
    DivModEquation(dc, i);
    DivModEquation(ds, j);
    MulAdd(c / i, dc / i, i);
    MulAdd(s / j, ds / j, j);
    DivMod(c / i + dc / i, dc % i, i);
    DivMod(s / j + ds / j, ds % j, j);
    MulAdd(c / i, dc / i, v.t.TileSize());
    MulAdd(s / j, ds / j, v.t.strdTileStep);
  }

  /** Distinct elements of a matrix that fits have distinct places. */
  lemma ElemsDistinct(t: Tiling, width: int, c: int, s: int, c': int, s': int)
    requires t.Fits(width)
    requires 0 <= c < IRound(width, t.cntgInterleave) && 0 <= s
    requires 0 <= c' < IRound(width, t.cntgInterleave) && 0 <= s'
    requires t.ElemIndex(c, s) == t.ElemIndex(c', s')
    ensures c == c' && s == s'
  {
    ElemPlace(t, width, c, s);
    ElemPlace(t, width, c', s');
  }

  /** What a reader of the packed matrix sees: the source, and zeros in the rounded-up slack. */
  ghost predicate ReadsBack(p: Packing, width: int, strd: int, data: seq<real>)
    requires p.t.cntgInterleave > 0 && p.t.strdInterleave > 0
  {
    forall c, s :: 0 <= c < IRound(width, p.t.cntgInterleave) && 0 <= s < strd ==>
      && 0 <= TileView(p.t, 0).Addr(c, s) < |data|
      && data[TileView(p.t, 0).Addr(c, s)] == p.Value(c, s)
  }

  lemma FilledReadsBack(p: Packing, width: int, was: seq<real>, now: seq<real>, strd: int)
    requires p.Valid(width) && Room(p, width, strd, |now|)
    requires Filled(p, was, now, 0, IRound(width, p.t.cntgInterleave), 0, strd)
    ensures ReadsBack(p, width, strd, now)
  {
    hide Tiling.CntgOf, Tiling.StrdOf, Tiling.TileSize, Tiling.ElemIndex, Packing.Value, IRound;
    forall c, s | 0 <= c < IRound(width, p.t.cntgInterleave) && 0 <= s < strd
      ensures 0 <= p.t.ElemIndex(c, s) < |now| && now[p.t.ElemIndex(c, s)] == p.Value(c, s)
    {
      ElemPlace(p.t, width, c, s);
    }
  }

  /** tile_interleave of a whole matrix: what is read back is the source, and nothing else was written. */
  method TileInterleaveWhole(t: Tiling, src: View, dstCntg: int, dstStrd: int, dst: array<real>)
    returns (ghost p: Packing)
    requires src.cntg >= 0 && src.strd >= 0 && dstStrd >= 0 && t.Fits(dstCntg) && t.Shape()
    requires Room(Packing(t, src, Min(src.cntg, dstCntg)), dstCntg, Min(src.strd, dstStrd), dst.Length)
    modifies dst
    ensures p == Packing(t, src, Min(src.cntg, dstCntg))
    ensures ReadsBack(p, dstCntg, Min(src.strd, dstStrd), dst[..])
    ensures Filled(p, old(dst[..]), dst[..], 0, IRound(dstCntg, t.cntgInterleave), 0, Min(src.strd, dstStrd))
  {
    var packing := Packing(t, src, Min(src.cntg, dstCntg));
    p := packing;
    assert t.FirstStrd(0) == 0;
    hide Room, Filled, ReadsBack, IRound, Tiling.FirstStrd, Tiling.Fits, Tiling.Shape;
    assert packing.Valid(dstCntg);
    ghost var was := dst[..];
    Pack(packing, dstCntg, dst, 0, Min(src.strd, dstStrd));
    FilledReadsBack(packing, dstCntg, was, dst[..], Min(src.strd, dstStrd));
  }

  // ---------- packing by panels ----------

  /** Bands at which the panels of a matrix of strd strided elements start, in order, from the first. */
  ghost predicate Cuts(t: Tiling, cuts: seq<int>, strd: int) {
    && |cuts| > 0 && cuts[0] == 0
    && (forall i :: 0 <= i < |cuts| ==> 0 <= cuts[i] && 0 <= PanelLength(t, cuts, strd, i))
  }

  function PanelLength(t: Tiling, cuts: seq<int>, strd: int, i: int): int
    requires 0 <= i < |cuts|
  {
    (if i + 1 < |cuts| then t.FirstStrd(cuts[i + 1]) else strd) - t.FirstStrd(cuts[i])
  }

  /** A panel packed through sub_matrix: its corner is where the whole matrix has it. */
  lemma PanelCorner(t: Tiling, src: View, q: int, h: int, c: int, s: int)
    requires t.cntgInterleave > 0 && t.strdInterleave > 0
    ensures TileView(t, 0).Sub(0, t.FirstStrd(q)).Addr(c, s) == TileView(t, 0).Addr(c, t.FirstStrd(q) + s)
    ensures src.Sub(0, src.cntg, t.FirstStrd(q), h).Addr(c, s) == src.Addr(c, t.FirstStrd(q) + s)
  {
    ModOfMultiple(q, t.strdInterleave);
    ModOfMultiple(0, t.cntgInterleave);
    SubAtTileCorner(TileView(t, 0), 0, t.FirstStrd(q), c, s);
    SubAddr(src, 0, src.cntg, t.FirstStrd(q), h, c, s);
  }

  lemma PanelInside(t: Tiling, cuts: seq<int>, strd: int, i: int)
    requires Cuts(t, cuts, strd) && 0 <= i < |cuts|
    ensures t.FirstStrd(cuts[i]) + PanelLength(t, cuts, strd, i) <= strd
    decreases |cuts| - i
  {
    if i + 1 < |cuts| {
      PanelInside(t, cuts, strd, i + 1);
      assert 0 <= PanelLength(t, cuts, strd, i + 1);
    }
  }

  /** Packing panel by panel leaves the same memory as one packing of the whole. */
  method PackPanels(p: Packing, dstCntg: int, dst: array<real>, strd: int, cuts: seq<int>)
    requires p.Valid(dstCntg) && 0 <= p.cntg && Cuts(p.t, cuts, strd) && Room(p, dstCntg, strd, dst.Length)
    modifies dst
    ensures Filled(p, old(dst[..]), dst[..], 0, IRound(dstCntg, p.t.cntgInterleave), 0, strd)
  {
    ghost var was := dst[..];
    ghost var width := IRound(dstCntg, p.t.cntgInterleave);
    assert p.t.FirstStrd(0) == 0;
    FilledNone(p, dstCntg, was, 0, width, 0, 0);
    hide Filled, IRound, Tiling.FirstStrd, Tiling.ElemIndex, Tiling.Fits;
    for i := 0 to |cuts|
      invariant Filled(p, was, dst[..], 0, width, 0, if i < |cuts| then p.t.FirstStrd(cuts[i]) else strd)
      invariant i < |cuts| ==> 0 <= p.t.FirstStrd(cuts[i])
    {
      ghost var before := dst[..];
      var length := PanelLength(p.t, cuts, strd, i);
      PanelInside(p.t, cuts, strd, i);
      Pack(p, dstCntg, dst, cuts[i], length);
      FilledBelow(p, dstCntg, was, before, dst[..], 0, width, 0, p.t.FirstStrd(cuts[i]), p.t.FirstStrd(cuts[i]) + length);
    }
  }
}
