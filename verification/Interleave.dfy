/**
 * The generic interleaving kernel. It walks the columns of a window onto a triangle in five
 * phases and lays blocks of strd rows side by side, writing out what the window only implies.
 */
module Interleave {
  import opened NumericUtils

  /** A strided read-only matrix; element (c, s) sits at base + c * cntgStride + s * strdStride. */
  datatype Source = Source(data: seq<real>, base: int, cntgStride: int, strdStride: int) {
    function Addr(c: int, s: int): int {
      base + c * cntgStride + s * strdStride
    }

    /** The element may be read. */
    predicate Has(c: int, s: int) {
      0 <= Addr(c, s) < |data|
    }

    function Get(c: int, s: int): real
      requires Has(c, s)
    {
      data[Addr(c, s)]
    }
  }

  /** The compile-time flags that matter for real elements. */
  datatype Flags = Flags(
    upperVirt: bool, lowerVirt: bool,
    diagVirt: bool, diagUnit: bool,
    virtZero: bool, zeroPad: bool)
  {
    /** Flags & (ZeroPad | VirtZero) */
    function Virtual(): Flags {
      Flags(false, false, false, false, virtZero, zeroPad)
    }

    /** Flags & (ZeroPad | IsConj) */
    function Physical(): Flags {
      Flags(false, false, false, false, false, zeroPad)
    }
  }

  // ---------- one column of one block ----------

  /** What a lane holds after copy_n; prev is what it held before. */
  ghost function Lane(f: Flags, first: int, phys: int, virt: int, src: Source, c: int, s0: int, l: int, prev: real): real {
    if l < first then (if f.virtZero then 0.0 else prev)
    else if f.lowerVirt && f.diagVirt && l == first then (if f.diagUnit then 1.0 else prev)
    else if l < phys then (if src.Has(c, s0 + l) then src.Get(c, s0 + l) else prev)
    else if f.upperVirt && f.diagVirt && l == phys then (if f.diagUnit then 1.0 else prev)
    else if l < virt then (if f.virtZero then 0.0 else prev)
    else if f.zeroPad then 0.0
    else prev
  }

  /** for(; i < hi; ++i) dst[i] = zero; */
  method ZeroLanes(dst: array<real>, lo: int, hi: int)
    requires 0 <= lo && hi <= dst.Length
    modifies dst
    ensures forall k :: 0 <= k < dst.Length ==> dst[k] == if lo <= k < hi then 0.0 else old(dst[k])
  {
    var i := lo;
    while i < hi
      invariant i <= Max(lo, hi) && lo <= i
      invariant forall k :: 0 <= k < dst.Length ==> dst[k] == if lo <= k < i then 0.0 else old(dst[k])
    {
      dst[i] := 0.0;
      i := i + 1;
    }
  }

  /** for(; i < phys; ++i) dst[i] = src[i * src_strd_stride]; */
  method DataLanes(src: Source, c: int, s0: int, dst: array<real>, d: int, lo: int, phys: int)
    requires 0 <= d && 0 <= lo && d + phys <= dst.Length
    requires forall s :: s0 + lo <= s < s0 + phys ==> src.Has(c, s)
    modifies dst
    ensures forall k :: 0 <= k < dst.Length ==>
              dst[k] == if d + lo <= k < d + phys && src.Has(c, s0 + k - d) then src.Get(c, s0 + k - d) else old(dst[k])
  {
    hide Source.Addr;
    var i := lo;
    while i < phys
      invariant lo <= i <= Max(lo, phys)
      invariant forall k :: 0 <= k < dst.Length ==>
                  dst[k] == if d + lo <= k < d + i && src.Has(c, s0 + k - d) then src.Get(c, s0 + k - d) else old(dst[k])
    {
      dst[d + i] := src.Get(c, s0 + i);
      i := i + 1;
    }
  }

  /**
   * copy_n: lanes before `first` are virtual, lanes up to `phys` come from the source, lanes up
   * to `virt` are virtual again and lanes up to `interleave` are padding. A virtual diagonal
   * takes the lane just before or just after the data.
   */
  method CopyN(f: Flags, first: int, phys: int, virt: int, interleave: int,
               src: Source, c: int, s0: int, dst: array<real>, d: int)
    requires 0 <= first <= phys <= virt <= interleave && 0 <= d && d + interleave <= dst.Length
    requires f.lowerVirt && f.diagVirt ==> first < phys
    requires f.upperVirt && f.diagVirt ==> phys < virt
    requires forall s :: s0 + first <= s < s0 + phys && !(f.lowerVirt && f.diagVirt && s == s0 + first) ==> src.Has(c, s)
    modifies dst
    ensures forall k :: 0 <= k < dst.Length ==>
              dst[k] == if d <= k < d + interleave
                        then Lane(f, first, phys, virt, src, c, s0, k - d, old(dst[k]))
                        else old(dst[k])
  {
    hide Source.Has, Source.Get;
    var i := 0;
    if first != 0 {
      if f.virtZero {
        ZeroLanes(dst, d, d + first);
      }
      i := first;
    }
    if f.lowerVirt && f.diagVirt {
      if f.diagUnit {
        dst[d + i] := 1.0;
      }
      i := i + 1;
    }
    if first != phys {
      DataLanes(src, c, s0, dst, d, i, phys);
      i := phys;
    }
    if f.upperVirt && f.diagVirt {
      if f.diagUnit {
        dst[d + i] := 1.0;
      }
      i := i + 1;
    }
    if phys != virt {
      if f.virtZero {
        ZeroLanes(dst, d + i, d + virt);
      }
      i := virt;
    }
    if f.zeroPad {
      ZeroLanes(dst, d + i, d + interleave);
    }
  }
  // ---------- one block: n strd rows from s0, walked along cntg ----------

  /**
   * cntgFirst and cntgLast are the diagonals, relative to row s0, at which the stored part of
   * the window begins and from which the virtual part above it begins.
   */
  datatype Block = Block(
    f: Flags, n: int, interleave: int,
    cntgMin: int, dstCntg: int,
    cntgFirst: int, cntgLast: int,
    src: Source, s0: int)
  {
    /** Column and lane of the cell at offset o from the start of the packed block. */
    function ColumnAt(o: int): int
      requires interleave >= 1
    {
      o / interleave
    }

    function LaneAt(o: int): int
      requires interleave >= 1
    {
      o % interleave
    }

    /** Element (c, s0 + l) is one the window only implies. */
    predicate IsVirtual(c: int, l: int) {
      (f.upperVirt && l > c - cntgFirst) || (f.lowerVirt && l < c - cntgLast)
    }

    predicate OnDiagonal(c: int, l: int) {
      (f.upperVirt && l == c - cntgFirst) || (f.lowerVirt && l == c - cntgLast)
    }

    /** No row of the block has a stored element in column c. */
    predicate FullyVirtual(c: int) {
      (f.upperVirt && c < cntgFirst) || (f.lowerVirt && c >= cntgLast + n)
    }

    /** The elements the kernel may read. */
    predicate Physical(c: int, l: int) {
      0 <= c < cntgMin && 0 <= l < n && !IsVirtual(c, l) && !(f.diagVirt && OnDiagonal(c, l))
    }

    ghost predicate Valid() {
      && 1 <= n <= interleave && n <= 20 && 0 <= cntgMin <= dstCntg
      && !(f.upperVirt && f.lowerVirt)
      && forall c, s :: Physical(c, s - s0) ==> src.Has(c, s)
    }

    /** What lane l of column c holds after packing; prev is what it held before. */
    ghost function Cell(c: int, l: int, prev: real): real {
      if c >= cntgMin then
        if l < n || f.zeroPad then 0.0 else prev
      else if l >= n then
        if f.zeroPad && (f.virtZero || !FullyVirtual(c)) then 0.0 else prev
      else if IsVirtual(c, l) then
        if f.virtZero then 0.0 else prev
      else if f.diagVirt && OnDiagonal(c, l) then
        if f.diagUnit then 1.0 else prev
      else if src.Has(c, s0 + l) then src.Get(c, s0 + l) else prev
    }
  }

  /** Columns before dc of the block at d are done and nothing else has changed. */
  ghost predicate Filled(b: Block, now: seq<real>, was: seq<real>, d: int, dc: int)
    requires b.interleave >= 1
  {
    && |now| == |was|
    && forall k :: 0 <= k < |now| ==>
         now[k] == if d <= k < d + dc * b.interleave
                   then b.Cell(b.ColumnAt(k - d), b.LaneAt(k - d), was[k])
                   else was[k]
  }

  /** copy_n with these arguments produces column c of the block. */
  ghost predicate Makes(b: Block, c: int, f: Flags, first: int, phys: int) {
    forall l, prev :: 0 <= l < b.interleave ==>
      Lane(f, first, phys, b.n, b.src, c, b.s0, l, prev) == b.Cell(c, l, prev)
  }

  lemma CellPosition(b: Block, c: int, o: int)
    requires b.interleave >= 1 && c * b.interleave <= o < c * b.interleave + b.interleave
    ensures b.ColumnAt(o) == c && b.LaneAt(o) == o - c * b.interleave
  {
    DivMod(c, o - c * b.interleave, b.interleave);
  }

  lemma FilledStep(b: Block, now: seq<real>, next: seq<real>, was: seq<real>, d: int, dc: int, lo: int, hi: int)
    requires b.interleave >= 1 && Filled(b, now, was, d, dc) && |next| == |now| && dc >= 0
    requires lo == d + dc * b.interleave && hi == lo + b.interleave
    requires forall k :: 0 <= k < |now| ==> next[k] == if lo <= k < hi then b.Cell(dc, k - lo, now[k]) else now[k]
    ensures Filled(b, next, was, d, dc + 1)
  {
    hide Block.Cell, Block.ColumnAt, Block.LaneAt;
    MulAdd(dc, 1, b.interleave);
    MulMonotone(0, dc, b.interleave);
    assert hi == d + (dc + 1) * b.interleave;
    forall k | 0 <= k < |now|
      ensures next[k] == if d <= k < hi then b.Cell(b.ColumnAt(k - d), b.LaneAt(k - d), was[k]) else was[k]
    {
      if lo <= k < hi {
        CellPosition(b, dc, k - d);
      }
    }
  }

  lemma ColumnFits(b: Block, d: int, dc: int, length: int)
    requires b.Valid() && 0 <= dc < b.dstCntg && 0 <= d && d + b.dstCntg * b.interleave <= length
    ensures 0 <= d + dc * b.interleave && d + dc * b.interleave + b.interleave <= length
  {
    MulMonotone(0, dc, b.interleave);
    MulMonotone(dc + 1, b.dstCntg, b.interleave);
    MulAdd(dc, 1, b.interleave);
  }

  /** One copy_n call of the walk. */
  method CopyColumn(b: Block, f: Flags, first: int, phys: int, dst: array<real>, d: int, dc: int, ghost was: seq<real>)
    requires b.Valid() && 0 <= dc < b.cntgMin && 0 <= d && d + b.dstCntg * b.interleave <= dst.Length
    requires 0 <= first <= phys <= b.n
    requires f.lowerVirt && f.diagVirt ==> first < phys
    requires f.upperVirt && f.diagVirt ==> phys < b.n
    requires forall l :: first <= l < phys && !(f.lowerVirt && f.diagVirt && l == first) ==> b.Physical(dc, l)
    requires Makes(b, dc, f, first, phys) && Filled(b, dst[..], was, d, dc)
    modifies dst
    ensures Filled(b, dst[..], was, d, dc + 1)
  {
    hide Block.Cell, Lane, Filled, Block.IsVirtual, Block.OnDiagonal, Source.Has;
    ghost var now := dst[..];
    ColumnFits(b, d, dc, dst.Length);
    var p := d + dc * b.interleave;
    CopyN(f, first, phys, b.n, b.interleave, b.src, dc, b.s0, dst, p);
    CopiedIsCell(b, f, first, phys, now, dst[..], p, dc);
    FilledStep(b, now, dst[..], was, d, dc, p, p + b.interleave);
  }

  lemma CopiedIsCell(b: Block, f: Flags, first: int, phys: int, now: seq<real>, next: seq<real>, p: int, dc: int)
    requires Makes(b, dc, f, first, phys) && |now| == |next|
    requires forall k :: 0 <= k < |now| ==>
               next[k] == if p <= k < p + b.interleave
                          then Lane(f, first, phys, b.n, b.src, dc, b.s0, k - p, now[k])
                          else now[k]
    ensures forall k :: 0 <= k < |now| ==>
              next[k] == if p <= k < p + b.interleave then b.Cell(dc, k - p, now[k]) else now[k]
  {
    hide Block.Cell, Lane;
  }

  // ---------- what each of the five phases copies ----------

  lemma TopZeros(b: Block, c: int)
    requires b.Valid() && b.f.upperVirt && b.f.virtZero && 0 <= c < b.cntgMin && c < b.cntgFirst
    ensures Makes(b, c, b.f.Virtual(), b.n, b.n)
  {
    hide Source.Has, Source.Get;
  }

  lemma PartialLower(b: Block, c: int, delta: int)
    requires b.Valid() && b.f.upperVirt && 0 <= c < b.cntgMin && b.cntgFirst <= c < b.cntgFirst + b.n
    requires delta == c - b.cntgFirst + if b.f.diagVirt then 0 else 1
    ensures 0 <= delta <= b.n && Makes(b, c, b.f, 0, delta)
    ensures forall l :: 0 <= l < delta ==> b.Physical(c, l)
  {
    hide Source.Has, Source.Get;
  }

  lemma Rectangle(b: Block, c: int)
    requires b.Valid() && 0 <= c < b.cntgMin
    requires b.f.upperVirt ==> c >= b.cntgFirst + b.n
    requires b.f.lowerVirt ==> c < b.cntgLast
    ensures Makes(b, c, b.f.Physical(), 0, b.n)
    ensures forall l :: 0 <= l < b.n ==> b.Physical(c, l)
  {
    hide Source.Has, Source.Get;
  }

  lemma PartialUpper(b: Block, c: int, delta: int)
    requires b.Valid() && b.f.lowerVirt && 0 <= c < b.cntgMin && b.cntgLast <= c < b.cntgLast + b.n
    requires delta == c - b.cntgLast
    ensures 0 <= delta < b.n && Makes(b, c, b.f, delta, b.n)
    ensures forall l :: delta <= l < b.n && !(b.f.diagVirt && l == delta) ==> b.Physical(c, l)
  {
    hide Source.Has, Source.Get;
  }

  lemma BottomZeros(b: Block, c: int)
    requires b.Valid() && b.f.lowerVirt && b.f.virtZero && 0 <= c < b.cntgMin && c >= b.cntgLast + b.n
    ensures Makes(b, c, b.f.Virtual(), 0, 0)
  {
    hide Source.Has, Source.Get;
  }

  lemma SkippedCell(b: Block, c: int, l: int, prev: real)
    requires b.Valid() && !b.f.virtZero && 0 <= c < b.cntgMin && b.FullyVirtual(c) && 0 <= l
    ensures b.Cell(c, l, prev) == prev
  {
  }

  lemma ColumnBetween(b: Block, o: int, dc: int, to: int)
    requires b.interleave >= 1 && dc * b.interleave <= o < to * b.interleave
    ensures dc <= b.ColumnAt(o) < to && 0 <= b.LaneAt(o) < b.interleave
  {
    var c := b.ColumnAt(o);
    DivModEquation(o, b.interleave);
    MulAdd(c, 1, b.interleave);
    MulCancelLess(dc, c + 1, b.interleave);
    MulCancelLess(c, to, b.interleave);
  }

  /** Without VirtZero the fully virtual columns are passed over, and keep what they held. */
  lemma SkippedColumns(b: Block, now: seq<real>, was: seq<real>, d: int, dc: int, to: int)
    requires b.Valid() && 0 <= dc <= to <= b.cntgMin && !b.f.virtZero
    requires forall c :: dc <= c < to ==> b.FullyVirtual(c)
    requires Filled(b, now, was, d, dc)
    ensures Filled(b, now, was, d, to)
  {
    hide Block.Cell, Block.ColumnAt, Block.LaneAt, Block.FullyVirtual;
    MulMonotone(dc, to, b.interleave);
    forall k | 0 <= k < |now| && d + dc * b.interleave <= k < d + to * b.interleave
      ensures b.Cell(b.ColumnAt(k - d), b.LaneAt(k - d), was[k]) == was[k]
    {
      ColumnBetween(b, k - d, dc, to);
      SkippedCell(b, b.ColumnAt(k - d), b.LaneAt(k - d), was[k]);
    }
  }
  // ---------- the walk ----------

  /** Phases one and two: columns above the stored part, then columns it begins in. */
  method UpperPhases(b: Block, dst: array<real>, d: int, ghost was: seq<real>) returns (dc: int)
    requires b.Valid() && b.f.upperVirt && 0 <= d && d + b.dstCntg * b.interleave <= dst.Length
    requires Filled(b, dst[..], was, d, 0)
    modifies dst
    ensures 0 <= dc <= b.cntgMin && (dc < b.cntgMin ==> dc >= b.cntgFirst + b.n)
    ensures Filled(b, dst[..], was, d, dc)
  {
    hide Filled, Makes, Block.Cell;
    dc := 0;
    var sectionEnd := Min(b.cntgFirst, b.cntgMin);
    if b.f.virtZero {
      while dc < sectionEnd
        invariant 0 <= dc <= Max(0, sectionEnd) && Filled(b, dst[..], was, d, dc)
      {
        TopZeros(b, dc);
        CopyColumn(b, b.f.Virtual(), b.n, b.n, dst, d, dc, was);
        dc := dc + 1;
      }
    } else {
      dc := Max(dc, sectionEnd);
      SkippedColumns(b, dst[..], was, d, 0, dc);
    }
    var sectionStart := dc;
    sectionEnd := Min(b.cntgFirst + b.n, b.cntgMin);
    var deltaStart := if b.cntgFirst >= 0 then 0 else -b.cntgFirst;
    if !b.f.diagVirt {
      deltaStart := 1 + deltaStart;
    }
    while dc < sectionEnd
      invariant sectionStart <= dc <= Max(sectionStart, sectionEnd) && Filled(b, dst[..], was, d, dc)
    {
      var delta := deltaStart + (dc - sectionStart);
      PartialLower(b, dc, delta);
      CopyColumn(b, b.f, 0, delta, dst, d, dc, was);
      dc := dc + 1;
    }
  }

  /** Phase three: columns in which every row of the block is stored. */
  method RectanglePhase(b: Block, dst: array<real>, d: int, start: int, ghost was: seq<real>) returns (dc: int)
    requires b.Valid() && 0 <= d && d + b.dstCntg * b.interleave <= dst.Length
    requires 0 <= start <= b.cntgMin && Filled(b, dst[..], was, d, start)
    requires b.f.upperVirt ==> start == b.cntgMin || start >= b.cntgFirst + b.n
    modifies dst
    ensures start <= dc <= b.cntgMin
    ensures dc == if b.f.lowerVirt then Max(start, Min(b.cntgLast, b.cntgMin)) else b.cntgMin
    ensures Filled(b, dst[..], was, d, dc)
  {
    hide Filled, Makes, Block.Cell;
    dc := start;
    var sectionEnd := if b.f.lowerVirt then Min(b.cntgLast, b.cntgMin) else b.cntgMin;
    while dc < sectionEnd
      invariant start <= dc <= Max(start, sectionEnd) && Filled(b, dst[..], was, d, dc)
    {
      Rectangle(b, dc);
      CopyColumn(b, b.f.Physical(), 0, b.n, dst, d, dc, was);
      dc := dc + 1;
    }
  }

  /** Phases four and five: columns the stored part ends in, then columns below it. */
  method LowerPhases(b: Block, dst: array<real>, d: int, start: int, ghost was: seq<real>)
    requires b.Valid() && b.f.lowerVirt && 0 <= d && d + b.dstCntg * b.interleave <= dst.Length
    requires start == Max(0, Min(b.cntgLast, b.cntgMin)) && Filled(b, dst[..], was, d, start)
    modifies dst
    ensures Filled(b, dst[..], was, d, b.cntgMin)
  {
    hide Filled, Makes, Block.Cell;
    var dc := start;
    var sectionStart := dc;
    var sectionEnd := Min(b.cntgLast + b.n, b.cntgMin);
    var deltaStart := if b.cntgLast >= 0 then 0 else -b.cntgLast;
    while dc < sectionEnd
      invariant sectionStart <= dc <= Max(sectionStart, sectionEnd) && Filled(b, dst[..], was, d, dc)
    {
      var delta := deltaStart + (dc - sectionStart);
      PartialUpper(b, dc, delta);
      CopyColumn(b, b.f, delta, b.n, dst, d, dc, was);
      dc := dc + 1;
    }
    sectionEnd := b.cntgMin;
    if b.f.virtZero {
      while dc < sectionEnd
        invariant sectionStart <= dc <= b.cntgMin && (dc < b.cntgMin ==> dc >= b.cntgLast + b.n)
        invariant Filled(b, dst[..], was, d, dc)
      {
        BottomZeros(b, dc);
        CopyColumn(b, b.f.Virtual(), 0, 0, dst, d, dc, was);
        dc := dc + 1;
      }
    } else {
      SkippedColumns(b, dst[..], was, d, dc, b.cntgMin);
    }
  }

  /** Columns past the source are zero in the lanes that are written. */
  method SlackColumns(b: Block, dst: array<real>, d: int, ghost was: seq<real>)
    requires b.Valid() && 0 <= d && d + b.dstCntg * b.interleave <= dst.Length
    requires Filled(b, dst[..], was, d, b.cntgMin)
    modifies dst
    ensures Filled(b, dst[..], was, d, b.dstCntg)
  {
    for dc := b.cntgMin to b.dstCntg
      invariant Filled(b, dst[..], was, d, dc)
    {
      hide Filled, Block.Physical;
      ghost var now := dst[..];
      ColumnFits(b, d, dc, dst.Length);
      var p := d + dc * b.interleave;
      ZeroLanes(dst, p, p + if b.f.zeroPad then b.interleave else b.n);
      FilledStep(b, now, dst[..], was, d, dc, p, p + b.interleave);
    }
  }

  /** n_interleave_cntg_loop: the block at d becomes the packed window, and nothing else changes. */
  method NInterleaveCntgLoop(b: Block, dst: array<real>, d: int)
    requires b.Valid() && 0 <= d && d + b.dstCntg * b.interleave <= dst.Length
    modifies dst
    ensures Filled(b, dst[..], old(dst[..]), d, b.dstCntg)
  {
    ghost var was := dst[..];
    assert Filled(b, dst[..], was, d, 0);
    hide Filled, Block.Physical;
    var dc := 0;
    if b.f.upperVirt {
      dc := UpperPhases(b, dst, d, was);
    }
    dc := RectanglePhase(b, dst, d, dc, was);
    if b.f.lowerVirt {
      LowerPhases(b, dst, d, dc, was);
    }
    SlackColumns(b, dst, d, was);
  }
}
