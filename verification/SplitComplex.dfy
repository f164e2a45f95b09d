/**
 * Complex matrices whose real and imaginary parts are kept apart: `split` real parts, then their
 * imaginary parts, inside every interleaved block. All indices count real numbers.
 */
module SplitComplex {
  import opened NumericUtils
  import Views

  datatype Complex = Complex(re: real, im: real)

  /** split_complex_matrix: where its elements are. */
  datatype Split = Split(interleave: int, splitFactor: int, cntg: int, strd: int, strdStep: int) {

    ghost predicate Valid() {
      && interleave > 0 && splitFactor > 0 && cntg >= 0 && strd >= 0
      && interleave % splitFactor == 0 && strdStep >= cntg * interleave
    }

    /** Position in its block of the real part at strided position x of the block. */
    function BlockPosition(x: int): int
      requires splitFactor > 0
    {
      x / splitFactor * splitFactor * 2 + x % splitFactor
    }

    /** get_elem_idx: the index of the real part, and of the imaginary part. */
    function RealIndex(c: int, s: int): int
      requires interleave > 0 && splitFactor > 0
    {
      2 * (s / interleave * strdStep + c * interleave)
      + (s % interleave / splitFactor * splitFactor * 2 + s % splitFactor)
    }

    function ImagIndex(c: int, s: int): int
      requires interleave > 0 && splitFactor > 0
    {
      RealIndex(c, s) + splitFactor
    }

    function PartIndex(c: int, s: int, imaginary: bool): int
      requires interleave > 0 && splitFactor > 0
    {
      if imaginary then ImagIndex(c, s) else RealIndex(c, s)
    }
  }

  // ---------- distinct elements, and distinct parts, have distinct places ----------

  lemma MultipleBelow(q: int, r: int, x: int)
    requires r > 0 && 0 <= x < q * r
    ensures 0 <= x / r < q && 0 <= x % r < r && x == x / r * r + x % r
  {
    DivModEquation(x, r);
    MulCancelLess(-1, x / r, r);
    MulCancelLess(x / r, q, r);
  }

  /** The remainder by a divisor of the interleave is that of the position in the block. */
  lemma RemainderInBlock(s: int, interleave: int, f: int)
    requires interleave > 0 && f > 0 && interleave % f == 0
    ensures (s % interleave) % f == s % f
  {
    var q, x := interleave / f, s % interleave;
    DivModEquation(interleave, f);
    DivModEquation(s, interleave);
    DivModEquation(x, f);
    MulAdd(s / interleave * q, x / f, f);
    assert s / interleave * interleave == s / interleave * q * f by {
      MulAssociate(s / interleave, q, f);
    }
    DivMod(s / interleave * q + x / f, x % f, f);
  }

  lemma MulAssociate(a: int, b: int, c: int)
    ensures a * (b * c) == a * b * c
  {
  }

  /** Inside a block, the position of a part tells which element and which part it is. */
  lemma BlockPositionDecodes(m: Split, x: int, imaginary: bool)
    requires m.interleave > 0 && m.splitFactor > 0 && m.interleave % m.splitFactor == 0 && 0 <= x < m.interleave
    ensures var f := m.splitFactor;
            var pos := m.BlockPosition(x) + if imaginary then f else 0;
            && 0 <= pos < 2 * m.interleave
            && x == pos / (2 * f) * f + pos % (2 * f) % f
            && imaginary == (pos % (2 * f) / f == 1)
  {
    var f := m.splitFactor;
    var u, v := x / f, x % f;
    var inner := v + if imaginary then f else 0;
    DivModEquation(m.interleave, f);
    MultipleBelow(m.interleave / f, f, x);
    MulMonotone(0, u, f);
    MulMonotone(u + 1, m.interleave / f, f);
    MulAdd(u, 1, f);
    MulAssociate(u, 2, f);
    assert u * f * 2 == u * (2 * f);
    DivMod(u, inner, 2 * f);
    DivMod(if imaginary then 1 else 0, v, f);
  }

  /** Rows of d numbers hold blocks of b: row, block and position can be read off an index. */
  lemma RowsOfBlocks(j: int, c: int, pos: int, n: int, d: int, b: int)
    requires 0 <= j && 0 <= c < n && 0 <= pos < b && n * b <= d
    ensures d > 0
    ensures var k := j * d + (c * b + pos);
            0 <= k && k / d == j && k % d / b == c && k % d % b == pos
  {
    MulMonotone(c + 1, n, b);
    MulAdd(c, 1, b);
    MulMonotone(0, c, b);
    MulMonotone(0, j, d);
    DivMod(j, c * b + pos, d);
    DivMod(c, pos, b);
  }

  /** The index of a part, its block, and its position there. */
  lemma IndexDecodes(m: Split, c: int, s: int, imaginary: bool)
    requires m.Valid() && 0 <= c < m.cntg && 0 <= s
    ensures var pos := m.BlockPosition(s % m.interleave) + if imaginary then m.splitFactor else 0;
            var k := m.PartIndex(c, s, imaginary);
            && 0 < 2 * m.strdStep && 0 <= k
            && s / m.interleave == k / (2 * m.strdStep)
            && c == k % (2 * m.strdStep) / (2 * m.interleave)
            && pos == k % (2 * m.strdStep) % (2 * m.interleave)
  {
    var j, i := s / m.interleave, m.interleave;
    DivModEquation(s, i);
    MulCancelLess(-1, j, i);
    BlockPositionDecodes(m, s % i, imaginary);
    PartIndexSum(m, c, s, imaginary);
    hide Split.BlockPosition, Split.PartIndex;
    MulDouble(c, i);
    MulDouble(j, m.strdStep);
    MulDouble(m.cntg, i);
    RowsOfBlocks(j, c, m.BlockPosition(s % i) + if imaginary then m.splitFactor else 0, m.cntg, 2 * m.strdStep, 2 * i);
  }

  lemma MulDouble(a: int, b: int)
    ensures a * (2 * b) == 2 * (a * b)
  {
  }

  lemma PartIndexSum(m: Split, c: int, s: int, imaginary: bool)
    requires m.Valid()
    ensures m.PartIndex(c, s, imaginary)
         == 2 * (s / m.interleave * m.strdStep) + 2 * (c * m.interleave)
            + m.BlockPosition(s % m.interleave) + if imaginary then m.splitFactor else 0
  {
    RemainderInBlock(s, m.interleave, m.splitFactor);
  }

  lemma PartsDistinct(m: Split, c: int, s: int, imaginary: bool, c': int, s': int, imaginary': bool)
    requires m.Valid() && 0 <= c < m.cntg && 0 <= s && 0 <= c' < m.cntg && 0 <= s'
    requires m.PartIndex(c, s, imaginary) == m.PartIndex(c', s', imaginary')
    ensures c == c' && s == s' && imaginary == imaginary'
  {
    IndexDecodes(m, c, s, imaginary);
    IndexDecodes(m, c', s', imaginary');
    DivModEquation(s, m.interleave);
    DivModEquation(s', m.interleave);
    BlockPositionDecodes(m, s % m.interleave, imaginary);
    BlockPositionDecodes(m, s' % m.interleave, imaginary');
  }

  /**
   * The layout inside a block: real parts of one split group are adjacent, the next group starts after
   * their imaginary parts, and the imaginary part of an element is one group after its real part.
   */
  lemma LayoutInBlock(m: Split, c: int, s: int)
    requires m.interleave > 0 && m.splitFactor > 0 && m.interleave % m.splitFactor == 0
    ensures m.ImagIndex(c, s) == m.RealIndex(c, s) + m.splitFactor
    ensures s % m.splitFactor != m.splitFactor - 1 ==> m.RealIndex(c, s + 1) == m.RealIndex(c, s) + 1
    ensures s % m.interleave < m.interleave - m.splitFactor ==>
              m.RealIndex(c, s + m.splitFactor) == m.RealIndex(c, s) + 2 * m.splitFactor
  {
    var i, f := m.interleave, m.splitFactor;
    DivModEquation(s % i, f);
    RemainderInBlock(s, i, f);
    if s % f != f - 1 {
      GroupInside(s, i, f);
      NextIn(s, i, 1);
      NextIn(s % i, f, 1);
      RemainderInBlock(s + 1, i, f);
    }
    if s % i < i - f {
      NextIn(s, i, f);
      NextIn(s % i, f, 1);
      RemainderInBlock(s + f, i, f);
      MulAdd(s % i / f, 1, f);
    }
  }

  /**
   * The layout of the blocks: the first starts the memory, the next contiguous position is one block of
   * pairs further, and the next row a row's step further.
   */
  lemma LayoutOfBlocks(m: Split, c: int, s: int)
    requires m.interleave > 0 && m.splitFactor > 0 && m.interleave % m.splitFactor == 0
    ensures m.RealIndex(0, 0) == 0
    ensures m.RealIndex(c + 1, s) == m.RealIndex(c, s) + 2 * m.interleave
    ensures m.RealIndex(c, s + m.interleave) == m.RealIndex(c, s) + 2 * m.strdStep
  {
    var i, f := m.interleave, m.splitFactor;
    DivMod(0, 0, i);
    DivMod(0, 0, f);
    NextIn(s, i, 1);
    RemainderInBlock(s, i, f);
    RemainderInBlock(s + i, i, f);
    MulAdd(c, 1, i);
    MulAdd(s / i, 1, m.strdStep);
  }

  /** A position that does not end its group does not end its block. */
  lemma GroupInside(s: int, i: int, f: int)
    requires i > 0 && f > 0 && i % f == 0 && s % f != f - 1
    ensures s % i + 1 < i
  {
    RemainderInBlock(s, i, f);
    DivModEquation(i, f);
    if s % i == i - 1 {
      MulAdd(i / f, 1, f);
      DivMod(i / f - 1, f - 1, f);
    }
  }

  // ---------- the packing kernels ----------

  /** The matrix that is packed, in its own storage or read across it. */
  datatype Source = Source(a: seq<Complex>, lda: int, trans: bool, cntg: int, strd: int) {
    function Addr(c: int, s: int): int {
      if trans then c * lda + s else s * lda + c
    }

    function At(c: int, s: int): Complex {
      if 0 <= Addr(c, s) < |a| then a[Addr(c, s)] else Complex(0.0, 0.0)
    }

    /** What a reader of the packed matrix must see: zero beyond the last strided element. */
    function Padded(c: int, s: int): Complex {
      if s < strd then At(c, s) else Complex(0.0, 0.0)
    }

    /** Number of interleaved rows of four. */
    function Blocks(): int
      requires strd >= 0
    {
      IRoundDiv(strd, 4)
    }

    /** Part e of complex cell i of row j of the packed matrix: two real parts, or two imaginary ones. */
    function CellPart(i: int, j: int, e: int): real {
      var z := Padded(i / 4, 4 * j + i % 2 * 2 + e);
      if i % 4 < 2 then z.re else z.im
    }
  }

  /**
   * The source as the library's views of its real and imaginary parts: for the second kernel the memory
   * holds the transpose of what is packed.
   */
  ghost function PartView(src: Source, imaginary: bool): Views.View {
    var data := seq(|src.a|, k requires 0 <= k < |src.a| => if imaginary then src.a[k].im else src.a[k].re);
    if src.trans then Views.View(data, 0, src.strd, src.cntg, 1, src.lda, 0, 0).Transpose()
    else Views.View(data, 0, src.cntg, src.strd, 1, src.lda, 0, 0)
  }

  lemma AtIsView(src: Source, c: int, s: int)
    ensures src.At(c, s).re == PartView(src, false).At(PartView(src, false).Addr(c, s))
    ensures src.At(c, s).im == PartView(src, true).At(PartView(src, true).Addr(c, s))
  {
  }

  // The cell an index is in; a cell holds two numbers.
  ghost function CellRow(k: int, ldb: int): int requires ldb > 0 { k / 2 % ldb }
  ghost function CellColumn(k: int, ldb: int): int requires ldb > 0 { k / 2 / ldb }

  lemma CellDecodes(ldb: int, i: int, j: int, e: int)
    requires 0 <= i < ldb && 0 <= e < 2
    ensures var k := 2 * (j * ldb + i) + e; CellRow(k, ldb) == i && CellColumn(k, ldb) == j && k % 2 == e
  {
    DivMod(j, i, ldb);
  }

  lemma CellEncodes(ldb: int, k: int)
    requires ldb > 0
    ensures k == 2 * (CellColumn(k, ldb) * ldb + CellRow(k, ldb)) + k % 2
  {
    DivModEquation(k / 2, ldb);
  }

  /** Cell (i, j) as packed, everything else as before. */
  ghost predicate CellWritten(src: Source, ldb: int, was: seq<real>, now: seq<real>, i: int, j: int)
    requires ldb > 0
  {
    && |was| == |now|
    && forall k :: 0 <= k < |now| ==>
         now[k] == if CellRow(k, ldb) == i && CellColumn(k, ldb) == j then src.CellPart(i, j, k % 2) else was[k]
  }

  /** One iteration of the double loop: b(j * ldb + i).real(...), b(j * ldb + i).imag(...). */
  method WriteCell(src: Source, b: array<real>, ldb: int, i: int, j: int)
    requires 0 <= i < ldb && 0 <= 2 * (j * ldb + i) && 2 * (j * ldb + i) + 1 < b.Length && 0 <= 4 * j < src.strd
    modifies b
    ensures CellWritten(src, ldb, old(b[..]), b[..], i, j)
  {
    hide Source.At, Source.Addr;
    var c, s := i / 4, j * 4;
    var n := src.strd;
    var cell := 2 * (j * ldb + i);
    ghost var was := b[..];
    var real_, imag: real;
    match i % 4 {
      case 0 =>
        real_ := src.At(c, s).re;
        imag := if s + 1 < n then src.At(c, s + 1).re else 0.0;
      case 1 =>
        real_ := if s + 2 < n then src.At(c, s + 2).re else 0.0;
        imag := if s + 3 < n then src.At(c, s + 3).re else 0.0;
      case 2 =>
        real_ := src.At(c, s).im;
        imag := if s + 1 < n then src.At(c, s + 1).im else 0.0;
      case _ =>
        real_ := if s + 2 < n then src.At(c, s + 2).im else 0.0;
        imag := if s + 3 < n then src.At(c, s + 3).im else 0.0;
    }
    assert real_ == src.CellPart(i, j, 0) && imag == src.CellPart(i, j, 1);
    hide Source.CellPart;
    b[cell] := real_;
    b[cell + 1] := imag;
    CellStored(src, ldb, was, b[..], i, j);
  }

  lemma CellStored(src: Source, ldb: int, was: seq<real>, now: seq<real>, i: int, j: int)
    requires 0 <= i < ldb && 0 <= 2 * (j * ldb + i) && 2 * (j * ldb + i) + 1 < |was| == |now|
    requires now == was[2 * (j * ldb + i) := src.CellPart(i, j, 0)][2 * (j * ldb + i) + 1 := src.CellPart(i, j, 1)]
    ensures CellWritten(src, ldb, was, now, i, j)
  {
    hide Source.CellPart, CellRow, CellColumn;
    CellDecodes(ldb, i, j, 0);
    CellDecodes(ldb, i, j, 1);
    forall k | 0 <= k < |now|
      ensures now[k] == if CellRow(k, ldb) == i && CellColumn(k, ldb) == j then src.CellPart(i, j, k % 2) else was[k]
    {
      CellEncodes(ldb, k);
    }
  }

  /** Cells of the first `rows` indices i, and of index `rows` those before column `columns`, as packed. */
  ghost predicate Packed(src: Source, ldb: int, was: seq<real>, now: seq<real>, rows: int, columns: int)
    requires ldb > 0 && src.strd >= 0
  {
    && |was| == |now|
    && forall k :: 0 <= k < |now| ==>
         now[k] == if Done(src, ldb, k, rows, columns) then src.CellPart(CellRow(k, ldb), CellColumn(k, ldb), k % 2)
                   else was[k]
  }

  ghost predicate Done(src: Source, ldb: int, k: int, rows: int, columns: int)
    requires ldb > 0 && src.strd >= 0
  {
    && 0 <= CellColumn(k, ldb) < src.Blocks()
    && (0 <= CellRow(k, ldb) < rows || (CellRow(k, ldb) == rows && CellColumn(k, ldb) < columns))
  }

  lemma PackedStep(src: Source, ldb: int, a: seq<real>, b: seq<real>, c: seq<real>, i: int, j: int)
    requires ldb > 0 && src.strd >= 0 && 0 <= j < src.Blocks() && 0 <= i
    requires Packed(src, ldb, a, b, i, j) && CellWritten(src, ldb, b, c, i, j)
    ensures Packed(src, ldb, a, c, i, j + 1)
  {
    hide Source.CellPart, CellRow, CellColumn, Source.Blocks;
  }

  lemma PackedRow(src: Source, ldb: int, a: seq<real>, b: seq<real>, i: int)
    requires ldb > 0 && src.strd >= 0 && 0 <= i && Packed(src, ldb, a, b, i, src.Blocks())
    ensures Packed(src, ldb, a, b, i + 1, 0)
  {
    hide Source.CellPart, CellRow, CellColumn, Source.Blocks;
  }

  lemma CellInside(src: Source, ldb: int, length: int, i: int, j: int)
    requires src.strd >= 0 && 0 <= i < ldb && 0 <= j < src.Blocks() && 2 * (src.Blocks() * ldb) <= length
    ensures 0 <= 2 * (j * ldb + i) && 2 * (j * ldb + i) + 1 < length && 4 * j < src.strd
  {
    IRoundDivBounds(src.strd, 4);
    hide Source.Blocks, IRoundDiv;
    MulMonotone(j + 1, src.Blocks(), ldb);
    MulAdd(j, 1, ldb);
    MulMonotone(0, j, ldb);
    assert src.Blocks() == IRoundDiv(src.strd, 4) by { BlocksIs(src); }
  }

  lemma BlocksIs(src: Source)
    requires src.strd >= 0
    ensures src.Blocks() == IRoundDiv(src.strd, 4)
  {
  }

  /** n_interleave_split_complex_ir4, and on a source read across its storage t_interleave_split_complex_ir4. */
  method InterleaveSplitComplex(src: Source, b: array<real>, ldb: int)
    requires src.cntg >= 0 && src.strd >= 0 && ldb >= Max(1, src.cntg * 4)
    requires 2 * (src.Blocks() * ldb) <= b.Length
    modifies b
    ensures Packed(src, ldb, old(b[..]), b[..], src.cntg * 4, 0)
  {
    hide Source.Blocks, Source.CellPart, CellRow, CellColumn, CellWritten;
    ghost var was := b[..];
    var nb, mb := src.Blocks(), src.cntg * 4;
    for i := 0 to mb
      invariant Packed(src, ldb, was, b[..], i, 0)
    {
      hide Packed;
      BlocksNatural(src);
      for j := 0 to nb
        invariant Packed(src, ldb, was, b[..], i, j)
      {
        ghost var before := b[..];
        CellInside(src, ldb, b.Length, i, j);
        WriteCell(src, b, ldb, i, j);
        PackedStep(src, ldb, was, before, b[..], i, j);
      }
      PackedRow(src, ldb, was, b[..], i);
    }
  }

  lemma BlocksNatural(src: Source)
    requires src.strd >= 0
    ensures 0 <= src.Blocks()
  {
    IRoundIsCeiling(src.strd, 4);
  }

  // ---------- reading it back ----------

  /** The matrix type that reads the packed form: interleave and split factor four. */
  function View(src: Source, ldb: int): Split {
    Split(4, 4, src.cntg, src.strd, ldb)
  }

  /** The cell that holds the real part, two cells before the one that holds the imaginary part. */
  function CellOf(c: int, s: int): int {
    4 * c + s % 4 / 2
  }

  lemma Quarters(s: int)
    ensures 0 <= s % 4 / 2 < 2 && s == 4 * (s / 4) + 2 * (s % 4 / 2) + s % 2 && s % 4 == 2 * (s % 4 / 2) + s % 2
  {
    var q, r := s / 4, s % 4;
    DivModEquation(s, 4);
    DivModEquation(r, 2);
    DivMod(2 * q + r / 2, r % 2, 2);
  }

  lemma CellPosition(c: int, h: int)
    requires 0 <= h < 2
    ensures (4 * c + h) / 4 == c && (4 * c + h) % 4 == h && (4 * c + h) % 2 == h
  {
    DivMod(c, h, 4);
    DivMod(2 * c, h, 2);
  }

  lemma ImagPosition(c: int, h: int)
    requires 0 <= h < 2
    ensures (4 * c + h + 2) / 4 == c && (4 * c + h + 2) % 4 == h + 2 && (4 * c + h + 2) % 2 == h
  {
    DivMod(c, h + 2, 4);
    DivMod(2 * c + 1, h, 2);
  }

  /** Of a block of four, all the real parts come first. */
  lemma BlockOfFour(s: int)
    ensures s % 4 / 4 * 4 * 2 + s % 4 == s % 4
  {
    DivModEquation(s, 4);
    DivMod(0, s % 4, 4);
  }

  lemma ViewIndices(src: Source, ldb: int, c: int, s: int)
    ensures View(src, ldb).RealIndex(c, s) == 2 * (s / 4 * ldb + CellOf(c, s)) + s % 2
    ensures View(src, ldb).ImagIndex(c, s) == 2 * (s / 4 * ldb + (CellOf(c, s) + 2)) + s % 2
  {
    BlockOfFour(s);
    Quarters(s);
    var row, h, e, r := s / 4 * ldb, s % 4 / 2, s % 2, s % 4;
    assert View(src, ldb).RealIndex(c, s) == 2 * (row + c * 4) + r;
    assert 2 * (row + c * 4) + (2 * h + e) == 2 * (row + (4 * c + h)) + e;
  }

  lemma PartsOfCell(src: Source, c: int, s: int)
    requires 0 <= c && 0 <= s
    ensures src.CellPart(CellOf(c, s), s / 4, s % 2) == src.Padded(c, s).re
    ensures src.CellPart(CellOf(c, s) + 2, s / 4, s % 2) == src.Padded(c, s).im
  {
    hide Source.Padded;
    Quarters(s);
    var h := s % 4 / 2;
    CellPosition(c, h);
    ImagPosition(c, h);
    hide CellOf;
    assert CellOf(c, s) == 4 * c + h by { CellIs(c, s); }
  }

  lemma CellIs(c: int, s: int)
    ensures CellOf(c, s) == 4 * c + s % 4 / 2
  {
  }

  lemma CellHolds(src: Source, ldb: int, was: seq<real>, now: seq<real>, i: int, j: int, e: int)
    requires src.cntg >= 0 && src.strd >= 0 && ldb >= Max(1, src.cntg * 4)
    requires 2 * (src.Blocks() * ldb) <= |now| && Packed(src, ldb, was, now, src.cntg * 4, 0)
    requires 0 <= i < src.cntg * 4 && 0 <= j < src.Blocks() && 0 <= e < 2
    ensures 0 <= 2 * (j * ldb + i) + e < |now| && now[2 * (j * ldb + i) + e] == src.CellPart(i, j, e)
  {
    hide Source.CellPart, Source.Blocks, CellRow, CellColumn;
    RowInside(j, ldb, src.Blocks());
    CellDecodes(ldb, i, j, e);
  }

  /** Every element, padding included, reads back as the complex number that was packed. */
  lemma ReadsBack(src: Source, ldb: int, was: seq<real>, now: seq<real>, c: int, s: int)
    requires src.cntg >= 0 && src.strd >= 0 && ldb >= Max(1, src.cntg * 4)
    requires 2 * (src.Blocks() * ldb) <= |now| && Packed(src, ldb, was, now, src.cntg * 4, 0)
    requires 0 <= c < src.cntg && 0 <= s < 4 * src.Blocks()
    ensures var v := View(src, ldb);
            && 0 <= v.RealIndex(c, s) < |now| && 0 <= v.ImagIndex(c, s) < |now|
            && Complex(now[v.RealIndex(c, s)], now[v.ImagIndex(c, s)]) == src.Padded(c, s)
    ensures var v, re, im := View(src, ldb), PartView(src, false), PartView(src, true);
            && now[v.RealIndex(c, s)] == (if s < src.strd then re.At(re.Addr(c, s)) else 0.0)
            && now[v.ImagIndex(c, s)] == (if s < src.strd then im.At(im.Addr(c, s)) else 0.0)
  {
    AtIsView(src, c, s);
    PaddedIs(src, c, s);
    hide Source.CellPart, Source.Padded, Source.At, PartView, Source.Blocks, Packed, Split.RealIndex, Split.ImagIndex;
    ViewIndices(src, ldb, c, s);
    PartsOfCell(src, c, s);
    CellHolds(src, ldb, was, now, CellOf(c, s), s / 4, s % 2);
    CellHolds(src, ldb, was, now, CellOf(c, s) + 2, s / 4, s % 2);
  }

  lemma PaddedIs(src: Source, c: int, s: int)
    ensures src.Padded(c, s) == if s < src.strd then src.At(c, s) else Complex(0.0, 0.0)
  {
  }

  lemma RowInside(j: int, ldb: int, blocks: int)
    requires 0 <= j < blocks && 0 < ldb
    ensures 0 <= j * ldb && j * ldb + ldb <= blocks * ldb
  {
    MulMonotone(j + 1, blocks, ldb);
    MulAdd(j, 1, ldb);
    MulMonotone(0, j, ldb);
  }
}
