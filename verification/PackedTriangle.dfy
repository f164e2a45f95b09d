/** A triangle stored column after column, or row after row, without the elements that are not there. */
module PackedTriangle {
  import opened NumericUtils

  function UpperStep(index: int, n: int): int {
    index * (index + 1) / 2
  }

  function LowerStep(index: int, n: int): int {
    index * (2 * n - index - 1) / 2
  }

  function UnitStep(index: int, n: int): int {
    index
  }

  /** A packed n x n triangle, or a part of one whose corner is at (absCntg, absStrd). */
  datatype Packed = Packed(n: int, cntg: int, strd: int, upper: bool, strdUnit: bool, trans: bool,
                           absCntg: int, absStrd: int)
  {
    /** The step functions the constructor chooses. */
    function CntgStep(index: int): int {
      if strdUnit then
        if trans then UnitStep(index, n)
        else if upper then UpperStep(index, n) else LowerStep(index, n)
      else
        if trans then if upper then LowerStep(index, n) else UpperStep(index, n)
        else UnitStep(index, n)
    }

    function StrdStep(index: int): int {
      if strdUnit then
        if trans then if upper then LowerStep(index, n) else UpperStep(index, n)
        else UnitStep(index, n)
      else
        if trans then UnitStep(index, n)
        else if upper then UpperStep(index, n) else LowerStep(index, n)
    }

    /** get_absolute_logical_elem, counted in the whole triangle. */
    function AbsSlot(c: int, s: int): int {
      CntgStep(c) + StrdStep(s)
    }

    /** get_logical_elem, counted in this part of it. */
    function Slot(c: int, s: int): int {
      AbsSlot(c + absCntg, s + absStrd)
    }

    function Transpose(): Packed {
      Packed(n, strd, cntg, !upper, strdUnit, !trans, absStrd, absCntg)
    }

    function Sub(c: int, cs: int, s: int, ss: int): Packed {
      Packed(n, cs, ss, upper, strdUnit, trans, absCntg + c, absStrd + s)
    }

    /** Which of the two positions is the row depends on which one is contiguous. */
    function RowOf(c: int, s: int): int { if strdUnit then s else c }
    function ColumnOf(c: int, s: int): int { if strdUnit then c else s }

    /** The elements of the triangle. */
    predicate Stored(c: int, s: int) {
      && 0 <= c < n && 0 <= s < n
      && if upper then RowOf(c, s) <= ColumnOf(c, s) else ColumnOf(c, s) <= RowOf(c, s)
    }

    /** The index that goes through a step function, and the one that counts elements after it. */
    function Major(c: int, s: int): int { if strdUnit != trans then c else s }
    function Minor(c: int, s: int): int { if strdUnit != trans then s else c }
    predicate ByUpperStep() { upper != trans }
  }

  /** Number of places a triangle takes. */
  function Size(n: int): int {
    UpperStep(n, n)
  }

  // ---------- the two step functions, without division ----------

  lemma UpperProduct(m: int)
    ensures m * (m + 1) == m * m + m
  {
    MulAdd(m, 1, m);
  }

  lemma UpperStepDouble(m: int, n: int)
    ensures 2 * UpperStep(m, n) == m * m + m
    ensures UpperStep(m, n) == UpperStep(m, m)
  {
    UpperProduct(m);
    SquareParity(m);
    HalfExact(0, m * m, m);
  }

  lemma UpperStepFacts(m: int, n: int)
    ensures UpperStep(m + 1, n) == UpperStep(m, n) + m + 1
    ensures UpperStep(0, n) == 0 && UpperStep(n, n) == Size(n)
  {
    UpperStepDouble(m, n);
    UpperStepDouble(m + 1, n);
    hide UpperStep;
    UpperStepDouble(0, n);
    UpperStepDouble(n, n);
    assert (m + 1) * (m + 1) == m * m + 2 * m + 1;
  }

  /** The product in a step function, multiplied out. */
  lemma LowerProduct(m: int, n: int)
    ensures m * (2 * n - m - 1) == 2 * (m * n) - m * m - m
  {
    MulAdd(2 * n - m, 1, m);
    MulAdd(2 * n, m, m);
    MulAdd(n, n, m);
  }

  /** Halving is exact when the halved number is even. */
  lemma HalfExact(mn: int, mm: int, m: int)
    requires mm % 2 == m % 2
    ensures 2 * ((2 * mn - mm - m) / 2) == 2 * mn - mm - m
    ensures 2 * ((mm + m) / 2) == mm + m
  {
  }

  lemma LowerStepDouble(m: int, n: int)
    ensures 2 * LowerStep(m, n) == 2 * (m * n) - m * m - m
  {
    LowerProduct(m, n);
    SquareParity(m);
    HalfExact(m * n, m * m, m);
  }

  lemma LowerStepNext(m: int, n: int)
    ensures LowerStep(m + 1, n) == LowerStep(m, n) + n - m - 1
  {
    LowerStepDouble(m, n);
    LowerStepDouble(m + 1, n);
    hide LowerStep;
    MulAdd(m, 1, n);
    assert (m + 1) * (m + 1) == m * m + 2 * m + 1;
  }

  lemma LowerStepEnds(n: int)
    ensures LowerStep(0, n) == 0 && LowerStep(n, n) + n == Size(n)
  {
    LowerStepDouble(n, n);
    LowerStepDouble(0, n);
    UpperStepDouble(n, n);
    hide LowerStep, UpperStep;
  }

  lemma SquareParity(m: int)
    ensures m * m % 2 == m % 2
  {
    var h, e := m / 2, m % 2;
    MulAdd(h, h, m);
    MulAdd(2 * h, e, m);
    assert m * m == 2 * (h * m) + e * m;
    assert e * m == if e == 0 then 0 else m;
  }

  // ---------- places of one column ----------

  /** First place after those of major index m: the next index starts there. */
  function Base(p: Packed, m: int): int {
    if p.ByUpperStep() then UpperStep(m, p.n) else LowerStep(m, p.n) + m
  }

  lemma BaseStep(p: Packed, m: int)
    ensures Base(p, m + 1) == Base(p, m) + if p.ByUpperStep() then m + 1 else p.n - m
    ensures Base(p, 0) == 0 && Base(p, p.n) == Size(p.n)
  {
    UpperStepFacts(m, p.n);
    LowerStepNext(m, p.n);
    LowerStepEnds(p.n);
    hide UpperStep, LowerStep, Size;
  }

  lemma {:induction false} BaseOrdered(p: Packed, i: int, j: int)
    requires 0 <= i <= j <= p.n
    ensures Base(p, i) <= Base(p, j)
    decreases j - i
  {
    if i < j {
      BaseStep(p, i);
      hide Base;
      BaseOrdered(p, i + 1, j);
    }
  }

  /** The place of a stored element, between the base of its major index and the next. */
  lemma SlotInColumn(p: Packed, c: int, s: int)
    requires p.Stored(c, s)
    ensures p.AbsSlot(c, s) == Base(p, p.Major(c, s)) + p.Minor(c, s) - if p.ByUpperStep() then 0 else p.Major(c, s)
    ensures Base(p, p.Major(c, s)) <= p.AbsSlot(c, s) < Base(p, p.Major(c, s) + 1)
    ensures 0 <= p.Major(c, s) < p.n
  {
    BaseStep(p, p.Major(c, s));
    hide UpperStep, LowerStep;
  }

  // ---------- the map is a bijection ----------

  /** Every stored element has a place below n(n + 1)/2 ... */
  lemma SlotInRange(p: Packed, c: int, s: int)
    requires p.Stored(c, s)
    ensures 0 <= p.AbsSlot(c, s) < Size(p.n)
  {
    var m := p.Major(c, s);
    SlotInColumn(p, c, s);
    BaseStep(p, 0);
    BaseOrdered(p, 0, m);
    BaseOrdered(p, m + 1, p.n);
  }

  /** ... of its own ... */
  lemma SlotsDistinct(p: Packed, c: int, s: int, c': int, s': int)
    requires p.Stored(c, s) && p.Stored(c', s') && p.AbsSlot(c, s) == p.AbsSlot(c', s')
    ensures c == c' && s == s'
  {
    SlotInColumn(p, c, s);
    SlotInColumn(p, c', s');
    var m, m' := p.Major(c, s), p.Major(c', s');
    hide Base, Packed.AbsSlot, Size;
    if m < m' { BaseOrdered(p, m + 1, m'); }
    if m' < m { BaseOrdered(p, m' + 1, m); }
  }

  lemma {:induction false} FindMajor(p: Packed, k: int, m: int) returns (found: int)
    requires 0 <= m <= p.n && 0 <= k < Base(p, m)
    ensures 0 <= found < m && Base(p, found) <= k < Base(p, found + 1)
    decreases m
  {
    BaseStep(p, 0);
    hide Base;
    if m == 0 {
      found := 0;
    } else if Base(p, m - 1) <= k {
      found := m - 1;
    } else {
      found := FindMajor(p, k, m - 1);
    }
  }

  /** ... and every place below n(n + 1)/2 is taken. */
  lemma SlotTaken(p: Packed, k: int) returns (c: int, s: int)
    requires 0 <= p.n && 0 <= k < Size(p.n)
    ensures p.Stored(c, s) && p.AbsSlot(c, s) == k
  {
    BaseStep(p, 0);
    var major := FindMajor(p, k, p.n);
    BaseStep(p, major);
    var minor := k - Base(p, major) + if p.ByUpperStep() then 0 else major;
    c := if p.strdUnit != p.trans then major else minor;
    s := if p.strdUnit != p.trans then minor else major;
    hide UpperStep, LowerStep;
    SlotInColumn(p, c, s);
  }

  // ---------- the order of the places ----------

  /** The place of the element in a given row and column. */
  function PlaceAt(p: Packed, row: int, column: int): int {
    if p.strdUnit then p.AbsSlot(column, row) else p.AbsSlot(row, column)
  }

  /** Elements that follow each other in the unit dimension are neighbours. */
  lemma UnitNeighbours(p: Packed, c: int, s: int)
    ensures p.strdUnit != p.trans ==> p.Slot(c, s + 1) == p.Slot(c, s) + 1
    ensures p.strdUnit == p.trans ==> p.Slot(c + 1, s) == p.Slot(c, s) + 1
  {
    hide UpperStep, LowerStep;
  }

  /**
   * Not transposed, the places are the columns of the triangle, one after another and each from top to
   * bottom: the first element has place 0, the next row is the next place, and the first element of a
   * column comes right after the last of the column before.
   */
  lemma ColumnsInOrder(p: Packed, row: int, j: int)
    requires !p.trans
    ensures PlaceAt(p, 0, 0) == 0
    ensures PlaceAt(p, row + 1, j) == PlaceAt(p, row, j) + 1
    ensures p.upper ==> PlaceAt(p, 0, j + 1) == PlaceAt(p, j, j) + 1
    ensures !p.upper ==> PlaceAt(p, j + 1, j + 1) == PlaceAt(p, p.n - 1, j) + 1
  {
    UpperStepFacts(j, p.n);
    LowerStepNext(j, p.n);
    LowerStepEnds(p.n);
    hide UpperStep, LowerStep;
  }

  /** Transposed, they are the rows of the triangle, each from left to right. */
  lemma RowsInOrder(p: Packed, i: int, column: int)
    requires p.trans
    ensures PlaceAt(p, 0, 0) == 0
    ensures PlaceAt(p, i, column + 1) == PlaceAt(p, i, column) + 1
    ensures p.upper ==> PlaceAt(p, i + 1, i + 1) == PlaceAt(p, i, p.n - 1) + 1
    ensures !p.upper ==> PlaceAt(p, i + 1, 0) == PlaceAt(p, i, i) + 1
  {
    UpperStepFacts(i, p.n);
    LowerStepNext(i, p.n);
    LowerStepEnds(p.n);
    hide UpperStep, LowerStep;
  }

  // ---------- transposing and cutting ----------

  /** The transpose finds (s, c) where the matrix finds (c, s), stores the mirrored triangle, and undoes itself. */
  lemma TransposeSlot(p: Packed, c: int, s: int)
    ensures p.Transpose().Slot(s, c) == p.Slot(c, s)
    ensures p.Transpose().Stored(s, c) <==> p.Stored(c, s)
    ensures p.Transpose().Transpose() == p
  {
  }

  /** A part of a part is a part, and addresses what the whole does. */
  lemma SubSlot(p: Packed, c: int, cs: int, s: int, ss: int, dc: int, ds: int)
    ensures p.Sub(c, cs, s, ss).Slot(dc, ds) == p.Slot(c + dc, s + ds)
    ensures p.Sub(c, cs, s, ss).Transpose() == p.Transpose().Sub(s, ss, c, cs)
  {
  }

  // ---------- where the columns of a panel start and end ----------

  /** get_strd_band_pos, for a panel cut in the strided dimension only. */
  function StrdBandStart(p: Packed, cntg: int): int {
    if p.upper then 0 else Max(cntg - p.absStrd, 0)
  }
  function StrdBandEnd(p: Packed, cntg: int): int {
    if p.upper then Min(cntg - p.absStrd, p.strd - 1) else p.strd - 1
  }

  /** get_cntg_band_pos, for a panel cut in the contiguous dimension only. */
  function CntgBandStart(p: Packed, strd: int): int {
    if p.upper then Max(strd - p.absCntg, 0) else 0
  }
  function CntgBandEnd(p: Packed, strd: int): int {
    if p.upper then p.cntg - 1 else Min(strd - p.absCntg, p.cntg - 1)
  }

  /** With the column in the contiguous position, the band positions are exactly the stored elements. */
  lemma BandPositions(p: Packed, c: int, s: int)
    requires p.strdUnit && 0 <= p.absCntg && 0 <= p.absStrd && 0 <= c < p.cntg && 0 <= s < p.strd
    requires p.absCntg + p.cntg <= p.n && p.absStrd + p.strd <= p.n
    ensures p.absCntg == 0 ==>
              (p.Stored(c + p.absCntg, s + p.absStrd) <==> StrdBandStart(p, c) <= s <= StrdBandEnd(p, c))
    ensures p.absStrd == 0 ==>
              (p.Stored(c + p.absCntg, s + p.absStrd) <==> CntgBandStart(p, s) <= c <= CntgBandEnd(p, s))
  {
  }

  /** With the row in the contiguous position they are too, but read as rows of a column. */
  lemma BandPositionsByRow(p: Packed, c: int, s: int)
    requires !p.strdUnit && p.absCntg == 0 && p.absStrd == 0 && p.cntg == p.n == p.strd
    requires 0 <= c < p.n && 0 <= s < p.n
    ensures p.Stored(c, s) <==> StrdBandStart(p, s) <= c <= StrdBandEnd(p, s)
    ensures p.Stored(c, s) <==> CntgBandStart(p, c) <= s <= CntgBandEnd(p, c)
  {
  }
}
