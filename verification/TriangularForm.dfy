/**
 * Windows onto a triangular matrix and the bounds of what they really hold. Positions are
 * absolute (cntg, strd) coordinates of the parent: the lower triangle is cntg >= strd.
 */
module TriangularForm {
  import opened NumericUtils

  datatype Window = Window(
    lower: bool, diagPhysical: bool,
    cntg: int, strd: int,
    absCntg: int, absStrd: int)

  /** Element (c, s) of the window is stored, or is the diagonal. */
  predicate NonVirtual(w: Window, c: int, s: int) {
    if w.lower then c + w.absCntg >= s + w.absStrd else c + w.absCntg <= s + w.absStrd
  }

  predicate OnDiagonal(w: Window, c: int, s: int) {
    c + w.absCntg == s + w.absStrd
  }

  datatype IncludeDiag = Yes | No

  function SubWindow(w: Window, cntgPos: int, cntgSize: int, strdPos: int, strdSize: int): Window {
    w.(cntg := cntgSize, strd := strdSize, absCntg := w.absCntg + cntgPos, absStrd := w.absStrd + strdPos)
  }

  function StrdPanel(w: Window, first: int, size: int): Window {
    SubWindow(w, 0, w.cntg, first, size)
  }

  /** get_non_virtual_cntg_bounds_for_strd: first and one past the last cntg of column strd. */
  function CntgBounds(w: Window, strd: int, inc: IncludeDiag := Yes): (int, int) {
    var aStrd := w.absStrd + strd;
    if w.lower then
      var diagIsVirtual := if inc.No? && !w.diagPhysical then 1 else 0;
      (Min(Max(aStrd - w.absCntg + diagIsVirtual, 0), w.cntg), w.cntg)
    else
      var diagIsPhysical := if inc.No? && !w.diagPhysical then 0 else 1;
      (0, Max(Min(aStrd - w.absCntg + diagIsPhysical, w.cntg), 0))
  }

  /** get_non_virtual_strd_bounds_for_cntg. */
  function StrdBounds(w: Window, cntg: int, inc: IncludeDiag := Yes): (int, int) {
    var aCntg := w.absCntg + cntg;
    if w.lower then
      var diagIsPhysical := if inc.No? && !w.diagPhysical then 0 else 1;
      (0, Max(Min(aCntg - w.absStrd + diagIsPhysical, w.strd), 0))
    else
      var diagIsVirtual := if inc.No? && !w.diagPhysical then 1 else 0;
      (Min(Max(aCntg - w.absStrd + diagIsVirtual, 0), w.strd), w.strd)
  }

  /** The hull of the bounds of the first and the last column. */
  function CntgBoundsAll(w: Window): (int, int) {
    var (f0, l0) := CntgBounds(w, 0);
    var (f1, l1) := CntgBounds(w, w.strd - 1);
    (Min(f0, f1), Max(l0, l1))
  }

  function StrdBoundsAll(w: Window): (int, int) {
    var (f0, l0) := StrdBounds(w, 0);
    var (f1, l1) := StrdBounds(w, w.cntg - 1);
    (Min(f0, f1), Max(l0, l1))
  }

  /** Whether a bounds query counts element (c, s). */
  predicate Counted(w: Window, c: int, s: int, inc: IncludeDiag) {
    NonVirtual(w, c, s) && (OnDiagonal(w, c, s) && inc.No? ==> w.diagPhysical)
  }

  /** The bounds of a column are exactly its counted elements, at any offset of the window. */
  lemma CntgBoundsExact(w: Window, c: int, s: int, inc: IncludeDiag)
    requires 0 <= c < w.cntg
    ensures CntgBounds(w, s, inc).0 <= c < CntgBounds(w, s, inc).1 <==> Counted(w, c, s, inc)
  {
  }

  lemma StrdBoundsExact(w: Window, c: int, s: int, inc: IncludeDiag)
    requires 0 <= s < w.strd
    ensures StrdBounds(w, c, inc).0 <= s < StrdBounds(w, c, inc).1 <==> Counted(w, c, s, inc)
  {
  }

  /** Every stored element of the window lies within both hulls. */
  lemma HullsHoldEverything(w: Window, c: int, s: int)
    requires 0 <= c < w.cntg && 0 <= s < w.strd && NonVirtual(w, c, s)
    ensures CntgBoundsAll(w).0 <= c < CntgBoundsAll(w).1 && StrdBoundsAll(w).0 <= s < StrdBoundsAll(w).1
  {
    CntgBoundsExact(w, c, s, Yes);
    StrdBoundsExact(w, c, s, Yes);
  }
}
