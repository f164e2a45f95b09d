/**
 * Views of a dense matrix: a place in memory, two steps, and the position in the matrix the view was
 * cut from. The adaptors read the elements their triangle does not store out of those it does.
 */
module Views {
  import opened NumericUtils

  datatype View = View(data: seq<real>, origin: int, cntg: int, strd: int, cntgStep: int, strdStep: int,
                       absCntg: int, absStrd: int)
  {
    /** Address of the element at a position counted from the view's own corner. */
    function Addr(c: int, s: int): int {
      origin + c * cntgStep + s * strdStep
    }

    function ParentOrigin(): int {
      origin - (absCntg * cntgStep + absStrd * strdStep)
    }

    /** Address of the element at a position counted from the parent's corner. */
    function AbsAddr(c: int, s: int): int {
      ParentOrigin() + c * cntgStep + s * strdStep
    }

    function At(addr: int): real {
      if 0 <= addr < |data| then data[addr] else 0.0
    }

    function Sub(c: int, cs: int, s: int, ss: int): View {
      View(data, Addr(c, s), cs, ss, cntgStep, strdStep, absCntg + c, absStrd + s)
    }

    function Transpose(): View {
      View(data, origin, strd, cntg, strdStep, cntgStep, absStrd, absCntg)
    }

    /** The mirror image in the diagonal of the parent, read along the other dimension. */
    function ReflectTranspose(): View {
      View(data, AbsAddr(absStrd, absCntg), cntg, strd, strdStep, cntgStep, absCntg, absStrd)
    }
  }

  datatype Adaptor =
    | Triangular(base: View, upper: bool, unit: bool)
    | Symmetric(base: View, upper: bool)
  {
    function Sub(c: int, cs: int, s: int, ss: int): Adaptor {
      this.(base := base.Sub(c, cs, s, ss))
    }

    function Transpose(): Adaptor {
      this.(upper := !upper, base := base.Transpose())
    }

    function ReflectTranspose(): Adaptor {
      this.(upper := !upper, base := base.ReflectTranspose())
    }

    /** The element a reader sees. */
    function Value(c: int, s: int): real {
      var cntgPos, strdPos := c + base.absCntg, s + base.absStrd;
      var posIsLower := cntgPos > strdPos;
      if Triangular? then
        if cntgPos == strdPos && unit then 1.0
        else if cntgPos != strdPos && !upper != posIsLower then 0.0
        else base.At(base.Addr(c, s))
      else
        if upper == posIsLower then base.At(base.AbsAddr(strdPos, cntgPos))
        else base.At(base.AbsAddr(cntgPos, strdPos))
    }

    /** Whether the element is read from where it stands. */
    predicate Physical(c: int, s: int) {
      var cntgPos, strdPos := c + base.absCntg, s + base.absStrd;
      if cntgPos == strdPos then !(Triangular? && unit) else upper == (cntgPos < strdPos)
    }
  }

  lemma AddrShift(v: View, c: int, s: int, dc: int, ds: int)
    ensures v.Addr(c + dc, s + ds) == v.Addr(c, s) + dc * v.cntgStep + ds * v.strdStep
    ensures v.AbsAddr(v.absCntg + c, v.absStrd + s) == v.Addr(c, s)
  {
    MulAdd(c, dc, v.cntgStep);
    MulAdd(s, ds, v.strdStep);
    MulAdd(v.absCntg, c, v.cntgStep);
    MulAdd(v.absStrd, s, v.strdStep);
  }

  /** A part of a view addresses the same elements, and remembers the same parent. */
  lemma SubAddr(v: View, c: int, cs: int, s: int, ss: int, dc: int, ds: int)
    ensures v.Sub(c, cs, s, ss).Addr(dc, ds) == v.Addr(c + dc, s + ds)
    ensures v.Sub(c, cs, s, ss).ParentOrigin() == v.ParentOrigin()
  {
    AddrShift(v, c, s, dc, ds);
    MulAdd(v.absCntg, c, v.cntgStep);
    MulAdd(v.absStrd, s, v.strdStep);
  }

  lemma SubValue(a: Adaptor, c: int, cs: int, s: int, ss: int, dc: int, ds: int)
    ensures a.Sub(c, cs, s, ss).Value(dc, ds) == a.Value(c + dc, s + ds)
  {
    SubAddr(a.base, c, cs, s, ss, dc, ds);
  }

  /** The transpose reads (s, c) where the view reads (c, s). */
  lemma TransposeValue(a: Adaptor, c: int, s: int)
    ensures a.Transpose().Value(s, c) == a.Value(c, s)
    ensures a.Transpose().Transpose() == a
  {
  }

  lemma ReflectAddr(v: View, c: int, s: int)
    ensures v.ReflectTranspose().AbsAddr(c, s) == v.AbsAddr(s, c)
    ensures v.ReflectTranspose().ReflectTranspose() == v
  {
  }

  /** Reflecting and transposing a part of a symmetric matrix changes where it is read, not what is read. */
  lemma ReflectTransposeValue(a: Adaptor, c: int, s: int)
    requires a.Symmetric?
    ensures a.ReflectTranspose().Value(c, s) == a.Value(c, s)
    ensures a.ReflectTranspose().ReflectTranspose() == a
  {
    ReflectAddr(a.base, c + a.base.absCntg, s + a.base.absStrd);
    ReflectAddr(a.base, s + a.base.absStrd, c + a.base.absCntg);
  }

  /** It makes what was virtual physical. */
  lemma ReflectTransposePhysical(a: Adaptor, c: int, s: int)
    requires a.Symmetric?
    ensures a.base.absCntg + c != a.base.absStrd + s ==>
              (a.ReflectTranspose().Physical(c, s) <==> !a.Physical(c, s))
  {
  }

  lemma PhysicalValue(a: Adaptor, c: int, s: int)
    requires a.Physical(c, s)
    ensures a.Value(c, s) == a.base.At(a.base.Addr(c, s))
  {
    AddrShift(a.base, c, s, 0, 0);
    if a.Symmetric? && a.base.absCntg + c == a.base.absStrd + s {
      assert a.base.AbsAddr(a.base.absStrd + s, a.base.absCntg + c) == a.base.Addr(c, s);
    }
  }

  /** A symmetric matrix whose diagonal is the parent's reads the same on both sides of it. */
  lemma MirrorValue(a: Adaptor, c: int, s: int)
    requires a.Symmetric? && a.base.absCntg == a.base.absStrd
    ensures a.Value(c, s) == a.Value(s, c)
  {
  }
}
