/** Finite dot products over the reals, the common vocabulary of every numeric routine below. */
module Sums {

  /**
   * A product. Proofs that only need equals for equals hide this definition, so that the
   * nonlinear arithmetic stays in the few lemmas that are about it.
   */
  ghost function Mul(a: real, b: real): real {
    a * b
  }

  lemma MulFacts(a: real, b: real)
    ensures Mul(a, b) == a * b == Mul(b, a)
    ensures Mul(-a, b) == -Mul(a, b)
    ensures a == 0.0 || b == 0.0 ==> Mul(a, b) == 0.0
    ensures Mul(1.0, b) == b
  {
  }

  lemma MulDistribute(a: real, b: real, c: real)
    ensures Mul(a, b + c) == Mul(a, b) + Mul(a, c)
    ensures Mul(a, b - c) == Mul(a, b) - Mul(a, c)
  {
  }

  lemma MulSwap(a: real, b: real, c: real)
    ensures Mul(a, Mul(b, c)) == Mul(b, Mul(a, c)) == Mul(Mul(a, b), c)
  {
    calc {
      Mul(a, Mul(b, c));
      a * (b * c);
      (a * b) * c;
      Mul(Mul(a, b), c);
    }
    calc {
      (a * b) * c;
      { assert a * b == b * a; }
      (b * a) * c;
      b * (a * c);
    }
  }

  /** Dividing by d and multiplying it back, in either of the two ways the code divides. */
  lemma MulDivide(d: real, w: real)
    requires d != 0.0
    ensures Mul(d, w / d) == w && Mul(d, Mul(1.0 / d, w)) == w
  {
    assert d * (1.0 / d) == 1.0;
    MulSwap(d, 1.0 / d, w);
  }

  lemma MulCancel(d: real, v: real, w: real)
    requires d != 0.0 && Mul(d, v) == Mul(d, w)
    ensures v == w
  {
  }

  /** The dot product of xs with the entries f(lo), f(lo + 1), ... of a row. */
  ghost function Dot(f: int -> real, lo: int, xs: seq<real>): real
    decreases |xs|
  {
    if xs == [] then 0.0 else Mul(f(lo), xs[0]) + Dot(f, lo + 1, xs[1..])
  }

  lemma {:induction false} DotSplit(f: int -> real, lo: int, xs: seq<real>, ys: seq<real>)
    ensures Dot(f, lo, xs + ys) == Dot(f, lo, xs) + Dot(f, lo + |xs|, ys)
    decreases |xs|
  {
    hide Mul;
    if xs == [] {
      assert xs + ys == ys;
    } else {
      assert (xs + ys)[1..] == xs[1..] + ys;
      DotSplit(f, lo + 1, xs[1..], ys);
    }
  }

  lemma DotSnoc(f: int -> real, lo: int, xs: seq<real>, v: real)
    ensures Dot(f, lo, xs + [v]) == Dot(f, lo, xs) + Mul(f(lo + |xs|), v)
  {
    hide Mul;
    DotSplit(f, lo, xs, [v]);
    assert [v][1..] == [];
  }

  lemma DotCons(f: int -> real, lo: int, v: real, xs: seq<real>)
    ensures Dot(f, lo, [v] + xs) == Mul(f(lo), v) + Dot(f, lo + 1, xs)
  {
    hide Mul;
    assert ([v] + xs)[1..] == xs;
  }

  lemma {:induction false} DotZero(f: int -> real, lo: int, xs: seq<real>)
    requires forall k :: lo <= k < lo + |xs| ==> f(k) == 0.0
    ensures Dot(f, lo, xs) == 0.0
    decreases |xs|
  {
    hide Mul;
    if xs != [] {
      MulFacts(f(lo), xs[0]);
      DotZero(f, lo + 1, xs[1..]);
    }
  }

  /** Two rows that agree where they are read have the same dot product. */
  lemma {:induction false} DotAgree(f: int -> real, g: int -> real, lo: int, xs: seq<real>)
    requires forall k :: lo <= k < lo + |xs| ==> f(k) == g(k)
    ensures Dot(f, lo, xs) == Dot(g, lo, xs)
    decreases |xs|
  {
    hide Mul;
    if xs != [] {
      assert f(lo) == g(lo);
      DotAgree(f, g, lo + 1, xs[1..]);
    }
  }

  /** A row read from elsewhere in it. */
  lemma {:induction false} DotShift(f: int -> real, g: int -> real, lo: int, shift: int, xs: seq<real>)
    requires forall k :: lo <= k < lo + |xs| ==> g(k) == f(shift + k)
    ensures Dot(g, lo, xs) == Dot(f, shift + lo, xs)
    decreases |xs|
  {
    hide Mul;
    if xs != [] {
      assert g(lo) == f(shift + lo);
      DotShift(f, g, lo + 1, shift, xs[1..]);
    }
  }

  /** Only the part of a row between lo and hi matters when the rest of it is zero. */
  lemma DotNarrow(f: int -> real, xs: seq<real>, from: int, lo: int, hi: int, to: int)
    requires 0 <= from <= lo <= hi <= to <= |xs|
    requires forall k :: from <= k < lo || hi <= k < to ==> f(k) == 0.0
    ensures Dot(f, from, xs[from..to]) == Dot(f, lo, xs[lo..hi])
  {
    hide Dot, Mul;
    assert xs[from..to] == xs[from..lo] + (xs[lo..hi] + xs[hi..to]);
    DotSplit(f, from, xs[from..lo], xs[lo..hi] + xs[hi..to]);
    DotSplit(f, lo, xs[lo..hi], xs[hi..to]);
    DotZero(f, from, xs[from..lo]);
    DotZero(f, hi, xs[hi..to]);
  }

  lemma SliceToEnd(xs: seq<real>, lo: int, n: int)
    requires 0 <= lo <= n == |xs|
    ensures xs[lo..n] == xs[lo..]
  {
  }

  ghost function Scaled(a: real, xs: seq<real>): (r: seq<real>)
    ensures |r| == |xs| && forall k :: 0 <= k < |xs| ==> r[k] == Mul(a, xs[k])
  {
    seq(|xs|, k requires 0 <= k < |xs| => Mul(a, xs[k]))
  }

  lemma {:induction false} DotScaled(f: int -> real, lo: int, a: real, xs: seq<real>)
    ensures Dot(f, lo, Scaled(a, xs)) == Mul(a, Dot(f, lo, xs))
    decreases |xs|
  {
    hide Mul;
    if xs == [] {
      MulFacts(a, 0.0);
    } else {
      assert Scaled(a, xs)[1..] == Scaled(a, xs[1..]);
      DotScaled(f, lo + 1, a, xs[1..]);
      MulDistribute(a, Mul(f(lo), xs[0]), Dot(f, lo + 1, xs[1..]));
      MulSwap(f(lo), a, xs[0]);
    }
  }

  // ---------- a stretch of a row ----------

  /** alpha times the entries lo to hi - 1 of a row times x. */
  ghost function Part(f: int -> real, alpha: real, x: seq<real>, lo: int, hi: int): real
    requires 0 <= lo <= hi <= |x|
  {
    Mul(alpha, Dot(f, lo, x[lo..hi]))
  }

  lemma PartJoin(f: int -> real, alpha: real, x: seq<real>, lo: int, mid: int, hi: int)
    requires 0 <= lo <= mid <= hi <= |x|
    ensures Part(f, alpha, x, lo, hi) == Part(f, alpha, x, lo, mid) + Part(f, alpha, x, mid, hi)
  {
    hide Dot, Mul;
    assert x[lo..hi] == x[lo..mid] + x[mid..hi];
    DotSplit(f, lo, x[lo..mid], x[mid..hi]);
    MulDistribute(alpha, Dot(f, lo, x[lo..mid]), Dot(f, mid, x[mid..hi]));
  }

  lemma PartOne(f: int -> real, alpha: real, x: seq<real>, i: int)
    requires 0 <= i < |x|
    ensures Part(f, alpha, x, i, i + 1) == Mul(Mul(alpha, x[i]), f(i))
  {
    hide Dot, Mul;
    assert x[i..i + 1] == [] + [x[i]];
    DotSnoc(f, i, [], x[i]);
    DotZero(f, i, []);
    MulFacts(f(i), x[i]);
    MulSwap(alpha, x[i], f(i));
  }

  lemma PartEmpty(f: int -> real, alpha: real, x: seq<real>, i: int)
    requires 0 <= i <= |x|
    ensures Part(f, alpha, x, i, i) == 0.0
  {
    hide Mul;
    DotZero(f, i, []);
    assert x[i..i] == [];
    MulFacts(alpha, 0.0);
  }

  lemma PartJoinOne(f: int -> real, alpha: real, x: seq<real>, lo: int, i: int, hi: int)
    requires 0 <= lo <= i < hi <= |x|
    ensures Part(f, alpha, x, lo, hi)
         == Part(f, alpha, x, lo, i) + Mul(Mul(alpha, x[i]), f(i)) + Part(f, alpha, x, i + 1, hi)
  {
    hide Part, Mul;
    PartJoin(f, alpha, x, lo, i, hi);
    PartJoin(f, alpha, x, i, i + 1, hi);
    PartOne(f, alpha, x, i);
  }

  lemma PartZero(f: int -> real, alpha: real, x: seq<real>, lo: int, hi: int)
    requires 0 <= lo <= hi <= |x|
    requires forall k :: lo <= k < hi ==> f(k) == 0.0
    ensures Part(f, alpha, x, lo, hi) == 0.0
  {
    hide Dot, Mul;
    DotZero(f, lo, x[lo..hi]);
    MulFacts(alpha, 0.0);
  }

  // ---------- y + alpha * (a row times the first entries of x) ----------

  function Clip(j: int, n: nat): nat {
    if j < 0 then 0 else if j > n then n else j
  }

  /** base + alpha * (f(0) * x[0] + ... + f(j - 1) * x[j - 1]). */
  ghost function Acc(base: real, alpha: real, f: int -> real, x: seq<real>, j: int): real {
    base + Part(f, alpha, x, 0, Clip(j, |x|))
  }

  lemma AccEnds(base: real, alpha: real, f: int -> real, x: seq<real>)
    ensures Acc(base, alpha, f, x, 0) == base
    ensures forall j :: j >= |x| ==> Acc(base, alpha, f, x, j) == base + Mul(alpha, Dot(f, 0, x))
  {
    PartEmpty(f, alpha, x, 0);
    assert x[0..|x|] == x;
  }

  /** The entries from `from` to `to` add alpha times the part of the row that is not known to be zero. */
  lemma AccPart(base: real, alpha: real, f: int -> real, x: seq<real>, from: int, lo: int, hi: int, to: int)
    requires 0 <= from <= lo <= hi <= to <= |x|
    requires forall k :: from <= k < lo || hi <= k < to ==> f(k) == 0.0
    ensures Acc(base, alpha, f, x, to) == Acc(base, alpha, f, x, from) + Part(f, alpha, x, lo, hi)
  {
    hide Part;
    PartJoin(f, alpha, x, 0, from, to);
    PartJoin(f, alpha, x, from, lo, to);
    PartJoin(f, alpha, x, lo, hi, to);
    PartZero(f, alpha, x, from, lo);
    PartZero(f, alpha, x, hi, to);
  }

  lemma AccStep(base: real, alpha: real, f: int -> real, x: seq<real>, j: int)
    requires 0 <= j < |x|
    ensures Acc(base, alpha, f, x, j + 1) == Acc(base, alpha, f, x, j) + Mul(Mul(alpha, x[j]), f(j))
  {
    hide Part, Mul;
    AccPart(base, alpha, f, x, j, j, j + 1, j + 1);
    PartOne(f, alpha, x, j);
  }

  /** Entries of the row that are zero add nothing. */
  lemma AccSkip(base: real, alpha: real, f: int -> real, x: seq<real>, j: int, j': int)
    requires 0 <= j <= j'
    requires forall k :: j <= k < j' && k < |x| ==> f(k) == 0.0
    ensures Acc(base, alpha, f, x, j') == Acc(base, alpha, f, x, j)
  {
    hide Part;
    var lo, hi := Clip(j, |x|), Clip(j', |x|);
    AccPart(base, alpha, f, x, lo, hi, hi, hi);
    PartEmpty(f, alpha, x, hi);
  }
}
