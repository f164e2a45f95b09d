/** Vectors that run through memory with a step of their own, and the two kernels the drivers are given. */
module Kernels {
  import opened Sums
  import opened NumericUtils

  /** n elements of an array, the first at `origin`, the others `step` apart, forwards or backwards. */
  datatype Vec = Vec(data: array<real>, origin: int, step: int, n: nat) {

    function Addr(i: int): int {
      origin + i * step
    }

    /** Every element has a place of its own in the array. */
    ghost predicate Valid() {
      && (n > 1 ==> step != 0)
      && forall i :: 0 <= i < n ==> 0 <= Addr(i) < data.Length
    }

    /** The vector's elements, in its own order. */
    ghost function Elems(): (r: seq<real>)
      requires Valid()
      reads data
      ensures |r| == n && forall i :: 0 <= i < n ==> r[i] == data[Addr(i)]
    {
      seq(n, i requires 0 <= i < n reads data => data[Addr(i)])
    }

    predicate Occupied(k: int) {
      exists i :: 0 <= i < n && Addr(i) == k
    }

    /** The memory between and around the elements. */
    ghost function Others(): (r: seq<real>)
      reads data
      ensures |r| == data.Length && forall k :: 0 <= k < data.Length ==> r[k] == if Occupied(k) then 0.0 else data[k]
    {
      seq(data.Length, k requires 0 <= k < data.Length reads data => if Occupied(k) then 0.0 else data[k])
    }

    /** get_cntg_panel: a stretch of the vector. */
    function Sub(first: int, length: nat): Vec {
      Vec(data, Addr(first), step, length)
    }

    function Get(i: int): (v: real)
      requires Valid() && 0 <= i < n
      reads data
      ensures v == Elems()[i]
    {
      data[Addr(i)]
    }

    method Set(i: int, v: real)
      requires Valid() && 0 <= i < n
      modifies data
      ensures Elems() == old(Elems())[i := v]
      ensures Others() == old(Others())
    {
      ghost var was, others := Elems(), Others();
      assert Occupied(Addr(i));
      data[Addr(i)] := v;
      forall j | 0 <= j < n
        ensures Elems()[j] == was[i := v][j]
      {
        if j != i && Addr(i) == Addr(j) {
          PlacesDistinct(this, i, j);
        }
      }
      assert Others() == others;
    }
  }

  /** No two elements of a vector share a place. */
  lemma PlacesDistinct(v: Vec, i: int, j: int)
    requires v.Valid() && 0 <= i < v.n && 0 <= j < v.n && v.Addr(i) == v.Addr(j)
    ensures i == j
  {
    if i != j {
      MulAdd(i, j, v.step);
      StepNotZero(i - j, v.step);
    }
  }

  lemma StepNotZero(d: int, step: int)
    requires d != 0 && step != 0
    ensures d * step != 0
  {
  }

  /** The first element is at the origin, and each following one a step further. */
  lemma VecLayout(v: Vec, i: int)
    ensures v.Addr(0) == v.origin && v.Addr(i + 1) == v.Addr(i) + v.step
  {
    MulAdd(i, 1, v.step);
  }

  lemma SubAddress(v: Vec, first: int, length: nat, i: int)
    ensures v.Sub(first, length).Addr(i) == v.Addr(first + i)
  {
    MulAdd(first, i, v.step);
  }

  /** A stretch of a vector is a vector of those elements. */
  lemma SubVec(v: Vec, first: int, length: nat)
    requires v.Valid() && 0 <= first && first + length <= v.n
    ensures v.Sub(first, length).Valid() && v.Sub(first, length).Elems() == v.Elems()[first..first + length]
  {
    var w := v.Sub(first, length);
    hide Vec.Addr;
    forall i | 0 <= i < length
      ensures w.Addr(i) == v.Addr(first + i)
    {
      SubAddress(v, first, length, i);
    }
  }

  /** A write that only reaches a stretch of a vector reaches no other element of it and nothing around it. */
  lemma SubChanged(v: Vec, first: int, length: nat, was: seq<real>, now: seq<real>)
    requires v.Valid() && 0 <= first && first + length <= v.n && |was| == |now| == v.data.Length
    requires forall k :: 0 <= k < |now| && !v.Sub(first, length).Occupied(k) ==> now[k] == was[k]
    ensures forall k :: 0 <= k < |now| && !v.Occupied(k) ==> now[k] == was[k]
    ensures forall i :: 0 <= i < v.n && !(first <= i < first + length) ==> now[v.Addr(i)] == was[v.Addr(i)]
  {
    var w := v.Sub(first, length);
    hide Vec.Addr;
    forall i | 0 <= i < length
      ensures w.Addr(i) == v.Addr(first + i)
    {
      SubAddress(v, first, length, i);
    }
    forall i | 0 <= i < v.n && !(first <= i < first + length)
      ensures !w.Occupied(v.Addr(i))
    {
      if w.Occupied(v.Addr(i)) {
        var j :| 0 <= j < length && w.Addr(j) == v.Addr(i);
        PlacesDistinct(v, i, first + j);
      }
    }
    forall k | 0 <= k < |now| && w.Occupied(k)
      ensures v.Occupied(k)
    {
      var j :| 0 <= j < length && w.Addr(j) == k;
      assert v.Addr(first + j) == k;
    }
  }

  /** y(yOff + q) = alpha * x(xOff + q) + beta * y(yOff + q) for q below length. */
  method Axpby(length: int, alpha: real, x: seq<real>, xOff: int, beta: real, y: Vec, yOff: int)
    requires y.Valid()
    requires length >= 0 && 0 <= xOff && xOff + length <= |x| && 0 <= yOff && yOff + length <= y.n
    modifies y.data
    ensures forall k :: 0 <= k < y.n ==>
              y.Elems()[k] == if yOff <= k < yOff + length
                              then Mul(alpha, x[xOff + k - yOff]) + Mul(beta, old(y.Elems())[k])
                              else old(y.Elems())[k]
    ensures y.Others() == old(y.Others())
  {
    hide Mul, Vec.Addr, Vec.Valid, Vec.Occupied;
    ghost var y0, others := y.Elems(), y.Others();
    for q := 0 to length
      invariant forall k :: 0 <= k < y.n ==>
                  y.Elems()[k] == if yOff <= k < yOff + q
                                  then Mul(alpha, x[xOff + k - yOff]) + Mul(beta, y0[k])
                                  else y0[k]
      invariant y.Others() == others
    {
      MulFacts(alpha, x[xOff + q]);
      MulFacts(beta, y.Get(yOff + q));
      var v := alpha * x[xOff + q] + beta * y.Get(yOff + q);
      assert v == Mul(alpha, x[xOff + q]) + Mul(beta, y0[yOff + q]);
      y.Set(yOff + q, v);
    }
  }

  /** The dot product of length elements of x from xOff and of y from yOff; f is the row that x holds. */
  method DotKernel(length: int, x: seq<real>, xOff: int, y: Vec, yOff: int, ghost f: int -> real)
    returns (r: real)
    requires y.Valid()
    requires length >= 0 && 0 <= xOff && xOff + length <= |x| && 0 <= yOff && yOff + length <= y.n
    requires forall k :: yOff <= k < yOff + length ==> f(k) == x[xOff + k - yOff]
    ensures r == Dot(f, yOff, y.Elems()[yOff..yOff + length])
  {
    hide Mul, Vec.Addr, Vec.Valid;
    r := 0.0;
    ghost var ys := y.Elems();
    for q := 0 to length
      invariant r == Dot(f, yOff, ys[yOff..yOff + q])
    {
      DotSnoc(f, yOff, ys[yOff..yOff + q], ys[yOff + q]);
      assert ys[yOff..yOff + q + 1] == ys[yOff..yOff + q] + [ys[yOff + q]];
      MulFacts(x[xOff + q], y.Get(yOff + q));
      r := r + x[xOff + q] * y.Get(yOff + q);
    }
  }
}
