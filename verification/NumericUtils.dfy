/** Rounding to multiples, with the truncating division and remainder of the source language. */
module NumericUtils {

  function Min(a: int, b: int): int {
    if a < b then a else b
  }

  function Max(a: int, b: int): int {
    if a > b then a else b
  }

  /** The remainder of a division that truncates towards zero: it takes the sign of n. */
  function Rem(n: int, r: int): int
    requires r > 0
  {
    if n >= 0 then n % r else -((-n) % r)
  }

  /** iround: n up to a multiple of r. */
  function IRound(n: int, r: int): int
    requires r > 0
  {
    var diff := Rem(n, r);
    if diff != 0 then n - diff + r else n
  }

  /** iround_floor: n down to a multiple of r. */
  function IRoundFloor(n: int, r: int): int
    requires r > 0
  {
    var diff := Rem(n, r);
    if diff != 0 then n - diff else n
  }

  /** iround_div: the number of blocks of r that hold n. */
  function IRoundDiv(n: int, r: int): int
    requires r > 0 && n >= 0
  {
    IRound(n, r) / r
  }

  // ---------- products and quotients, one small fact at a time ----------

  lemma MulMonotone(a: int, b: int, r: int)
    requires a <= b && r >= 0
    ensures a * r <= b * r
  {
  }

  lemma MulCancelLess(a: int, b: int, r: int)
    requires r > 0 && a * r < b * r
    ensures a < b
  {
  }

  lemma MulAdd(a: int, b: int, r: int)
    ensures (a + b) * r == a * r + b * r
    ensures (a - b) * r == a * r - b * r
  {
  }

  lemma DivModEquation(n: int, r: int)
    requires r > 0
    ensures n == (n / r) * r + n % r && 0 <= n % r < r
  {
  }

  /** The quotient and remainder of q * r + e are q and e. */
  lemma DivMod(q: int, e: int, r: int)
    requires r > 0 && 0 <= e < r
    ensures (q * r + e) / r == q && (q * r + e) % r == e
  {
    var n := q * r + e;
    var q' := n / r;
    DivModEquation(n, r);
    MulAdd(q, q', r);
    MulCancelLess(q - q', 1, r);
    MulCancelLess(-1, q - q', r);
  }

  lemma ModOfMultiple(q: int, r: int)
    requires r > 0
    ensures (q * r) % r == 0 && (q * r) / r == q
  {
    DivMod(q, 0, r);
  }

  /** The quotient and remainder of a number d further, and of one r further. */
  lemma NextIn(n: int, r: int, d: int)
    requires r > 0 && d > 0
    ensures n % r + d < r ==> (n + d) / r == n / r && (n + d) % r == n % r + d
    ensures (n + r) / r == n / r + 1 && (n + r) % r == n % r
  {
    DivModEquation(n, r);
    if n % r + d < r {
      DivMod(n / r, n % r + d, r);
    }
    MulAdd(n / r, 1, r);
    DivMod(n / r + 1, n % r, r);
  }

  // ---------- what the rounding functions reach ----------

  lemma RemOfNegative(n: int, r: int)
    requires r > 0 && n < 0
    ensures (n - Rem(n, r)) % r == 0 && (Rem(n, r) == 0 <==> n % r == 0)
  {
    var q, e := (-n) / r, (-n) % r;
    DivModEquation(-n, r);
    MulAdd(0, q, r);
    ModOfMultiple(-q, r);
    if e != 0 {
      MulAdd(-q, 1, r);
      DivMod(-q - 1, r - e, r);
    }
  }

  lemma RemDivides(n: int, r: int)
    requires r > 0
    ensures -r < Rem(n, r) < r && (n - Rem(n, r)) % r == 0
    ensures Rem(n, r) == 0 <==> n % r == 0
  {
    DivModEquation(-n, r);
    if n >= 0 {
      DivModEquation(n, r);
      ModOfMultiple(n / r, r);
    } else {
      RemOfNegative(n, r);
    }
  }

  /** iround reaches the next multiple, as documented, exactly when n is not a negative non-multiple. */
  lemma IRoundIsCeiling(n: int, r: int)
    requires r > 0
    ensures IRound(n, r) % r == 0
    ensures n <= IRound(n, r) < n + r <==> n >= 0 || n % r == 0
  {
    RemDivides(n, r);
    var m := n - Rem(n, r);
    DivModEquation(m, r);
    MulAdd(m / r, 1, r);
    ModOfMultiple(m / r + 1, r);
    if n >= 0 {
      DivModEquation(n, r);
    } else {
      DivModEquation(-n, r);
    }
  }

  /** iround_floor reaches the previous multiple exactly when n is not a negative non-multiple. */
  lemma IRoundFloorIsFloor(n: int, r: int)
    requires r > 0
    ensures IRoundFloor(n, r) % r == 0
    ensures n - r < IRoundFloor(n, r) <= n <==> n >= 0 || n % r == 0
  {
    RemDivides(n, r);
    if n >= 0 {
      DivModEquation(n, r);
    } else {
      DivModEquation(-n, r);
    }
  }

  /** iround_div: the least number of blocks of r that hold n. */
  lemma IRoundDivBounds(n: int, r: int)
    requires r > 0 && n >= 0
    ensures (IRoundDiv(n, r) - 1) * r < n <= IRoundDiv(n, r) * r
    ensures n > 0 ==> 1 <= IRoundDiv(n, r) <= n
  {
    IRoundIsCeiling(n, r);
    var a := IRoundDiv(n, r);
    DivModEquation(IRound(n, r), r);
    MulAdd(a, 1, r);
    if n > 0 {
      MulCancelLess(0, a, r);
      MulMonotone(1, r, a - 1);
    }
  }
}
