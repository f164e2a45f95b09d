/** Spreading threads over two dimensions. */
module Split2D {
  import opened NumericUtils

  /** d divides the thread count and no divisor is nearer to the ideal; a tie goes to the smaller. */
  ghost predicate NearestFactor(d: int, ideal: int, maxThreads: int) {
    && 1 <= d <= maxThreads && Divides(d, maxThreads)
    && forall e :: 1 <= e <= maxThreads && Divides(e, maxThreads) && e != d ==>
         Distance(d, ideal) < Distance(e, ideal) || (Distance(d, ideal) == Distance(e, ideal) && d < e)
  }

  predicate Divides(d: int, n: int)
    requires d >= 1
  {
    n % d == 0
  }

  function Distance(a: int, b: int): int {
    if a < b then b - a else a - b
  }

  /**
   * split_2d. `adjusted` stands for the rounded square root of maxThreads * m / n. The factors
   * nearest to it are tried first, as far down as 1; without one, the larger dimension takes all.
   */
  method Split(maxThreads: int, m: int, n: int, adjusted: int) returns (mt: int, nt: int)
    requires maxThreads >= 1 && m >= 0 && n >= 0 && adjusted >= 0
    ensures mt >= 1 && nt >= 1 && mt * nt <= maxThreads
    ensures maxThreads > 1 && m > 0 && n > 0 && adjusted > 0 ==>
              mt * nt == maxThreads && NearestFactor(mt, adjusted, maxThreads)
    ensures maxThreads > 1 && m > 0 && n > 0 && adjusted == 0 ==>
              mt == (if m > n then Min(m, maxThreads) else 1) && nt == (if m > n then 1 else Min(n, maxThreads))
    ensures maxThreads == 1 || m == 0 || n == 0 ==> mt == nt == 1
  {
    if maxThreads == 1 || m == 0 || n == 0 {
      return 1, 1;
    }
    assert Divides(1, maxThreads);
    hide Divides;
    var i := 0;
    while i != adjusted
      invariant 0 <= i <= adjusted
      invariant forall e :: 1 <= e <= maxThreads && Divides(e, maxThreads) ==> Distance(e, adjusted) >= i
    {
      var adjDown := adjusted - i;
      if Divides(adjDown, maxThreads) {
        FactorPair(maxThreads, adjDown);
        return adjDown, maxThreads / adjDown;
      }
      var adjUp := adjusted + i;
      if Divides(adjUp, maxThreads) {
        FactorPair(maxThreads, adjUp);
        return adjUp, maxThreads / adjUp;
      }
      i := i + 1;
    }
    assert Distance(1, adjusted) == if adjusted == 0 then 1 else adjusted - 1;
    if m > n {
      return Min(m, maxThreads), 1;
    } else {
      return 1, Min(n, maxThreads);
    }
  }

  lemma FactorPair(n: int, d: int)
    requires n >= 1 && d >= 1 && Divides(d, n)
    ensures d <= n && n / d >= 1 && d * (n / d) == n
  {
    DivModEquation(n, d);
    MulCancelLess(0, n / d, d);
    MulMonotone(1, n / d, d);
  }
}
