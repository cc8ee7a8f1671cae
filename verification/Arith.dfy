/** Division and remainder by a period, and multiples in a stretch of time. */
module Arith {

  lemma DivIs(a: int, m: int, q: int, r: int)
    requires m > 0 && 0 <= r < m && a == q * m + r
    ensures a / m == q && a % m == r
  {
    var d := a / m - q;
    assert a == (a / m) * m + a % m;
    assert d * m == r - a % m;
    if d >= 1 {
      MulAtLeast(d, m);
    } else if d <= -1 {
      MulAtLeast(-d, m);
    }
  }

  lemma MulAtLeast(d: int, m: int)
    requires d >= 1 && m >= 0
    ensures d * m >= m
  {
  }

  lemma MulMono(a: int, b: int, m: int)
    requires a <= b && m >= 0
    ensures a * m <= b * m
  {
    assert (b - a) * m >= 0;
    assert b * m == (b - a) * m + a * m;
  }

  /** The first multiple of m after t. */
  function NextMultiple(t: int, m: int): int
    requires m > 0
  {
    (t / m + 1) * m
  }

  /** Going from t to t + 1: a quotient moves exactly at a multiple. */
  lemma DivStep(t: int, m: int)
    requires m > 0
    ensures (t + 1) % m == 0 ==> (t + 1) / m == t / m + 1
    ensures (t + 1) % m != 0 ==> (t + 1) / m == t / m
  {
    assert t == (t / m) * m + t % m;
    if t % m + 1 == m {
      assert (t / m + 1) * m == (t / m) * m + m;
      DivIs(t + 1, m, t / m + 1, 0);
    } else {
      DivIs(t + 1, m, t / m, t % m + 1);
    }
  }

  lemma NextMultipleStep(t: int, m: int)
    requires m > 0
    ensures t < NextMultiple(t, m) <= t + m
    ensures (t + 1) % m == 0 ==> NextMultiple(t, m) == t + 1 && NextMultiple(t + 1, m) == t + 1 + m
    ensures (t + 1) % m != 0 ==> NextMultiple(t + 1, m) == NextMultiple(t, m) != t + 1
  {
    DivStep(t, m);
    assert t == (t / m) * m + t % m;
    assert (t / m + 1) * m == (t / m) * m + m;
    assert (t + 1) == ((t + 1) / m) * m + (t + 1) % m;
    assert ((t + 1) / m + 1) * m == ((t + 1) / m) * m + m;
  }

  /** The number of multiples of m in 0..a-1. */
  function CeilDiv(a: int, m: int): int
    requires m > 0
  {
    if a % m == 0 then a / m else a / m + 1
  }

  lemma CeilDivStep(a: int, m: int)
    requires m > 0
    ensures CeilDiv(a + 1, m) == CeilDiv(a, m) + if a % m == 0 then 1 else 0
    ensures CeilDiv(a, m) * m >= a
  {
    DivStep(a, m);
    assert a == (a / m) * m + a % m;
    assert (a / m + 1) * m == (a / m) * m + m;
    if a % m == 0 && (a + 1) % m == 0 {
      assert (a + 1) == ((a + 1) / m) * m;
      assert ((a + 1) / m) * m == (a / m) * m + m;
    }
  }

  /** The number of whole periods [k*m, (k+1)*m) that lie within [a, d). */
  function Periods(a: int, d: int, m: int): nat
    requires m > 0
  {
    if d / m > CeilDiv(a, m) then d / m - CeilDiv(a, m) else 0
  }

  /** Whole periods within [a, d) fit into d - a. */
  lemma PeriodsFit(a: int, d: int, m: int)
    requires m > 0 && a <= d
    ensures Periods(a, d, m) * m <= d - a
  {
  }

  /** Moving the start past a loses the period that starts at a, if it ends in time. */
  lemma PeriodsStep(a: int, d: int, m: int)
    requires m > 0 && a >= 0
    ensures Periods(a, d, m) == Periods(a + 1, d, m) + if a % m == 0 && a + m <= d then 1 else 0
  {
    CeilDivStep(a, m);
    if a % m == 0 {
      assert a == (a / m) * m;
      assert (a / m + 1) * m == a + m;
      assert d == (d / m) * m + d % m;
      if a + m <= d {
        if d / m < a / m + 1 {
          MulMono(d / m, a / m, m);
        }
      } else if d / m >= a / m + 1 {
        MulMono(a / m + 1, d / m, m);
      }
    }
  }
}
