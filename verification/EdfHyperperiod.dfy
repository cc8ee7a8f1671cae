/** The length of the simulation: the least common multiple of the periods. */
module EdfHyperperiod {
  import opened EdfModel
  import opened Arith

  predicate Divides(a: int, m: int)
    requires a > 0
  {
    m % a == 0
  }

  ghost predicate IsLcm(l: int, a: int, b: int)
    requires a > 0 && b > 0
  {
    l > 0 && Divides(a, l) && Divides(b, l) &&
    forall m :: m > 0 && Divides(a, m) && Divides(b, m) ==> l <= m
  }

  lemma MultipleOf(k: int, a: int)
    requires a > 0
    ensures (k * a) % a == 0 && (k * a) / a == k
  {
    DivIs(k * a, a, k, 0);
  }

  /** No multiple of a below k*a is one of b: then none below k*a is common. */
  lemma LeastCommon(a: int, b: int, k: int)
    requires a > 0 && b > 0 && k >= 1 && (k * a) % b == 0
    requires forall i :: 1 <= i < k ==> !Divides(b, i * a)
    ensures IsLcm(k * a, a, b)
  {
    MultipleOf(k, a);
    assert k * a > 0 by { MulMono(1, k, a); }
    forall m | m > 0 && Divides(a, m) && Divides(b, m) ensures k * a <= m {
      var i := m / a;
      assert m == i * a;
      assert Divides(b, i * a);
      if i < 1 {
        MulMono(i, 0, a);
      } else if i >= k {
        MulMono(k, i, a);
      }
    }
  }

  /** Counts up in steps of a until b divides. */
  method LeastCommonMultiple(a: int, b: int) returns (lcm: int)
    requires a > 0 && b > 0
    ensures IsLcm(lcm, a, b)
  {
    lcm := a;
    ghost var k := 1;
    MultipleOf(1, a);
    MultipleOf(a, b);
    while !(lcm % a == 0 && lcm % b == 0)
      invariant lcm == k * a && 1 <= k <= b && lcm % a == 0
      invariant forall i :: 1 <= i < k ==> !Divides(b, i * a)
      decreases b - k
    {
      assert !Divides(b, k * a);
      assert k == b ==> k * a == a * b;
      lcm := lcm + a;
      k := k + 1;
      MultipleOf(k, a);
    }
    LeastCommon(a, b, k);
  }

  /** h is positive, every period divides it, and it divides every common multiple:
      it is the least. */
  ghost predicate IsHyperperiod(ps: seq<Job>, h: int)
    requires ValidTasks(ps)
  {
    h > 0 && (forall i :: 0 <= i < |ps| ==> Divides(ps[i].period, h)) &&
    forall m :: CommonMultiple(ps, m) ==> Divides(h, m)
  }

  predicate CommonMultiple(ps: seq<Job>, m: int)
    requires ValidTasks(ps)
  {
    m > 0 && forall i :: 0 <= i < |ps| ==> Divides(ps[i].period, m)
  }

  lemma DivisorAtMost(a: int, m: int)
    requires a > 0 && m > 0 && Divides(a, m)
    ensures a <= m
  {
  }

  lemma DividesTransitive(a: int, b: int, c: int)
    requires a > 0 && b > 0 && Divides(a, b) && Divides(b, c)
    ensures Divides(a, c)
  {
    var k, l := b / a, c / b;
    assert c == l * b && b == k * a;
    assert l * (k * a) == (l * k) * a;
    MultipleOf(l * k, a);
  }

  lemma DividesDifference(a: int, x: int, q: int, y: int)
    requires a > 0 && Divides(a, x) && Divides(a, y)
    ensures Divides(a, x - q * y)
  {
    var k, l := x / a, y / a;
    assert x == k * a && y == l * a;
    assert q * (l * a) == (q * l) * a;
    assert x - q * y == (k - q * l) * a;
    MultipleOf(k - q * l, a);
  }

  /** A least common multiple divides every common multiple. */
  lemma LcmDivides(l: int, a: int, b: int, m: int)
    requires a > 0 && b > 0 && IsLcm(l, a, b) && Divides(a, m) && Divides(b, m)
    ensures Divides(l, m)
  {
    var q, r := m / l, m % l;
    assert r == m - q * l;
    DividesDifference(a, m, q, l);
    DividesDifference(b, m, q, l);
  }

  lemma HyperperiodStep(ps: seq<Job>, h: int, l: int)
    requires ValidTasks(ps) && |ps| >= 2 && IsHyperperiod(ps[..|ps| - 1], h)
    requires IsLcm(l, h, ps[|ps| - 1].period)
    ensures IsHyperperiod(ps, l)
  {
    var before, p := ps[..|ps| - 1], ps[|ps| - 1].period;
    forall i | 0 <= i < |ps| ensures Divides(ps[i].period, l) {
      if i < |ps| - 1 {
        assert before[i] == ps[i];
        DividesTransitive(ps[i].period, h, l);
      }
    }
    forall m | CommonMultiple(ps, m) ensures Divides(l, m) {
      assert CommonMultiple(before, m);
      LcmDivides(l, h, p, m);
    }
  }

  /** The fold over the periods of a non-empty process table. */
  method Hyperperiod(process: seq<Job>) returns (maxTime: int)
    requires ValidTasks(process) && process != []
    ensures IsHyperperiod(process, maxTime)
    ensures forall m :: CommonMultiple(process, m) ==> maxTime <= m
  {
    maxTime := process[0].period;
    assert IsHyperperiod(process[..1], maxTime) by {
      assert Divides(maxTime, maxTime);
      forall m | CommonMultiple(process[..1], m) ensures Divides(maxTime, m) {
        assert process[..1][0] == process[0];
      }
    }
    var i := 0;
    while i < |process| - 1
      invariant 0 <= i <= |process| - 1
      invariant IsHyperperiod(process[..i + 1], maxTime)
    {
      var l := LeastCommonMultiple(maxTime, process[i + 1].period);
      assert process[..i + 2][..i + 1] == process[..i + 1];
      HyperperiodStep(process[..i + 2], maxTime, l);
      maxTime := l;
      i := i + 1;
    }
    assert process[..|process|] == process;
    forall m | CommonMultiple(process, m) ensures maxTime <= m {
      DivisorAtMost(maxTime, m);
    }
  }
}
