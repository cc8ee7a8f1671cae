/** Sums over the jobs of a schedule, and how an event changes them. */
module EdfSums {
  import opened EdfModel

  function Sum(s: seq<Job>, f: Job -> int): int {
    if s == [] then 0 else f(s[0]) + Sum(s[1..], f)
  }

  lemma {:induction false} SumConcat(a: seq<Job>, b: seq<Job>, f: Job -> int)
    ensures Sum(a + b, f) == Sum(a, f) + Sum(b, f)
  {
    if a == [] {
      assert a + b == b;
    } else {
      assert (a + b)[1..] == a[1..] + b;
      SumConcat(a[1..], b, f);
    }
  }

  lemma SumLast(s: seq<Job>, f: Job -> int)
    requires s != []
    ensures Sum(s, f) == Sum(s[..|s| - 1], f) + f(s[|s| - 1])
  {
    assert s == s[..|s| - 1] + [s[|s| - 1]];
    SumConcat(s[..|s| - 1], [s[|s| - 1]], f);
  }

  lemma SumSnoc(s: seq<Job>, x: Job, f: Job -> int)
    ensures Sum(s + [x], f) == Sum(s, f) + f(x)
  {
    SumConcat(s, [x], f);
  }

  /** Two schedules that agree job by job have the same sum. */
  lemma {:induction false} SumSame(a: seq<Job>, b: seq<Job>, f: Job -> int, g: Job -> int)
    requires |a| == |b| && forall i :: 0 <= i < |a| ==> f(a[i]) == g(b[i])
    ensures Sum(a, f) == Sum(b, g)
  {
    if a != [] {
      SumSame(a[1..], b[1..], f, g);
    }
  }

  /** Adding k to every term. */
  lemma {:induction false} SumShift(s: seq<Job>, f: Job -> int, g: Job -> int, k: int)
    requires forall i :: 0 <= i < |s| ==> g(s[i]) == f(s[i]) + k
    ensures Sum(s, g) == Sum(s, f) + |s| * k
  {
    if s != [] {
      SumShift(s[1..], f, g, k);
      assert |s| * k == |s[1..]| * k + k;
    }
  }

  lemma {:induction false} SumZero(s: seq<Job>, f: Job -> int)
    requires forall i :: 0 <= i < |s| ==> f(s[i]) == 0
    ensures Sum(s, f) == 0
  {
    if s != [] { SumZero(s[1..], f); }
  }

  lemma {:induction false} SumInsert(x: Job, s: seq<Job>, f: Job -> int)
    ensures Sum(Insert(x, s), f) == f(x) + Sum(s, f)
  {
    if s == [] || !Precedes(s[0], x) {
      assert ([x] + s)[1..] == s;
    } else {
      SumInsert(x, s[1..], f);
      assert ([s[0]] + Insert(x, s[1..]))[1..] == Insert(x, s[1..]);
    }
  }

  lemma {:induction false} SumSort(s: seq<Job>, f: Job -> int)
    ensures Sum(SortJobs(s), f) == Sum(s, f)
  {
    if s != [] {
      SumSort(s[1..], f);
      SumInsert(s[0], SortJobs(s[1..]), f);
    }
  }

  /** A stamp that changes f of one job changes the sum by just that. */
  lemma {:induction false} SumStamp(s: seq<Job>, was: Job, t: int, f: Job -> int)
    requires UniqueNames(s) && was in s
    ensures Sum(SetPreempt(s, was, t), f) == Sum(s, f) - f(was) + f(was.(preempted := t))
  {
    var r := SetPreempt(s, was, t);
    assert r[1..] == SetPreempt(s[1..], was, t);
    if s[0] == was {
      assert forall i :: 0 <= i < |s[1..]| ==> s[1..][i] != was;
      SumSame(r[1..], s[1..], f, f);
    } else {
      SumStamp(s[1..], was, t, f);
    }
  }

  /** A stamp that f does not look at. */
  lemma SumStampSame(s: seq<Job>, was: Job, t: int, f: Job -> int)
    requires f(was.(preempted := t)) == f(was)
    ensures Sum(SetPreempt(s, was, t), f) == Sum(s, f)
  {
    SumSame(SetPreempt(s, was, t), s, f, f);
  }
}
