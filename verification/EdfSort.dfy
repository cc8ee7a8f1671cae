/** Sorting the schedule: what the sorted order is, that it is unique, and the
    in-place sort of pa3/edf.c. */
module EdfSort {
  import opened EdfModel

  /** No element comes before an earlier one: sorted, ties allowed. */
  predicate Sorted(s: seq<Job>) {
    forall i, j :: 0 <= i < j < |s| ==> !Precedes(s[j], s[i])
  }

  lemma {:induction false} InsertSorted(x: Job, s: seq<Job>)
    requires Sorted(s)
    ensures multiset(Insert(x, s)) == multiset(s) + multiset{x}
    ensures Sorted(Insert(x, s))
  {
    if s == [] || !Precedes(s[0], x) {
    } else {
      var rest := Insert(x, s[1..]);
      InsertSorted(x, s[1..]);
      assert s == [s[0]] + s[1..];
      forall j | 0 <= j < |rest| ensures !Precedes(rest[j], s[0]) {
        assert rest[j] in multiset(rest);
        if rest[j] != x {
          assert rest[j] in s[1..];
        }
      }
    }
  }

  lemma {:induction false} SortSorts(s: seq<Job>)
    ensures multiset(SortJobs(s)) == multiset(s)
    ensures Sorted(SortJobs(s))
  {
    if s != [] {
      SortSorts(s[1..]);
      InsertSorted(s[0], SortJobs(s[1..]));
      assert s == [s[0]] + s[1..];
    }
  }

  lemma SameElements(a: seq<Job>, b: seq<Job>)
    requires multiset(a) == multiset(b)
    ensures |a| == |b|
    ensures forall x :: x in a <==> x in b
  {
    assert |a| == |multiset(a)| == |b|;
    forall x ensures x in a <==> x in b {
      assert x in a <==> x in multiset(a);
      assert x in b <==> x in multiset(b);
    }
  }

  lemma Twice(s: seq<Job>, i: nat, j: nat)
    requires i < j < |s| && s[i] == s[j]
    ensures multiset(s)[s[i]] >= 2
  {
    assert s == s[..j] + [s[j]] + s[j + 1..];
    assert s[i] in s[..j];
  }

  /** Names survive a reordering. */
  lemma {:induction false} UniqueNamesPermute(a: seq<Job>, b: seq<Job>)
    requires UniqueNames(a) && multiset(a) == multiset(b)
    ensures UniqueNames(b)
  {
    SameElements(a, b);
    forall i, j | 0 <= i < j < |b| ensures b[i].pid != b[j].pid || b[i].age != b[j].age {
      if b[i] == b[j] {
        Twice(b, i, j);
        AtMostOnce(a, b[i]);
      } else {
        assert b[i] in a && b[j] in a;
      }
    }
  }

  lemma {:induction false} AtMostOnce(s: seq<Job>, x: Job)
    requires UniqueNames(s)
    ensures multiset(s)[x] <= 1
  {
    if s != [] {
      assert s == [s[0]] + s[1..];
      AtMostOnce(s[1..], x);
      if x == s[0] {
        assert x !in s[1..];
      }
    }
  }

  lemma SortedIsStrict(s: seq<Job>)
    requires Sorted(s) && UniqueNames(s)
    ensures StrictlySorted(s)
  {
  }

  lemma SameTails(a: seq<Job>, b: seq<Job>)
    requires a != [] && b != [] && a[0] == b[0] && multiset(a) == multiset(b)
    ensures multiset(a[1..]) == multiset(b[1..])
  {
    assert a == [a[0]] + a[1..] && b == [b[0]] + b[1..];
    assert multiset(a[1..]) == multiset(a) - multiset{a[0]};
    assert multiset(b[1..]) == multiset(b) - multiset{b[0]};
  }

  /** There is only one sorted arrangement of uniquely named jobs. */
  lemma {:induction false} SortedUnique(a: seq<Job>, b: seq<Job>)
    requires StrictlySorted(a) && StrictlySorted(b)
    requires multiset(a) == multiset(b)
    ensures a == b
  {
    SameElements(a, b);
    if a != [] {
      assert a[0] in b && b[0] in a;
      assert a[0] == b[0];
      SameTails(a, b);
      SortedUnique(a[1..], b[1..]);
    }
  }

  /** For uniquely named jobs SortJobs is THE strictly sorted permutation. */
  lemma SortJobsUnique(s: seq<Job>, r: seq<Job>)
    requires UniqueNames(s)
    ensures StrictlySorted(r) && multiset(r) == multiset(s) <==> r == SortJobs(s)
  {
    SortSorts(s);
    UniqueNamesPermute(s, SortJobs(s));
    SortedIsStrict(SortJobs(s));
    if StrictlySorted(r) && multiset(r) == multiset(s) {
      SortedUnique(r, SortJobs(s));
    }
  }

  // ---- the in-place sort

  method Swap(a: array<Job>, i: nat, j: nat)
    requires i < a.Length && j < a.Length
    modifies a
    ensures a[..] == old(a[..])[i := old(a[j])][j := old(a[i])]
    ensures multiset(a[..]) == multiset(old(a[..]))
  {
    a[i], a[j] := a[j], a[i];
  }

  /** One comparison of neighbours, with its three tests in the order they are made. */
  method OrderPair(a: array<Job>, i: nat)
    requires i + 1 < a.Length
    modifies a
    ensures multiset(a[..]) == multiset(old(a[..]))
    ensures a[..] == if Precedes(old(a[i + 1]), old(a[i]))
                     then old(a[..])[i := old(a[i + 1])][i + 1 := old(a[i])] else old(a[..])
  {
    if a[i].deadline > a[i + 1].deadline {
      Swap(a, i, i + 1);
    }
    if a[i].deadline == a[i + 1].deadline {
      if a[i].age > a[i + 1].age {
        Swap(a, i, i + 1);
      }
      if a[i].age == a[i + 1].age {
        if a[i].pid > a[i + 1].pid {
          Swap(a, i, i + 1);
        }
      }
    }
  }

  /** Positions from `from` on hold the greatest of the first n, in order. */
  predicate TailSorted(s: seq<Job>, from: int, n: nat)
    requires n <= |s|
  {
    forall p, q :: 0 <= p < q < n && from <= q ==> !Precedes(s[q], s[p])
  }

  predicate GreatestSoFar(s: seq<Job>, i: nat)
    requires i < |s|
  {
    forall p :: 0 <= p < i ==> !Precedes(s[i], s[p])
  }

  /** An ordering step at i moves the running maximum from i to i + 1. */
  lemma PairStep(s: seq<Job>, r: seq<Job>, i: nat, from: int, n: nat)
    requires i + 1 < from <= n <= |s|
    requires TailSorted(s, from, n) && GreatestSoFar(s, i)
    requires r == if Precedes(s[i + 1], s[i]) then s[i := s[i + 1]][i + 1 := s[i]] else s
    ensures TailSorted(r, from, n) && GreatestSoFar(r, i + 1)
  {
  }

  lemma PrefixPermuted(a: seq<Job>, b: seq<Job>, n: nat)
    requires n <= |a| && n <= |b| && a[n..] == b[n..]
    requires multiset(a) == multiset(b)
    ensures multiset(a[..n]) == multiset(b[..n])
  {
    var tail := multiset(a[n..]);
    assert a == a[..n] + a[n..] && b == b[..n] + b[n..];
    assert multiset(a[..n]) == (multiset(a[..n]) + tail) - tail;
    assert multiset(b[..n]) == (multiset(b[..n]) + tail) - tail;
  }

  /** Sorts the first n records in place: bubble sort. */
  method DeadlineSort(a: array<Job>, n: nat)
    requires n <= a.Length
    modifies a
    ensures Sorted(a[..n]) && multiset(a[..n]) == multiset(old(a[..n]))
    ensures UniqueNames(old(a[..n])) ==> a[..n] == SortJobs(old(a[..n]))
    ensures a[n..] == old(a[n..])
  {
    ghost var was := a[..];
    var j := 0;
    while j < n - 1
      invariant 0 <= j && (n > 0 ==> j < n)
      invariant TailSorted(a[..], n - j, n)
      invariant multiset(a[..]) == multiset(was)
      invariant a[n..] == was[n..]
    {
      var i := 0;
      while i < n - j - 1
        invariant 0 <= i <= n - j - 1
        invariant TailSorted(a[..], n - j, n) && GreatestSoFar(a[..], i)
        invariant multiset(a[..]) == multiset(was)
        invariant a[n..] == was[n..]
      {
        ghost var s := a[..];
        OrderPair(a, i);
        PairStep(s, a[..], i, n - j, n);
        i := i + 1;
      }
      j := j + 1;
    }
    PrefixPermuted(was, a[..], n);
    assert a[..][..n] == a[..n] && a[..][n..] == a[n..];
    if UniqueNames(was[..n]) {
      UniqueNamesPermute(was[..n], a[..n]);
      SortJobsUnique(was[..n], a[..n]);
    }
  }
}
