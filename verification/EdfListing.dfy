/** Printing the schedule: the nested scans over ages, processes and positions list
    every live job once, in order of age and process id. */
module EdfListing {
  import opened EdfModel
  import opened EdfSort

  predicate NameSorted(s: seq<Job>) {
    forall i, j :: 0 <= i < j < |s| ==> OlderThan(s[i], s[j])
  }

  predicate NameWeaklySorted(s: seq<Job>) {
    forall i, j :: 0 <= i < j < |s| ==> !OlderThan(s[j], s[i])
  }

  lemma {:induction false} InsertByNameSorts(x: Job, s: seq<Job>)
    requires NameWeaklySorted(s)
    ensures multiset(InsertByName(x, s)) == multiset(s) + multiset{x}
    ensures NameWeaklySorted(InsertByName(x, s))
  {
    if s == [] || !OlderThan(s[0], x) {
    } else {
      var rest := InsertByName(x, s[1..]);
      InsertByNameSorts(x, s[1..]);
      assert s == [s[0]] + s[1..];
      forall j | 0 <= j < |rest| ensures !OlderThan(rest[j], s[0]) {
        assert rest[j] in multiset(rest);
        if rest[j] != x { assert rest[j] in s[1..]; }
      }
    }
  }

  lemma {:induction false} ByNameSorts(s: seq<Job>)
    ensures multiset(ByName(s)) == multiset(s)
    ensures NameWeaklySorted(ByName(s))
  {
    if s != [] {
      ByNameSorts(s[1..]);
      InsertByNameSorts(s[0], ByName(s[1..]));
      assert s == [s[0]] + s[1..];
    }
  }

  lemma {:induction false} NameSortedUnique(a: seq<Job>, b: seq<Job>)
    requires NameSorted(a) && NameSorted(b) && multiset(a) == multiset(b)
    ensures a == b
  {
    SameElements(a, b);
    if a != [] {
      assert a[0] in b && b[0] in a;
      assert a[0] == b[0];
      SameTails(a, b);
      NameSortedUnique(a[1..], b[1..]);
    }
  }

  /** For uniquely named jobs ByName is THE arrangement in order of age, process id;
      it is the same whatever the order of the schedule. */
  lemma ByNameUnique(s: seq<Job>, r: seq<Job>)
    requires UniqueNames(s)
    ensures NameSorted(r) && multiset(r) == multiset(s) <==> r == ByName(s)
  {
    ByNameSorts(s);
    UniqueNamesPermute(s, ByName(s));
    assert NameSorted(ByName(s));
    if NameSorted(r) && multiset(r) == multiset(s) {
      NameSortedUnique(r, ByName(s));
    }
  }

  /** The scans over ages, processes and positions have passed job x at position k. */
  predicate Passed(x: Job, k: int, age: int, p: int, i: int) {
    x.age < age || (x.age == age && (x.pid < p || (x.pid == p && k < i)))
  }

  /** Listed so far: exactly the jobs the scans have passed, in order. */
  ghost predicate ListedSoFar(s: seq<Job>, age: int, p: int, i: int, out: seq<Job>) {
    NameSorted(out) &&
    (forall k :: 0 <= k < |s| && Passed(s[k], k, age, p, i) ==> s[k] in out) &&
    (forall x :: x in out ==> exists k :: 0 <= k < |s| && s[k] == x && Passed(x, k, age, p, i))
  }

  /** Moving the innermost scan past position i. */
  lemma ScanStep(s: seq<Job>, age: int, p: int, i: nat, out: seq<Job>)
    requires UniqueNames(s) && i < |s| && ListedSoFar(s, age, p, i, out)
    ensures ListedSoFar(s, age, p, i + 1, if s[i].pid == p && s[i].age == age then out + [s[i]] else out)
  {
    var out' := if s[i].pid == p && s[i].age == age then out + [s[i]] else out;
    forall x | x in out'
      ensures exists k :: 0 <= k < |s| && s[k] == x && Passed(x, k, age, p, i + 1)
    {
      if x in out {
        var k :| 0 <= k < |s| && s[k] == x && Passed(x, k, age, p, i);
        assert Passed(x, k, age, p, i + 1);
      } else {
        assert Passed(s[i], i, age, p, i + 1);
      }
    }
    forall x | x in out && s[i].pid == p && s[i].age == age ensures OlderThan(x, s[i]) {
      var k :| 0 <= k < |s| && s[k] == x && Passed(x, k, age, p, i);
      assert k < i ==> s[k].pid != s[i].pid || s[k].age != s[i].age;
    }
  }

  /** A scan that has passed every position starts the next process, and so on. */
  lemma ScanOver(s: seq<Job>, age: int, p: int, i: int, age': int, p': int, i': int, out: seq<Job>)
    requires ListedSoFar(s, age, p, i, out)
    requires forall k :: 0 <= k < |s| ==> (Passed(s[k], k, age, p, i) <==> Passed(s[k], k, age', p', i'))
    ensures ListedSoFar(s, age', p', i', out)
  {
  }

  lemma NothingListed(s: seq<Job>)
    requires forall k :: 0 <= k < |s| ==> s[k].age >= 0 && s[k].pid >= 1
    ensures ListedSoFar(s, 0, 1, 0, [])
  {
  }

  lemma AllListed(s: seq<Job>, age: int, p: int, i: int, out: seq<Job>)
    requires UniqueNames(s) && ListedSoFar(s, age, p, i, out)
    requires forall k :: 0 <= k < |s| ==> Passed(s[k], k, age, p, i)
    ensures out == ByName(s)
  {
    assert UniqueNames(out);
    forall x ensures multiset(out)[x] == multiset(s)[x] {
      AtMostOnce(out, x);
      AtMostOnce(s, x);
      assert x in multiset(out) <==> x in out;
      assert x in multiset(s) <==> x in s;
    }
    assert multiset(out) == multiset(s);
    ByNameUnique(s, out);
  }

  /** Lists the first n records of the schedule. */
  method PrintSchedule(schedule: array<Job>, process: seq<Job>, n: nat, t: nat) returns (out: seq<Job>)
    requires n <= schedule.Length && UniqueNames(schedule[..n])
    requires forall j :: 0 <= j < |process| ==> process[j].pid == j + 1
    requires forall i :: 0 <= i < n ==> 1 <= schedule[i].pid <= |process| && 0 <= schedule[i].age <= t
    ensures out == ByName(schedule[..n])
  {
    hide ListedSoFar, UniqueNames;
    out := [];
    ghost var s := schedule[..n];
    NothingListed(s);
    var minAge := 0;
    while minAge <= t
      invariant 0 <= minAge <= t + 1
      invariant ListedSoFar(s, minAge, 1, 0, out)
    {
      var j := 0;
      while j < |process|
        invariant 0 <= j <= |process|
        invariant ListedSoFar(s, minAge, j + 1, 0, out)
      {
        var i := 0;
        while i < n
          invariant 0 <= i <= n
          invariant ListedSoFar(s, minAge, j + 1, i, out)
        {
          ScanStep(s, minAge, j + 1, i, out);
          if schedule[i].pid == process[j].pid && schedule[i].age == minAge {
            out := out + [schedule[i]];
          }
          i := i + 1;
        }
        ScanOver(s, minAge, j + 1, n, minAge, j + 2, 0, out);
        j := j + 1;
      }
      ScanOver(s, minAge, |process| + 1, 0, minAge + 1, 1, 0, out);
      minAge := minAge + 1;
    }
    AllListed(s, t + 1, 1, 0, out);
  }
}
