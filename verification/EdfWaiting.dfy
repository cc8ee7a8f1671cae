/** The waiting time: the simulator adds differences of time stamps when a job
    starts and at the end; the total is the number of live jobs not running,
    summed over the ticks. */
module EdfWaiting {
  import opened EdfModel
  import opened EdfSort
  import opened EdfInvariant
  import opened EdfSums

  function WaitAt(u: int): Job -> int {
    (j: Job) => u - Since(j)
  }

  function Tail(jobs: seq<Job>): seq<Job> {
    if jobs == [] then [] else jobs[1..]
  }

  function Waiters(s: State): nat {
    if s.jobs == [] then 0 else |s.jobs| - 1
  }

  /** The live jobs that wait: all but the running one. */
  function Waiting(s: State): seq<Job> {
    if s.running.pid != 0 then Tail(s.jobs) else s.jobs
  }

  /** What `waited` comes to if every waiting job is charged up to time u. */
  function Charged(s: State, u: int): int {
    s.waited + Sum(Waiting(s), WaitAt(u))
  }

  lemma CandidatesWait(ps: seq<Job>, s: State, t: nat)
    requires ValidTasks(ps) && Retired(ps, s, t)
    ensures var cand := Candidates(ps, s, t + 1);
      Sum(cand, WaitAt(t + 1)) == Sum(s.jobs, WaitAt(t + 1))
  {
    hide Released, InPhase, Sum;
    var f := WaitAt(t + 1);
    var bumped := BumpAll(ps, s.jobs, t + 1);
    var released := Released(ps, t + 1);
    SumConcat(bumped, released, f);
    SumSame(bumped, s.jobs, f, f);
    ReleasedInPhase(ps, ps, t + 1);
    SumZero(released, f);
  }

  /** Re-sorting with a new head: the old head, stamped, waits for nothing yet. */
  lemma DisplacedSum(sorted: seq<Job>, was: Job, u: int, rest: int)
    requires StrictlySorted(sorted) && UniqueNames(sorted) && was in sorted && sorted[0] != was && u != 0
    requires Sum(sorted, WaitAt(u)) == WaitAt(u)(was) + rest
    ensures var stamped := SetPreempt(sorted, was, u);
      stamped[0] == sorted[0] && u - Since(stamped[0]) + Sum(stamped[1..], WaitAt(u)) == rest
  {
    SumStamp(sorted, was, u, WaitAt(u));
  }

  /** The running job among the candidates, and what all of them have waited. */
  lemma ContendSum(ps: seq<Job>, s: State, t: nat)
    requires ValidTasks(ps) && Retired(ps, s, t) && s.running.pid != 0
    ensures var cand := Candidates(ps, s, t + 1); var was := WasRunning(ps, s, t + 1);
      cand != [] && cand[0] == was &&
      Sum(SortJobs(cand), WaitAt(t + 1)) == WaitAt(t + 1)(was) + Sum(s.jobs[1..], WaitAt(t + 1))
  {
    var f := WaitAt(t + 1);
    CandidatesWait(ps, s, t);
    SumSort(Candidates(ps, s, t + 1), f);
    assert f(WasRunning(ps, s, t + 1)) == f(s.jobs[0]);
  }

  /** The state that Contend leaves, case by case. */
  lemma ContendShape(ps: seq<Job>, s: State, u: nat, sorted: seq<Job>, was: Job)
    requires ValidTasks(ps) && Candidates(ps, s, u) != []
    requires sorted == SortJobs(Candidates(ps, s, u)) && was == WasRunning(ps, s, u)
    ensures |sorted| == |Candidates(ps, s, u)|
    ensures var r := Contend(ps, s, u);
      r.running == sorted[0] &&
      if sorted[0] == was then r.jobs == sorted && r.waited == s.waited
      else var stamped := SetPreempt(sorted, was, u);
           r.jobs == stamped && r.waited == s.waited + u - Since(stamped[0])
  {
    hide SortJobs, ByName;
    SortSize(Candidates(ps, s, u));
  }

  lemma ContendWaits(ps: seq<Job>, s: State, t: nat)
    requires ValidTasks(ps) && Retired(ps, s, t) && s.running.pid != 0
    requires Candidates(ps, s, t + 1) != []
    ensures Contend(ps, s, t + 1).running.pid != 0
    ensures Charged(Contend(ps, s, t + 1), t + 1) == Charged(s, t + 1)
  {
    hide SortJobs, ByName, Released, BumpAll, Sum, Contend, Candidates, WaitAt;
    var u := t + 1;
    var cand := Candidates(ps, s, u);
    var was := WasRunning(ps, s, u);
    var sorted := SortJobs(cand);
    ContendSum(ps, s, t);
    CandidatesInPhase(ps, s, t);
    SortedCandidates(ps, cand, u);
    ContendShape(ps, s, u, sorted, was);
    assert InPhase(ps, sorted[0], u);
    var r := Contend(ps, s, u);
    if sorted[0] != was {
      SameElements(cand, sorted);
      DisplacedSum(sorted, was, u, Sum(s.jobs[1..], WaitAt(u)));
      assert Charged(r, u) == Charged(s, u);
    } else {
      assert Sum(sorted, WaitAt(u)) == WaitAt(u)(was) + Sum(sorted[1..], WaitAt(u)) by { SumHead(sorted, WaitAt(u)); }
      assert Charged(r, u) == Charged(s, u);
    }
  }

  lemma SumHead(s: seq<Job>, f: Job -> int)
    requires s != []
    ensures Sum(s, f) == f(s[0]) + Sum(s[1..], f)
  {
  }

  lemma DispatchWaits(ps: seq<Job>, s: State, t: nat)
    requires ValidTasks(ps) && Retired(ps, s, t) && s.running.pid == 0
    requires Candidates(ps, s, t + 1) != []
    ensures Dispatch(ps, s, t + 1).running.pid != 0
    ensures Charged(Dispatch(ps, s, t + 1), t + 1) == Charged(s, t + 1)
  {
    var u := t + 1;
    var cand := Candidates(ps, s, u);
    CandidatesInPhase(ps, s, t);
    SortedCandidates(ps, cand, u);
    CandidatesWait(ps, s, t);
    SumSort(cand, WaitAt(u));
    assert InPhase(ps, SortJobs(cand)[0], u);
  }

  /** Choosing the next job charges exactly what it has waited. */
  lemma CheckDeadlinesWaits(ps: seq<Job>, s: State, t: nat)
    requires ValidTasks(ps) && Retired(ps, s, t)
    ensures Charged(CheckDeadlines(ps, s, t + 1), t + 1) == Charged(s, t + 1)
  {
    var cand := Candidates(ps, s, t + 1);
    var s1 := s.(log := s.log + Misses(ps, s.jobs, t + 1), created := s.created + |Released(ps, t + 1)|);
    assert Charged(s1, t + 1) == Charged(s, t + 1);
    if cand == [] {
    } else if Released(ps, t + 1) == [] && s.running.pid != 0 {
      NothingDue(ps, s, t);
    } else if s.running.pid != 0 {
      ContendWaits(ps, s1, t);
    } else {
      DispatchWaits(ps, s1, t);
    }
  }

  lemma RetireWaits(ps: seq<Job>, s: State, t: nat, maxTime: int, u: int)
    requires ValidTasks(ps) && Inv(ps, s, t) && t + 1 != maxTime
    ensures Charged(Retire(s, t + 1, maxTime), u) == Charged(s, u)
  {
  }

  /** Running one tick charges one unit to every other live job. */
  lemma ReadyWaits(ps: seq<Job>, s: State, t: nat)
    requires ValidTasks(ps) && Ready(ps, s, t)
    ensures var r := if s.jobs == [] then s else RunHead(s);
      Charged(r, t + 1) == Charged(s, t) + Waiters(r)
  {
    if s.jobs != [] {
      assert InPhase(ps, s.jobs[0], t);
      assert RunHead(s).jobs[1..] == s.jobs[1..];
      SumShift(s.jobs[1..], WaitAt(t), WaitAt(t + 1), 1);
    }
  }

  lemma TickWaits(ps: seq<Job>, s: State, t: nat, maxTime: int)
    requires ValidTasks(ps) && Inv(ps, s, t) && t + 1 < maxTime
    ensures var r := Tick(ps, s, t + 1, maxTime);
      Charged(r, t + 2) == Charged(s, t + 1) + Waiters(r)
  {
    var s1 := Retire(s, t + 1, maxTime);
    RetireKeeps(ps, s, t, maxTime);
    RetireWaits(ps, s, t, maxTime, t + 1);
    CheckDeadlinesReady(ps, s1, t);
    CheckDeadlinesWaits(ps, s1, t);
    ReadyWaits(ps, CheckDeadlines(ps, s1, t + 1), t + 1);
  }

  lemma FirstTickWaits(ps: seq<Job>, maxTime: int)
    requires ValidTasks(ps) && ps != []
    ensures var r := Tick(ps, Init(ps), 0, maxTime);
      Charged(r, 1) == Waiters(r)
  {
    InitReady(ps);
    var s := Init(ps);
    assert InPhase(ps, s.jobs[0], 0);
    forall i | 0 <= i < |s.jobs[1..]| ensures WaitAt(0)(s.jobs[1..][i]) == 0 {
      assert InPhase(ps, s.jobs[i + 1], 0);
    }
    SumZero(s.jobs[1..], WaitAt(0));
    var s1 := s.(log := s.log + [Listing(0, ByName(s.jobs)), Starts(0, s.running.pid)]);
    assert Ready(ps, s1, 0) && Charged(s1, 0) == 0;
    ReadyWaits(ps, s1, 0);
  }

  /** The number of live jobs that do not run, summed over the first n ticks. */
  function TotalWaiting(ps: seq<Job>, maxTime: int, n: nat): nat
    requires ValidTasks(ps) && ps != []
  {
    if n == 0 then 0 else TotalWaiting(ps, maxTime, n - 1) + Waiters(Run(ps, maxTime, n))
  }

  lemma RunWaitsStep(ps: seq<Job>, maxTime: int, t: nat)
    requires ValidTasks(ps) && ps != [] && t + 1 < maxTime
    ensures Charged(Run(ps, maxTime, t + 2), t + 2) ==
            Charged(Run(ps, maxTime, t + 1), t + 1) + Waiters(Run(ps, maxTime, t + 2))
  {
    RunKeeps(ps, maxTime, t);
    RunUnfolds(ps, maxTime, t + 1);
    TickWaits(ps, Run(ps, maxTime, t + 1), t, maxTime);
  }

  lemma WaitingUnfolds(ps: seq<Job>, maxTime: int, n: nat)
    requires ValidTasks(ps) && ps != []
    ensures TotalWaiting(ps, maxTime, n + 1) == TotalWaiting(ps, maxTime, n) + Waiters(Run(ps, maxTime, n + 1))
  {
  }

  lemma RunWaitsFirst(ps: seq<Job>, maxTime: int)
    requires ValidTasks(ps) && ps != []
    ensures Charged(Run(ps, maxTime, 1), 1) == TotalWaiting(ps, maxTime, 1)
  {
    RunUnfolds(ps, maxTime, 0);
    FirstTickWaits(ps, maxTime);
    WaitingUnfolds(ps, maxTime, 0);
    assert TotalWaiting(ps, maxTime, 0) == 0;
    hide *;
  }

  lemma RunWaits(ps: seq<Job>, maxTime: int, t: nat)
    requires ValidTasks(ps) && ps != [] && t < maxTime
    ensures Charged(Run(ps, maxTime, t + 1), t + 1) == TotalWaiting(ps, maxTime, t + 1)
  {
    hide *;
    RunWaitsFirst(ps, maxTime);
    for u := 0 to t
      invariant Charged(Run(ps, maxTime, u + 1), u + 1) == TotalWaiting(ps, maxTime, u + 1)
    {
      RunWaitsStep(ps, maxTime, u);
      WaitingUnfolds(ps, maxTime, u + 1);
    }
  }

  /** The total that is printed: `waited` after the last event, plus the waiting of
      every job behind the head up to the end of the simulation. */
  function FinalWaited(ps: seq<Job>, maxTime: nat): int
    requires ValidTasks(ps) && ps != []
  {
    var s := Run(ps, maxTime, maxTime + 1);
    s.waited + Sum(Tail(s.jobs), WaitAt(maxTime))
  }

  lemma FinalWaits(ps: seq<Job>, s: State, t: nat)
    requires ValidTasks(ps) && Inv(ps, s, t)
    ensures var r := Tick(ps, s, t + 1, t + 1);
      r.waited + Sum(Tail(r.jobs), WaitAt(t + 1)) == Charged(s, t + 1)
  {
  }

  lemma WaitingUpTo(ps: seq<Job>, t: nat)
    requires ValidTasks(ps) && ps != []
    ensures FinalWaited(ps, t + 1) == TotalWaiting(ps, t + 1, t + 1)
  {
    RunWaits(ps, t + 1, t);
    RunKeeps(ps, t + 1, t);
    RunUnfolds(ps, t + 1, t + 1);
    FinalWaits(ps, Run(ps, t + 1, t + 1), t);
  }

  /** For every task set, feasible or not, the printed total is the true one. */
  lemma WaitingIsExact(ps: seq<Job>, maxTime: nat)
    requires ValidTasks(ps) && ps != [] && maxTime >= 1
    ensures FinalWaited(ps, maxTime) == TotalWaiting(ps, maxTime, maxTime)
  {
    hide *;
    WaitingUpTo(ps, maxTime - 1);
  }
}
