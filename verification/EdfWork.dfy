/** Work: what is released, what is executed, and what is left. */
module EdfWork {
  import opened EdfModel
  import opened Arith
  import opened EdfInvariant
  import opened EdfSums

  function Remaining(): Job -> int { (j: Job) => j.remaining }

  /** f does not look at the preemption stamp. */
  predicate IgnoresStamp(f: Job -> int, was: Job, t: int) {
    f(was.(preempted := t)) == f(was)
  }

  /** However the schedule is re-sorted and stamped, sums over it stay. */
  lemma CheckedSum(ps: seq<Job>, s: State, t: nat, f: Job -> int)
    requires ValidTasks(ps) && IgnoresStamp(f, WasRunning(ps, s, t), t)
    ensures Sum(CheckDeadlines(ps, s, t).jobs, f) == Sum(BumpAll(ps, s.jobs, t), f) + Sum(Released(ps, t), f)
  {
    hide SortJobs, ByName, Misses;
    var cand := Candidates(ps, s, t);
    SumConcat(BumpAll(ps, s.jobs, t), Released(ps, t), f);
    var s1 := s.(log := s.log + Misses(ps, s.jobs, t), created := s.created + |Released(ps, t)|);
    assert Candidates(ps, s1, t) == cand;
    SumSort(cand, f);
    SumStampSame(SortJobs(cand), WasRunning(ps, s, t), t, f);
  }

  /** A finished head takes no work with it. */
  lemma RetiredSum(ps: seq<Job>, s: State, t: nat, maxTime: int, f: Job -> int)
    requires ValidTasks(ps) && Inv(ps, s, t)
    requires s.jobs != [] && s.jobs[0].remaining == 0 ==> f(s.jobs[0]) == 0
    ensures Sum(Retire(s, t + 1, maxTime).jobs, f) == Sum(s.jobs, f)
  {
  }

  // ---- releases

  /** Work released in [0, n) by one process, by its period. */
  function WorkBefore(n: int): Job -> int {
    (j: Job) => if j.period > 0 then j.cpu * CeilDiv(n, j.period) else 0
  }

  function CountBefore(n: int): Job -> int {
    (j: Job) => if j.period > 0 then CeilDiv(n, j.period) else 0
  }

  /** What one process releases at t, and how that moves its counts. */
  lemma OneReleased(p: Job, t: nat)
    requires p.period > 0
    ensures WorkBefore(t + 1)(p) == WorkBefore(t)(p) + if t % p.period == 0 then p.cpu else 0
    ensures CountBefore(t + 1)(p) == CountBefore(t)(p) + if t % p.period == 0 then 1 else 0
  {
    CeilDivStep(t, p.period);
    var c := CeilDiv(t, p.period);
    assert p.cpu * (c + 1) == p.cpu * c + p.cpu;
  }

  lemma ReleasedLast(ps: seq<Job>, t: nat)
    requires ValidTasks(ps) && ps != []
    ensures var p, before := ps[|ps| - 1], ps[..|ps| - 1];
      ValidTasks(before) &&
      Sum(Released(ps, t), Remaining()) ==
      Sum(Released(before, t), Remaining()) + if t % p.period == 0 then p.cpu else 0
  {
    hide Sum;
    var p, before := ps[|ps| - 1], ps[..|ps| - 1];
    SumSnoc(Released(before, t), NewJob(p, t), Remaining());
    assert Released(before, t) + [] == Released(before, t);
  }

  lemma {:induction false} ReleasedWork(ps: seq<Job>, t: nat)
    requires ValidTasks(ps)
    ensures Sum(ps, WorkBefore(t + 1)) == Sum(ps, WorkBefore(t)) + Sum(Released(ps, t), Remaining())
  {
    if ps != [] {
      hide *;
      var p, before := ps[|ps| - 1], ps[..|ps| - 1];
      ReleasedLast(ps, t);
      ReleasedWork(before, t);
      SumLast(ps, WorkBefore(t));
      SumLast(ps, WorkBefore(t + 1));
      OneReleased(p, t);
    }
  }

  lemma {:induction false} ReleasedCount(ps: seq<Job>, t: nat)
    requires ValidTasks(ps)
    ensures Sum(ps, CountBefore(t + 1)) == Sum(ps, CountBefore(t)) + |Released(ps, t)|
  {
    if ps != [] {
      hide CountBefore, CeilDiv, Sum;
      var p, before := ps[|ps| - 1], ps[..|ps| - 1];
      ReleasedCount(before, t);
      SumLast(ps, CountBefore(t));
      SumLast(ps, CountBefore(t + 1));
      OneReleased(p, t);
    }
  }

  lemma {:induction false} NothingBefore(ps: seq<Job>)
    requires ValidTasks(ps)
    ensures Sum(ps, WorkBefore(0)) == 0 && Sum(ps, CountBefore(0)) == 0
  {
    SumZero(ps, WorkBefore(0));
    SumZero(ps, CountBefore(0));
  }

  // ---- one event

  function Backlog(s: State): int {
    Sum(s.jobs, Remaining())
  }

  function Arriving(ps: seq<Job>, t: int): int
    requires ValidTasks(ps)
  {
    Sum(Released(ps, t), Remaining())
  }

  /** One unit of the backlog is served per tick, when there is one. */
  function Served(backlog: int): int {
    if backlog <= 0 then 0 else backlog - 1
  }

  lemma {:induction false} UnfinishedSum(jobs: seq<Job>)
    requires Unfinished(jobs)
    ensures Sum(jobs, Remaining()) >= |jobs|
  {
    if jobs != [] { UnfinishedSum(jobs[1..]); }
  }

  lemma ReadyServes(ps: seq<Job>, s: State, t: nat)
    requires ValidTasks(ps) && Ready(ps, s, t)
    ensures s.jobs == [] <==> Backlog(s) == 0
    ensures s.jobs != [] ==> Backlog(RunHead(s)) == Backlog(s) - 1
    ensures Backlog(s) >= 0
  {
    UnfinishedSum(s.jobs);
    if s.jobs != [] {
      assert RunHead(s).jobs[1..] == s.jobs[1..];
    }
  }

  /** The backlog recurrence, whatever the order of the schedule: a tick serves one
      unit exactly when some job is live. */
  lemma TickServes(ps: seq<Job>, s: State, t: nat, maxTime: int)
    requires ValidTasks(ps) && Inv(ps, s, t) && t + 1 < maxTime
    ensures var r := Tick(ps, s, t + 1, maxTime);
      Backlog(r) == Served(Backlog(s) + Arriving(ps, t + 1)) &&
      (r.jobs == [] <==> Backlog(s) + Arriving(ps, t + 1) == 0) &&
      Backlog(s) + Arriving(ps, t + 1) >= 0
  {
    hide SortJobs, ByName, Misses, Released, MissesOf, Sum, CheckDeadlines, InPhase;
    var f := Remaining();
    var s1 := Retire(s, t + 1, maxTime);
    RetireKeeps(ps, s, t, maxTime);
    RetiredSum(ps, s, t, maxTime, f);
    CheckDeadlinesReady(ps, s1, t);
    CheckedSum(ps, s1, t + 1, f);
    SumSame(BumpAll(ps, s1.jobs, t + 1), s1.jobs, f, f);
    ReadyServes(ps, CheckDeadlines(ps, s1, t + 1), t + 1);
  }

  lemma FirstTickServes(ps: seq<Job>, maxTime: int)
    requires ValidTasks(ps) && ps != []
    ensures var r := Tick(ps, Init(ps), 0, maxTime);
      r.jobs != [] && Backlog(r) + 1 == Sum(ps, WorkBefore(1)) && r.created == Sum(ps, CountBefore(1))
  {
    hide SortJobs, ByName, Released, CeilDiv, WorkBefore, CountBefore, Sum, InPhase;
    var s := Init(ps);
    SortSize(ps);
    AllReleasedAtZero(ps);
    NothingBefore(ps);
    ReleasedWork(ps, 0);
    ReleasedCount(ps, 0);
    SumSort(ps, Remaining());
    InitReady(ps);
    var s1 := s.(log := s.log + [Listing(0, ByName(s.jobs)), Starts(0, s.running.pid)]);
    assert Ready(ps, s1, 0);
    ReadyServes(ps, s1, 0);
  }

  lemma TickCounts(ps: seq<Job>, s: State, t: nat, maxTime: int)
    requires ValidTasks(ps) && t + 1 < maxTime
    ensures Tick(ps, s, t + 1, maxTime).created == s.created + |Released(ps, t + 1)|
  {
  }

  // ---- whole runs

  /** The number of ticks before n in which some job ran. */
  function Busy(ps: seq<Job>, maxTime: int, n: nat): nat
    requires ValidTasks(ps) && ps != []
  {
    if n == 0 then 0
    else Busy(ps, maxTime, n - 1) + if Run(ps, maxTime, n).jobs == [] then 0 else 1
  }

  lemma RunWorksStep(ps: seq<Job>, maxTime: int, t: nat)
    requires ValidTasks(ps) && ps != [] && t + 1 < maxTime
    ensures var s, r := Run(ps, maxTime, t + 1), Run(ps, maxTime, t + 2);
      Backlog(r) + (if r.jobs == [] then 0 else 1) == Backlog(s) + Arriving(ps, t + 1) &&
      r.created == s.created + |Released(ps, t + 1)|
  {
    var s := Run(ps, maxTime, t + 1);
    RunKeeps(ps, maxTime, t);
    RunUnfolds(ps, maxTime, t + 1);
    hide *;
    TickServes(ps, s, t, maxTime);
    TickCounts(ps, s, t, maxTime);
  }

  lemma FirstWorks(ps: seq<Job>, maxTime: int)
    requires ValidTasks(ps) && ps != []
    ensures Sum(ps, WorkBefore(1)) == Busy(ps, maxTime, 1) + Backlog(Run(ps, maxTime, 1))
    ensures Run(ps, maxTime, 1).created == Sum(ps, CountBefore(1))
  {
    RunUnfolds(ps, maxTime, 0);
    FirstTickServes(ps, maxTime);
    BusyUnfolds(ps, maxTime, 0);
    assert Busy(ps, maxTime, 0) == 0;
    hide *;
  }

  /** Conservation at every tick, for every task set: the work released so far is
      the work executed plus the work left, and `created` counts the releases. */
  lemma RunWorks(ps: seq<Job>, maxTime: int, t: nat)
    requires ValidTasks(ps) && ps != [] && t < maxTime
    ensures Sum(ps, WorkBefore(t + 1)) == Busy(ps, maxTime, t + 1) + Backlog(Run(ps, maxTime, t + 1))
    ensures Run(ps, maxTime, t + 1).created == Sum(ps, CountBefore(t + 1))
  {
    hide *;
    FirstWorks(ps, maxTime);
    for u := 0 to t
      invariant Sum(ps, WorkBefore(u + 1)) == Busy(ps, maxTime, u + 1) + Backlog(Run(ps, maxTime, u + 1))
      invariant Run(ps, maxTime, u + 1).created == Sum(ps, CountBefore(u + 1))
    {
      NextWorks(ps, maxTime, u);
    }
  }

  lemma NextWorks(ps: seq<Job>, maxTime: int, u: nat)
    requires ValidTasks(ps) && ps != [] && u + 1 < maxTime
    requires Sum(ps, WorkBefore(u + 1)) == Busy(ps, maxTime, u + 1) + Backlog(Run(ps, maxTime, u + 1))
    requires Run(ps, maxTime, u + 1).created == Sum(ps, CountBefore(u + 1))
    ensures Sum(ps, WorkBefore(u + 2)) == Busy(ps, maxTime, u + 2) + Backlog(Run(ps, maxTime, u + 2))
    ensures Run(ps, maxTime, u + 2).created == Sum(ps, CountBefore(u + 2))
  {
    hide Run, Sum, Busy, Backlog, Released, WorkBefore, CountBefore;
    RunWorksStep(ps, maxTime, u);
    ReleasedWork(ps, u + 1);
    ReleasedCount(ps, u + 1);
    BusyUnfolds(ps, maxTime, u + 1);
  }

  lemma BusyUnfolds(ps: seq<Job>, maxTime: int, n: nat)
    requires ValidTasks(ps) && ps != []
    ensures Busy(ps, maxTime, n + 1) == Busy(ps, maxTime, n) + if Run(ps, maxTime, n + 1).jobs == [] then 0 else 1
  {
  }

  lemma BusyAtMost(ps: seq<Job>, maxTime: int, n: nat)
    requires ValidTasks(ps) && ps != []
    ensures Busy(ps, maxTime, n) <= n
  {
  }

  // ---- over the hyperperiod

  predicate WholePeriods(ps: seq<Job>, maxTime: int)
    requires ValidTasks(ps)
  {
    forall i :: 0 <= i < |ps| ==> maxTime % ps[i].period == 0
  }

  /** The work of one process in maxTime, and its number of releases. */
  function Share(maxTime: int): Job -> int {
    (j: Job) => if j.period > 0 then j.cpu * (maxTime / j.period) else 0
  }

  function Releases(maxTime: int): Job -> int {
    (j: Job) => if j.period > 0 then maxTime / j.period else 0
  }

  lemma WholeWork(ps: seq<Job>, maxTime: nat)
    requires ValidTasks(ps) && WholePeriods(ps, maxTime)
    ensures Sum(ps, WorkBefore(maxTime)) == Sum(ps, Share(maxTime))
    ensures Sum(ps, CountBefore(maxTime)) == Sum(ps, Releases(maxTime))
  {
    SumSame(ps, ps, WorkBefore(maxTime), Share(maxTime));
    SumSame(ps, ps, CountBefore(maxTime), Releases(maxTime));
  }

  lemma FinalTick(ps: seq<Job>, s: State, t: nat)
    requires ValidTasks(ps) && Inv(ps, s, t)
    ensures var r := Tick(ps, s, t + 1, t + 1);
      r.jobs == s.jobs && r.created == s.created && r.waited == s.waited
  {
  }

  /** The number of processes created is the number of their periods in maxTime. */
  lemma ReleaseCount(ps: seq<Job>, t: nat)
    requires ValidTasks(ps) && ps != [] && WholePeriods(ps, t + 1)
    ensures Run(ps, t + 1, t + 2).created == Sum(ps, Releases(t + 1))
  {
    RunWorks(ps, t + 1, t);
    RunKeeps(ps, t + 1, t);
    RunUnfolds(ps, t + 1, t + 1);
    WholeWork(ps, t + 1);
    FinalTick(ps, Run(ps, t + 1, t + 1), t);
  }

  /** What is left at the end is what was released less the busy ticks; an
      overloaded task set leaves at least its excess. */
  lemma FinalBacklog(ps: seq<Job>, t: nat)
    requires ValidTasks(ps) && ps != [] && WholePeriods(ps, t + 1)
    ensures Backlog(Run(ps, t + 1, t + 2)) == Sum(ps, Share(t + 1)) - Busy(ps, t + 1, t + 1)
    ensures Backlog(Run(ps, t + 1, t + 2)) >= Sum(ps, Share(t + 1)) - (t + 1)
  {
    hide Run, Tick, Busy, Share, WorkBefore, CountBefore, Releases, Sum, Inv, WholePeriods;
    RunWorks(ps, t + 1, t);
    RunKeeps(ps, t + 1, t);
    RunUnfolds(ps, t + 1, t + 1);
    WholeWork(ps, t + 1);
    FinalTick(ps, Run(ps, t + 1, t + 1), t);
    BusyAtMost(ps, t + 1, t + 1);
  }
}
