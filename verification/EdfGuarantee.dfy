/** The guarantee of earliest-deadline-first.  For a task set that starts all its
    processes at once, the demand of a stretch of L ticks is the work of the periods
    that fit into it.  No deadline is ever reported missed exactly when no stretch
    demands more than its length, and everything is finished at the end of the
    hyperperiod exactly when the hyperperiod as a whole does not. */
module EdfGuarantee {
  import opened EdfModel
  import opened Arith
  import opened EdfInvariant
  import opened EdfSums
  import opened EdfWork

  /** Every stretch shorter than `limit` has room for its demand. */
  predicate Schedulable(ps: seq<Job>, limit: int) {
    forall n :: 0 <= n < limit ==> Sum(ps, Share(n)) <= n
  }

  /** The work of one hyperperiod fits into it: total utilisation at most one. */
  predicate Feasible(ps: seq<Job>, maxTime: int) {
    Sum(ps, Share(maxTime)) <= maxTime
  }

  /** Work left that is due by d. */
  function DueBy(d: int): Job -> int {
    (j: Job) => if j.deadline <= d then j.remaining else 0
  }

  /** Work of one process still to be released from a on and due by d. */
  function Future(a: int, d: int): Job -> int {
    (j: Job) => if j.period > 0 then j.cpu * Periods(a, d, j.period) else 0
  }

  // ---- utilisation at most one leaves room everywhere

  lemma ShareOfOne(p: Job, maxTime: nat, n: nat)
    requires p.period > 0 && p.cpu >= 0 && maxTime % p.period == 0
    ensures maxTime * Share(n)(p) <= n * Share(maxTime)(p)
  {
  }

  lemma Distribute(a: int, b: int, c: int)
    ensures a * (b + c) == a * b + a * c
  {
  }

  lemma {:induction false} ShareOfAll(ps: seq<Job>, maxTime: nat, n: nat)
    requires forall i :: 0 <= i < |ps| ==>
      ps[i].period > 0 && ps[i].cpu >= 0 && maxTime % ps[i].period == 0
    ensures maxTime * Sum(ps, Share(n)) <= n * Sum(ps, Share(maxTime))
  {
    if ps != [] {
      var f, g, rest := Share(n), Share(maxTime), ps[1..];
      ShareOfOne(ps[0], maxTime, n);
      ShareOfAll(rest, maxTime, n);
      Distribute(maxTime, f(ps[0]), Sum(rest, f));
      Distribute(n, g(ps[0]), Sum(rest, g));
      assert Sum(ps, f) == f(ps[0]) + Sum(rest, f) && Sum(ps, g) == g(ps[0]) + Sum(rest, g);
      hide *;
    }
  }

  lemma CancelFactor(x: int, y: int, n: int, k: int)
    requires n * x <= k * y && y <= n && k >= 0 && n > 0
    ensures x <= k
  {
    MulMono(y, n, k);
    if x >= k + 1 {
      MulMono(k + 1, x, n);
      Distribute(n, k, 1);
    }
  }

  lemma FeasibleIsSchedulable(ps: seq<Job>, maxTime: nat, limit: int)
    requires ValidTasks(ps) && WholePeriods(ps, maxTime) && Feasible(ps, maxTime) && maxTime > 0
    ensures Schedulable(ps, limit)
  {
    forall n | 0 <= n < limit ensures Sum(ps, Share(n)) <= n {
      hide Sum, Share;
      ShareOfAll(ps, maxTime, n);
      CancelFactor(Sum(ps, Share(n)), Sum(ps, Share(maxTime)), maxTime, n);
    }
  }

  // ---- demand of future releases

  lemma FutureOfOne(p: Job, a: int, d: int)
    requires p.period > 0 && p.cpu >= 0 && a <= d
    ensures 0 <= Future(a, d)(p) <= Share(d - a)(p)
    ensures a == 0 ==> Future(a, d)(p) == Share(d)(p)
  {
    var k := Periods(a, d, p.period);
    PeriodsFit(a, d, p.period);
    assert k <= (d - a) / p.period by {
      if k > (d - a) / p.period {
        MulMono((d - a) / p.period + 1, k, p.period);
        Distribute(p.period, (d - a) / p.period, 1);
      }
    }
    MulMono(k, (d - a) / p.period, p.cpu);
  }

  /** Releases wholly within [a, d) demand no more than a stretch of that length. */
  lemma {:induction false} FutureAtMostShare(ps: seq<Job>, a: int, d: int)
    requires forall i :: 0 <= i < |ps| ==> ps[i].period > 0 && ps[i].cpu >= 0
    requires a <= d
    ensures 0 <= Sum(ps, Future(a, d)) <= Sum(ps, Share(d - a))
    ensures a == 0 ==> Sum(ps, Future(a, d)) == Sum(ps, Share(d))
  {
    if ps != [] {
      FutureAtMostShare(ps[1..], a, d);
      FutureOfOne(ps[0], a, d);
      hide Future, Share;
    }
  }

  /** The demand bound. */
  lemma DemandBound(ps: seq<Job>, limit: int, a: int, d: int)
    requires ValidTasks(ps) && Schedulable(ps, limit) && a <= d && d - a < limit
    ensures Sum(ps, Future(a, d)) <= d - a
  {
    FutureAtMostShare(ps, a, d);
  }

  /** Releasing the jobs of tick t turns future demand into work that is due. */
  lemma ReleaseOne(p: Job, t: nat, d: int)
    requires p.period > 0
    ensures Future(t, d)(p) == Future(t + 1, d)(p) +
      if t % p.period == 0 && t + p.period <= d then p.cpu else 0
  {
    PeriodsStep(t, d, p.period);
    Distribute(p.cpu, Periods(t + 1, d, p.period), 1);
  }

  lemma ReleasedDueLast(ps: seq<Job>, t: nat, d: int)
    requires ValidTasks(ps) && ps != []
    ensures var p, before := ps[|ps| - 1], ps[..|ps| - 1];
      ValidTasks(before) &&
      Sum(Released(ps, t), DueBy(d)) ==
      Sum(Released(before, t), DueBy(d)) + if t % p.period == 0 && t + p.period <= d then p.cpu else 0
  {
    hide Sum;
    var p, before := ps[|ps| - 1], ps[..|ps| - 1];
    SumSnoc(Released(before, t), NewJob(p, t), DueBy(d));
    assert Released(before, t) + [] == Released(before, t);
  }

  lemma {:induction false} ReleaseDemand(ps: seq<Job>, t: nat, d: int)
    requires ValidTasks(ps)
    ensures Sum(ps, Future(t, d)) == Sum(ps, Future(t + 1, d)) + Sum(Released(ps, t), DueBy(d))
  {
    if ps != [] {
      hide *;
      ReleasedDueLast(ps, t, d);
      ReleaseDemand(ps[..|ps| - 1], t, d);
      SumLast(ps, Future(t, d));
      SumLast(ps, Future(t + 1, d));
      ReleaseOne(ps[|ps| - 1], t, d);
    }
  }

  lemma {:induction false} SumNonNegative(s: seq<Job>, f: Job -> int)
    requires forall i :: 0 <= i < |s| ==> f(s[i]) >= 0
    ensures Sum(s, f) >= 0
    ensures Sum(s, f) == 0 ==> forall i :: 0 <= i < |s| ==> f(s[i]) == 0
  {
    if s != [] { SumNonNegative(s[1..], f); }
  }

  // ---- the demand invariant

  /** Work due by d, plus work still to come that is due by d. */
  function Demand(ps: seq<Job>, jobs: seq<Job>, now: int, d: int): int {
    Sum(jobs, DueBy(d)) + Sum(ps, Future(now, d))
  }

  /** For every d before `limit`, the demand up to d fits between now and d; releases
      are counted from `next` on. */
  predicate FitsFrom(ps: seq<Job>, jobs: seq<Job>, next: int, now: int, limit: int) {
    forall d :: now <= d < limit ==> Demand(ps, jobs, next, d) <= d - now
  }

  predicate Fits(ps: seq<Job>, jobs: seq<Job>, now: int, limit: int) {
    FitsFrom(ps, jobs, now, now, limit)
  }

  /** Demand that fits leaves only finished jobs with a deadline that has come. */
  lemma FitsMeetsDeadlines(ps: seq<Job>, jobs: seq<Job>, now: int, limit: int)
    requires ValidTasks(ps) && Fits(ps, jobs, now, limit) && now < limit
    requires forall i :: 0 <= i < |jobs| ==> jobs[i].remaining >= 0
    ensures forall i :: 0 <= i < |jobs| && jobs[i].deadline <= now ==> jobs[i].remaining == 0
  {
    FutureAtMostShare(ps, now, now);
    SumNonNegative(jobs, DueBy(now));
    assert Demand(ps, jobs, now, now) <= 0;
    forall i | 0 <= i < |jobs| && jobs[i].deadline <= now ensures jobs[i].remaining == 0 {
      assert DueBy(now)(jobs[i]) == 0;
    }
  }

  lemma {:induction false} NoMisses(ps: seq<Job>, jobs: seq<Job>, t: int)
    requires ValidTasks(ps) && forall i :: 0 <= i < |jobs| ==> jobs[i].deadline != t
    ensures Misses(ps, jobs, t) == []
  {
    if ps != [] {
      NoMisses(ps[..|ps| - 1], jobs, t);
      NoMissesOf(jobs, |ps|, t);
    }
  }

  lemma {:induction false} NoMissesOf(jobs: seq<Job>, pid: int, t: int)
    requires forall i :: 0 <= i < |jobs| ==> jobs[i].deadline != t
    ensures MissesOf(jobs, pid, t) == []
  {
    if jobs != [] { NoMissesOf(jobs[..|jobs| - 1], pid, t); }
  }

  /** If the head is due after d, so is every job behind it. */
  lemma LaterDeadlines(jobs: seq<Job>, r: seq<Job>, d: int)
    requires StrictlySorted(jobs) && |r| == |jobs| && (jobs != [] ==> jobs[0].deadline > d)
    requires forall i :: 0 <= i < |r| ==> r[i].deadline == jobs[i].deadline
    ensures Sum(r, DueBy(d)) == 0
  {
    forall i | 0 <= i < |r| ensures DueBy(d)(r[i]) == 0 {
      assert i > 0 ==> Precedes(jobs[0], jobs[i]);
    }
    SumZero(r, DueBy(d));
  }

  /** The schedule after the chosen head, if any, has run for one tick. */
  function AfterRun(s: State): State {
    if s.jobs == [] then s else RunHead(s)
  }

  /** Running the earliest deadline for one tick keeps demand within bounds: either
      the tick serves demand up to d, or none is there and the bound does it. */
  lemma RunFits(ps: seq<Job>, s: State, t: nat, limit: int)
    requires ValidTasks(ps) && Schedulable(ps, limit) && Ready(ps, s, t)
    requires FitsFrom(ps, s.jobs, t + 1, t, limit)
    ensures Fits(ps, AfterRun(s).jobs, t + 1, limit)
  {
    var r, u := AfterRun(s), t + 1;
    forall d | u <= d < limit ensures Demand(ps, r.jobs, u, d) <= d - u {
      assert Demand(ps, s.jobs, u, d) <= d - t;
      if s.jobs != [] && s.jobs[0].deadline <= d {
        assert r.jobs[1..] == s.jobs[1..];
      } else {
        LaterDeadlines(s.jobs, r.jobs, d);
        DemandBound(ps, limit, u, d);
      }
    }
  }

  predicate AllMet(log: seq<Event>) {
    forall i :: 0 <= i < |log| ==> !log[i].Missed?
  }

  /** Demand that fits: no job in the schedule is at its deadline. */
  lemma NothingLate(ps: seq<Job>, s: State, t: nat, limit: int)
    requires ValidTasks(ps) && Retired(ps, s, t) && Fits(ps, s.jobs, t + 1, limit) && t + 1 < limit
    ensures BumpAll(ps, s.jobs, t + 1) == s.jobs
    ensures Misses(ps, s.jobs, t + 1) == []
  {
    hide Fits, Misses, Sum;
    FitsMeetsDeadlines(ps, s.jobs, t + 1, limit);
    NoMisses(ps, s.jobs, t + 1);
  }

  /** An event that bumps no deadline leaves the demand up to d as it was. */
  lemma CheckDemand(ps: seq<Job>, s: State, t: nat, d: int)
    requires ValidTasks(ps) && BumpAll(ps, s.jobs, t) == s.jobs
    ensures Demand(ps, CheckDeadlines(ps, s, t).jobs, t + 1, d) == Demand(ps, s.jobs, t, d)
  {
    hide SortJobs, CheckDeadlines, Sum, Future, BumpAll, Released, Misses;
    CheckedSum(ps, s, t, DueBy(d));
    ReleaseDemand(ps, t, d);
  }

  lemma RetireDemand(ps: seq<Job>, s: State, t: nat, maxTime: int, d: int)
    requires ValidTasks(ps) && Inv(ps, s, t)
    ensures Demand(ps, Retire(s, t + 1, maxTime).jobs, t + 1, d) == Demand(ps, s.jobs, t + 1, d)
  {
  }

  /** With no misses the event logs a listing, a preemption, a start: never a miss. */
  lemma CheckMeets(ps: seq<Job>, s: State, t: nat)
    requires ValidTasks(ps) && Misses(ps, s.jobs, t) == [] && AllMet(s.log)
    ensures AllMet(CheckDeadlines(ps, s, t).log)
  {
    hide Misses, SortJobs, ByName, Released;
  }

  lemma TickFits(ps: seq<Job>, s: State, t: nat, maxTime: nat, limit: int)
    requires ValidTasks(ps) && Schedulable(ps, limit) && t + 1 < maxTime <= limit
    requires Inv(ps, s, t) && Fits(ps, s.jobs, t + 1, limit) && AllMet(s.log)
    ensures var r := Tick(ps, s, t + 1, maxTime);
      Fits(ps, r.jobs, t + 2, limit) && AllMet(r.log)
  {
    hide Demand, CheckDeadlines, Inv, Ready, Misses, Retired, Schedulable, ValidTasks;
    var s1 := Retire(s, t + 1, maxTime);
    RetireKeeps(ps, s, t, maxTime);
    var u, next := t + 1, t + 2;
    forall d | u <= d < limit ensures Demand(ps, s1.jobs, u, d) <= d - u {
      RetireDemand(ps, s, t, maxTime, d);
    }
    CheckDeadlinesReady(ps, s1, t);
    NothingLate(ps, s1, t, limit);
    CheckMeets(ps, s1, t + 1);
    var s2 := CheckDeadlines(ps, s1, t + 1);
    forall d | u <= d < limit ensures Demand(ps, s2.jobs, next, d) <= d - u {
      CheckDemand(ps, s1, t + 1, d);
    }
    RunFits(ps, s2, t + 1, limit);
  }

  lemma FirstDemand(ps: seq<Job>, d: int)
    requires ValidTasks(ps) && ps != [] && d >= 0
    ensures Demand(ps, SortJobs(ps), 1, d) == Sum(ps, Share(d))
  {
    hide Sum, Future, Share, SortJobs;
    SumSort(ps, DueBy(d));
    AllReleasedAtZero(ps);
    ReleaseDemand(ps, 0, d);
    FutureAtMostShare(ps, 0, d);
  }

  lemma FirstReady(ps: seq<Job>, maxTime: nat)
    requires ValidTasks(ps) && ps != []
    ensures Tick(ps, Init(ps), 0, maxTime).jobs == AfterRun(Init(ps)).jobs
    ensures AllMet(Tick(ps, Init(ps), 0, maxTime).log)
    ensures Ready(ps, Init(ps), 0) && Init(ps).jobs == SortJobs(ps)
  {
    InitReady(ps);
  }

  lemma FirstTickFits(ps: seq<Job>, maxTime: nat, limit: int)
    requires ValidTasks(ps) && ps != [] && Schedulable(ps, limit)
    ensures Fits(ps, Tick(ps, Init(ps), 0, maxTime).jobs, 1, limit)
  {
    FirstReady(ps, maxTime);
    hide Demand, Ready, ValidTasks, Tick, Init, SortJobs;
    forall d | 0 <= d < limit ensures Demand(ps, Init(ps).jobs, 1, d) <= d {
      FirstDemand(ps, d);
    }
    RunFits(ps, Init(ps), 0, limit);
  }

  lemma RunFitsStep(ps: seq<Job>, maxTime: nat, t: nat, limit: int)
    requires ValidTasks(ps) && ps != [] && Schedulable(ps, limit) && t + 1 < maxTime <= limit
    requires var s := Run(ps, maxTime, t + 1); Fits(ps, s.jobs, t + 1, limit) && AllMet(s.log)
    ensures var s := Run(ps, maxTime, t + 2); Fits(ps, s.jobs, t + 2, limit) && AllMet(s.log)
  {
    RunKeeps(ps, maxTime, t);
    RunUnfolds(ps, maxTime, t + 1);
    hide *;
    TickFits(ps, Run(ps, maxTime, t + 1), t, maxTime, limit);
  }

  lemma RunFitsAlways(ps: seq<Job>, maxTime: nat, t: nat, limit: int)
    requires ValidTasks(ps) && ps != [] && Schedulable(ps, limit) && t < maxTime <= limit
    ensures var s := Run(ps, maxTime, t + 1); Fits(ps, s.jobs, t + 1, limit) && AllMet(s.log)
  {
    RunUnfolds(ps, maxTime, 0);
    FirstTickFits(ps, maxTime, limit);
    FirstReady(ps, maxTime);
    hide *;
    for u := 0 to t
      invariant var s := Run(ps, maxTime, u + 1); Fits(ps, s.jobs, u + 1, limit) && AllMet(s.log)
    {
      RunFitsStep(ps, maxTime, u, limit);
    }
  }

  // ---- the converse: demand that does not fit is reported

  /** A finding of no misses at t means that no job was at its deadline. */
  lemma {:induction false} NoMissesNothingDue(ps: seq<Job>, all: seq<Job>, jobs: seq<Job>, t: int)
    requires ValidTasks(ps) && ValidTasks(all) && ps <= all && Misses(ps, jobs, t) == []
    ensures forall i :: 0 <= i < |jobs| && jobs[i].pid <= |ps| ==> !Due(all, jobs[i], t)
  {
    if ps != [] {
      var n := |ps| - 1;
      NoMissesNothingDue(ps[..n], all, jobs, t);
      assert ps[n] == all[n];
      if t % ps[n].period == 0 {
        NoMissesOfNothingDue(jobs, |ps|, t);
      }
    }
  }

  lemma {:induction false} NoMissesOfNothingDue(jobs: seq<Job>, pid: int, t: int)
    requires MissesOf(jobs, pid, t) == []
    ensures forall i :: 0 <= i < |jobs| ==> jobs[i].pid != pid || jobs[i].deadline != t
  {
    if jobs != [] {
      NoMissesOfNothingDue(jobs[..|jobs| - 1], pid, t);
    }
  }

  /** The log only grows, and holds the misses of each event. */
  lemma TickLog(ps: seq<Job>, s: State, t: nat, maxTime: int)
    requires ValidTasks(ps) && t + 1 < maxTime
    requires AllMet(Tick(ps, s, t + 1, maxTime).log)
    ensures AllMet(s.log) && AllMet(Misses(ps, Retire(s, t + 1, maxTime).jobs, t + 1))
  {
    hide Misses, SortJobs, ByName, Released;
    var s1 := Retire(s, t + 1, maxTime);
    var r := Tick(ps, s, t + 1, maxTime);
    assert s.log <= s1.log;
    assert s1.log + Misses(ps, s1.jobs, t + 1) <= r.log;
    forall i | 0 <= i < |s.log| ensures !s.log[i].Missed? { assert s.log[i] == r.log[i]; }
    var ms := Misses(ps, s1.jobs, t + 1);
    forall i | 0 <= i < |ms| ensures !ms[i].Missed? { assert ms[i] == r.log[|s1.log| + i]; }
  }

  lemma {:induction false} MissesOfAreMisses(jobs: seq<Job>, pid: int, t: int)
    ensures forall e :: e in MissesOf(jobs, pid, t) ==> e.Missed?
  {
    if jobs != [] { MissesOfAreMisses(jobs[..|jobs| - 1], pid, t); }
  }

  lemma {:induction false} MissesAreMisses(ps: seq<Job>, jobs: seq<Job>, t: int)
    requires ValidTasks(ps)
    ensures forall e :: e in Misses(ps, jobs, t) ==> e.Missed?
  {
    if ps != [] {
      MissesAreMisses(ps[..|ps| - 1], jobs, t);
      MissesOfAreMisses(jobs, |ps|, t);
    }
  }

  lemma NoneReported(ps: seq<Job>, jobs: seq<Job>, t: int)
    requires ValidTasks(ps)
    ensures AllMet(Misses(ps, jobs, t)) <==> Misses(ps, jobs, t) == []
  {
    MissesAreMisses(ps, jobs, t);
    var ms := Misses(ps, jobs, t);
    assert ms != [] ==> ms[0].Missed?;
  }

  /** An event that reports no miss bumps no deadline, and none is due at it. */
  lemma UnreportedEvent(ps: seq<Job>, s: State, t: nat, maxTime: int)
    requires ValidTasks(ps) && Inv(ps, s, t) && t + 1 < maxTime
    requires AllMet(Tick(ps, s, t + 1, maxTime).log)
    ensures var jobs := Retire(s, t + 1, maxTime).jobs;
      BumpAll(ps, jobs, t + 1) == jobs && forall i :: 0 <= i < |jobs| ==> jobs[i].deadline > t + 1
    ensures AllMet(s.log)
  {
    var s1 := Retire(s, t + 1, maxTime);
    TickLog(ps, s, t, maxTime);
    RetireKeeps(ps, s, t, maxTime);
    NoneReported(ps, s1.jobs, t + 1);
    NoMissesNothingDue(ps, ps, s1.jobs, t + 1);
    hide Misses, Tick, ByName, SortJobs;
    forall i | 0 <= i < |s1.jobs|
      ensures !Due(ps, s1.jobs[i], t + 1) && s1.jobs[i].deadline > t + 1
    {
      assert InPhase(ps, s1.jobs[i], t);
      NextMultipleStep(t, s1.jobs[i].period);
    }
  }

  /** One tick serves at most one unit of the demand up to d. */
  lemma RunServesOne(ps: seq<Job>, s: State, now: int, d: int)
    ensures Demand(ps, AfterRun(s).jobs, now, d) >= Demand(ps, s.jobs, now, d) - 1
  {
  }

  lemma TickServesOne(ps: seq<Job>, s: State, t: nat, maxTime: int, d: int)
    requires ValidTasks(ps) && Inv(ps, s, t) && t + 1 < maxTime
    requires AllMet(Tick(ps, s, t + 1, maxTime).log)
    ensures Demand(ps, Tick(ps, s, t + 1, maxTime).jobs, t + 2, d) >= Demand(ps, s.jobs, t + 1, d) - 1
    ensures AllMet(s.log)
  {
    hide Demand, CheckDeadlines, Inv, BumpAll, AllMet, ValidTasks;
    UnreportedEvent(ps, s, t, maxTime);
    var s1 := Retire(s, t + 1, maxTime);
    RetireDemand(ps, s, t, maxTime, d);
    CheckDemand(ps, s1, t + 1, d);
    RunServesOne(ps, CheckDeadlines(ps, s1, t + 1), t + 2, d);
  }

  lemma LogGrows(ps: seq<Job>, maxTime: nat, t: nat)
    requires ValidTasks(ps) && ps != []
    ensures Run(ps, maxTime, t).log <= Run(ps, maxTime, t + 1).log
  {
    RunUnfolds(ps, maxTime, t);
    hide *;
    TickLogGrows(ps, Run(ps, maxTime, t), t, maxTime);
  }

  lemma TickLogGrows(ps: seq<Job>, s: State, t: nat, maxTime: int)
    requires ValidTasks(ps)
    ensures s.log <= Tick(ps, s, t, maxTime).log
  {
  }

  lemma AllMetPrefix(ps: seq<Job>, maxTime: nat, m: nat, n: nat)
    requires ValidTasks(ps) && ps != [] && m <= n && AllMet(Run(ps, maxTime, n).log)
    ensures AllMet(Run(ps, maxTime, m).log)
  {
    hide Run, ValidTasks;
    for k := m to n
      invariant Run(ps, maxTime, m).log <= Run(ps, maxTime, k).log
    {
      LogGrows(ps, maxTime, k);
    }
    forall i | 0 <= i < |Run(ps, maxTime, m).log| ensures !Run(ps, maxTime, m).log[i].Missed? {
      assert Run(ps, maxTime, m).log[i] == Run(ps, maxTime, n).log[i];
    }
  }

  lemma UnreportedFirst(ps: seq<Job>, maxTime: nat, d: nat)
    requires ValidTasks(ps) && ps != []
    ensures Demand(ps, Run(ps, maxTime, 1).jobs, 1, d) >= Sum(ps, Share(d)) - 1
  {
    RunUnfolds(ps, maxTime, 0);
    FirstReady(ps, maxTime);
    hide *;
    FirstDemand(ps, d);
    RunServesOne(ps, Init(ps), 1, d);
  }

  /** While no miss is reported, the demand up to d shrinks by at most one a tick. */
  lemma UnreportedDemand(ps: seq<Job>, maxTime: nat, t: nat, d: nat)
    requires ValidTasks(ps) && ps != [] && t < maxTime && AllMet(Run(ps, maxTime, t + 1).log)
    ensures Demand(ps, Run(ps, maxTime, t + 1).jobs, t + 1, d) >= Sum(ps, Share(d)) - (t + 1)
  {
    hide *;
    UnreportedFirst(ps, maxTime, d);
    for u := 0 to t
      invariant Demand(ps, Run(ps, maxTime, u + 1).jobs, u + 1, d) >= Sum(ps, Share(d)) - (u + 1)
    {
      AllMetPrefix(ps, maxTime, u + 2, t + 1);
      RunKeeps(ps, maxTime, u);
      RunUnfolds(ps, maxTime, u + 1);
      TickServesOne(ps, Run(ps, maxTime, u + 1), u, maxTime, d);
    }
  }

  /** So a stretch that demands more than its length is reported before the end. */
  lemma UnreportedFits(ps: seq<Job>, maxTime: nat, t: nat)
    requires ValidTasks(ps) && ps != [] && t + 1 < maxTime && AllMet(Run(ps, maxTime, t + 2).log)
    ensures Sum(ps, Share(t + 1)) <= t + 1
  {
    var d := t + 1;
    var s := Run(ps, maxTime, t + 1);
    AllMetPrefix(ps, maxTime, t + 1, t + 2);
    UnreportedDemand(ps, maxTime, t, d);
    RunKeeps(ps, maxTime, t);
    RunUnfolds(ps, maxTime, t + 1);
    NothingDueDemand(ps, s, t, maxTime);
    hide *;
  }

  lemma NothingDueDemand(ps: seq<Job>, s: State, t: nat, maxTime: nat)
    requires ValidTasks(ps) && Inv(ps, s, t) && t + 1 < maxTime
    requires AllMet(Tick(ps, s, t + 1, maxTime).log)
    ensures Demand(ps, s.jobs, t + 1, t + 1) == 0
  {
    hide Tick, AllMet, BumpAll;
    var s1 := Retire(s, t + 1, maxTime);
    UnreportedEvent(ps, s, t, maxTime);
    RetireDemand(ps, s, t, maxTime, t + 1);
    SumZero(s1.jobs, DueBy(t + 1));
    FutureAtMostShare(ps, t + 1, t + 1);
    NoDemandInNoTime(ps);
  }

  // ---- the theorems

  /** At the end of the simulation only an end may still be logged. */
  lemma FinalLog(ps: seq<Job>, s: State, t: nat)
    requires ValidTasks(ps)
    ensures var r := Tick(ps, s, t + 1, t + 1);
      r.jobs == s.jobs && (AllMet(s.log) <==> AllMet(r.log))
  {
    var r := Tick(ps, s, t + 1, t + 1);
    assert s.log <= r.log;
    if AllMet(r.log) {
      forall i | 0 <= i < |s.log| ensures !s.log[i].Missed? { assert s.log[i] == r.log[i]; }
    }
  }

  lemma UnreportedIsSchedulable(ps: seq<Job>, maxTime: nat, limit: nat)
    requires ValidTasks(ps) && ps != [] && limit <= maxTime && AllMet(Run(ps, maxTime, maxTime).log)
    ensures Schedulable(ps, limit)
  {
    hide Run, Sum, AllMet, ValidTasks, Share;
    forall n | 0 <= n < limit ensures Sum(ps, Share(n)) <= n {
      if n == 0 { NoDemandInNoTime(ps); } else { UnreportedPoint(ps, maxTime, n); }
    }
  }

  lemma NoDemandInNoTime(ps: seq<Job>)
    ensures Sum(ps, Share(0)) == 0
  {
  }

  lemma UnreportedPoint(ps: seq<Job>, maxTime: nat, n: nat)
    requires ValidTasks(ps) && ps != [] && 1 <= n < maxTime && AllMet(Run(ps, maxTime, maxTime).log)
    ensures Sum(ps, Share(n)) <= n
  {
    hide *;
    AllMetPrefix(ps, maxTime, n + 1, maxTime);
    var t: nat := n - 1;
    assert t + 2 == n + 1;
    UnreportedFits(ps, maxTime, t);
  }

  /** No deadline is reported missed exactly when no stretch shorter than the
      simulation demands more than its length. */
  lemma NoMissIffSchedulable(ps: seq<Job>, t: nat)
    requires ValidTasks(ps) && ps != []
    ensures AllMet(Run(ps, t + 1, t + 2).log) <==> Schedulable(ps, t + 1)
  {
    RunUnfolds(ps, t + 1, t + 1);
    FinalLog(ps, Run(ps, t + 1, t + 1), t);
    hide *;
    if Schedulable(ps, t + 1) {
      RunFitsAlways(ps, t + 1, t, t + 1);
    }
    if AllMet(Run(ps, t + 1, t + 2).log) {
      UnreportedIsSchedulable(ps, t + 1, t + 1);
    }
  }

  /** Everything finished: at most the head is still there, with no work left. */
  predicate AllFinished(s: State) {
    |s.jobs| <= 1 && forall i :: 0 <= i < |s.jobs| ==> s.jobs[i].remaining == 0
  }

  /** At the end of the hyperperiod every live job is at its deadline. */
  lemma DeadlinesAtEnd(ps: seq<Job>, s: State, t: nat)
    requires ValidTasks(ps) && WholePeriods(ps, t + 1) && AllInPhase(ps, s.jobs, t)
    ensures forall i :: 0 <= i < |s.jobs| ==> s.jobs[i].deadline == t + 1
  {
    forall i | 0 <= i < |s.jobs| ensures s.jobs[i].deadline == t + 1 {
      assert InPhase(ps, s.jobs[i], t);
      NextMultipleStep(t, s.jobs[i].period);
    }
  }

  lemma FitsFinishes(ps: seq<Job>, s: State, t: nat, limit: int)
    requires ValidTasks(ps) && WholePeriods(ps, t + 1) && Inv(ps, s, t)
    requires Fits(ps, s.jobs, t + 1, limit) && t + 1 < limit
    ensures AllFinished(s)
  {
    assert |s.jobs| > 1 ==> s.jobs[1] == s.jobs[1..][0];
    DeadlinesAtEnd(ps, s, t);
    FitsMeetsDeadlines(ps, s.jobs, t + 1, limit);
  }

  /** A feasible task set: no deadline is ever missed, and at the end every job ever
      released is finished. */
  lemma EdfMeetsDeadlines(ps: seq<Job>, t: nat)
    requires ValidTasks(ps) && ps != [] && WholePeriods(ps, t + 1) && Feasible(ps, t + 1)
    ensures AllMet(Run(ps, t + 1, t + 2).log)
    ensures AllFinished(Run(ps, t + 1, t + 2))
  {
    var s := Run(ps, t + 1, t + 1);
    FeasibleIsSchedulable(ps, t + 1, t + 2);
    RunFitsAlways(ps, t + 1, t, t + 2);
    RunKeeps(ps, t + 1, t);
    RunUnfolds(ps, t + 1, t + 1);
    FinalLog(ps, s, t);
    hide *;
    FitsFinishes(ps, s, t, t + 2);
    FinishedSame(s, Run(ps, t + 1, t + 2));
  }

  lemma FinishedSame(s: State, r: State)
    requires AllFinished(s) && r.jobs == s.jobs
    ensures AllFinished(r)
  {
  }

  /** The schedule is finished in time if and only if the task set is feasible. */
  lemma EdfFinishesIff(ps: seq<Job>, t: nat)
    requires ValidTasks(ps) && ps != [] && WholePeriods(ps, t + 1)
    ensures AllFinished(Run(ps, t + 1, t + 2)) <==> Feasible(ps, t + 1)
  {
    hide Run, Sum;
    var r := Run(ps, t + 1, t + 2);
    FinalBacklog(ps, t);
    if Feasible(ps, t + 1) {
      EdfMeetsDeadlines(ps, t);
    } else if AllFinished(r) {
      SumZero(r.jobs, Remaining());
    }
  }

  lemma SumOne(p: Job, n: nat)
    requires p.period > 0
    ensures Sum([p], Share(n)) == p.cpu * (n / p.period)
  {
    assert [p][1..] == [];
  }

  lemma OneOverloaded(t: nat)
    ensures var ps := [Template(1, t + 2, t + 1)];
      ValidTasks(ps) && WholePeriods(ps, t + 1) && Schedulable(ps, t + 1) && !Feasible(ps, t + 1)
  {
    var ps := [Template(1, t + 2, t + 1)];
    hide Sum;
    forall n: nat | n < t + 1 ensures Sum(ps, Share(n)) <= n {
      SumOne(ps[0], n);
      OneQuotient(t + 2, n, t + 1);
    }
    SumOne(ps[0], t + 1);
    OneQuotient(t + 2, t + 1, t + 1);
  }

  lemma OneQuotient(c: nat, n: nat, m: nat)
    requires n <= m && m > 0
    ensures c * (n / m) == if n == m then c else 0
  {
    assert n / m == if n == m then 1 else 0;
  }

  /** A job still unfinished at the last tick is not reported.  One process that needs a
      tick more than its period has no miss in its log, and yet work is left over. */
  lemma SilentOverload(t: nat)
    ensures var ps := [Template(1, t + 2, t + 1)];
      ValidTasks(ps) && AllMet(Run(ps, t + 1, t + 2).log) && !AllFinished(Run(ps, t + 1, t + 2))
  {
    hide AllMet, AllFinished, Run, WholePeriods, Schedulable, Feasible;
    var ps := [Template(1, t + 2, t + 1)];
    OneOverloaded(t);
    NoMissIffSchedulable(ps, t);
    EdfFinishesIff(ps, t);
  }
}
