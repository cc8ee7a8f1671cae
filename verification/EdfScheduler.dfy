/** The simulator itself: the schedule is an array that is sorted, shifted, stamped
    and grown in place.  Every method is proved against the specification functions
    of EdfModel. */
module EdfScheduler {
  import opened EdfModel
  import opened EdfSort
  import opened EdfListing
  import opened EdfInvariant
  import opened EdfSums
  import opened EdfWaiting
  import opened EdfWork
  import opened EdfGuarantee
  import opened EdfHyperperiod
  import opened EdfTrace

  // ---- the loop over processes, on values

  predicate AtDeadline(j: Job, pid: int, t: int) {
    j.pid == pid && j.deadline == t
  }

  function BumpOne(j: Job, pid: int, t: int): Job {
    if AtDeadline(j, pid, t) then j.(deadline := t + j.period) else j
  }

  /** Jobs of one process found at their deadline. */
  function BumpProcess(jobs: seq<Job>, pid: int, t: int): (r: seq<Job>)
    ensures |r| == |jobs|
    ensures forall i :: 0 <= i < |jobs| ==> r[i] == BumpOne(jobs[i], pid, t)
  {
    seq(|jobs|, i requires 0 <= i < |jobs| => BumpOne(jobs[i], pid, t))
  }

  /** The schedule when the loop over processes has done the first i of them. */
  function Halfway(ps: seq<Job>, i: nat, jobs: seq<Job>, t: int): seq<Job>
    requires ValidTasks(ps) && i <= |ps|
  {
    BumpAll(ps[..i], jobs, t) + Released(ps[..i], t)
  }

  lemma MissesOfNone(pid: int, t: int)
    ensures MissesOf([], pid, t) == []
  {
  }

  lemma MissesOfMore(jobs: seq<Job>, j: nat, pid: int, t: int)
    requires j < |jobs|
    ensures MissesOf(jobs[..j + 1], pid, t) ==
      MissesOf(jobs[..j], pid, t) +
      if AtDeadline(jobs[j], pid, t) then [Missed(t, pid, jobs[j].remaining)] else []
  {
    assert jobs[..j + 1][..j] == jobs[..j];
  }

  lemma {:induction false} MissesOfSame(a: seq<Job>, b: seq<Job>, pid: int, t: int)
    requires |a| == |b|
    requires forall k :: 0 <= k < |a| ==>
      a[k] == b[k] || (a[k].pid == b[k].pid && a[k].pid != pid)
    ensures MissesOf(a, pid, t) == MissesOf(b, pid, t)
  {
    if a != [] { MissesOfSame(a[..|a| - 1], b[..|b| - 1], pid, t); }
  }

  lemma {:induction false} MissesOfOthers(a: seq<Job>, b: seq<Job>, pid: int, t: int)
    requires forall k :: 0 <= k < |b| ==> b[k].pid != pid
    ensures MissesOf(a + b, pid, t) == MissesOf(a, pid, t)
  {
    if b == [] {
      assert a + b == a;
    } else {
      assert (a + b)[..|a + b| - 1] == a + b[..|b| - 1];
      MissesOfOthers(a, b[..|b| - 1], pid, t);
    }
  }

  /** The tables of the first i and i + 1 processes. */
  lemma Prefixes(ps: seq<Job>, i: nat, jobs: seq<Job>, t: nat)
    requires ValidTasks(ps) && i < |ps|
    ensures Released(ps[..i + 1], t) ==
      Released(ps[..i], t) + (if t % ps[i].period == 0 then [NewJob(ps[i], t)] else [])
    ensures Misses(ps[..i + 1], jobs, t) ==
      Misses(ps[..i], jobs, t) + (if t % ps[i].period == 0 then MissesOf(jobs, i + 1, t) else [])
    ensures BumpAll(ps[..i + 1], jobs, t) ==
      if t % ps[i].period == 0 then BumpProcess(BumpAll(ps[..i], jobs, t), i + 1, t) else BumpAll(ps[..i], jobs, t)
  {
    assert ps[..i + 1][..i] == ps[..i];
    hide Misses, Released;
    var a, b := BumpAll(ps[..i], jobs, t), BumpAll(ps[..i + 1], jobs, t);
    if t % ps[i].period == 0 {
      assert b == BumpProcess(a, i + 1, t);
    } else {
      assert b == a;
    }
  }

  /** A process that is not due at t changes nothing. */
  lemma ProcessSkipped(ps: seq<Job>, i: nat, jobs: seq<Job>, t: nat)
    requires ValidTasks(ps) && i < |ps| && t % ps[i].period != 0
    ensures Halfway(ps, i + 1, jobs, t) == Halfway(ps, i, jobs, t)
    ensures Misses(ps[..i + 1], jobs, t) == Misses(ps[..i], jobs, t)
    ensures Released(ps[..i + 1], t) == Released(ps[..i], t)
  {
    hide Misses, Released, BumpAll, BumpProcess;
    Prefixes(ps, i, jobs, t);
  }

  /** A process whose period starts at t: its misses, its bumps and its release. */
  lemma ProcessStep(ps: seq<Job>, i: nat, jobs: seq<Job>, t: nat)
    requires ValidTasks(ps) && i < |ps| && t % ps[i].period == 0
    ensures Halfway(ps, i + 1, jobs, t) == BumpProcess(Halfway(ps, i, jobs, t), i + 1, t) + [NewJob(ps[i], t)]
    ensures Misses(ps[..i + 1], jobs, t) == Misses(ps[..i], jobs, t) + MissesOf(Halfway(ps, i, jobs, t), i + 1, t)
    ensures Released(ps[..i + 1], t) == Released(ps[..i], t) + [NewJob(ps[i], t)]
  {
    hide Misses, Released, MissesOf, InPhase, NewJob;
    Prefixes(ps, i, jobs, t);
    var bumped, released := BumpAll(ps[..i], jobs, t), Released(ps[..i], t);
    ReleasedInPhase(ps[..i], ps, t);
    MissesOfOthers(bumped, released, i + 1, t);
    MissesOfSame(bumped, jobs, i + 1, t);
    assert BumpProcess(bumped + released, i + 1, t) == BumpProcess(bumped, i + 1, t) + released;
  }

  /** The record of the running job when the loop has done i processes. */
  function WasAfter(ps: seq<Job>, i: nat, jobs: seq<Job>, running: Job, t: int): Job
    requires ValidTasks(ps) && i <= |ps|
  {
    if jobs != [] && Due(ps[..i], jobs[0], t) then running.(deadline := t + jobs[0].period) else running
  }

  lemma WasStep(ps: seq<Job>, i: nat, jobs: seq<Job>, running: Job, t: nat)
    requires ValidTasks(ps) && i < |ps|
    ensures var half := Halfway(ps, i, jobs, t); var was := WasAfter(ps, i, jobs, running, t);
      WasAfter(ps, i + 1, jobs, running, t) ==
        if t % ps[i].period == 0 && half != [] && AtDeadline(half[0], i + 1, t)
        then was.(deadline := t + half[0].period) else was
  {
    hide InPhase, Released;
    ReleasedInPhase(ps[..i], ps, t);
  }

  lemma NothingYet(ps: seq<Job>, jobs: seq<Job>, t: int)
    requires ValidTasks(ps)
    ensures Halfway(ps, 0, jobs, t) == jobs
    ensures Misses(ps[..0], jobs, t) == [] && Released(ps[..0], t) == []
    ensures forall running :: WasAfter(ps, 0, jobs, running, t) == running
  {
  }

  lemma LoopDone(ps: seq<Job>, s: State, t: int)
    requires ValidTasks(ps)
    ensures ps[..|ps|] == ps
    ensures Halfway(ps, |ps|, s.jobs, t) == Candidates(ps, s, t)
    ensures WasAfter(ps, |ps|, s.jobs, s.running, t) == WasRunning(ps, s, t)
  {
  }

  /** The candidates can be listed and sorted: they are distinctly named, of known
      processes, and not released in the future. */
  lemma ListableCandidates(ps: seq<Job>, s: State, t: nat)
    requires ValidTasks(ps) && Retired(ps, s, t)
    ensures var cand := Candidates(ps, s, t + 1);
      UniqueNames(cand) && UniqueNames(SortJobs(cand)) && |SortJobs(cand)| == |cand| &&
      (forall i :: 0 <= i < |cand| ==> 1 <= cand[i].pid <= |ps| && 0 <= cand[i].age <= t + 1) &&
      (forall i :: 0 <= i < |cand| ==>
        var j := SortJobs(cand)[i]; 1 <= j.pid <= |ps| && 0 <= j.age <= t + 1)
  {
    var cand := Candidates(ps, s, t + 1);
    CandidatesInPhase(ps, s, t);
    SortedCandidates(ps, cand, t + 1);
    hide SortJobs, Candidates;
    assert forall i :: 0 <= i < |cand| ==> InPhase(ps, cand[i], t + 1);
    assert forall i :: 0 <= i < |cand| ==> InPhase(ps, SortJobs(cand)[i], t + 1);
  }

  lemma ProcessNamesUnique(ps: seq<Job>)
    requires ValidTasks(ps)
    ensures UniqueNames(ps)
  {
  }

  // ---- the simulator

  class Scheduler {
    const process: seq<Job>
    var schedule: array<Job>
    var maxSize: nat
    var curSize: nat
    var running: Job
    var waited: int
    var created: int
    var log: seq<Event>

    ghost predicate Valid()
      reads this, schedule
    {
      ValidTasks(process) && process != [] &&
      1 <= maxSize == schedule.Length && curSize <= maxSize
    }

    /** The records that are in use. */
    ghost function Jobs(): seq<Job>
      requires Valid()
      reads this, schedule
    {
      schedule[..curSize]
    }

    ghost function View(): State
      requires Valid()
      reads this, schedule
    {
      State(Jobs(), running, waited, created, log)
    }

    /** One job of every process, sorted; the first of them is to run. */
    constructor (ps: seq<Job>)
      requires ValidTasks(ps) && ps != []
      ensures Valid() && fresh(schedule) && process == ps && View() == Init(ps)
    {
      process := ps;
      schedule := new Job[|ps|](i requires 0 <= i < |ps| => ps[i]);
      maxSize, curSize := |ps|, |ps|;
      running := ps[0];
      waited, created, log := 0, |ps|, [];
      new;
      hide SortJobs, Sorted, ValidTasks;
      assert schedule[..curSize] == ps;
      ProcessNamesUnique(ps);
      DeadlineSort(schedule, curSize);
      SortSize(ps);
      running := schedule[0];
    }

    /** Shifts every record one place down: the head is gone. */
    method RemoveElement()
      requires Valid() && curSize >= 1
      modifies schedule, `curSize
      ensures Valid() && curSize == old(curSize) - 1 && Jobs() == old(Jobs())[1..]
    {
      var i := 0;
      while i < curSize - 1
        invariant 0 <= i <= curSize - 1 && curSize == old(curSize)
        invariant forall k :: 0 <= k < i ==> schedule[k] == old(schedule[k + 1])
        invariant forall k :: i <= k < curSize ==> schedule[k] == old(schedule[k])
      {
        schedule[i] := schedule[i + 1];
        i := i + 1;
      }
      curSize := curSize - 1;
    }

    /** Stamps the records equal to the one that was running. */
    method StampPreempted(was: Job, t: int)
      requires Valid()
      modifies schedule
      ensures Jobs() == SetPreempt(old(Jobs()), was, t)
    {
      ghost var jobs := Jobs();
      var i := 0;
      while i < curSize
        invariant 0 <= i <= curSize
        invariant forall k :: 0 <= k < i ==> schedule[k] == SetPreempt(jobs, was, t)[k]
        invariant forall k :: i <= k < curSize ==> schedule[k] == jobs[k]
      {
        if schedule[i] == was {
          schedule[i] := schedule[i].(preempted := t);
        }
        i := i + 1;
      }
    }

    /** Reports and moves on the jobs of process i + 1 that are at their deadline. */
    method MoveDeadlines(i: nat, t: int, was: Job) returns (was': Job)
      requires Valid() && i < |process|
      modifies schedule, `log
      ensures Jobs() == BumpProcess(old(Jobs()), i + 1, t)
      ensures log == old(log) + MissesOf(old(Jobs()), i + 1, t)
      ensures was' == if old(Jobs()) != [] && AtDeadline(old(Jobs()[0]), i + 1, t)
                      then was.(deadline := t + old(Jobs()[0]).period) else was
    {
      ghost var jobs := Jobs();
      hide MissesOf;
      assert MissesOf(jobs[..0], i + 1, t) == [] by { MissesOfNone(i + 1, t); }
      was' := was;
      var j := 0;
      while j < curSize
        invariant 0 <= j <= curSize
        invariant forall k :: 0 <= k < j ==> schedule[k] == BumpProcess(jobs, i + 1, t)[k]
        invariant forall k :: j <= k < curSize ==> schedule[k] == jobs[k]
        invariant log == old(log) + MissesOf(jobs[..j], i + 1, t)
        invariant was' == if j > 0 && AtDeadline(jobs[0], i + 1, t)
                          then was.(deadline := t + jobs[0].period) else was
      {
        MissesOfMore(jobs, j, i + 1, t);
        if schedule[j].pid == process[i].pid && t == schedule[j].deadline {
          log := log + [Missed(t, schedule[j].pid, schedule[j].remaining)];
          schedule[j] := schedule[j].(deadline := t + schedule[j].period);
          if j == 0 {
            was' := was'.(deadline := t + schedule[j].period);
          }
        }
        j := j + 1;
      }
      assert jobs[..curSize] == jobs;
    }

    /** Adds a record at the end, in an array of twice the size when this one is full. */
    method Append(x: Job)
      requires Valid()
      modifies this`schedule, this`maxSize, this`curSize, schedule
      ensures Valid() && (schedule == old(schedule) || fresh(schedule))
      ensures Jobs() == old(Jobs()) + [x]
    {
      if curSize == maxSize {
        var bigger := new Job[maxSize * 2](_ => x);
        var i := 0;
        while i < curSize
          invariant 0 <= i <= curSize
          invariant forall k :: 0 <= k < i ==> bigger[k] == schedule[k]
          modifies bigger
        {
          bigger[i] := schedule[i];
          i := i + 1;
        }
        maxSize, schedule := maxSize * 2, bigger;
      }
      schedule[curSize] := x;
      curSize := curSize + 1;
    }

    /** The loop over processes: bumps, then releases. */
    method ReleaseDue(t: nat) returns (was: Job)
      requires Valid()
      modifies this, schedule
      ensures Valid() && (schedule == old(schedule) || fresh(schedule))
      ensures Jobs() == Candidates(process, old(View()), t)
      ensures log == old(log) + Misses(process, old(Jobs()), t)
      ensures created == old(created) + |Released(process, t)|
      ensures was == WasRunning(process, old(View()), t)
      ensures running == old(running) && waited == old(waited)
    {
      hide Misses, MissesOf, Released, Halfway, BumpAll, BumpProcess, WasAfter, AtDeadline;
      ghost var jobs := Jobs();
      was := running;
      var i := 0;
      NothingYet(process, jobs, t);
      while i < |process|
        invariant 0 <= i <= |process|
        invariant Valid() && (schedule == old(schedule) || fresh(schedule))
        invariant Jobs() == Halfway(process, i, jobs, t)
        invariant log == old(log) + Misses(process[..i], jobs, t)
        invariant created == old(created) + |Released(process[..i], t)|
        invariant was == WasAfter(process, i, jobs, running, t)
        invariant running == old(running) && waited == old(waited)
      {
        WasStep(process, i, jobs, running, t);
        if t % process[i].period == 0 {
          ProcessStep(process, i, jobs, t);
          was := MoveDeadlines(i, t, was);
          Append(process[i].(deadline := t + process[i].period, age := t));
          created := created + 1;
        } else {
          ProcessSkipped(process, i, jobs, t);
        }
        i := i + 1;
      }
      LoopDone(process, old(View()), t);
    }

    /** The running job meets the new arrivals. */
    method Reschedule(t: nat, was: Job, ghost s: State)
      requires Valid() && t >= 1 && Retired(process, s, t - 1) && s.running.pid != 0
      requires Jobs() == Candidates(process, s, t) && Jobs() != [] && was == WasRunning(process, s, t)
      requires running == s.running && waited == s.waited && created == s.created && log == s.log
      modifies this, schedule
      ensures Valid() && schedule == old(schedule) && View() == Contend(process, s, t)
    {
      hide SortJobs, ByName, Released, BumpAll, Sorted;
      ghost var cand := Jobs();
      ListableCandidates(process, s, t - 1);
      SortSize(cand);
      var listing := PrintSchedule(schedule, process, curSize, t);
      log := log + [Listing(t, listing)];
      DeadlineSort(schedule, curSize);
      running := schedule[0];
      if running != was {
        log := log + [Preempted(t, was.pid), Starts(t, running.pid)];
        StampPreempted(was, t);
        if schedule[0].preempted == 0 {
          waited := waited + t - schedule[0].age;
        } else {
          waited := waited + t - schedule[0].preempted;
        }
      }
    }

    /** Nothing was running: the first job starts. */
    method StartFirst(t: nat, added: bool, ghost s: State)
      requires Valid() && t >= 1 && Retired(process, s, t - 1)
      requires Jobs() == Candidates(process, s, t) && Jobs() != [] && added == (Released(process, t) != [])
      requires waited == s.waited && created == s.created && log == s.log
      modifies this, schedule
      ensures Valid() && schedule == old(schedule) && View() == Dispatch(process, s, t)
    {
      hide SortJobs, ByName, Released, BumpAll, Sorted;
      ghost var cand := Jobs();
      ListableCandidates(process, s, t - 1);
      DeadlineSort(schedule, curSize);
      if added {
        var listing := PrintSchedule(schedule, process, curSize, t);
        log := log + [Listing(t, listing)];
      }
      running := schedule[0];
      log := log + [Starts(t, running.pid)];
      if schedule[0].preempted == 0 {
        waited := waited + t - schedule[0].age;
      } else {
        waited := waited + t - schedule[0].preempted;
      }
    }

    method CheckDeadlines(t: nat)
      requires Valid() && t >= 1 && Retired(process, View(), t - 1)
      modifies this, schedule
      ensures Valid() && (schedule == old(schedule) || fresh(schedule))
      ensures View() == EdfModel.CheckDeadlines(process, old(View()), t)
    {
      hide SortJobs, ByName, Released, BumpAll, Misses, Contend, Dispatch, InPhase;
      ghost var s := View();
      var originalSize := curSize;
      var was := ReleaseDue(t);
      ghost var s1 := s.(log := log, created := created);
      assert Candidates(process, s1, t) == Candidates(process, s, t);
      if curSize > 0 && (originalSize != curSize || running.pid == 0) {
        if running.pid != 0 {
          Reschedule(t, was, s1);
        } else {
          StartFirst(t, originalSize != curSize, s1);
        }
      }
    }

    /** The event at tick t. */
    method CheckEvent(t: nat, maxTime: nat)
      requires Valid() && maxTime >= 1
      requires t == 0 ==> Ready(process, View(), 0) && Jobs() != []
      requires t >= 1 ==> Inv(process, View(), t - 1)
      modifies this, schedule
      ensures Valid() && (schedule == old(schedule) || fresh(schedule))
      ensures View() == Tick(process, old(View()), t, maxTime)
    {
      if t == 0 {
        FirstEvent();
      } else {
        if running.pid != 0 && running.remaining == 0 {
          log := log + [Ends(t, running.pid)];
          if t == maxTime {
            return;
          }
          RemoveElement();
          running := running.(pid := 0);
        }
        if t == maxTime {
          return;
        }
        CheckDeadlines(t);
        if curSize != 0 {
          RunOne();
        }
      }
    }

    method FirstEvent()
      requires Valid() && Ready(process, View(), 0) && Jobs() != []
      modifies this, schedule
      ensures Valid() && schedule == old(schedule) && View() == Tick(process, old(View()), 0, 1)
    {
      StrictNamesUnique(process, Jobs(), 0);
      assert forall i :: 0 <= i < curSize ==> InPhase(process, Jobs()[i], 0);
      var listing := PrintSchedule(schedule, process, curSize, 0);
      log := log + [Listing(0, listing), Starts(0, running.pid)];
      RunOne();
    }

    /** The head runs for one tick, in the array and in the copy. */
    method RunOne()
      requires Valid() && curSize > 0
      modifies schedule, `running
      ensures Valid() && View() == RunHead(old(View()))
    {
      schedule[0] := schedule[0].(remaining := schedule[0].remaining - 1);
      running := running.(remaining := running.remaining - 1);
    }
  }

  /** The input loop: strictly positive CPU times and periods fill the process table. */
  method ReadProcesses(cpus: seq<int>, periods: seq<int>) returns (process: seq<Job>)
    requires |cpus| == |periods|
    requires forall i :: 0 <= i < |cpus| ==> cpus[i] >= 1 && periods[i] >= 1
    ensures |process| == |cpus| && ValidTasks(process)
    ensures forall i :: 0 <= i < |cpus| ==> process[i].cpu == cpus[i] && process[i].period == periods[i]
  {
    process := [];
    var i := 0;
    while i < |cpus|
      invariant 0 <= i <= |cpus| && |process| == i && ValidTasks(process)
      invariant forall k :: 0 <= k < i ==> process[k].cpu == cpus[k] && process[k].period == periods[k]
    {
      process := process + [Job(i + 1, cpus[i], periods[i], periods[i], cpus[i], 0, 0)];
      i := i + 1;
    }
  }

  /** The waiting of the jobs behind the head, up to the end. */
  method FinalWaiting(sim: Scheduler, maxTime: nat) returns (waited: int)
    requires sim.Valid()
    ensures waited == sim.waited + Sum(Tail(sim.Jobs()), WaitAt(maxTime))
  {
    waited := sim.waited;
    ghost var rest := Tail(sim.Jobs());
    var i := 1;
    while i < sim.curSize
      invariant 1 <= i && (sim.curSize > 0 ==> i <= sim.curSize)
      invariant waited == sim.waited + Sum(if sim.curSize == 0 then [] else rest[..i - 1], WaitAt(maxTime))
    {
      SumSnoc(rest[..i - 1], rest[i - 1], WaitAt(maxTime));
      assert rest[..i] == rest[..i - 1] + [rest[i - 1]];
      if sim.schedule[i].preempted == 0 {
        waited := waited + maxTime - sim.schedule[i].age;
      } else {
        waited := waited + maxTime - sim.schedule[i].preempted;
      }
      i := i + 1;
    }
    assert sim.curSize > 0 ==> rest[..i - 1] == rest;
  }

  lemma NextEvent(ps: seq<Job>, maxTime: nat, t: nat)
    requires ValidTasks(ps) && ps != [] && t <= maxTime
    ensures t == 0 ==> Ready(ps, Run(ps, maxTime, t), 0) && Run(ps, maxTime, t).jobs != []
    ensures t >= 1 ==> Inv(ps, Run(ps, maxTime, t), t - 1)
  {
    hide *;
    if t == 0 {
      FirstState(ps, maxTime);
    } else {
      RunKeeps(ps, maxTime, t - 1);
    }
  }

  lemma FirstState(ps: seq<Job>, maxTime: nat)
    requires ValidTasks(ps) && ps != []
    ensures Ready(ps, Run(ps, maxTime, 0), 0) && Run(ps, maxTime, 0).jobs != []
  {
    InitReady(ps);
    SortSize(ps);
  }

  lemma EndFacts(ps: seq<Job>, maxTime: nat)
    requires ValidTasks(ps) && ps != [] && IsHyperperiod(ps, maxTime)
    ensures FinalWaited(ps, maxTime) == TotalWaiting(ps, maxTime, maxTime)
    ensures var s := Run(ps, maxTime, maxTime + 1);
      s.created == Sum(ps, Releases(maxTime)) &&
      (AllMet(s.log) <==> Schedulable(ps, maxTime)) &&
      (AllFinished(s) <==> Feasible(ps, maxTime))
  {
    assert WholePeriods(ps, maxTime);
    hide *;
    var t: nat := maxTime - 1;
    assert maxTime == t + 1 && maxTime + 1 == t + 2;
    WaitingIsExact(ps, maxTime);
    ReleaseCount(ps, t);
    NoMissIffSchedulable(ps, t);
    EdfFinishesIff(ps, t);
  }

  /** The whole program, from the process table to the totals that are printed. */
  method Simulate(process: seq<Job>)
    returns (maxTime: nat, log: seq<Event>, waited: int, created: int, finished: bool)
    requires ValidTasks(process) && process != []
    ensures IsHyperperiod(process, maxTime)
    ensures log == Run(process, maxTime, maxTime + 1).log
    ensures forall t: nat :: t < maxTime ==> Replay(0, UpTo(log, t)) == Run(process, maxTime, t + 1).running.pid
    ensures waited == TotalWaiting(process, maxTime, maxTime)
    ensures created == Sum(process, Releases(maxTime))
    ensures AllMet(log) <==> Schedulable(process, maxTime)
    ensures finished <==> Feasible(process, maxTime)
  {
    hide Run, Init, Tick, Inv, Ready, Replay, UpTo;
    var h := Hyperperiod(process);
    maxTime := h;
    var sim := new Scheduler(process);
    RunUnfolds(process, maxTime, 0);
    var t := 0;
    while t <= maxTime
      invariant 0 <= t <= maxTime + 1
      invariant fresh(sim) && fresh(sim.schedule) && sim.Valid() && sim.process == process
      invariant sim.View() == Run(process, maxTime, t)
    {
      NextEvent(process, maxTime, t);
      RunUnfolds(process, maxTime, t);
      sim.CheckEvent(t, maxTime);
      t := t + 1;
    }
    waited := FinalWaiting(sim, maxTime);
    log, created := sim.log, sim.created;
    finished := sim.curSize == 0 || (sim.curSize == 1 && sim.schedule[0].remaining == 0);
    EndFacts(process, maxTime);
    forall t: nat | t < maxTime ensures Replay(0, UpTo(log, t)) == Run(process, maxTime, t + 1).running.pid {
      TraceNamesRunner(process, maxTime, t);
    }
    assert finished <==> AllFinished(sim.View());
  }
}
