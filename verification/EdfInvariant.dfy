/** What every scheduling event keeps: the phase of deadlines, the order of the
    schedule, and the copy of its head that the simulator runs. */
module EdfInvariant {
  import opened EdfModel
  import opened EdfSort
  import opened Arith

  /** A job after the event at tick t: it was released at a multiple of its period,
      and its deadline is the first multiple after t, however late it already is. */
  predicate InPhase(ps: seq<Job>, j: Job, t: int)
    requires ValidTasks(ps)
  {
    1 <= j.pid <= |ps| &&
    var p := ps[j.pid - 1];
    j.cpu == p.cpu && j.period == p.period &&
    0 <= j.age <= t && j.age % j.period == 0 &&
    j.deadline == NextMultiple(t, j.period) &&
    0 <= j.preempted <= t && j.remaining <= j.cpu
  }

  predicate AllInPhase(ps: seq<Job>, jobs: seq<Job>, t: int)
    requires ValidTasks(ps)
  {
    forall i :: 0 <= i < |jobs| ==> InPhase(ps, jobs[i], t)
  }

  predicate Unfinished(jobs: seq<Job>) {
    forall i :: 0 <= i < |jobs| ==> jobs[i].remaining >= 1
  }

  /** `running` is a copy of the head, and has process id 0 when there is none. */
  predicate Mirror(s: State) {
    if s.jobs == [] then s.running.pid == 0 else s.running == s.jobs[0]
  }

  /** The schedule once the event at t has chosen a head, before it runs. */
  predicate Ready(ps: seq<Job>, s: State, t: int)
    requires ValidTasks(ps)
  {
    AllInPhase(ps, s.jobs, t) && StrictlySorted(s.jobs) && Unfinished(s.jobs) && Mirror(s)
  }

  /** The schedule after the event at tick t. */
  predicate Inv(ps: seq<Job>, s: State, t: int)
    requires ValidTasks(ps)
  {
    AllInPhase(ps, s.jobs, t) && StrictlySorted(s.jobs) && Mirror(s) &&
    (s.jobs != [] ==> s.jobs[0].remaining >= 0 && Unfinished(s.jobs[1..]))
  }

  /** The schedule once a finished head has left, before the event at t + 1 goes on. */
  predicate Retired(ps: seq<Job>, s: State, t: int)
    requires ValidTasks(ps)
  {
    AllInPhase(ps, s.jobs, t) && StrictlySorted(s.jobs) && Unfinished(s.jobs) &&
    (s.running.pid != 0 ==> s.jobs != [] && s.running == s.jobs[0])
  }

  lemma ReadyRuns(ps: seq<Job>, s: State, t: nat)
    requires ValidTasks(ps) && Ready(ps, s, t)
    ensures s.jobs != [] ==> Inv(ps, RunHead(s), t)
    ensures s.jobs == [] ==> Inv(ps, s, t)
  {
  }

  lemma RetireKeeps(ps: seq<Job>, s: State, t: nat, maxTime: int)
    requires ValidTasks(ps) && Inv(ps, s, t) && t + 1 != maxTime
    ensures Retired(ps, Retire(s, t + 1, maxTime), t)
  {
  }

  lemma BumpKeepsPhase(ps: seq<Job>, j: Job, t: nat)
    requires ValidTasks(ps) && InPhase(ps, j, t)
    ensures InPhase(ps, Bump(ps, j, t + 1), t + 1)
    ensures Due(ps, j, t + 1) <==> (t + 1) % j.period == 0
  {
    NextMultipleStep(t, j.period);
  }

  lemma {:induction false} ReleasedInPhase(ps: seq<Job>, all: seq<Job>, t: nat)
    requires ValidTasks(ps) && ValidTasks(all) && ps <= all
    ensures AllInPhase(all, Released(ps, t), t)
    ensures forall i :: 0 <= i < |Released(ps, t)| ==>
      var j := Released(ps, t)[i];
      j.age == t && 1 <= j.pid <= |ps| && t % j.period == 0 && j.preempted == 0 && j.remaining == j.cpu >= 1
    ensures UniqueNames(Released(ps, t))
    ensures Released(ps, t) == [] <==> forall i :: 0 <= i < |ps| ==> t % ps[i].period != 0
  {
    if ps != [] {
      var p := ps[|ps| - 1];
      ReleasedInPhase(ps[..|ps| - 1], all, t);
      assert ps[|ps| - 1] == all[|ps| - 1];
      if t % p.period == 0 {
        assert NextMultiple(t, p.period) == t + p.period by {
          assert (t / p.period + 1) * p.period == (t / p.period) * p.period + p.period;
        }
      }
    }
  }

  /** With nothing to release there is no deadline to bump either. */
  lemma NothingDue(ps: seq<Job>, s: State, t: nat)
    requires ValidTasks(ps) && Retired(ps, s, t) && Released(ps, t + 1) == []
    ensures Candidates(ps, s, t + 1) == s.jobs
    ensures AllInPhase(ps, s.jobs, t + 1)
  {
    ReleasedInPhase(ps, ps, t + 1);
    forall i | 0 <= i < |s.jobs|
      ensures Bump(ps, s.jobs[i], t + 1) == s.jobs[i] && InPhase(ps, s.jobs[i], t + 1)
    {
      assert InPhase(ps, s.jobs[i], t);
      BumpKeepsPhase(ps, s.jobs[i], t);
    }
  }

  lemma StrictNamesUnique(ps: seq<Job>, jobs: seq<Job>, t: int)
    requires ValidTasks(ps) && AllInPhase(ps, jobs, t) && StrictlySorted(jobs)
    ensures UniqueNames(jobs)
  {
  }

  /** Late jobs moved on, new jobs added: in phase again, and distinctly named. */
  lemma CandidatesInPhase(ps: seq<Job>, s: State, t: nat)
    requires ValidTasks(ps) && Retired(ps, s, t)
    ensures AllInPhase(ps, Candidates(ps, s, t + 1), t + 1)
    ensures Unfinished(Candidates(ps, s, t + 1))
    ensures UniqueNames(Candidates(ps, s, t + 1))
  {
    var cand := Candidates(ps, s, t + 1);
    var old_ := |s.jobs|;
    ReleasedInPhase(ps, ps, t + 1);
    StrictNamesUnique(ps, s.jobs, t);
    forall i | 0 <= i < |cand| ensures InPhase(ps, cand[i], t + 1) && cand[i].remaining >= 1 {
      if i < old_ {
        assert InPhase(ps, s.jobs[i], t);
        BumpKeepsPhase(ps, s.jobs[i], t);
      } else {
        assert cand[i] == Released(ps, t + 1)[i - old_];
      }
    }
    forall i, j | 0 <= i < j < |cand| ensures cand[i].pid != cand[j].pid || cand[i].age != cand[j].age {
      if j < old_ {
        assert s.jobs[i].pid != s.jobs[j].pid || s.jobs[i].age != s.jobs[j].age;
      } else if i < old_ {
        assert InPhase(ps, s.jobs[i], t);
        assert cand[j] == Released(ps, t + 1)[j - old_];
      } else {
        assert cand[i] == Released(ps, t + 1)[i - old_] && cand[j] == Released(ps, t + 1)[j - old_];
      }
    }
  }

  /** The candidates, sorted: in phase, unfinished, strictly ordered. */
  lemma SortedCandidates(ps: seq<Job>, cand: seq<Job>, t: nat)
    requires ValidTasks(ps) && AllInPhase(ps, cand, t) && Unfinished(cand) && UniqueNames(cand)
    ensures var sorted := SortJobs(cand);
      AllInPhase(ps, sorted, t) && Unfinished(sorted) && StrictlySorted(sorted) && UniqueNames(sorted) &&
      |sorted| == |cand| && multiset(sorted) == multiset(cand)
  {
    var sorted := SortJobs(cand);
    SortJobsUnique(cand, sorted);
    SameElements(sorted, cand);
    UniqueNamesPermute(cand, sorted);
    forall i | 0 <= i < |sorted| ensures InPhase(ps, sorted[i], t) && sorted[i].remaining >= 1 {
      assert sorted[i] in cand;
    }
  }

  lemma CheckDeadlinesReady(ps: seq<Job>, s: State, t: nat)
    requires ValidTasks(ps) && Retired(ps, s, t)
    ensures Ready(ps, CheckDeadlines(ps, s, t + 1), t + 1)
  {
    hide Ready, Retired, AllInPhase, Unfinished, UniqueNames, StrictlySorted, SortJobs;
    hide Misses, Released, BumpAll, Contend, Dispatch;
    var cand, r := Candidates(ps, s, t + 1), CheckDeadlines(ps, s, t + 1);
    var s1 := s.(log := s.log + Misses(ps, s.jobs, t + 1), created := s.created + |Released(ps, t + 1)|);
    assert Candidates(ps, s1, t + 1) == cand;
    if cand == [] || (Released(ps, t + 1) == [] && s.running.pid != 0) {
      NothingReleased(ps, s, t, s1);
    } else {
      CandidatesInPhase(ps, s, t);
      SortedCandidates(ps, cand, t + 1);
      ChosenReady(ps, s1, t + 1);
    }
    assert Ready(ps, r, t + 1);
  }

  /** With no arrival the schedule is as it was: nothing in it was due. */
  lemma NothingReleased(ps: seq<Job>, s: State, t: nat, s1: State)
    requires ValidTasks(ps) && Retired(ps, s, t) && s1.running == s.running
    requires Candidates(ps, s, t + 1) == [] || (Released(ps, t + 1) == [] && s.running.pid != 0)
    ensures Ready(ps, s1.(jobs := Candidates(ps, s, t + 1)), t + 1)
  {
    CandidatesInPhase(ps, s, t);
    assert Released(ps, t + 1) == [];
    NothingDue(ps, s, t);
    hide InPhase, Released, BumpAll, UniqueNames;
    assert Candidates(ps, s, t + 1) == s.jobs;
  }

  /** Once the candidates are sorted, the first of them is to run. */
  lemma ChosenReady(ps: seq<Job>, s: State, t: nat)
    requires ValidTasks(ps) && Candidates(ps, s, t) != []
    requires var sorted := SortJobs(Candidates(ps, s, t));
      AllInPhase(ps, sorted, t) && Unfinished(sorted) && StrictlySorted(sorted) && sorted != []
    ensures Ready(ps, Dispatch(ps, s, t), t)
    ensures Ready(ps, Contend(ps, s, t), t)
  {
    hide SortJobs, ByName, BumpAll, Released, NextMultiple;
    var sorted := SortJobs(Candidates(ps, s, t));
    StampKeeps(ps, sorted, WasRunning(ps, s, t), t);
  }

  lemma StampKeeps(ps: seq<Job>, jobs: seq<Job>, was: Job, t: nat)
    requires ValidTasks(ps) && AllInPhase(ps, jobs, t) && Unfinished(jobs) && StrictlySorted(jobs)
    ensures var r := SetPreempt(jobs, was, t);
      AllInPhase(ps, r, t) && Unfinished(r) && StrictlySorted(r)
  {
  }

  lemma {:induction false} AllReleasedAtZero(ps: seq<Job>)
    requires ValidTasks(ps)
    ensures Released(ps, 0) == ps
  {
    if ps != [] {
      AllReleasedAtZero(ps[..|ps| - 1]);
      assert ps == ps[..|ps| - 1] + [ps[|ps| - 1]];
    }
  }

  lemma InitReady(ps: seq<Job>)
    requires ValidTasks(ps) && ps != []
    ensures Ready(ps, Init(ps), 0)
  {
    hide SortJobs, Released, InPhase, StrictlySorted;
    AllReleasedAtZero(ps);
    ReleasedInPhase(ps, ps, 0);
    SortedCandidates(ps, ps, 0);
    assert InPhase(ps, SortJobs(ps)[0], 0);
  }

  lemma TickKeeps(ps: seq<Job>, s: State, t: nat, maxTime: int)
    requires ValidTasks(ps) && Inv(ps, s, t) && t + 1 < maxTime
    ensures Inv(ps, Tick(ps, s, t + 1, maxTime), t + 1)
  {
    var s1 := Retire(s, t + 1, maxTime);
    RetireKeeps(ps, s, t, maxTime);
    CheckDeadlinesReady(ps, s1, t);
    ReadyRuns(ps, CheckDeadlines(ps, s1, t + 1), t + 1);
  }

  lemma FirstTick(ps: seq<Job>, maxTime: int)
    requires ValidTasks(ps) && ps != []
    ensures Inv(ps, Tick(ps, Init(ps), 0, maxTime), 0)
  {
    InitReady(ps);
    var s := Init(ps);
    var s1 := s.(log := s.log + [Listing(0, ByName(s.jobs)), Starts(0, s.running.pid)]);
    assert Ready(ps, s1, 0);
    ReadyRuns(ps, s1, 0);
  }

  lemma RunUnfolds(ps: seq<Job>, maxTime: int, t: nat)
    requires ValidTasks(ps) && ps != []
    ensures Run(ps, maxTime, 0) == Init(ps)
    ensures Run(ps, maxTime, t + 1) == Tick(ps, Run(ps, maxTime, t), t, maxTime)
  {
  }

  lemma RunKeepsStep(ps: seq<Job>, maxTime: int, t: nat)
    requires ValidTasks(ps) && ps != [] && t + 1 < maxTime
    requires Inv(ps, Run(ps, maxTime, t + 1), t)
    ensures Inv(ps, Run(ps, maxTime, t + 2), t + 1)
  {
    RunUnfolds(ps, maxTime, t + 1);
    TickKeeps(ps, Run(ps, maxTime, t + 1), t, maxTime);
  }

  /** Every reachable schedule is in phase, strictly in deadline order, and mirrored
      by the running record, although it is only re-sorted on a release or an end. */
  lemma RunKeeps(ps: seq<Job>, maxTime: int, t: nat)
    requires ValidTasks(ps) && ps != [] && t < maxTime
    ensures Inv(ps, Run(ps, maxTime, t + 1), t)
  {
    RunUnfolds(ps, maxTime, 0);
    FirstTick(ps, maxTime);
    for u := 0 to t
      invariant Inv(ps, Run(ps, maxTime, u + 1), u)
    {
      RunKeepsStep(ps, maxTime, u);
    }
  }
}
