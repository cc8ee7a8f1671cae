/** Which job runs, and when a preemption is recorded. */
module EdfPolicy {
  import opened EdfModel
  import opened EdfSort
  import opened EdfInvariant
  import opened EdfGuarantee

  predicate SameName(a: Job, b: Job) {
    a.pid == b.pid && a.age == b.age
  }

  /** On every tick the running record is the one job that comes before all other
      live jobs in deadline, age, process id; a tick is idle only with no live job. */
  lemma RunsTheEarliest(ps: seq<Job>, maxTime: int, t: nat)
    requires ValidTasks(ps) && ps != [] && t < maxTime
    ensures var s := Run(ps, maxTime, t + 1);
      if s.jobs == [] then s.running.pid == 0
      else s.running in s.jobs && s.running == s.jobs[0] &&
           forall j :: j in s.jobs && j != s.running ==> Precedes(s.running, j)
  {
    RunKeeps(ps, maxTime, t);
    hide Run;
    var s := Run(ps, maxTime, t + 1);
    forall j | s.jobs != [] && j in s.jobs && j != s.running ensures Precedes(s.running, j) {
      var i :| 0 <= i < |s.jobs| && s.jobs[i] == j;
    }
  }

  predicate LogsPreemption(before: seq<Event>, after: seq<Event>)
    requires before <= after
  {
    exists i :: |before| <= i < |after| && after[i].Preempted?
  }

  lemma {:induction false} MissesDoNotPreempt(ps: seq<Job>, s: State, t: int)
    requires ValidTasks(ps)
    ensures var l := s.log + Misses(ps, s.jobs, t); !LogsPreemption(s.log, l)
  {
    MissesAreMisses(ps, s.jobs, t);
    var ms := Misses(ps, s.jobs, t);
    var l := s.log + ms;
    forall i | |s.log| <= i < |l| ensures !l[i].Preempted? {
      assert l[i] == ms[i - |s.log|];
      assert ms[i - |s.log|] in ms;
    }
  }

  /** A name picks out one candidate. */
  lemma NamedOnce(s: seq<Job>, a: Job, b: Job)
    requires UniqueNames(s) && a in s && b in s && SameName(a, b)
    ensures a == b
  {
  }

  /** What the stamp changes: exactly the displaced job, exactly its stamp. */
  predicate StampsOnly(jobs: seq<Job>, stamped: seq<Job>, was: Job, t: int) {
    |jobs| == |stamped| &&
    forall i :: 0 <= i < |jobs| ==>
      stamped[i] == if SameName(jobs[i], was) then jobs[i].(preempted := t) else jobs[i]
  }

  /** The event at t + 1, once a finished head has left: a preemption is logged exactly
      when a head that is still unfinished loses its place; it names that head, and
      only that head is stamped. */
  lemma PreemptsExactly(ps: seq<Job>, s: State, t: nat)
    requires ValidTasks(ps) && Retired(ps, s, t)
    ensures var r := CheckDeadlines(ps, s, t + 1);
      s.log <= r.log &&
      (LogsPreemption(s.log, r.log) <==> s.running.pid != 0 && !SameName(r.jobs[0], s.jobs[0]))
    ensures var r := CheckDeadlines(ps, s, t + 1);
      s.running.pid != 0 && !SameName(r.jobs[0], s.jobs[0]) ==>
        Preempted(t + 1, s.jobs[0].pid) in r.log &&
        StampsOnly(SortJobs(Candidates(ps, s, t + 1)), r.jobs, s.jobs[0], t + 1)
  {
    hide SortJobs, ByName, Misses, Released, InPhase;
    var u := t + 1;
    var cand := Candidates(ps, s, u);
    var s1 := s.(log := s.log + Misses(ps, s.jobs, u), created := s.created + |Released(ps, u)|);
    var r := CheckDeadlines(ps, s, u);
    MissesDoNotPreempt(ps, s, u);
    if cand == [] || (Released(ps, u) == [] && s.running.pid != 0) {
    } else if s.running.pid == 0 {
    } else {
      CandidatesInPhase(ps, s, t);
      SortedCandidates(ps, cand, u);
      SameElements(SortJobs(cand), cand);
      ContendPreempts(ps, s1, u, cand);
    }
  }

  lemma ContendPreempts(ps: seq<Job>, s: State, u: nat, cand: seq<Job>)
    requires ValidTasks(ps) && cand == Candidates(ps, s, u) && s.jobs != []
    requires s.running.pid != 0 && s.running == s.jobs[0]
    requires UniqueNames(cand) && UniqueNames(SortJobs(cand)) && |SortJobs(cand)| == |cand|
    requires forall x :: x in SortJobs(cand) <==> x in cand
    ensures var r := Contend(ps, s, u);
      s.log <= r.log &&
      (LogsPreemption(s.log, r.log) <==> !SameName(r.jobs[0], s.jobs[0])) &&
      (!SameName(r.jobs[0], s.jobs[0]) ==>
        Preempted(u, s.jobs[0].pid) in r.log && StampsOnly(SortJobs(cand), r.jobs, s.jobs[0], u))
  {
    hide SortJobs, ByName, Released;
    var was, sorted := WasRunning(ps, s, u), SortJobs(cand);
    var r := Contend(ps, s, u);
    assert cand[0] == was && SameName(was, s.jobs[0]);
    if sorted[0] == was {
    } else {
      if SameName(sorted[0], was) { NamedOnce(cand, sorted[0], was); }
      assert r.log[|s.log| + 1] == Preempted(u, was.pid);
      forall i | 0 <= i < |sorted|
        ensures r.jobs[i] == if SameName(sorted[i], was) then sorted[i].(preempted := u) else sorted[i]
      {
        if SameName(sorted[i], was) { NamedOnce(cand, sorted[i], was); }
      }
    }
  }
}
