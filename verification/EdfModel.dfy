/** The scheduler simulator of pa3/edf.c: its records, its order, its trace, and
    the effect of one scheduling event on the values it keeps.  The functions here
    are the specification that the in-place scheduler (EdfScheduler.dfy) is
    proved against; the lemmas of the other Edf files are about them. */
module EdfModel {

  /** One record of the process table or of the schedule.  A released job is named
      by its process id and its age, the time of its release. */
  datatype Job = Job(pid: int, cpu: int, period: int, deadline: int,
                     remaining: int, preempted: int, age: int)

  /** What the simulator prints. */
  datatype Event =
    | Listing(time: int, live: seq<Job>)
    | Starts(time: int, pid: int)
    | Ends(time: int, pid: int)
    | Missed(time: int, pid: int, left: int)
    | Preempted(time: int, pid: int)

  datatype State = State(jobs: seq<Job>, running: Job, waited: int, created: int, log: seq<Event>)

  /** A record of the process table, as the input loop fills it in. */
  function Template(pid: int, cpu: int, period: int): Job {
    Job(pid, cpu, period, period, cpu, 0, 0)
  }

  predicate ValidTasks(ps: seq<Job>) {
    forall i :: 0 <= i < |ps| ==>
      ps[i].cpu >= 1 && ps[i].period >= 1 && ps[i] == Template(i + 1, ps[i].cpu, ps[i].period)
  }

  /** The order of the schedule: deadline, then age, then process id. */
  predicate Precedes(a: Job, b: Job) {
    a.deadline < b.deadline ||
    (a.deadline == b.deadline && (a.age < b.age || (a.age == b.age && a.pid < b.pid)))
  }

  predicate StrictlySorted(s: seq<Job>) {
    forall i, j :: 0 <= i < j < |s| ==> Precedes(s[i], s[j])
  }

  predicate UniqueNames(s: seq<Job>) {
    forall i, j :: 0 <= i < j < |s| ==> s[i].pid != s[j].pid || s[i].age != s[j].age
  }

  function Insert(x: Job, s: seq<Job>): seq<Job> {
    if s == [] || !Precedes(s[0], x) then [x] + s else [s[0]] + Insert(x, s[1..])
  }

  function SortJobs(s: seq<Job>): seq<Job> {
    if s == [] then [] else Insert(s[0], SortJobs(s[1..]))
  }

  /** The order in which the schedule is printed: age, then process id. */
  predicate OlderThan(a: Job, b: Job) {
    a.age < b.age || (a.age == b.age && a.pid < b.pid)
  }

  function InsertByName(x: Job, s: seq<Job>): seq<Job> {
    if s == [] || !OlderThan(s[0], x) then [x] + s else [s[0]] + InsertByName(x, s[1..])
  }

  /** The live jobs as they are printed. */
  function ByName(s: seq<Job>): seq<Job> {
    if s == [] then [] else InsertByName(s[0], ByName(s[1..]))
  }

  // The parts of one scheduling event.

  predicate Due(ps: seq<Job>, j: Job, t: int)
    requires ValidTasks(ps)
  {
    1 <= j.pid <= |ps| && t % ps[j.pid - 1].period == 0 && j.deadline == t
  }

  /** A job found unfinished at its deadline is given one more period. */
  function Bump(ps: seq<Job>, j: Job, t: int): Job
    requires ValidTasks(ps)
  {
    if Due(ps, j, t) then j.(deadline := t + j.period) else j
  }

  function BumpAll(ps: seq<Job>, jobs: seq<Job>, t: int): (r: seq<Job>)
    requires ValidTasks(ps)
    ensures |r| == |jobs|
    ensures forall i :: 0 <= i < |jobs| ==> r[i] == Bump(ps, jobs[i], t)
  {
    seq(|jobs|, i requires 0 <= i < |jobs| => Bump(ps, jobs[i], t))
  }

  function MissesOf(jobs: seq<Job>, pid: int, t: int): seq<Event> {
    if jobs == [] then []
    else MissesOf(jobs[..|jobs| - 1], pid, t) +
         var j := jobs[|jobs| - 1];
         if j.pid == pid && j.deadline == t then [Missed(t, pid, j.remaining)] else []
  }

  function Misses(ps: seq<Job>, jobs: seq<Job>, t: int): seq<Event>
    requires ValidTasks(ps)
  {
    if ps == [] then []
    else Misses(ps[..|ps| - 1], jobs, t) +
         if t % ps[|ps| - 1].period == 0 then MissesOf(jobs, |ps|, t) else []
  }

  function NewJob(p: Job, t: int): Job {
    p.(deadline := t + p.period, age := t)
  }

  function Released(ps: seq<Job>, t: int): seq<Job>
    requires ValidTasks(ps)
  {
    if ps == [] then []
    else Released(ps[..|ps| - 1], t) +
         if t % ps[|ps| - 1].period == 0 then [NewJob(ps[|ps| - 1], t)] else []
  }

  /** Stamps every record equal to `was` with the time of its preemption. */
  function SetPreempt(jobs: seq<Job>, was: Job, t: int): (r: seq<Job>)
    ensures |r| == |jobs|
    ensures forall i :: 0 <= i < |jobs| ==>
      r[i] == if jobs[i] == was then was.(preempted := t) else jobs[i]
  {
    seq(|jobs|, i requires 0 <= i < |jobs| =>
      if jobs[i] == was then was.(preempted := t) else jobs[i])
  }

  /** The time since which a job that is not running has been waiting. */
  function Since(j: Job): int {
    if j.preempted == 0 then j.age else j.preempted
  }

  /** The record kept of the running job, following a deadline bump of the head. */
  function WasRunning(ps: seq<Job>, s: State, t: int): Job
    requires ValidTasks(ps)
  {
    if s.jobs != [] && Due(ps, s.jobs[0], t) then s.running.(deadline := t + s.jobs[0].period)
    else s.running
  }

  /** Every live job in the array after deadlines are bumped and jobs released. */
  function Candidates(ps: seq<Job>, s: State, t: int): seq<Job>
    requires ValidTasks(ps)
  {
    BumpAll(ps, s.jobs, t) + Released(ps, t)
  }

  /** A running job meets the new arrivals. */
  function Contend(ps: seq<Job>, s: State, t: nat): State
    requires ValidTasks(ps) && Candidates(ps, s, t) != []
  {
    var cand := Candidates(ps, s, t);
    SortSize(cand);
    var sorted := SortJobs(cand);
    var was := WasRunning(ps, s, t);
    var log := s.log + [Listing(t, ByName(cand))];
    if sorted[0] == was then State(sorted, sorted[0], s.waited, s.created, log)
    else
      var stamped := SetPreempt(sorted, was, t);
      State(stamped, sorted[0], s.waited + t - Since(stamped[0]), s.created,
            log + [Preempted(t, was.pid), Starts(t, sorted[0].pid)])
  }

  /** Nothing was running: the first of the sorted schedule starts. */
  function Dispatch(ps: seq<Job>, s: State, t: nat): State
    requires ValidTasks(ps) && Candidates(ps, s, t) != []
  {
    var cand := Candidates(ps, s, t);
    SortSize(cand);
    var sorted := SortJobs(cand);
    var log := if Released(ps, t) != [] then s.log + [Listing(t, ByName(sorted))] else s.log;
    State(sorted, sorted[0], s.waited + t - Since(sorted[0]), s.created, log + [Starts(t, sorted[0].pid)])
  }

  function CheckDeadlines(ps: seq<Job>, s: State, t: nat): State
    requires ValidTasks(ps)
  {
    var cand := Candidates(ps, s, t);
    var released := Released(ps, t);
    var s1 := s.(log := s.log + Misses(ps, s.jobs, t), created := s.created + |released|);
    if cand == [] || (released == [] && s.running.pid != 0) then s1.(jobs := cand)
    else if s.running.pid != 0 then Contend(ps, s1, t)
    else Dispatch(ps, s1, t)
  }

  /** A finished head leaves the schedule, except at the end of the simulation. */
  function Retire(s: State, t: int, maxTime: int): State {
    if s.running.pid != 0 && s.running.remaining == 0 then
      var s1 := s.(log := s.log + [Ends(t, s.running.pid)]);
      if t == maxTime then s1
      else s1.(jobs := if s.jobs == [] then [] else s.jobs[1..], running := s.running.(pid := 0))
    else s
  }

  function RunHead(s: State): State
    requires s.jobs != []
  {
    s.(jobs := s.jobs[0 := s.jobs[0].(remaining := s.jobs[0].remaining - 1)],
       running := s.running.(remaining := s.running.remaining - 1))
  }

  /** The event at tick t. */
  function Tick(ps: seq<Job>, s: State, t: nat, maxTime: int): State
    requires ValidTasks(ps)
  {
    if t == 0 then
      var s1 := s.(log := s.log + [Listing(0, ByName(s.jobs)), Starts(0, s.running.pid)]);
      if s1.jobs == [] then s1 else RunHead(s1)
    else
      var s1 := Retire(s, t, maxTime);
      if t == maxTime then s1
      else
        var s2 := CheckDeadlines(ps, s1, t);
        if s2.jobs == [] then s2 else RunHead(s2)
  }

  function Init(ps: seq<Job>): State
    requires ValidTasks(ps) && ps != []
  {
    SortSize(ps);
    var sorted := SortJobs(ps);
    State(sorted, sorted[0], 0, |ps|, [])
  }

  /** The state after the events at ticks 0, 1, ..., n - 1. */
  function Run(ps: seq<Job>, maxTime: int, n: nat): State
    requires ValidTasks(ps) && ps != []
  {
    if n == 0 then Init(ps) else Tick(ps, Run(ps, maxTime, n - 1), n - 1, maxTime)
  }

  lemma InsertSize(x: Job, s: seq<Job>)
    ensures |Insert(x, s)| == |s| + 1
  {
  }

  lemma SortSize(s: seq<Job>)
    ensures |SortJobs(s)| == |s|
  {
    if s != [] {
      SortSize(s[1..]);
      InsertSize(s[0], SortJobs(s[1..]));
    }
  }
}
