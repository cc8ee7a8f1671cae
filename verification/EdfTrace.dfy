/** The trace that is printed, against the states before and after each event: which lines
    an event prints, and that the lines so far name the job that runs. */
module EdfTrace {
  import opened EdfModel
  import opened EdfSort
  import opened EdfListing
  import opened EdfInvariant
  import opened EdfPolicy
  import opened Arith

  // ---- what an event has to print

  /** The job that ran has no work left. */
  predicate Finishes(s: State) {
    s.jobs != [] && s.jobs[0].remaining == 0
  }

  /** The live jobs once a finished one has left. */
  function Left(s: State): seq<Job> {
    if Finishes(s) then s.jobs[1..] else s.jobs
  }

  function EndLines(s: State, u: int): seq<Event> {
    if Finishes(s) then [Ends(u, s.jobs[0].pid)] else []
  }

  /** One line for each job of a process that is at its deadline, with the work it has left,
      in the order of the schedule. */
  function Late(jobs: seq<Job>, u: int, pid: int): seq<Event> {
    if jobs == [] then []
    else (if jobs[0].pid == pid && jobs[0].deadline == u then [Missed(u, pid, jobs[0].remaining)] else []) +
         Late(jobs[1..], u, pid)
  }

  function OfProcess(lines: seq<Event>, pid: int): seq<Event> {
    if lines == [] then []
    else (if lines[0].Missed? && lines[0].pid == pid then [lines[0]] else []) + OfProcess(lines[1..], pid)
  }

  /** Those lines of all processes, one process after the other. */
  ghost predicate MissLines(jobs: seq<Job>, u: int, lines: seq<Event>) {
    (forall pid :: OfProcess(lines, pid) == Late(jobs, u, pid)) &&
    (forall i :: 0 <= i < |lines| ==> lines[i].Missed?) &&
    forall i, j :: 0 <= i < j < |lines| ==> lines[i].pid <= lines[j].pid
  }

  /** What is listed of a job; its age tells it from others of its process. */
  datatype Line = Line(pid: int, age: int, left: int)

  function Shown(jobs: seq<Job>): multiset<Line> {
    if jobs == [] then multiset{}
    else multiset{Line(jobs[0].pid, jobs[0].age, jobs[0].remaining)} + Shown(jobs[1..])
  }

  predicate Arrives(ps: seq<Job>, u: int)
    requires ValidTasks(ps)
  {
    exists i :: 0 <= i < |ps| && u % ps[i].period == 0
  }

  /** A new job of every process whose period starts at u. */
  function Arrivals(ps: seq<Job>, u: int): multiset<Line>
    requires ValidTasks(ps)
  {
    if ps == [] then multiset{}
    else Arrivals(ps[..|ps| - 1], u) +
         var p := ps[|ps| - 1];
         if u % p.period == 0 then multiset{Line(|ps|, u, p.cpu)} else multiset{}
  }

  /** With an arrival, the live jobs and the new ones, in order of age, pid. */
  predicate ListLines(ps: seq<Job>, jobs: seq<Job>, u: int, lines: seq<Event>)
    requires ValidTasks(ps)
  {
    if !Arrives(ps, u) then lines == []
    else |lines| == 1 && lines[0].Listing? && lines[0].time == u && NameSorted(lines[0].live) &&
         Shown(lines[0].live) == Shown(jobs) + Arrivals(ps, u)
  }

  /** From the head before and the head after: who is displaced, and who starts. */
  function ChoiceLines(s: State, r: State, u: int): seq<Event> {
    if r.jobs == [] then []
    else if s.jobs == [] || Finishes(s) then [Starts(u, r.jobs[0].pid)]
    else if SameName(s.jobs[0], r.jobs[0]) then []
    else [Preempted(u, s.jobs[0].pid), Starts(u, r.jobs[0].pid)]
  }

  /** The lines of the event at u, from state s to state r. */
  ghost predicate Prints(ps: seq<Job>, s: State, r: State, u: int)
    requires ValidTasks(ps)
  {
    exists misses, listing ::
      MissLines(Left(s), u, misses) && ListLines(ps, Left(s), u, listing) &&
      r.log == s.log + EndLines(s, u) + misses + listing + ChoiceLines(s, r, u)
  }

  // ---- missed deadlines

  lemma {:induction false} LateConcat(a: seq<Job>, b: seq<Job>, u: int, pid: int)
    ensures Late(a + b, u, pid) == Late(a, u, pid) + Late(b, u, pid)
  {
    if a == [] {
      assert a + b == b;
    } else {
      assert (a + b)[1..] == a[1..] + b;
      LateConcat(a[1..], b, u, pid);
    }
  }

  lemma {:induction false} MissesOfAreLate(jobs: seq<Job>, u: int, pid: int)
    ensures MissesOf(jobs, pid, u) == Late(jobs, u, pid)
    ensures forall e :: e in MissesOf(jobs, pid, u) ==> e.Missed? && e.pid == pid && e.time == u
  {
    if jobs != [] {
      var n := |jobs| - 1;
      MissesOfAreLate(jobs[..n], u, pid);
      LateConcat(jobs[..n], [jobs[n]], u, pid);
      assert jobs[..n] + [jobs[n]] == jobs && [jobs[n]][1..] == [];
    }
  }

  lemma {:induction false} OfProcessConcat(a: seq<Event>, b: seq<Event>, pid: int)
    ensures OfProcess(a + b, pid) == OfProcess(a, pid) + OfProcess(b, pid)
  {
    if a == [] {
      assert a + b == b;
    } else {
      assert (a + b)[1..] == a[1..] + b;
      OfProcessConcat(a[1..], b, pid);
    }
  }

  lemma {:induction false} OfOneProcess(lines: seq<Event>, of: int, pid: int)
    requires forall i :: 0 <= i < |lines| ==> lines[i].Missed? && lines[i].pid == of
    ensures OfProcess(lines, pid) == if pid == of then lines else []
  {
    if lines != [] {
      OfOneProcess(lines[1..], of, pid);
      assert lines == [lines[0]] + lines[1..];
    }
  }

  lemma {:induction false} NoneLateOf(jobs: seq<Job>, u: int, pid: int)
    requires forall i :: 0 <= i < |jobs| && jobs[i].pid == pid ==> jobs[i].deadline != u
    ensures Late(jobs, u, pid) == []
  {
    if jobs != [] { NoneLateOf(jobs[1..], u, pid); }
  }

  predicate ByPid(lines: seq<Event>, n: int) {
    (forall i :: 0 <= i < |lines| ==> lines[i].Missed? && lines[i].pid <= n) &&
    forall i, j :: 0 <= i < j < |lines| ==> lines[i].pid <= lines[j].pid
  }

  lemma ByPidMore(a: seq<Event>, jobs: seq<Job>, n: int, u: int)
    requires ByPid(a, n - 1)
    ensures ByPid(a + MissesOf(jobs, n, u), n) && ByPid(a, n)
  {
    MissesOfAreLate(jobs, u, n);
    var b := MissesOf(jobs, n, u);
    assert forall i :: 0 <= i < |b| ==> b[i] in b;
  }

  /** A job at its deadline is at the start of a period. */
  predicate InTime(ps: seq<Job>, jobs: seq<Job>, u: int)
    requires ValidTasks(ps)
  {
    forall i :: 0 <= i < |jobs| ==>
      jobs[i].pid >= 1 && (jobs[i].pid <= |ps| && jobs[i].deadline == u ==> u % ps[jobs[i].pid - 1].period == 0)
  }

  lemma InTimeFewer(ps: seq<Job>, jobs: seq<Job>, u: int)
    requires ValidTasks(ps) && InTime(ps, jobs, u) && ps != []
    ensures InTime(ps[..|ps| - 1], jobs, u)
    ensures u % ps[|ps| - 1].period != 0 ==>
      forall i :: 0 <= i < |jobs| && jobs[i].pid == |ps| ==> jobs[i].deadline != u
  {
  }

  lemma {:induction false} MissesAreLate(ps: seq<Job>, jobs: seq<Job>, u: int, pid: int)
    requires ValidTasks(ps) && InTime(ps, jobs, u)
    ensures OfProcess(Misses(ps, jobs, u), pid) == if 1 <= pid <= |ps| then Late(jobs, u, pid) else []
    ensures ByPid(Misses(ps, jobs, u), |ps|)
  {
    if ps != [] {
      var n := |ps|;
      InTimeFewer(ps, jobs, u);
      MissesAreLate(ps[..n - 1], jobs, u, pid);
      var a, b := Misses(ps[..n - 1], jobs, u), MissesOf(jobs, n, u);
      ByPidMore(a, jobs, n, u);
      MissesOfAreLate(jobs, u, n);
      assert forall i :: 0 <= i < |b| ==> b[i] in b;
      OfOneProcess(b, n, pid);
      OfProcessConcat(a, b, pid);
      hide InTime, ByPid, MissesOf, Late, OfProcess;
      if u % ps[n - 1].period == 0 {
        assert Misses(ps, jobs, u) == a + b;
      } else {
        NoneLateOf(jobs, u, n);
        assert Misses(ps, jobs, u) == a + [] == a;
      }
    }
  }

  lemma MissesPrinted(ps: seq<Job>, s: State, t: nat)
    requires ValidTasks(ps) && Retired(ps, s, t)
    ensures MissLines(s.jobs, t + 1, Misses(ps, s.jobs, t + 1))
  {
    forall i | 0 <= i < |s.jobs|
      ensures 1 <= s.jobs[i].pid <= |ps| &&
        (s.jobs[i].deadline == t + 1 ==> (t + 1) % ps[s.jobs[i].pid - 1].period == 0)
    {
      assert InPhase(ps, s.jobs[i], t);
      NextMultipleStep(t, s.jobs[i].period);
    }
    assert InTime(ps, s.jobs, t + 1);
    var u, jobs, lines := t + 1, s.jobs, Misses(ps, s.jobs, t + 1);
    forall pid: int ensures OfProcess(lines, pid) == Late(jobs, u, pid) {
      MissesAreLate(ps, jobs, u, pid);
      if pid < 1 || pid > |ps| { NoneLateOf(jobs, u, pid); }
    }
    MissesAreLate(ps, jobs, u, 1);
  }

  // ---- listings

  lemma {:induction false} ShownConcat(a: seq<Job>, b: seq<Job>)
    ensures Shown(a + b) == Shown(a) + Shown(b)
  {
    if a == [] {
      assert a + b == b;
    } else {
      assert (a + b)[1..] == a[1..] + b;
      ShownConcat(a[1..], b);
    }
  }

  lemma {:induction false} ShownInsertByName(x: Job, s: seq<Job>)
    ensures Shown(InsertByName(x, s)) == multiset{Line(x.pid, x.age, x.remaining)} + Shown(s)
  {
    if s == [] || !OlderThan(s[0], x) {
      assert ([x] + s)[1..] == s;
    } else {
      ShownInsertByName(x, s[1..]);
      assert ([s[0]] + InsertByName(x, s[1..]))[1..] == InsertByName(x, s[1..]);
    }
  }

  lemma {:induction false} ShownByName(s: seq<Job>)
    ensures Shown(ByName(s)) == Shown(s)
  {
    if s != [] {
      ShownByName(s[1..]);
      ShownInsertByName(s[0], ByName(s[1..]));
    }
  }

  lemma {:induction false} ShownInsert(x: Job, s: seq<Job>)
    ensures Shown(Insert(x, s)) == multiset{Line(x.pid, x.age, x.remaining)} + Shown(s)
  {
    if s == [] || !Precedes(s[0], x) {
      assert ([x] + s)[1..] == s;
    } else {
      ShownInsert(x, s[1..]);
      assert ([s[0]] + Insert(x, s[1..]))[1..] == Insert(x, s[1..]);
    }
  }

  lemma {:induction false} ShownSort(s: seq<Job>)
    ensures Shown(SortJobs(s)) == Shown(s)
  {
    if s != [] {
      ShownSort(s[1..]);
      ShownInsert(s[0], SortJobs(s[1..]));
    }
  }

  lemma {:induction false} ShownSame(a: seq<Job>, b: seq<Job>)
    requires |a| == |b|
    requires forall i :: 0 <= i < |a| ==> SameName(a[i], b[i]) && a[i].remaining == b[i].remaining
    ensures Shown(a) == Shown(b)
  {
    if a != [] { ShownSame(a[1..], b[1..]); }
  }

  lemma ShownOne(x: Job)
    ensures Shown([x]) == multiset{Line(x.pid, x.age, x.remaining)}
  {
    assert [x][1..] == [];
  }

  lemma {:induction false} ShownReleased(ps: seq<Job>, u: int)
    requires ValidTasks(ps)
    ensures Shown(Released(ps, u)) == Arrivals(ps, u)
  {
    if ps != [] {
      var n := |ps| - 1;
      ShownReleased(ps[..n], u);
      ShownConcat(Released(ps[..n], u), [NewJob(ps[n], u)]);
      ShownOne(NewJob(ps[n], u));
      assert ps[n] == Template(n + 1, ps[n].cpu, ps[n].period);
      hide Shown;
      assert Released(ps[..n], u) + [] == Released(ps[..n], u);
    }
  }

  lemma ArrivesIff(ps: seq<Job>, u: nat)
    requires ValidTasks(ps)
    ensures Released(ps, u) != [] <==> Arrives(ps, u)
  {
    ReleasedInPhase(ps, ps, u);
    hide Released, AllInPhase, UniqueNames;
  }

  lemma ListingShows(ps: seq<Job>, s: State, t: nat, from: seq<Job>)
    requires ValidTasks(ps) && Retired(ps, s, t)
    requires from == Candidates(ps, s, t + 1) || from == SortJobs(Candidates(ps, s, t + 1))
    ensures NameSorted(ByName(from)) && Shown(ByName(from)) == Shown(s.jobs) + Arrivals(ps, t + 1)
  {
    var cand, bumped := Candidates(ps, s, t + 1), BumpAll(ps, s.jobs, t + 1);
    CandidatesInPhase(ps, s, t);
    SortedCandidates(ps, cand, t + 1);
    ShownSame(bumped, s.jobs);
    hide AllInPhase, Unfinished, StrictlySorted, UniqueNames, Shown, NameSorted, Retired, SortJobs, ByName;
    ByNameUnique(from, ByName(from));
    ByNameSorts(from);
    ShownByName(from);
    ShownSort(cand);
    ShownConcat(bumped, Released(ps, t + 1));
    ShownReleased(ps, t + 1);
  }

  // ---- one event

  /** What follows the misses: the listing, and the choice of the next job. */
  ghost predicate PrintsChoice(ps: seq<Job>, s: State, r: State, u: int, from: seq<Event>)
    requires ValidTasks(ps)
  {
    exists listing :: ListLines(ps, Left(s), u, listing) && r.log == from + listing + ChoiceLines(s, r, u)
  }

  /** s1 is s once a finished head has left. */
  predicate HasLeft(s: State, s1: State) {
    s1.jobs == Left(s) && (s1.running.pid != 0 <==> s.jobs != [] && !Finishes(s))
  }

  lemma ChoicePrinted(ps: seq<Job>, s: State, r: State, u: int, from: seq<Event>, listing: seq<Event>)
    requires ValidTasks(ps) && ListLines(ps, Left(s), u, listing) && r.log == from + listing + ChoiceLines(s, r, u)
    ensures PrintsChoice(ps, s, r, u, from)
  {
  }

  /** What Contend prints, in terms of the sorted candidates. */
  lemma ContendLog(ps: seq<Job>, s: State, u: nat, sorted: seq<Job>, was: Job)
    requires ValidTasks(ps) && Candidates(ps, s, u) != []
    requires sorted == SortJobs(Candidates(ps, s, u)) && was == WasRunning(ps, s, u)
    ensures sorted != []
    ensures var r := Contend(ps, s, u);
      r.jobs != [] && SameName(r.jobs[0], sorted[0]) &&
      r.log == s.log + [Listing(u, ByName(Candidates(ps, s, u)))] +
        if sorted[0] == was then [] else [Preempted(u, was.pid), Starts(u, sorted[0].pid)]
  {
    hide SortJobs, ByName, Candidates, WasRunning;
    SortSize(Candidates(ps, s, u));
  }

  lemma DispatchLog(ps: seq<Job>, s: State, u: nat, sorted: seq<Job>)
    requires ValidTasks(ps) && Candidates(ps, s, u) != [] && sorted == SortJobs(Candidates(ps, s, u))
    ensures var r := Dispatch(ps, s, u);
      r.jobs != [] &&
      r.log == s.log + (if Released(ps, u) != [] then [Listing(u, ByName(sorted))] else []) + [Starts(u, r.jobs[0].pid)]
  {
    hide SortJobs, ByName, Candidates, Released;
    SortSize(Candidates(ps, s, u));
  }

  /** The head is the job that ran, exactly if it has its name. */
  lemma HeadStays(ps: seq<Job>, s: State, t: nat)
    requires ValidTasks(ps) && Retired(ps, s, t) && s.running.pid != 0 && Candidates(ps, s, t + 1) != []
    ensures var sorted, was := SortJobs(Candidates(ps, s, t + 1)), WasRunning(ps, s, t + 1);
      sorted != [] && s.jobs != [] && SameName(was, s.jobs[0]) && (sorted[0] == was <==> SameName(sorted[0], was))
  {
    var cand := Candidates(ps, s, t + 1);
    var was, sorted := WasRunning(ps, s, t + 1), SortJobs(cand);
    CandidatesInPhase(ps, s, t);
    SortedCandidates(ps, cand, t + 1);
    assert cand[0] == was && SameName(was, s.jobs[0]);
    hide SortJobs, AllInPhase, Unfinished, StrictlySorted, UniqueNames, Released, BumpAll;
    SameElements(sorted, cand);
    if SameName(sorted[0], was) { NamedOnce(cand, sorted[0], was); }
  }

  lemma ContendPrints(ps: seq<Job>, s: State, s1: State, t: nat)
    requires ValidTasks(ps) && Retired(ps, s1, t) && HasLeft(s, s1) && s1.running.pid != 0
    requires Arrives(ps, t + 1) && Candidates(ps, s1, t + 1) != []
    ensures PrintsChoice(ps, s, Contend(ps, s1, t + 1), t + 1, s1.log)
  {
    var u, cand := t + 1, Candidates(ps, s1, t + 1);
    var was, sorted, r := WasRunning(ps, s1, u), SortJobs(cand), Contend(ps, s1, u);
    ListingShows(ps, s1, t, cand);
    ContendLog(ps, s1, u, sorted, was);
    HeadStays(ps, s1, t);
    hide SortJobs, ByName, Retired, Candidates, WasRunning, NameSorted, Shown, Arrives, Contend;
    var listing := [Listing(u, ByName(cand))];
    assert r.log == s1.log + listing + ChoiceLines(s, r, u);
    ChoicePrinted(ps, s, r, u, s1.log, listing);
  }

  lemma DispatchPrints(ps: seq<Job>, s: State, s1: State, t: nat)
    requires ValidTasks(ps) && Retired(ps, s1, t) && HasLeft(s, s1) && s1.running.pid == 0
    requires Candidates(ps, s1, t + 1) != []
    ensures PrintsChoice(ps, s, Dispatch(ps, s1, t + 1), t + 1, s1.log)
  {
    var u, cand := t + 1, Candidates(ps, s1, t + 1);
    var sorted, r := SortJobs(cand), Dispatch(ps, s1, u);
    ListingShows(ps, s1, t, sorted);
    ArrivesIff(ps, u);
    DispatchLog(ps, s1, u, sorted);
    hide SortJobs, ByName, Retired, Candidates, Released, NameSorted, Shown, Arrives, Dispatch;
    var listing := if Arrives(ps, u) then [Listing(u, ByName(sorted))] else [];
    assert r.log == s1.log + listing + ChoiceLines(s, r, u);
    ChoicePrinted(ps, s, r, u, s1.log, listing);
  }

  /** Nothing arrived, or nothing is there: no line, and the head is as before. */
  lemma NothingPrinted(ps: seq<Job>, s: State, s1: State, t: nat, r: State)
    requires ValidTasks(ps) && Retired(ps, s1, t) && HasLeft(s, s1)
    requires Candidates(ps, s1, t + 1) == [] || (Released(ps, t + 1) == [] && s1.running.pid != 0)
    requires r.jobs == Candidates(ps, s1, t + 1)
    ensures PrintsChoice(ps, s, r, t + 1, r.log)
  {
    ArrivesIff(ps, t + 1);
    assert Released(ps, t + 1) == [];
    NothingDue(ps, s1, t);
    hide Retired, Candidates, Released, Arrives, Finishes;
    assert r.log == r.log + [] + ChoiceLines(s, r, t + 1);
    ChoicePrinted(ps, s, r, t + 1, r.log, []);
  }

  lemma CheckPrints(ps: seq<Job>, s: State, s1: State, t: nat)
    requires ValidTasks(ps) && Retired(ps, s1, t) && HasLeft(s, s1)
    ensures PrintsChoice(ps, s, CheckDeadlines(ps, s1, t + 1), t + 1, s1.log + Misses(ps, s1.jobs, t + 1))
  {
    var u := t + 1;
    var cand, from := Candidates(ps, s1, u), s1.log + Misses(ps, s1.jobs, u);
    var s2 := s1.(log := from, created := s1.created + |Released(ps, u)|);
    ArrivesIff(ps, u);
    assert Candidates(ps, s2, u) == cand && Retired(ps, s2, t) && HasLeft(s, s2);
    hide Retired, Candidates, Misses, Released, Arrives, HasLeft, Contend, Dispatch, PrintsChoice;
    if cand == [] || (Released(ps, u) == [] && s1.running.pid != 0) {
      NothingPrinted(ps, s, s1, t, s2.(jobs := cand));
    } else if s1.running.pid != 0 {
      ContendPrints(ps, s, s2, t);
    } else {
      DispatchPrints(ps, s, s2, t);
    }
  }

  /** The event at t + 1 prints just that. */
  lemma TickPrints(ps: seq<Job>, s: State, t: nat, maxTime: int)
    requires ValidTasks(ps) && Inv(ps, s, t) && t + 1 < maxTime
    ensures Prints(ps, s, Tick(ps, s, t + 1, maxTime), t + 1)
  {
    var u := t + 1;
    var s1 := Retire(s, u, maxTime);
    var r0, r := CheckDeadlines(ps, s1, u), Tick(ps, s, u, maxTime);
    RetireKeeps(ps, s, t, maxTime);
    RetirePrints(ps, s, t, maxTime);
    CheckPrints(ps, s, s1, t);
    MissesPrinted(ps, s1, t);
    TickLast(ps, s, t, maxTime);
    hide Inv, Retired, CheckDeadlines, Tick, Retire, Misses, ListLines, MissLines, EndLines, RunHead;
    var misses := Misses(ps, s1.jobs, u);
    var listing :| ListLines(ps, Left(s), u, listing) && r0.log == s1.log + misses + listing + ChoiceLines(s, r0, u);
    assert ChoiceLines(s, r0, u) == ChoiceLines(s, r, u);
    assert r.log == s.log + EndLines(s, u) + misses + listing + ChoiceLines(s, r, u);
  }

  lemma RetirePrints(ps: seq<Job>, s: State, t: nat, maxTime: int)
    requires ValidTasks(ps) && Inv(ps, s, t) && t + 1 < maxTime
    ensures var s1 := Retire(s, t + 1, maxTime); HasLeft(s, s1) && s1.log == s.log + EndLines(s, t + 1)
  {
    assert s.jobs != [] ==> InPhase(ps, s.jobs[0], t);
  }

  lemma TickLast(ps: seq<Job>, s: State, t: nat, maxTime: int)
    requires ValidTasks(ps) && t + 1 < maxTime
    ensures var r0, r := CheckDeadlines(ps, Retire(s, t + 1, maxTime), t + 1), Tick(ps, s, t + 1, maxTime);
      r.log == r0.log && (r.jobs == [] <==> r0.jobs == []) && (r.jobs != [] ==> SameName(r.jobs[0], r0.jobs[0]))
  {
    hide CheckDeadlines, Retire;
  }

  // ---- whole runs

  /** Before the first event nothing is there. */
  function Before(s: State): State {
    s.(jobs := [], log := [])
  }

  lemma FirstPrints(ps: seq<Job>, maxTime: int)
    requires ValidTasks(ps) && ps != []
    ensures var r := Run(ps, maxTime, 1); r.jobs != [] && Prints(ps, Before(Init(ps)), r, 0)
  {
    FirstShape(ps, maxTime);
    InitListing(ps);
    AllReleasedAtZero(ps);
    ArrivesIff(ps, 0);
    hide SortJobs, ByName, Released, NameSorted, Arrives, Arrivals, Run, Init;
    PrintsFirst(ps, Before(Init(ps)), Run(ps, maxTime, 1), ByName(SortJobs(ps)));
  }

  lemma PrintsFirst(ps: seq<Job>, b: State, r: State, l: seq<Job>)
    requires ValidTasks(ps) && Arrives(ps, 0) && b.jobs == [] && b.log == [] && r.jobs != []
    requires NameSorted(l) && Shown(l) == Arrivals(ps, 0) && r.log == [Listing(0, l), Starts(0, r.jobs[0].pid)]
    ensures Prints(ps, b, r, 0)
  {
    NoneLate();
    assert ShownNone() == Shown([]);
    hide NameSorted, Arrives, Arrivals, Late, Shown, ValidTasks;
    var listing := [Listing(0, l)];
    var empty: seq<Event> := [];
    assert Left(b) == [] && MissLines(Left(b), 0, empty) && ListLines(ps, Left(b), 0, listing);
    hide MissLines, ListLines;
    assert r.log == b.log + EndLines(b, 0) + empty + listing + ChoiceLines(b, r, 0);
  }

  function ShownNone(): multiset<Line> { multiset{} }

  lemma NoneLate()
    ensures MissLines([], 0, [])
  {
  }

  lemma FirstShape(ps: seq<Job>, maxTime: int)
    requires ValidTasks(ps) && ps != []
    ensures var r := Run(ps, maxTime, 1);
      r.jobs != [] && r.log == [Listing(0, ByName(SortJobs(ps))), Starts(0, r.jobs[0].pid)]
  {
    RunUnfolds(ps, maxTime, 0);
    hide SortJobs, ByName, Run;
    SortSize(ps);
  }

  lemma InitListing(ps: seq<Job>)
    requires ValidTasks(ps) && ps != []
    ensures var l := ByName(SortJobs(ps)); NameSorted(l) && Shown(l) == Arrivals(ps, 0)
  {
    AllReleasedAtZero(ps);
    ReleasedInPhase(ps, ps, 0);
    SortedCandidates(ps, ps, 0);
    ShownReleased(ps, 0);
    hide SortJobs, AllInPhase, Unfinished, StrictlySorted, UniqueNames, Released, Shown, ByName;
    ByNameSorts(SortJobs(ps));
    ByNameUnique(SortJobs(ps), ByName(SortJobs(ps)));
    ShownByName(SortJobs(ps));
    ShownSort(ps);
  }

  /** Every event of a run before the last. */
  lemma RunPrints(ps: seq<Job>, maxTime: int, t: nat)
    requires ValidTasks(ps) && ps != [] && t + 1 < maxTime
    ensures Prints(ps, Run(ps, maxTime, t + 1), Run(ps, maxTime, t + 2), t + 1)
  {
    RunKeeps(ps, maxTime, t);
    RunUnfolds(ps, maxTime, t + 1);
    hide *;
    TickPrints(ps, Run(ps, maxTime, t + 1), t, maxTime);
  }

  /** The last event prints an end at most. */
  lemma LastPrints(ps: seq<Job>, t: nat)
    requires ValidTasks(ps) && ps != []
    ensures var s, r := Run(ps, t + 1, t + 1), Run(ps, t + 1, t + 2);
      r.log == s.log + EndLines(s, t + 1)
  {
    var s := Run(ps, t + 1, t + 1);
    RunKeeps(ps, t + 1, t);
    RunUnfolds(ps, t + 1, t + 1);
    assert s.jobs != [] ==> InPhase(ps, s.jobs[0], t);
    hide Run;
  }

  // ---- reading the trace

  const CONFUSED := -1

  /** Who runs after a line, given who ran before it, 0 for nobody. */
  function Follow(now: int, e: Event): int {
    match e
    case Starts(_, pid) => if now == 0 then pid else CONFUSED
    case Ends(_, pid) => if now == pid then 0 else CONFUSED
    case Preempted(_, pid) => if now == pid then 0 else CONFUSED
    case _ => now
  }

  function Replay(now: int, log: seq<Event>): int
    decreases |log|
  {
    if log == [] then now else Replay(Follow(now, log[0]), log[1..])
  }

  lemma {:induction false} ReplayConcat(now: int, a: seq<Event>, b: seq<Event>)
    ensures Replay(now, a + b) == Replay(Replay(now, a), b)
    decreases |a|
  {
    if a == [] {
      assert a + b == b;
    } else {
      assert (a + b)[1..] == a[1..] + b;
      ReplayConcat(Follow(now, a[0]), a[1..], b);
    }
  }

  lemma {:induction false} ReplayNeutral(now: int, log: seq<Event>)
    requires forall i :: 0 <= i < |log| ==> log[i].Missed? || log[i].Listing?
    ensures Replay(now, log) == now
    decreases |log|
  {
    if log != [] { ReplayNeutral(now, log[1..]); }
  }

  /** The process that runs in a state after an event, 0 if the tick is idle. */
  function Runner(s: State): int {
    if s.jobs == [] then 0 else s.jobs[0].pid
  }

  lemma ReplayFew(now: int, a: Event, b: Event)
    ensures Replay(now, []) == now && Replay(now, [a]) == Follow(now, a)
    ensures Replay(now, [a, b]) == Follow(Follow(now, a), b)
  {
    assert [a, b][1..] == [b] && [b][1..] == [] && [a][1..] == [];
    assert Replay(now, [a, b]) == Replay(Follow(now, a), [b]) == Follow(Follow(now, a), b);
  }

  lemma ReplayLines(log: seq<Event>, ends: seq<Event>, misses: seq<Event>, listing: seq<Event>, choice: seq<Event>,
                    a: int, mid: int, b: int)
    requires Replay(0, log) == a && Replay(a, ends) == mid && Replay(mid, choice) == b
    requires forall i :: 0 <= i < |misses| ==> misses[i].Missed?
    requires forall i :: 0 <= i < |listing| ==> listing[i].Listing?
    ensures Replay(0, log + ends + misses + listing + choice) == b
  {
    ReplayNeutral(mid, misses);
    ReplayNeutral(mid, listing);
    hide Replay;
    ReplayConcat(0, log + ends + misses + listing, choice);
    ReplayConcat(0, log + ends + misses, listing);
    ReplayConcat(0, log + ends, misses);
    ReplayConcat(0, log, ends);
  }

  lemma EndReplays(s: State, u: int)
    ensures Replay(Runner(s), EndLines(s, u)) == if Finishes(s) then 0 else Runner(s)
  {
    if s.jobs != [] { ReplayFew(Runner(s), Ends(u, s.jobs[0].pid), Ends(u, 0)); }
    hide Replay;
    ReplayFew(Runner(s), Ends(u, 0), Ends(u, 0));
  }

  lemma ChoiceReplays(s: State, r: State, u: int)
    requires Left(s) != [] ==> r.jobs != []
    ensures Replay(if Finishes(s) then 0 else Runner(s), ChoiceLines(s, r, u)) == Runner(r)
  {
    var mid := if Finishes(s) then 0 else Runner(s);
    ReplayFew(mid, Ends(u, 0), Ends(u, 0));
    if r.jobs != [] {
      ReplayFew(mid, Starts(u, r.jobs[0].pid), Ends(u, 0));
      if s.jobs != [] { ReplayFew(mid, Preempted(u, s.jobs[0].pid), Starts(u, r.jobs[0].pid)); }
    }
    hide Replay;
  }

  /** An event leads from the one runner to the next. */
  lemma PrintsReplays(ps: seq<Job>, s: State, r: State, u: int)
    requires ValidTasks(ps) && Prints(ps, s, r, u) && Replay(0, s.log) == Runner(s)
    requires Left(s) != [] ==> r.jobs != []
    ensures Replay(0, r.log) == Runner(r)
  {
    var misses: seq<Event>, listing: seq<Event> :| MissLines(Left(s), u, misses) &&
      ListLines(ps, Left(s), u, listing) &&
      r.log == s.log + EndLines(s, u) + misses + listing + ChoiceLines(s, r, u);
    EndReplays(s, u);
    ChoiceReplays(s, r, u);
    hide Late, Shown, NameSorted, Arrives, Replay, EndLines, ChoiceLines, Left, Finishes, Runner;
    ReplayLines(s.log, EndLines(s, u), misses, listing, ChoiceLines(s, r, u),
                Runner(s), if Finishes(s) then 0 else Runner(s), Runner(r));
  }

  lemma TickKeepsLive(ps: seq<Job>, s: State, t: nat, maxTime: int)
    requires ValidTasks(ps) && Inv(ps, s, t) && t + 1 < maxTime
    ensures Left(s) != [] ==> Tick(ps, s, t + 1, maxTime).jobs != []
  {
    RetirePrints(ps, s, t, maxTime);
    var s1 := Retire(s, t + 1, maxTime);
    hide Inv, Retire, SortJobs, ByName, Released, Misses;
    SortSize(Candidates(ps, s1, t + 1));
  }

  lemma RunReplaysStep(ps: seq<Job>, maxTime: int, t: nat)
    requires ValidTasks(ps) && ps != [] && t + 1 < maxTime
    requires Replay(0, Run(ps, maxTime, t + 1).log) == Runner(Run(ps, maxTime, t + 1))
    ensures Replay(0, Run(ps, maxTime, t + 2).log) == Runner(Run(ps, maxTime, t + 2))
  {
    RunKeeps(ps, maxTime, t);
    RunUnfolds(ps, maxTime, t + 1);
    RunPrints(ps, maxTime, t);
    hide *;
    TickKeepsLive(ps, Run(ps, maxTime, t + 1), t, maxTime);
    PrintsReplays(ps, Run(ps, maxTime, t + 1), Run(ps, maxTime, t + 2), t + 1);
  }

  /** At every tick of every run: following the starts, ends and preemptions printed so
      far, each of which fits the one before it, leads to the process that runs. */
  lemma RunReplays(ps: seq<Job>, maxTime: int, t: nat)
    requires ValidTasks(ps) && ps != [] && t < maxTime
    ensures var s := Run(ps, maxTime, t + 1); Replay(0, s.log) == Runner(s) == s.running.pid
  {
    FirstPrints(ps, maxTime);
    PrintsReplays(ps, Before(Init(ps)), Run(ps, maxTime, 1), 0);
    RunKeeps(ps, maxTime, t);
    hide Run, Prints, Replay, Init, ValidTasks;
    for u := 0 to t
      invariant Replay(0, Run(ps, maxTime, u + 1).log) == Runner(Run(ps, maxTime, u + 1))
    {
      RunReplaysStep(ps, maxTime, u);
    }
  }

  // ---- reading it up to a time

  /** The lines printed up to time t. */
  function UpTo(log: seq<Event>, t: int): seq<Event> {
    if log == [] then [] else UpTo(log[..|log| - 1], t) + if log[|log| - 1].time <= t then [log[|log| - 1]] else []
  }

  lemma {:induction false} UpToMore(a: seq<Event>, b: seq<Event>, t: int)
    requires forall i :: 0 <= i < |b| ==> b[i].time > t
    ensures UpTo(a + b, t) == UpTo(a, t)
  {
    if b == [] {
      assert a + b == a;
    } else {
      assert (a + b)[..|a + b| - 1] == a + b[..|b| - 1];
      UpToMore(a, b[..|b| - 1], t);
    }
  }

  lemma {:induction false} UpToAll(a: seq<Event>, t: int)
    requires forall i :: 0 <= i < |a| ==> a[i].time <= t
    ensures UpTo(a, t) == a
  {
    if a != [] { UpToAll(a[..|a| - 1], t); }
  }

  lemma {:induction false} LateTimes(jobs: seq<Job>, u: int, pid: int)
    ensures forall e :: e in Late(jobs, u, pid) ==> e.time == u
  {
    if jobs != [] { LateTimes(jobs[1..], u, pid); }
  }

  lemma {:induction false} InOwnProcess(lines: seq<Event>, i: nat)
    requires i < |lines| && lines[i].Missed?
    ensures lines[i] in OfProcess(lines, lines[i].pid)
  {
    if i > 0 { InOwnProcess(lines[1..], i - 1); }
  }

  /** b is a with lines of time u added. */
  predicate AddsAt(a: seq<Event>, b: seq<Event>, u: int) {
    a <= b && forall i :: |a| <= i < |b| ==> b[i].time == u
  }

  lemma MissesAt(jobs: seq<Job>, u: int, lines: seq<Event>)
    requires MissLines(jobs, u, lines)
    ensures AllAt(lines, u)
  {
    hide Late, OfProcess;
    forall i | 0 <= i < |lines| ensures lines[i].time == u {
      InOwnProcess(lines, i);
      LateTimes(jobs, u, lines[i].pid);
    }
  }

  lemma OthersAt(ps: seq<Job>, s: State, r: State, u: int, jobs: seq<Job>, listing: seq<Event>)
    requires ValidTasks(ps) && ListLines(ps, jobs, u, listing)
    ensures AllAt(EndLines(s, u), u) && AllAt(listing, u) && AllAt(ChoiceLines(s, r, u), u)
  {
    hide Shown, NameSorted, Arrives, SameName, ValidTasks;
  }

  lemma PrintsAt(ps: seq<Job>, s: State, r: State, u: int)
    requires ValidTasks(ps) && Prints(ps, s, r, u)
    ensures AddsAt(s.log, r.log, u)
  {
    hide MissLines, ListLines, EndLines, ChoiceLines, Left, AllAt, AddsAt, ValidTasks;
    var misses: seq<Event>, listing: seq<Event> :| MissLines(Left(s), u, misses) &&
      ListLines(ps, Left(s), u, listing) &&
      r.log == s.log + EndLines(s, u) + misses + listing + ChoiceLines(s, r, u);
    MissesAt(Left(s), u, misses);
    OthersAt(ps, s, r, u, Left(s), listing);
    AddsLines(s.log, EndLines(s, u), misses, listing, ChoiceLines(s, r, u), u);
  }

  predicate AllAt(lines: seq<Event>, u: int) {
    forall i :: 0 <= i < |lines| ==> lines[i].time == u
  }

  lemma AddsLines(log: seq<Event>, a: seq<Event>, b: seq<Event>, d: seq<Event>, e: seq<Event>, u: int)
    requires AllAt(a, u) && AllAt(b, u) && AllAt(d, u) && AllAt(e, u)
    ensures AddsAt(log, log + a + b + d + e, u)
  {
    AddsMore(log, a, u);
    AddsMore(log + a, b, u);
    AddsMore(log + a + b, d, u);
    AddsMore(log + a + b + d, e, u);
    hide AddsAt, AllAt;
    AddsOn(log, log + a, log + a + b, u);
    AddsOn(log, log + a + b, log + a + b + d, u);
    AddsOn(log, log + a + b + d, log + a + b + d + e, u);
  }

  lemma AddsMore(a: seq<Event>, b: seq<Event>, u: int)
    requires AllAt(b, u)
    ensures AddsAt(a, a + b, u)
  {
  }

  lemma AddsOn(a: seq<Event>, b: seq<Event>, d: seq<Event>, u: int)
    requires AddsAt(a, b, u) && AddsAt(b, d, u)
    ensures AddsAt(a, d, u)
  {
  }

  lemma AddsUpTo(a: seq<Event>, b: seq<Event>, u: int, t: int)
    requires AddsAt(a, b, u)
    ensures t < u ==> UpTo(b, t) == UpTo(a, t)
    ensures u <= t && UpTo(a, t) == a ==> UpTo(b, t) == b
  {
    var new_ := b[|a|..];
    assert b == a + new_;
    assert forall i :: 0 <= i < |new_| ==> new_[i] == b[|a| + i];
    if t < u { UpToMore(a, new_, t); }
    if u <= t && UpTo(a, t) == a { UpToFixed(a, new_, t); }
  }

  lemma {:induction false} UpToFixed(a: seq<Event>, b: seq<Event>, t: int)
    requires UpTo(a, t) == a && forall i :: 0 <= i < |b| ==> b[i].time <= t
    ensures UpTo(a + b, t) == a + b
  {
    if b == [] {
      assert a + b == a;
    } else {
      var front := b[..|b| - 1];
      assert (a + b)[..|a + b| - 1] == a + front && a + b == a + front + [b[|b| - 1]];
      UpToFixed(a, front, t);
    }
  }

  lemma FirstAdds(ps: seq<Job>, maxTime: nat)
    requires ValidTasks(ps) && ps != []
    ensures Run(ps, maxTime, 0).log == [] && AddsAt([], Run(ps, maxTime, 1).log, 0)
  {
    RunUnfolds(ps, maxTime, 0);
    SortSize(ps);
    FirstPrints(ps, maxTime);
    hide Run, Prints, SortJobs;
    PrintsAt(ps, Before(Init(ps)), Run(ps, maxTime, 1), 0);
  }

  lemma RunAdds(ps: seq<Job>, maxTime: nat, t: nat)
    requires ValidTasks(ps) && ps != [] && t <= maxTime && maxTime > 0
    ensures AddsAt(Run(ps, maxTime, t).log, Run(ps, maxTime, t + 1).log, t)
  {
    hide Run, Prints;
    if t == 0 {
      FirstAdds(ps, maxTime);
    } else if t == maxTime {
      LastPrints(ps, maxTime - 1);
    } else {
      RunPrints(ps, maxTime, t - 1);
      hide *;
      PrintsAt(ps, Run(ps, maxTime, t), Run(ps, maxTime, t + 1), t);
    }
  }

  lemma UpToItself(ps: seq<Job>, maxTime: nat, t: nat)
    requires ValidTasks(ps) && ps != [] && t < maxTime
    ensures UpTo(Run(ps, maxTime, t + 1).log, t) == Run(ps, maxTime, t + 1).log
  {
    FirstAdds(ps, maxTime);
    UpToAll([], t);
    hide *;
    for u := 0 to t + 1
      invariant UpTo(Run(ps, maxTime, u).log, t) == Run(ps, maxTime, u).log
    {
      RunAdds(ps, maxTime, u);
      AddsUpTo(Run(ps, maxTime, u).log, Run(ps, maxTime, u + 1).log, u, t);
    }
  }

  /** The printout of the whole run, read up to time t, is what the event at t left. */
  lemma PrintedUpTo(ps: seq<Job>, maxTime: nat, t: nat)
    requires ValidTasks(ps) && ps != [] && t < maxTime
    ensures UpTo(Run(ps, maxTime, maxTime + 1).log, t) == Run(ps, maxTime, t + 1).log
  {
    hide *;
    UpToItself(ps, maxTime, t);
    for u := t + 1 to maxTime + 1
      invariant UpTo(Run(ps, maxTime, u).log, t) == Run(ps, maxTime, t + 1).log
    {
      RunAdds(ps, maxTime, u);
      AddsUpTo(Run(ps, maxTime, u).log, Run(ps, maxTime, u + 1).log, u, t);
    }
  }

  /** Whoever reads the printout up to time t, and follows its starts, ends and preemptions,
      knows which process runs at t. */
  lemma TraceNamesRunner(ps: seq<Job>, maxTime: nat, t: nat)
    requires ValidTasks(ps) && ps != [] && t < maxTime
    ensures var s := Run(ps, maxTime, t + 1);
      Replay(0, UpTo(Run(ps, maxTime, maxTime + 1).log, t)) == s.running.pid
  {
    hide Run, Replay, UpTo;
    PrintedUpTo(ps, maxTime, t);
    RunReplays(ps, maxTime, t);
  }
}
