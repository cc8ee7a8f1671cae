/** The semaphore protocol: every token is somewhere, in every reachable state,
    interrupted waits and failed copies included. */
module ScullTokens {
  import opened ScullModel

  /** The sum of a weight over all processes. */
  function Total(procs: seq<Proc>, w: Proc -> nat): nat {
    if procs == [] then 0 else w(procs[0]) + Total(procs[1..], w)
  }

  lemma {:induction false} TotalUpdate(procs: seq<Proc>, p: nat, x: Proc, w: Proc -> nat)
    requires p < |procs|
    ensures Total(procs[p := x], w) == Total(procs, w) - w(procs[p]) + w(x)
  {
    if p == 0 {
      assert procs[0 := x][1..] == procs[1..];
    } else {
      assert procs[p := x][1..] == procs[1..][p - 1 := x];
      TotalUpdate(procs[1..], p - 1, x, w);
    }
  }

  lemma {:induction false} TotalAtLeast(procs: seq<Proc>, p: nat, w: Proc -> nat)
    requires p < |procs| && w(Fresh()) == 0
    ensures Total(procs, w) >= w(procs[p])
    ensures forall q :: 0 <= q < |procs| && q != p ==> Total(procs, w) >= w(procs[p]) + w(procs[q])
  {
    TotalUpdate(procs, p, Fresh(), w);
    forall q | 0 <= q < |procs| && q != p ensures Total(procs, w) >= w(procs[p]) + w(procs[q]) {
      TotalUpdate(procs[p := Fresh()], q, Fresh(), w);
    }
  }

  lemma {:induction false} TotalZero(procs: seq<Proc>, w: Proc -> nat)
    requires forall p :: 0 <= p < |procs| ==> w(procs[p]) == 0
    ensures Total(procs, w) == 0
  {
    if procs != [] { TotalZero(procs[1..], w); }
  }

  // ---- who holds what

  /** A writer with a free slot it has not yet filled. */
  predicate HasFree(x: Proc) {
    x.pc.WriteLock? || x.pc.WriteHeader? || x.pc.WriteStore? || x.pc.WriteCopy? ||
    x.pc.WriteAdvance? || x.pc.WriteWrap? || x.pc.WriteFail? || x.pc.WriteGiveBack?
  }

  /** A writer that has filled a slot and not yet announced it. */
  predicate HasFilled(x: Proc) {
    x.pc.WriteUnlock? || x.pc.WriteUp?
  }

  /** A reader with a record it has not yet taken. */
  predicate HasRecord(x: Proc) {
    x.pc.ReadLock? || x.pc.ReadCopy? || x.pc.ReadAdvance? || x.pc.ReadWrap? ||
    x.pc.ReadFail? || x.pc.ReadGiveBack?
  }

  /** A reader that has taken a record and not yet announced the space. */
  predicate HasSpace(x: Proc) {
    x.pc.ReadUnlock? || x.pc.ReadUp?
  }

  /** A process inside the lock. */
  predicate Inside(x: Proc) {
    x.pc.ReadCopy? || x.pc.ReadAdvance? || x.pc.ReadWrap? || x.pc.ReadUnlock? || x.pc.ReadFail? ||
    x.pc.WriteHeader? || x.pc.WriteStore? || x.pc.WriteCopy? || x.pc.WriteAdvance? ||
    x.pc.WriteWrap? || x.pc.WriteUnlock? || x.pc.WriteFail?
  }

  function One(b: bool): nat { if b then 1 else 0 }

  function HoldsFree(): Proc -> nat { (x: Proc) => One(HasFree(x)) }
  function HoldsFilled(): Proc -> nat { (x: Proc) => One(HasFilled(x)) }
  function HoldsRecord(): Proc -> nat { (x: Proc) => One(HasRecord(x)) }
  function HoldsSpace(): Proc -> nat { (x: Proc) => One(HasSpace(x)) }
  function HoldsLock(): Proc -> nat { (x: Proc) => One(Inside(x)) }

  /** Records committed and not yet delivered. */
  function Occupied(s: State): int { |s.committed| - |s.delivered| }

  /** Every record is announced, or held by the reader or writer on its way; every
      other slot is free, or held likewise; the lock is held by one process at most. */
  predicate Tokens(c: Config, s: State) {
    Occupied(s) == s.full + Total(s.procs, HoldsRecord()) + Total(s.procs, HoldsFilled()) &&
    c.slots - Occupied(s) == s.empty + Total(s.procs, HoldsFree()) + Total(s.procs, HoldsSpace()) &&
    Total(s.procs, HoldsLock()) == One(s.locked)
  }

  lemma FreshHoldsNothing()
    ensures HoldsFree()(Fresh()) == HoldsFilled()(Fresh()) == HoldsRecord()(Fresh()) == 0
    ensures HoldsSpace()(Fresh()) == HoldsLock()(Fresh()) == 0
  {
  }

  lemma InitialTokens(c: Config, s: State)
    requires Initial(c, s)
    ensures Tokens(c, s)
  {
    FreshHoldsNothing();
    hide HoldsFree, HoldsFilled, HoldsRecord, HoldsSpace, HoldsLock;
    TotalZero(s.procs, HoldsFree());
    TotalZero(s.procs, HoldsFilled());
    TotalZero(s.procs, HoldsRecord());
    TotalZero(s.procs, HoldsSpace());
    TotalZero(s.procs, HoldsLock());
  }

  /** What one step does to the counters, by where the process was and is now. */
  predicate Counts(s: State, r: State, x: Proc, y: Proc) {
    Occupied(r) - Occupied(s) ==
      r.full - s.full + One(HasRecord(y)) - One(HasRecord(x)) + One(HasFilled(y)) - One(HasFilled(x)) &&
    Occupied(s) - Occupied(r) ==
      r.empty - s.empty + One(HasFree(y)) - One(HasFree(x)) + One(HasSpace(y)) - One(HasSpace(x)) &&
    ((Inside(x) && !s.locked) || One(r.locked) - One(s.locked) == One(Inside(y)) - One(Inside(x)))
  }

  lemma CallCounts(s: State, x: Proc, ch: Choice)
    requires x.pc.Idle?
    ensures var (r, y) := StepCall(s, x, ch); Counts(s, r, x, y)
  {
  }

  lemma WaitCounts(c: Config, s: State, x: Proc, ch: Choice)
    ensures var (r, y) := StepWait(c, s, x, ch); Counts(s, r, x, y)
  {
    hide IntAt;
    var (r, y) := StepWait(c, s, x, ch);
    assert y.pc != x.pc ==> Waits(x);
    assert Counts(s, r, x, y);
  }

  lemma ReadCounts(c: Config, s: State, x: Proc, ch: Choice)
    ensures var (r, y) := StepRead(c, s, x, ch); Counts(s, r, x, y)
  {
  }

  lemma WriteCounts(c: Config, s: State, x: Proc, ch: Choice)
    requires ValidConfig(c)
    ensures var (r, y) := StepWrite(c, s, x, ch); Counts(s, r, x, y)
  {
  }

  lemma LeaveCounts(s: State, x: Proc)
    ensures var (r, y) := StepLeave(s, x); Counts(s, r, x, y)
  {
    if x.pc.ReadUnlock? || x.pc.ReadUp? || x.pc.ReadFail? || x.pc.ReadGiveBack? { ReaderLeaves(s, x); }
    else if x.pc.WriteUnlock? || x.pc.WriteUp? || x.pc.WriteFail? || x.pc.WriteGiveBack? { WriterLeaves(s, x); }
    else { SameCounts(s, x); }
    hide Counts, StepLeave;
  }

  lemma ReaderLeaves(s: State, x: Proc)
    requires x.pc.ReadUnlock? || x.pc.ReadUp? || x.pc.ReadFail? || x.pc.ReadGiveBack?
    ensures var (r, y) := StepLeave(s, x); Counts(s, r, x, y)
  {
  }

  lemma WriterLeaves(s: State, x: Proc)
    requires x.pc.WriteUnlock? || x.pc.WriteUp? || x.pc.WriteFail? || x.pc.WriteGiveBack?
    ensures var (r, y) := StepLeave(s, x); Counts(s, r, x, y)
  {
  }

  lemma SameCounts(s: State, x: Proc)
    ensures Counts(s, s, x, x)
  {
  }

  lemma StepCounts(c: Config, s: State, x: Proc, ch: Choice)
    requires ValidConfig(c)
    ensures var (r, y) := Next(c, s, x, ch); Counts(s, r, x, y)
  {
    hide StepCall, StepWait, StepRead, StepWrite, StepLeave, Counts;
    if x.pc.Idle? {
      CallCounts(s, x, ch);
    } else if Waits(x) {
      WaitCounts(c, s, x, ch);
    } else if Reads(x) {
      ReadCounts(c, s, x, ch);
    } else if Writes(x) {
      WriteCounts(c, s, x, ch);
    } else {
      LeaveCounts(s, x);
    }
    var (r, y) := Next(c, s, x, ch);
    assert Counts(s, r, x, y);
  }

  /** The protocol is kept by every step of every process. */
  lemma StepTokens(c: Config, s: State, p: nat, ch: Choice)
    requires p < |s.procs| && ValidConfig(c) && Tokens(c, s)
    ensures Tokens(c, Step(c, s, p, ch))
  {
    var r := Step(c, s, p, ch);
    StepCounts(c, s, s.procs[p], ch);
    hide Next;
    var y := r.procs[p];
    TotalUpdate(s.procs, p, y, HoldsFree());
    TotalUpdate(s.procs, p, y, HoldsFilled());
    TotalUpdate(s.procs, p, y, HoldsRecord());
    TotalUpdate(s.procs, p, y, HoldsSpace());
    TotalUpdate(s.procs, p, y, HoldsLock());
    TotalAtLeast(s.procs, p, HoldsLock());
  }

  lemma RunTokens(c: Config, states: seq<State>, actions: seq<Action>, i: nat)
    requires ValidConfig(c) && IsRun(c, states, actions) && i < |states|
    ensures Tokens(c, states[i])
  {
    InitialTokens(c, states[0]);
    hide Tokens, Step, Initial;
    for k := 0 to i
      invariant Tokens(c, states[k])
    {
      StepTokens(c, states[k], actions[k].p, actions[k].ch);
    }
  }

  /** The tokens in flight. */
  function InFlight(s: State): nat {
    Total(s.procs, HoldsFree()) + Total(s.procs, HoldsFilled()) +
    Total(s.procs, HoldsRecord()) + Total(s.procs, HoldsSpace())
  }

  /** In every reachable state: no token is lost or made; the occupied slots are within
      the ring; one process at most is inside the lock; a writer inside it that has not
      filled its slot finds one free, a reader that has not taken its record finds one. */
  lemma ProtocolHolds(c: Config, states: seq<State>, actions: seq<Action>, i: nat)
    requires ValidConfig(c) && IsRun(c, states, actions) && i < |states|
    ensures var s := states[i];
      s.empty + s.full + InFlight(s) == c.slots &&
      0 <= Occupied(s) <= c.slots &&
      (forall p, q :: 0 <= p < q < |s.procs| ==> !(Inside(s.procs[p]) && Inside(s.procs[q]))) &&
      (forall p :: 0 <= p < |s.procs| && HasFree(s.procs[p]) ==> Occupied(s) < c.slots) &&
      (forall p :: 0 <= p < |s.procs| && HasRecord(s.procs[p]) ==> Occupied(s) > 0)
  {
    RunTokens(c, states, actions, i);
    TokensMean(c, states[i]);
  }

  lemma TokensMean(c: Config, s: State)
    requires Tokens(c, s)
    ensures s.empty + s.full + InFlight(s) == c.slots
    ensures 0 <= Occupied(s) <= c.slots
    ensures forall p, q :: 0 <= p < q < |s.procs| ==> !(Inside(s.procs[p]) && Inside(s.procs[q]))
    ensures forall p :: 0 <= p < |s.procs| && Inside(s.procs[p]) ==> s.locked
    ensures forall p :: 0 <= p < |s.procs| && HasFree(s.procs[p]) ==> Occupied(s) < c.slots
    ensures forall p :: 0 <= p < |s.procs| && HasRecord(s.procs[p]) ==> Occupied(s) > 0
  {
    forall p | 0 <= p < |s.procs|
      ensures HasFree(s.procs[p]) ==> Occupied(s) < c.slots
      ensures HasRecord(s.procs[p]) ==> Occupied(s) > 0
      ensures Inside(s.procs[p]) ==> s.locked
    {
      TotalAtLeast(s.procs, p, HoldsFree());
      TotalAtLeast(s.procs, p, HoldsRecord());
      TotalAtLeast(s.procs, p, HoldsLock());
    }
    forall p, q | 0 <= p < q < |s.procs| ensures !(Inside(s.procs[p]) && Inside(s.procs[q])) {
      TotalAtLeast(s.procs, p, HoldsLock());
    }
  }

  // ---- progress

  /** A process that cannot go on without another one, unless it is interrupted. */
  predicate Blocked(s: State, x: Proc) {
    match x.pc
    case ReadDown => s.full == 0
    case WriteDown => s.empty == 0
    case ReadLock => s.locked
    case WriteLock => s.locked
    case _ => false
  }

  /** If every call in progress is blocked, all of them wait on one semaphore: all are
      readers of an empty ring, or all are writers of a full one.  Readers and writers
      are never stuck together. */
  lemma NeverAllBlocked(c: Config, states: seq<State>, actions: seq<Action>, i: nat)
    requires ValidConfig(c) && IsRun(c, states, actions) && i < |states|
    ensures var s := states[i];
      (forall p :: 0 <= p < |s.procs| && !s.procs[p].pc.Idle? ==> Blocked(s, s.procs[p])) ==>
        (Occupied(s) == 0 && forall p :: 0 <= p < |s.procs| && !s.procs[p].pc.Idle? ==> s.procs[p].pc.ReadDown?) ||
        (Occupied(s) == c.slots &&
         forall p :: 0 <= p < |s.procs| && !s.procs[p].pc.Idle? ==> s.procs[p].pc.WriteDown?) ||
        (forall p :: 0 <= p < |s.procs| ==> s.procs[p].pc.Idle?)
  {
    RunTokens(c, states, actions, i);
    var s := states[i];
    if forall p :: 0 <= p < |s.procs| && !s.procs[p].pc.Idle? ==> Blocked(s, s.procs[p]) {
      BlockedMeans(c, s);
    }
  }

  lemma BlockedMeans(c: Config, s: State)
    requires ValidConfig(c) && Tokens(c, s)
    requires forall p :: 0 <= p < |s.procs| && !s.procs[p].pc.Idle? ==> Blocked(s, s.procs[p])
    ensures !s.locked && s.empty + s.full == c.slots && Occupied(s) == s.full
    ensures (forall p :: 0 <= p < |s.procs| && !s.procs[p].pc.Idle? ==> s.procs[p].pc.ReadDown?) ||
            (forall p :: 0 <= p < |s.procs| && !s.procs[p].pc.Idle? ==> s.procs[p].pc.WriteDown?)
    ensures forall p :: 0 <= p < |s.procs| && s.procs[p].pc.ReadDown? ==> s.full == 0
    ensures forall p :: 0 <= p < |s.procs| && s.procs[p].pc.WriteDown? ==> s.empty == 0
  {
    forall p | 0 <= p < |s.procs| ensures !Inside(s.procs[p]) {
      assert s.procs[p].pc.Idle? || Blocked(s, s.procs[p]);
    }
    TotalZero(s.procs, HoldsLock());
    forall p | 0 <= p < |s.procs|
      ensures !HasFree(s.procs[p]) && !HasFilled(s.procs[p])
      ensures !HasRecord(s.procs[p]) && !HasSpace(s.procs[p])
    {
      assert s.procs[p].pc.Idle? || Blocked(s, s.procs[p]);
    }
    TotalZero(s.procs, HoldsFree());
    TotalZero(s.procs, HoldsFilled());
    TotalZero(s.procs, HoldsRecord());
    TotalZero(s.procs, HoldsSpace());
  }
}
