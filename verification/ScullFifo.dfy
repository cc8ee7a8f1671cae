/** First in, first out: what readers get is what writers put, record by record, as
    long as the headers that calls look up on entry are still current when they get
    the lock. */
module ScullFifo {
  import opened Octets
  import opened ScullModel
  import opened ScullCalls
  import opened ScullTokens
  import opened ScullRing

  /** A record cut to the count asked for. */
  function Cut(rec: seq<byte>, count: nat): seq<byte> {
    if count < |rec| then rec[..count] else rec
  }

  /** What a read of a record of length n returns. */
  function Returned(c: Config, count: nat, n: nat): nat {
    if count < n then count else c.elem
  }

  /** Every undelivered record is in its slot. */
  predicate Records(c: Config, s: State)
    requires ValidConfig(c)
  {
    |s.delivered| <= |s.committed| &&
    forall k :: |s.delivered| <= k < |s.committed| ==>
      |s.committed[k]| <= c.elem && SlotHolds(s.ring, Slot(c, k), s.committed[k])
  }

  /** The k-th completed read got the k-th committed record, cut to its count. */
  predicate Faithful(c: Config, s: State) {
    |s.delivered| <= |s.committed| &&
    forall k :: 0 <= k < |s.delivered| ==> Right(c, s.delivered[k], s.committed[k])
  }

  predicate Right(c: Config, d: Delivery, rec: seq<byte>) {
    d.bytes == Cut(rec, d.count) && d.ret == Returned(c, d.count, |rec|)
  }

  /** What a process knows about the slot it is about to use. */
  predicate Knows(c: Config, s: State, x: Proc)
    requires ValidConfig(c)
  {
    var r, w := |s.delivered|, |s.committed|;
    match x.pc
    case ReadDown => ReaderKnows(c, s, x)
    case ReadLock => ReaderKnows(c, s, x)
    case ReadCopy => r < w && x.mark == |s.committed[r]|
    case ReadAdvance => r < w && Right(c, Delivery(x.count, x.out, x.ret), s.committed[r])
    case ReadWrap => r < w && Right(c, Delivery(x.count, x.out, x.ret), s.committed[r])
    case WriteDown => WriterKnows(c, s, x)
    case WriteLock => WriterKnows(c, s, x)
    case WriteHeader => x.mark == Slot(c, w)
    case WriteStore => x.mark == Slot(c, w)
    case WriteCopy =>
      InRing(s.ring, Slot(c, w), SlotSize(c)) &&
      s.ring[Slot(c, w)..Slot(c, w) + HEADER] == Encode(|Stored(c, x.data)|)
    case WriteAdvance => SlotHolds(s.ring, Slot(c, w), Stored(c, x.data))
    case WriteWrap => SlotHolds(s.ring, Slot(c, w), Stored(c, x.data))
    case _ => true
  }

  /** A length looked up when a record was there is right until a read completes. */
  predicate ReaderKnows(c: Config, s: State, x: Proc)
    requires ValidConfig(c)
  {
    var r := |s.delivered|;
    x.seen <= r &&
    (x.seen == r && x.seenRecord && s.start == Slot(c, r) ==>
      r < |s.committed| && x.mark == |s.committed[r]|)
  }

  /** A slot looked up is right until a write completes. */
  predicate WriterKnows(c: Config, s: State, x: Proc)
    requires ValidConfig(c)
  {
    x.seen <= |s.committed| && (x.seen == |s.committed| && s.end == Slot(c, |s.committed|) ==> x.mark == s.end)
  }

  predicate AllKnow(c: Config, s: State)
    requires ValidConfig(c)
  {
    forall p :: 0 <= p < |s.procs| ==> Knows(c, s, s.procs[p])
  }

  predicate Inv(c: Config, s: State)
    requires ValidConfig(c)
  {
    Tokens(c, s) && Pointers(c, s) && Records(c, s) && Faithful(c, s) && AllKnow(c, s)
  }

  /** The condition on a step: no copy into the ring fails and, if headers are looked up on
      entry, a process that gets the lock did so when no call of its kind has completed
      since, a reader moreover when a record was there. */
  predicate Timely(c: Config, s: State, p: nat, ch: Choice)
    requires p < |s.procs|
  {
    var x := s.procs[p];
    !FailedWrite(s, p, ch) &&
    (c.lookup.OnEntry? && !ch.Interrupt? && !s.locked ==>
      (x.pc.ReadLock? ==> x.seen == |s.delivered| && x.seenRecord) &&
      (x.pc.WriteLock? ==> x.seen == |s.committed|))
  }

  // ---- the other processes

  /** A process outside the lock keeps what it knows: a moved pointer is off its slot,
      and a completed call makes the knowledge out of date, not wrong. */
  lemma OutsideKnows(c: Config, s: State, r: State, z: Proc)
    requires ValidConfig(c) && !Inside(z) && Knows(c, s, z)
    requires s.committed <= r.committed && |s.delivered| <= |r.delivered|
    requires |r.delivered| == |s.delivered| ==> r.start == s.start || r.start != Slot(c, |s.delivered|)
    requires |r.committed| == |s.committed| ==> r.end == s.end || r.end != Slot(c, |s.committed|)
    ensures Knows(c, r, z)
  {
  }

  lemma SharedKnows(c: Config, s: State, r: State, z: Proc)
    requires ValidConfig(c) && Knows(c, s, z)
    requires r.ring == s.ring && r.start == s.start && r.end == s.end
    requires r.committed == s.committed && r.delivered == s.delivered
    ensures Knows(c, r, z)
  {
  }

  // ---- the process that moves

  lemma CallKnows(c: Config, s: State, x: Proc, ch: Choice)
    requires ValidConfig(c) && x.pc.Idle? && Records(c, s)
    ensures var (r, y) := StepCall(s, x, ch); Knows(c, r, y)
  {
    var r := |s.delivered|;
    if ch.CallRead? && r < |s.committed| && s.start == Slot(c, r) {
      SlotHeader(s.ring, Slot(c, r), s.committed[r], ch.wild);
    }
  }

  lemma WaitKnows(c: Config, s: State, x: Proc, ch: Choice)
    requires ValidConfig(c) && Waits(x) && Knows(c, s, x)
    requires !s.locked ==> s.start == Slot(c, |s.delivered|) && s.end == Slot(c, |s.committed|)
    requires Records(c, s) && (x.pc.ReadLock? ==> |s.delivered| < |s.committed|)
    requires c.lookup.OnEntry? && !ch.Interrupt? && !s.locked ==>
      (x.pc.ReadLock? ==> x.seen == |s.delivered| && x.seenRecord) &&
      (x.pc.WriteLock? ==> x.seen == |s.committed|)
    ensures var (r, y) := StepWait(c, s, x, ch); Knows(c, r, y)
  {
    var k := |s.delivered|;
    if k < |s.committed| { SlotHeader(s.ring, Slot(c, k), s.committed[k], x.mark); }
  }

  /** The copy out of a slot, by the length looked up. */
  lemma CopyOut(c: Config, s: State, x: Proc, k: nat)
    requires ValidConfig(c) && k < |s.committed| && SlotHolds(s.ring, Slot(c, k), s.committed[k])
    requires x.mark == |s.committed[k]| && s.start == Slot(c, k)
    ensures ReadLength(x.count, x.mark) >= 0
    ensures Get(s.ring, s.start + HEADER, ReadLength(x.count, x.mark)) == Cut(s.committed[k], x.count)
  {
    var rec, at := s.committed[k], s.start + HEADER;
    var out := Get(s.ring, at, ReadLength(x.count, x.mark));
    assert s.ring[at..at + |rec|] == rec;
    assert forall i :: 0 <= i < |out| ==> out[i] == rec[i];
  }

  lemma ReadKnows(c: Config, s: State, x: Proc, ch: Choice)
    requires ValidConfig(c) && Reads(x) && Knows(c, s, x) && Records(c, s)
    requires s.start == Slot(c, |s.delivered|) || !x.pc.ReadCopy?
    ensures var (r, y) := StepRead(c, s, x, ch); Knows(c, r, y)
  {
    if x.pc.ReadCopy? { CopyOut(c, s, x, |s.delivered|); }
    hide Slot, Get, Cut;
    var (r, y) := StepRead(c, s, x, ch);
    assert Knows(c, r, y);
  }

  lemma HeaderStored(c: Config, ring: seq<byte>, at: nat, n: nat)
    requires n < 0x8000_0000 && InRing(ring, at, SlotSize(c))
    ensures InRing(Put(ring, at, Encode(n)), at, SlotSize(c))
    ensures Put(ring, at, Encode(n))[at..at + HEADER] == Encode(n)
  {
  }

  lemma WriteKnows(c: Config, s: State, x: Proc, ch: Choice)
    requires ValidConfig(c) && Writes(x) && Knows(c, s, x) && |s.ring| == MaxOffset(c)
    requires x.pc.WriteCopy? ==> s.end == Slot(c, |s.committed|) + HEADER && !ch.Fault?
    ensures var (r, y) := StepWrite(c, s, x, ch); Knows(c, r, y)
  {
    var at := Slot(c, |s.committed|);
    SlotInRing(c, |s.committed|);
    var (r, y) := StepWrite(c, s, x, ch);
    var n := |Stored(c, x.data)|;
    if x.pc.WriteStore? { HeaderStored(c, s.ring, at, n); }
    if x.pc.WriteCopy? { PutRecord(s.ring, at, Stored(c, x.data)); }
    hide Slot, Put, Encode, Stored, SlotHolds, MaxOffset, HasFree;
    assert Knows(c, r, y);
  }

  // ---- the records

  /** A write into the free slot changes no byte of an undelivered record. */
  lemma FreeSlotWrite(c: Config, s: State, at: nat, data: seq<byte>)
    requires ValidConfig(c) && Records(c, s) && |s.committed| < |s.delivered| + c.slots
    requires Slot(c, |s.committed|) <= at && at + |data| <= Slot(c, |s.committed|) + SlotSize(c)
    ensures Records(c, s.(ring := Put(s.ring, at, data)))
  {
    var w := |s.committed|;
    forall k | |s.delivered| <= k < w
      ensures |s.committed[k]| <= c.elem && SlotHolds(Put(s.ring, at, data), Slot(c, k), s.committed[k])
    {
      SlotsApart(c, k, w);
      hide Slot, Put;
      PutElsewhere(s.ring, at, data, Slot(c, k), s.committed[k]);
    }
  }

  lemma WriteRecords(c: Config, s: State, x: Proc, ch: Choice)
    requires ValidConfig(c) && Writes(x) && Knows(c, s, x) && Records(c, s)
    requires |s.committed| < |s.delivered| + c.slots
    requires x.pc.WriteCopy? ==> s.end == Slot(c, |s.committed|) + HEADER
    ensures var (r, _) := StepWrite(c, s, x, ch); Records(c, r)
  {
    var n := |Stored(c, x.data)|;
    if x.pc.WriteStore? { FreeSlotWrite(c, s, x.mark, Encode(n)); }
    if x.pc.WriteCopy? {
      FreeSlotWrite(c, s, s.end, Stored(c, x.data));
      FreeSlotWrite(c, s, s.end, Partial(Stored(c, x.data), if ch.Fault? then ch.copied else 0));
    }
    hide Slot, Put, Encode, Stored, Partial, SlotHolds, MaxOffset;
    var (r, y) := StepWrite(c, s, x, ch);
    assert Records(c, r);
  }

  lemma ReadRecords(c: Config, s: State, x: Proc, ch: Choice)
    requires ValidConfig(c) && Reads(x) && Knows(c, s, x) && Records(c, s) && Faithful(c, s)
    ensures var (r, _) := StepRead(c, s, x, ch); Records(c, r) && Faithful(c, r)
  {
  }

  lemma WriteFaithful(c: Config, s: State, x: Proc, ch: Choice)
    requires ValidConfig(c) && Faithful(c, s)
    ensures var (r, _) := StepWrite(c, s, x, ch); Faithful(c, r)
  {
  }

  // ---- one step

  /** What a step leaves alone outside the lock, and how it moves inside. */
  lemma OutsideShares(c: Config, s: State, x: Proc, ch: Choice)
    requires ValidConfig(c) && !Reads(x) && !Writes(x)
    ensures var (r, _) := Next(c, s, x, ch);
      r.ring == s.ring && r.start == s.start && r.end == s.end &&
      r.committed == s.committed && r.delivered == s.delivered
  {
    hide IntAt;
    var (r, y) := Next(c, s, x, ch);
    assert r.ring == s.ring && r.start == s.start && r.end == s.end &&
      r.committed == s.committed && r.delivered == s.delivered;
  }

  lemma InsideMoves(c: Config, s: State, x: Proc, ch: Choice)
    requires ValidConfig(c) && (Reads(x) || Writes(x))
    requires s.start == Slot(c, |s.delivered|) + StartShift(c)(x)
    requires s.end == Slot(c, |s.committed|) + EndShift(c)(x)
    ensures var (r, _) := Next(c, s, x, ch);
      s.committed <= r.committed && |s.delivered| <= |r.delivered| &&
      (|r.delivered| == |s.delivered| ==> r.start == s.start || r.start != Slot(c, |s.delivered|)) &&
      (|r.committed| == |s.committed| ==> r.end == s.end || r.end != Slot(c, |s.committed|))
  {
    hide Slot, Put, Get, Encode, Stored, Partial, MaxOffset, ReadLength;
    var (r, y) := Next(c, s, x, ch);
    assert s.committed <= r.committed;
  }

  lemma MoverKnows(c: Config, s: State, p: nat, ch: Choice)
    requires ValidConfig(c) && p < |s.procs| && Inv(c, s) && Timely(c, s, p, ch)
    ensures var (r, y) := Next(c, s, s.procs[p], ch);
      Knows(c, r, y) && Records(c, r) && Faithful(c, r)
  {
    var x := s.procs[p];
    TokensMean(c, s);
    if Inside(x) { OnlyMine(c, s, p); }
    if !s.locked { NobodyInside(c, s); }
    hide Slot, Tokens, Records, Faithful, Knows, StepCall, StepWait, StepRead, StepWrite, StepLeave;
    if x.pc.Idle? {
      CallKnows(c, s, x, ch);
    } else if Waits(x) {
      WaitKnows(c, s, x, ch);
    } else if Reads(x) {
      ReadKnows(c, s, x, ch);
      ReadRecords(c, s, x, ch);
    } else if Writes(x) {
      WriteKnows(c, s, x, ch);
      WriteRecords(c, s, x, ch);
      WriteFaithful(c, s, x, ch);
    } else {
      LeaveKnows(c, s, x);
    }
    if !Reads(x) && !Writes(x) { OutsideShares(c, s, x, ch); }
    SameRecords(c, s, Next(c, s, x, ch).0);
  }

  lemma LeaveKnows(c: Config, s: State, x: Proc)
    requires ValidConfig(c) && !x.pc.Idle? && !Waits(x) && !Reads(x) && !Writes(x)
    ensures var (r, y) := StepLeave(s, x); Knows(c, r, y)
  {
    hide Slot, SlotHolds, Encode, Stored, InRing, Right;
    var (r, y) := StepLeave(s, x);
    assert Knows(c, r, y);
  }

  lemma SameRecords(c: Config, s: State, r: State)
    requires ValidConfig(c) && Records(c, s) && Faithful(c, s)
    ensures r.ring == s.ring && r.committed == s.committed && r.delivered == s.delivered ==>
      Records(c, r) && Faithful(c, r)
  {
  }

  lemma OthersKnow(c: Config, s: State, p: nat, q: nat, ch: Choice)
    requires ValidConfig(c) && p < |s.procs| && q < |s.procs| && q != p && Inv(c, s)
    ensures Knows(c, Next(c, s, s.procs[p], ch).0, s.procs[q])
  {
    var x, z := s.procs[p], s.procs[q];
    TokensMean(c, s);
    assert Knows(c, s, z);
    if Reads(x) || Writes(x) {
      OnlyMine(c, s, p);
      hide Slot, Knows, Next, Records, Faithful;
      InsideMoves(c, s, x, ch);
      OutsideKnows(c, s, Next(c, s, x, ch).0, z);
    } else {
      hide Slot, Knows, Next, Records, Faithful;
      OutsideShares(c, s, x, ch);
      SharedKnows(c, s, Next(c, s, x, ch).0, z);
    }
  }

  lemma KnowsProcs(c: Config, r: State, procs: seq<Proc>, z: Proc)
    requires ValidConfig(c) && Knows(c, r, z)
    ensures Knows(c, r.(procs := procs), z)
  {
  }

  lemma StepInv(c: Config, s: State, p: nat, ch: Choice)
    requires ValidConfig(c) && p < |s.procs| && Inv(c, s) && Timely(c, s, p, ch)
    ensures Inv(c, Step(c, s, p, ch))
  {
    hide Next, Tokens, Pointers, Records, Faithful, Knows;
    StepTokens(c, s, p, ch);
    StepPointers(c, s, p, ch);
    MoverKnows(c, s, p, ch);
    var (r, y) := Next(c, s, s.procs[p], ch);
    var t := Step(c, s, p, ch);
    forall q | 0 <= q < |t.procs| ensures Knows(c, t, t.procs[q]) {
      if q != p { OthersKnow(c, s, p, q, ch); }
      KnowsProcs(c, r, t.procs, t.procs[q]);
    }
    SameRecords(c, r, t);
    assert Inv(c, t);
  }

  predicate TimelyRun(c: Config, states: seq<State>, actions: seq<Action>)
    requires ValidConfig(c) && IsRun(c, states, actions)
  {
    forall i :: 0 <= i < |actions| ==> Timely(c, states[i], actions[i].p, actions[i].ch)
  }

  lemma InitialInv(c: Config, s: State)
    requires ValidConfig(c) && Initial(c, s)
    ensures Inv(c, s)
  {
    InitialTokens(c, s);
    InitialPointers(c, s);
  }

  lemma RunInv(c: Config, states: seq<State>, actions: seq<Action>, i: nat)
    requires ValidConfig(c) && IsRun(c, states, actions) && TimelyRun(c, states, actions) && i < |states|
    ensures Inv(c, states[i])
  {
    InitialInv(c, states[0]);
    hide Inv, Step, Initial, Timely;
    for k := 0 to i
      invariant Inv(c, states[k])
    {
      StepInv(c, states[k], actions[k].p, actions[k].ch);
    }
  }

  lemma RunIsFifo(c: Config, states: seq<State>, actions: seq<Action>, i: nat)
    requires ValidConfig(c) && IsRun(c, states, actions) && TimelyRun(c, states, actions) && i < |states|
    ensures Faithful(c, states[i]) && Records(c, states[i])
    ensures |states[i].committed| <= |states[i].delivered| + c.slots
  {
    RunInv(c, states, actions, i);
    TokensMean(c, states[i]);
    hide *;
  }

  // ---- against the calls

  /** What the k-th completed read got, against the data of the k-th completed write: its
      first bytes, as many as were asked for, were there, and fit into a slot. */
  predicate PassesOn(c: Config, states: seq<State>, actions: seq<Action>, i: nat)
    requires |states| == |actions| + 1 && i < |states|
  {
    var ds, w, r := states[i].delivered, WriteCalls(states, actions, i), ReadCalls(states, actions, i);
    |r| == |ds| <= |w| &&
    forall k :: 0 <= k < |ds| ==>
      w[k] < |actions| && actions[w[k]].ch.CallWrite? && r[k] < |actions| && actions[r[k]].ch.CallRead? &&
      Passes(c, actions[w[k]].ch.data, actions[r[k]].ch.count, ds[k])
  }

  predicate Passes(c: Config, data: seq<byte>, count: nat, d: Delivery) {
    var kept := Least(|data|, c.elem);
    d.bytes == data[..Least(count, kept)] && d.ret == if count < kept then count else c.elem
  }

  /** That is what Faithful says of the records. */
  lemma PassesOnIff(c: Config, states: seq<State>, actions: seq<Action>, i: nat)
    requires ValidConfig(c) && IsRun(c, states, actions) && i < |states|
    ensures PassesOn(c, states, actions, i) <==> Faithful(c, states[i])
  {
    RunFromCalls(c, states, actions, i);
    hide IsRun, WriteCalls, ReadCalls;
    var s, w, r := states[i], WriteCalls(states, actions, i), ReadCalls(states, actions, i);
    forall k | 0 <= k < |s.delivered| && k < |s.committed|
      ensures Right(c, s.delivered[k], s.committed[k]) <==>
        Passes(c, actions[w[k]].ch.data, actions[r[k]].ch.count, s.delivered[k])
    {
      PassesIff(c, actions[w[k]].ch.data, s.committed[k], s.delivered[k]);
    }
    hide Right, Passes;
  }

  lemma PassesIff(c: Config, data: seq<byte>, rec: seq<byte>, d: Delivery)
    requires rec <= data && |rec| == Least(|data|, c.elem)
    ensures Right(c, d, rec) <==> Passes(c, data, d.count, d)
  {
    assert Cut(rec, d.count) == data[..Least(d.count, |rec|)];
  }

  /** First in, first out, for any number of readers and writers in any interleaving, with
      headers looked up under the lock: the k-th completed read delivers the k-th committed
      record, cut to the count asked for, that is, as much of what the k-th of the writes was
      called with, and every record not yet delivered is still in its slot, byte for byte. */
  lemma FirstInFirstOut(c: Config, states: seq<State>, actions: seq<Action>, i: nat)
    requires ValidConfig(c) && c.lookup.UnderLock? && IsRun(c, states, actions) && i < |states|
    requires NoFailedWrite(c, states, actions)
    ensures Faithful(c, states[i]) && Records(c, states[i]) && PassesOn(c, states, actions, i)
    ensures |states[i].committed| <= |states[i].delivered| + c.slots
  {
    RunIsFifo(c, states, actions, i);
    PassesOnIff(c, states, actions, i);
  }

  /** The step at which a call gets the lock finds what the call began with: for a write,
      no write has completed in between; for a read, no read has, and there was a record. */
  predicate Undisturbed(states: seq<State>, actions: seq<Action>, i: nat)
    requires |states| == |actions| + 1 && i < |actions| && actions[i].p < |states[i].procs|
  {
    var s, p := states[i], actions[i].p;
    var s0 := states[CallOf(states, actions, p, i)];
    !s.locked && !actions[i].ch.Interrupt? ==>
      (s.procs[p].pc.ReadLock? ==> |s0.delivered| == |s.delivered| < |s0.committed|) &&
      (s.procs[p].pc.WriteLock? ==> |s0.committed| == |s.committed|)
  }

  /** With headers looked up on entry the same holds of the runs in which no two calls of
      one kind overlap and both complete, and no read that completes began on an empty
      ring.  What holds of all other runs is in ScullReads. */
  lemma FirstInFirstOutOnEntry(c: Config, states: seq<State>, actions: seq<Action>, i: nat)
    requires ValidConfig(c) && IsRun(c, states, actions) && i < |states| && NoFailedWrite(c, states, actions)
    requires forall k :: 0 <= k < |actions| ==> Undisturbed(states, actions, k)
    ensures Faithful(c, states[i]) && Records(c, states[i]) && PassesOn(c, states, actions, i)
    ensures |states[i].committed| <= |states[i].delivered| + c.slots
  {
    PassesOnIff(c, states, actions, i);
    forall k | 0 <= k < |actions| ensures Timely(c, states[k], actions[k].p, actions[k].ch) {
      RunRecorded(c, states, actions, actions[k].p, k);
      hide IsRun;
      assert Undisturbed(states, actions, k);
    }
    hide Timely, Undisturbed, PassesOn;
    RunIsFifo(c, states, actions, i);
  }
}
