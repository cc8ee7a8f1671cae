/** The ring: slots, records in slots, and the two pointers into it. */
module ScullRing {
  import opened Octets
  import opened ScullModel
  import opened ScullTokens
  import Arith

  /** The offset of the k-th slot used, counting round the ring. */
  function Slot(c: Config, k: nat): nat
    requires ValidConfig(c)
  {
    (k % c.slots) * SlotSize(c)
  }

  lemma SlotInRing(c: Config, k: nat)
    requires ValidConfig(c)
    ensures Slot(c, k) + SlotSize(c) <= MaxOffset(c)
  {
    Arith.MulMono(k % c.slots + 1, c.slots, SlotSize(c));
  }

  /** The equality test at the end of the ring is enough to wrap. */
  lemma SlotNext(c: Config, k: nat)
    requires ValidConfig(c)
    ensures var next := Slot(c, k) + SlotSize(c);
      Slot(c, k + 1) == if next == MaxOffset(c) then 0 else next
  {
    var n, m, z := k % c.slots, c.slots, SlotSize(c);
    Arith.DivStep(k, m);
    if (k + 1) % m == 0 {
      assert n == m - 1;
    } else {
      assert (k + 1) % m == n + 1;
      Arith.MulMono(n + 2, m, z);
    }
  }

  /** Two records less than a lap apart are in slots that do not overlap. */
  lemma SlotsApart(c: Config, j: nat, k: nat)
    requires ValidConfig(c) && j < k < j + c.slots
    ensures Slot(c, j) + SlotSize(c) <= Slot(c, k) || Slot(c, k) + SlotSize(c) <= Slot(c, j)
  {
    var a, b, m := j % c.slots, k % c.slots, c.slots;
    if a == b {
      assert k - j == (k / m - j / m) * m;
      if k / m - j / m >= 1 { Arith.MulAtLeast(k / m - j / m, m); }
      if k / m - j / m <= 0 { Arith.MulMono(k / m - j / m, 0, m); }
    } else if a < b {
      Arith.MulMono(a + 1, b, SlotSize(c));
    } else {
      Arith.MulMono(b + 1, a, SlotSize(c));
    }
  }

  lemma DecodeEncode(n: nat)
    requires n < 0x8000_0000
    ensures Decode(Encode(n)) == n
  {
    var q := n / 256;
    var r := q / 256;
    assert n / 0x1_0000 == r && n / 0x100_0000 == r / 256;
  }

  /** A record in the slot at an offset: its length in the header, then its bytes. */
  predicate SlotHolds(ring: seq<byte>, at: int, rec: seq<byte>) {
    |rec| < 0x8000_0000 && InRing(ring, at, HEADER + |rec|) &&
    ring[at..at + HEADER] == Encode(|rec|) &&
    ring[at + HEADER..at + HEADER + |rec|] == rec
  }

  lemma SlotHeader(ring: seq<byte>, at: int, rec: seq<byte>, wild: int)
    requires SlotHolds(ring, at, rec)
    ensures IntAt(ring, at, wild) == |rec|
  {
    DecodeEncode(|rec|);
  }

  lemma PutElsewhere(ring: seq<byte>, w: int, data: seq<byte>, at: int, rec: seq<byte>)
    requires SlotHolds(ring, at, rec)
    requires w + |data| <= at || at + HEADER + |rec| <= w
    ensures SlotHolds(Put(ring, w, data), at, rec)
  {
    var r := Put(ring, w, data);
    assert forall i :: at <= i < at + HEADER + |rec| ==> r[i] == ring[i];
    assert r[at..at + HEADER] == ring[at..at + HEADER];
    assert r[at + HEADER..at + HEADER + |rec|] == ring[at + HEADER..at + HEADER + |rec|];
  }

  /** Storing the header, then the bytes, leaves the record in the slot. */
  lemma PutRecord(ring: seq<byte>, at: nat, rec: seq<byte>)
    requires |rec| < 0x8000_0000 && InRing(ring, at, HEADER + |rec|)
    requires ring[at..at + HEADER] == Encode(|rec|)
    ensures SlotHolds(Put(ring, at + HEADER, rec), at, rec)
  {
    var r := Put(ring, at + HEADER, rec);
    assert r[at..at + HEADER] == ring[at..at + HEADER];
    assert r[at + HEADER..at + HEADER + |rec|] == rec;
  }

  // ---- the pointers

  /** How far a writer inside the lock has moved `end` past the slot it is filling. */
  function EndShift(c: Config): Proc -> nat {
    (x: Proc) =>
      if x.pc.WriteStore? || x.pc.WriteCopy? || x.pc.WriteAdvance? then HEADER
      else if x.pc.WriteWrap? then SlotSize(c) else 0
  }

  function StartShift(c: Config): Proc -> nat {
    (x: Proc) => if x.pc.ReadWrap? then SlotSize(c) else 0
  }

  /** `start` is at the oldest record not delivered and `end` at the slot after the
      newest committed, except for the moves of a process inside the lock. */
  predicate Pointers(c: Config, s: State)
    requires ValidConfig(c)
  {
    |s.ring| == MaxOffset(c) &&
    s.start == Slot(c, |s.delivered|) + Total(s.procs, StartShift(c)) &&
    s.end == Slot(c, |s.committed|) + Total(s.procs, EndShift(c))
  }

  /** The move of process p is a failed copy from user space. */
  predicate FailedWrite(s: State, p: nat, ch: Choice)
    requires p < |s.procs|
  {
    s.procs[p].pc.WriteCopy? && ch.Fault?
  }

  /** With one process inside the lock at most, a shift is that process's own. */
  lemma {:induction false} OnlyOne(procs: seq<Proc>, p: nat, w: Proc -> nat)
    requires p < |procs| && forall q :: 0 <= q < |procs| && q != p ==> w(procs[q]) == 0
    ensures Total(procs, w) == w(procs[p])
  {
    if p == 0 {
      TotalZero(procs[1..], w);
    } else {
      OnlyOne(procs[1..], p - 1, w);
    }
  }

  lemma OnlyMine(c: Config, s: State, p: nat)
    requires ValidConfig(c) && p < |s.procs| && Tokens(c, s) && Inside(s.procs[p])
    ensures Total(s.procs, EndShift(c)) == EndShift(c)(s.procs[p])
    ensures Total(s.procs, StartShift(c)) == StartShift(c)(s.procs[p])
  {
    TokensMean(c, s);
    OnlyOne(s.procs, p, EndShift(c));
    OnlyOne(s.procs, p, StartShift(c));
  }

  lemma NobodyInside(c: Config, s: State)
    requires ValidConfig(c) && Tokens(c, s) && !s.locked
    ensures Total(s.procs, EndShift(c)) == 0 && Total(s.procs, StartShift(c)) == 0
  {
    TokensMean(c, s);
    TotalZero(s.procs, EndShift(c));
    TotalZero(s.procs, StartShift(c));
  }

  /** What one move does to the pointers, against its own shift. */
  predicate Moves(c: Config, s: State, r: State, x: Proc, y: Proc)
    requires ValidConfig(c)
  {
    |r.ring| == |s.ring| &&
    r.start - Slot(c, |r.delivered|) - StartShift(c)(y) == s.start - Slot(c, |s.delivered|) - StartShift(c)(x) &&
    r.end - Slot(c, |r.committed|) - EndShift(c)(y) == s.end - Slot(c, |s.committed|) - EndShift(c)(x)
  }

  lemma ReadMoves(c: Config, s: State, x: Proc, ch: Choice)
    requires ValidConfig(c)
    requires x.pc.ReadWrap? ==> s.start == Slot(c, |s.delivered|) + SlotSize(c)
    ensures var (r, y) := StepRead(c, s, x, ch); Moves(c, s, r, x, y)
  {
    SlotNext(c, |s.delivered|);
    hide Slot, Get, MaxOffset, ReadLength;
    var (r, y) := StepRead(c, s, x, ch);
    assert Moves(c, s, r, x, y);
  }

  lemma WriteMoves(c: Config, s: State, x: Proc, ch: Choice)
    requires ValidConfig(c) && !(x.pc.WriteCopy? && ch.Fault?)
    requires x.pc.WriteWrap? ==> s.end == Slot(c, |s.committed|) + SlotSize(c)
    ensures var (r, y) := StepWrite(c, s, x, ch); Moves(c, s, r, x, y)
  {
    SlotNext(c, |s.committed|);
    hide Slot, Put, Stored, Encode, Partial, MaxOffset;
    var (r, y) := StepWrite(c, s, x, ch);
    assert Moves(c, s, r, x, y);
  }

  lemma CallMoves(c: Config, s: State, x: Proc, ch: Choice)
    requires ValidConfig(c) && x.pc.Idle?
    ensures var (r, y) := StepCall(s, x, ch); Moves(c, s, r, x, y)
  {
  }

  lemma WaitMoves(c: Config, s: State, x: Proc, ch: Choice)
    requires ValidConfig(c)
    ensures var (r, y) := StepWait(c, s, x, ch); Moves(c, s, r, x, y)
  {
    hide Slot;
    var (r, y) := StepWait(c, s, x, ch);
    assert Moves(c, s, r, x, y);
  }

  lemma LeaveMoves(c: Config, s: State, x: Proc)
    requires ValidConfig(c)
    ensures var (r, y) := StepLeave(s, x); Moves(c, s, r, x, y)
  {
  }

  lemma MovePointers(c: Config, s: State, x: Proc, ch: Choice)
    requires ValidConfig(c) && !(x.pc.WriteCopy? && ch.Fault?)
    requires x.pc.ReadWrap? ==> s.start == Slot(c, |s.delivered|) + SlotSize(c)
    requires x.pc.WriteWrap? ==> s.end == Slot(c, |s.committed|) + SlotSize(c)
    ensures var (r, y) := Next(c, s, x, ch); Moves(c, s, r, x, y)
  {
    hide Moves, StepRead, StepWrite, StepWait, StepCall, StepLeave;
    var (r, y) := Next(c, s, x, ch);
    if Reads(x) {
      ReadMoves(c, s, x, ch);
      assert Moves(c, s, r, x, y);
    } else if Writes(x) {
      WriteMoves(c, s, x, ch);
      assert Moves(c, s, r, x, y);
    } else {
      WaitMoves(c, s, x, ch);
      LeaveMoves(c, s, x);
      if x.pc.Idle? { CallMoves(c, s, x, ch); }
      assert Moves(c, s, r, x, y);
    }
  }

  /** The ring layout is kept by every step but a failed copy into the ring. */
  lemma StepPointers(c: Config, s: State, p: nat, ch: Choice)
    requires ValidConfig(c) && p < |s.procs| && Tokens(c, s) && Pointers(c, s)
    requires !FailedWrite(s, p, ch)
    ensures Pointers(c, Step(c, s, p, ch))
  {
    hide Next, Slot;
    var x := s.procs[p];
    if Inside(x) { OnlyMine(c, s, p); }
    MovePointers(c, s, x, ch);
    var (r, y) := Next(c, s, x, ch);
    TotalUpdate(s.procs, p, y, StartShift(c));
    TotalUpdate(s.procs, p, y, EndShift(c));
  }

  /** From a good layout a step keeps it exactly when it is not a failed copy into the
      ring: that one leaves `end` past the header of a slot it never fills. */
  lemma StepLayoutIff(c: Config, s: State, p: nat, ch: Choice)
    requires ValidConfig(c) && p < |s.procs| && Tokens(c, s) && Pointers(c, s)
    ensures Pointers(c, Step(c, s, p, ch)) <==> !FailedWrite(s, p, ch)
  {
    if FailedWrite(s, p, ch) {
      hide Slot, Put, Partial;
      var (r, y) := Next(c, s, s.procs[p], ch);
      OnlyMine(c, s, p);
      TotalUpdate(s.procs, p, y, EndShift(c));
      assert r.end == Slot(c, |r.committed|) + HEADER && EndShift(c)(y) == 0;
    } else {
      StepPointers(c, s, p, ch);
    }
  }

  predicate NoFailedWrite(c: Config, states: seq<State>, actions: seq<Action>)
    requires ValidConfig(c) && IsRun(c, states, actions)
  {
    forall i :: 0 <= i < |actions| ==> !FailedWrite(states[i], actions[i].p, actions[i].ch)
  }

  lemma InitialPointers(c: Config, s: State)
    requires ValidConfig(c) && Initial(c, s)
    ensures Pointers(c, s)
  {
    TotalZero(s.procs, EndShift(c));
    TotalZero(s.procs, StartShift(c));
  }

  /** No copy into the ring failed in the first i steps. */
  predicate NoneFailed(c: Config, states: seq<State>, actions: seq<Action>, i: nat)
    requires ValidConfig(c) && IsRun(c, states, actions) && i < |states|
  {
    forall m :: 0 <= m < i ==> !FailedWrite(states[m], actions[m].p, actions[m].ch)
  }

  lemma NoneFailedMore(c: Config, states: seq<State>, actions: seq<Action>, i: nat)
    requires ValidConfig(c) && IsRun(c, states, actions) && i < |actions|
    ensures NoneFailed(c, states, actions, i + 1) <==>
      NoneFailed(c, states, actions, i) && !FailedWrite(states[i], actions[i].p, actions[i].ch)
  {
    hide IsRun, FailedWrite;
  }

  /** Over every run: the pointers are in place throughout exactly if no copy into the ring
      failed. */
  lemma LayoutIff(c: Config, states: seq<State>, actions: seq<Action>, i: nat)
    requires ValidConfig(c) && IsRun(c, states, actions) && i < |states|
    ensures (forall m :: 0 <= m <= i ==> Pointers(c, states[m])) <==> NoneFailed(c, states, actions, i)
  {
    InitialPointers(c, states[0]);
    assert NoneFailed(c, states, actions, 0);
    hide Pointers, Step, Initial, FailedWrite, NoneFailed;
    for k := 0 to i
      invariant (forall m :: 0 <= m <= k ==> Pointers(c, states[m])) <==> NoneFailed(c, states, actions, k)
    {
      RunTokens(c, states, actions, k);
      NoneFailedMore(c, states, actions, k);
      assert states[k + 1] == Step(c, states[k], actions[k].p, actions[k].ch);
      assert (forall m :: 0 <= m <= k + 1 ==> Pointers(c, states[m])) <==>
        (forall m :: 0 <= m <= k ==> Pointers(c, states[m])) && Pointers(c, states[k + 1]);
      if Pointers(c, states[k]) { StepLayoutIff(c, states[k], actions[k].p, actions[k].ch); }
    }
  }

  lemma RunPointers(c: Config, states: seq<State>, actions: seq<Action>, i: nat)
    requires ValidConfig(c) && IsRun(c, states, actions) && NoFailedWrite(c, states, actions) && i < |states|
    ensures Pointers(c, states[i])
  {
    InitialPointers(c, states[0]);
    hide Pointers, Step, Initial, FailedWrite;
    for k := 0 to i
      invariant Pointers(c, states[k])
    {
      RunTokens(c, states, actions, k);
      StepPointers(c, states[k], actions[k].p, actions[k].ch);
    }
  }

  /** Whatever the headers looked up: with no failed copy into the ring, both pointers
      are whole-slot offsets below the end of the ring whenever the lock is free, and
      `end` is the occupied slots ahead of `start`, round the ring. */
  lemma LayoutHolds(c: Config, states: seq<State>, actions: seq<Action>, i: nat)
    requires ValidConfig(c) && IsRun(c, states, actions) && NoFailedWrite(c, states, actions) && i < |states|
    requires !states[i].locked
    ensures var s := states[i];
      s.start == Slot(c, |s.delivered|) < MaxOffset(c) &&
      s.end == Slot(c, |s.delivered| + Occupied(s)) < MaxOffset(c) && 0 <= Occupied(s) <= c.slots
  {
    hide IsRun, NoFailedWrite, Slot, Tokens;
    RunTokens(c, states, actions, i);
    RunPointers(c, states, actions, i);
    var s := states[i];
    NobodyInside(c, s);
    TokensMean(c, s);
    SlotInRing(c, |s.delivered|);
    SlotInRing(c, |s.committed|);
  }
}
