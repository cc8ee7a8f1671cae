/** Which call a process is in: the step at which it began, and what it looked up then. */
module ScullCalls {
  import opened ScullModel

  predicate IsRead(x: Proc) {
    Reads(x) || x.pc.ReadDown? || x.pc.ReadLock? || x.pc.ReadUnlock? || x.pc.ReadUp? || x.pc.ReadFail? ||
    x.pc.ReadGiveBack?
  }

  predicate IsWrite(x: Proc) {
    !x.pc.Idle? && !IsRead(x)
  }

  /** The step at which process p began the call that it is in at state i. */
  function CallOf(states: seq<State>, actions: seq<Action>, p: nat, i: nat): (j: nat)
    requires |states| == |actions| + 1 && i < |states|
    ensures j <= i
  {
    if i == 0 then 0
    else if actions[i - 1].p == p && p < |states[i - 1].procs| && states[i - 1].procs[p].pc.Idle? then i - 1
    else CallOf(states, actions, p, i - 1)
  }

  /** x is a process in a call that began in state s with ch. */
  predicate Began(c: Config, s: State, ch: Choice, x: Proc) {
    (IsRead(x) ==>
      ch.CallRead? && ch.count == x.count && x.seen == |s.delivered| &&
      (x.seenRecord <==> |s.delivered| < |s.committed|) &&
      (c.lookup.OnEntry? ==> x.mark == IntAt(s.ring, s.start, ch.wild))) &&
    (IsWrite(x) ==>
      ch.CallWrite? && ch.data == x.data && x.seen == |s.committed| && (c.lookup.OnEntry? ==> x.mark == s.end))
  }

  lemma CallBegins(c: Config, s: State, x: Proc, ch: Choice)
    requires ValidConfig(c) && x.pc.Idle?
    ensures Began(c, s, ch, Next(c, s, x, ch).1)
  {
    hide IntAt;
  }

  /** y is still in the call that x is in, or out of it. */
  predicate SameCall(c: Config, x: Proc, y: Proc) {
    y.pc.Idle? ||
    ((IsRead(x) <==> IsRead(y)) && y.count == x.count && y.data == x.data && y.seen == x.seen &&
     y.seenRecord == x.seenRecord && (c.lookup.OnEntry? ==> y.mark == x.mark))
  }

  lemma WaitGoesOn(c: Config, s: State, x: Proc, ch: Choice)
    requires Waits(x)
    ensures SameCall(c, x, StepWait(c, s, x, ch).1)
  {
    hide IntAt;
  }

  lemma WorkGoesOn(c: Config, s: State, x: Proc, ch: Choice)
    requires ValidConfig(c)
    ensures Reads(x) ==> SameCall(c, x, StepRead(c, s, x, ch).1)
    ensures Writes(x) ==> SameCall(c, x, StepWrite(c, s, x, ch).1)
  {
    hide Put, Get, Encode, Partial, Stored, AsSize, MaxOffset;
    assert Reads(x) ==> SameCall(c, x, StepRead(c, s, x, ch).1);
    assert Writes(x) ==> SameCall(c, x, StepWrite(c, s, x, ch).1);
  }

  lemma LeaveGoesOn(c: Config, s: State, x: Proc)
    requires !x.pc.Idle?
    ensures SameCall(c, x, StepLeave(s, x).1)
  {
  }

  lemma CallGoesOn(c: Config, s: State, x: Proc, ch: Choice, s0: State, ch0: Choice)
    requires ValidConfig(c) && !x.pc.Idle? && Began(c, s0, ch0, x)
    ensures Began(c, s0, ch0, Next(c, s, x, ch).1)
  {
    hide IntAt, StepWait, StepRead, StepWrite, StepLeave;
    if Waits(x) {
      WaitGoesOn(c, s, x, ch);
    } else if Reads(x) || Writes(x) {
      WorkGoesOn(c, s, x, ch);
    } else {
      LeaveGoesOn(c, s, x);
    }
    var y := Next(c, s, x, ch).1;
    assert SameCall(c, x, y);
    assert Began(c, s0, ch0, y);
  }

  /** The record that the proofs keep of a call is what the run says about it. */
  predicate Recorded(c: Config, states: seq<State>, actions: seq<Action>, p: nat, i: nat)
    requires |states| == |actions| + 1 && i < |states| && p < |states[i].procs|
  {
    var j := CallOf(states, actions, p, i);
    states[i].procs[p].pc.Idle? ||
    (j < i && j < |actions| && actions[j].p == p && Began(c, states[j], actions[j].ch, states[i].procs[p]))
  }

  lemma StepRecorded(c: Config, states: seq<State>, actions: seq<Action>, p: nat, i: nat)
    requires ValidConfig(c) && IsRun(c, states, actions) && i + 1 < |states| && p < |states[i].procs|
    requires Recorded(c, states, actions, p, i)
    ensures p < |states[i + 1].procs| && Recorded(c, states, actions, p, i + 1)
  {
    var s, a := states[i], actions[i];
    hide Next, Began, Initial;
    assert states[i + 1] == Step(c, s, a.p, a.ch);
    if a.p == p {
      var x := s.procs[p];
      if x.pc.Idle? {
        CallBegins(c, s, x, a.ch);
      } else {
        var j := CallOf(states, actions, p, i);
        CallGoesOn(c, s, x, a.ch, states[j], actions[j].ch);
      }
    }
  }

  // ---- the calls behind the records and the deliveries

  /** The steps at which the writes that have completed began, in the order of completion. */
  function WriteCalls(states: seq<State>, actions: seq<Action>, i: nat): seq<nat>
    requires |states| == |actions| + 1 && i < |states|
  {
    if i == 0 then []
    else
      var s, p := states[i - 1], actions[i - 1].p;
      WriteCalls(states, actions, i - 1) +
      if p < |s.procs| && s.procs[p].pc.WriteWrap? then [CallOf(states, actions, p, i - 1)] else []
  }

  /** The same of the reads. */
  function ReadCalls(states: seq<State>, actions: seq<Action>, i: nat): seq<nat>
    requires |states| == |actions| + 1 && i < |states|
  {
    if i == 0 then []
    else
      var s, p := states[i - 1], actions[i - 1].p;
      ReadCalls(states, actions, i - 1) +
      if p < |s.procs| && s.procs[p].pc.ReadWrap? then [CallOf(states, actions, p, i - 1)] else []
  }

  /** Record k is the beginning of what the k-th of those writes was called with, as much of
      it as a slot holds. */
  predicate RecordsAreData(c: Config, states: seq<State>, actions: seq<Action>, i: nat)
    requires |states| == |actions| + 1 && i < |states|
  {
    var calls, recs := WriteCalls(states, actions, i), states[i].committed;
    |calls| == |recs| &&
    forall k :: 0 <= k < |recs| ==>
      calls[k] < |actions| && actions[calls[k]].ch.CallWrite? &&
      recs[k] <= actions[calls[k]].ch.data && |recs[k]| == Least(|actions[calls[k]].ch.data|, c.elem)
  }

  /** Delivery k is to the k-th of those reads. */
  predicate CountsAreAsked(states: seq<State>, actions: seq<Action>, i: nat)
    requires |states| == |actions| + 1 && i < |states|
  {
    var calls, ds := ReadCalls(states, actions, i), states[i].delivered;
    |calls| == |ds| &&
    forall k :: 0 <= k < |ds| ==>
      calls[k] < |actions| && actions[calls[k]].ch.CallRead? && ds[k].count == actions[calls[k]].ch.count
  }

  lemma OutsideLogs(c: Config, s: State, x: Proc, ch: Choice)
    requires ValidConfig(c) && !Reads(x) && !Writes(x)
    ensures var r := Next(c, s, x, ch).0; r.committed == s.committed && r.delivered == s.delivered
  {
    hide IntAt;
    var r := Next(c, s, x, ch).0;
    assert r.committed == s.committed && r.delivered == s.delivered;
  }

  lemma InsideLogs(c: Config, s: State, x: Proc, ch: Choice)
    requires ValidConfig(c)
    ensures Reads(x) ==>
      var r := StepRead(c, s, x, ch).0;
      r.committed == s.committed &&
      r.delivered == s.delivered + if x.pc.ReadWrap? then [Delivery(x.count, x.out, x.ret)] else []
    ensures Writes(x) ==>
      var r := StepWrite(c, s, x, ch).0;
      r.delivered == s.delivered &&
      r.committed == s.committed + if x.pc.WriteWrap? then [Stored(c, x.data)] else []
  {
    hide Put, Get, Encode, Stored, Partial, MaxOffset, ReadLength, AsSize, SlotSize;
  }

  /** What a step adds to the records and the deliveries. */
  lemma StepLogs(c: Config, s: State, p: nat, ch: Choice)
    requires ValidConfig(c) && p < |s.procs|
    ensures var x := s.procs[p];
      Step(c, s, p, ch).committed == s.committed + if x.pc.WriteWrap? then [Stored(c, x.data)] else []
    ensures var x := s.procs[p];
      Step(c, s, p, ch).delivered ==
      s.delivered + if x.pc.ReadWrap? then [Delivery(x.count, x.out, x.ret)] else []
  {
    var x := s.procs[p];
    InsideLogs(c, s, x, ch);
    if !Reads(x) && !Writes(x) { OutsideLogs(c, s, x, ch); }
    hide StepCall, StepWait, StepRead, StepWrite, StepLeave, Stored;
    var r := Next(c, s, x, ch).0;
    assert r.committed == s.committed + if x.pc.WriteWrap? then [Stored(c, x.data)] else [];
    assert r.delivered == s.delivered + if x.pc.ReadWrap? then [Delivery(x.count, x.out, x.ret)] else [];
    hide Next;
  }

  lemma RecordsMore(c: Config, states: seq<State>, actions: seq<Action>, i: nat)
    requires |states| == |actions| + 1 && i + 1 < |states| && RecordsAreData(c, states, actions, i)
    requires actions[i].p < |states[i].procs|
    requires var x := states[i].procs[actions[i].p];
      states[i + 1].committed == states[i].committed + (if x.pc.WriteWrap? then [Stored(c, x.data)] else []) &&
      (x.pc.WriteWrap? ==>
        var j := CallOf(states, actions, actions[i].p, i);
        j < |actions| && actions[j].ch.CallWrite? && actions[j].ch.data == x.data)
    ensures RecordsAreData(c, states, actions, i + 1)
  {
    hide CallOf;
  }

  lemma CountsMore(states: seq<State>, actions: seq<Action>, i: nat)
    requires |states| == |actions| + 1 && i + 1 < |states| && CountsAreAsked(states, actions, i)
    requires actions[i].p < |states[i].procs|
    requires var x := states[i].procs[actions[i].p];
      states[i + 1].delivered ==
        states[i].delivered + (if x.pc.ReadWrap? then [Delivery(x.count, x.out, x.ret)] else []) &&
      (x.pc.ReadWrap? ==>
        var j := CallOf(states, actions, actions[i].p, i);
        j < |actions| && actions[j].ch.CallRead? && actions[j].ch.count == x.count)
    ensures CountsAreAsked(states, actions, i + 1)
  {
    hide CallOf;
  }

  lemma NextFromCalls(c: Config, states: seq<State>, actions: seq<Action>, i: nat)
    requires ValidConfig(c) && IsRun(c, states, actions) && i + 1 < |states|
    requires RecordsAreData(c, states, actions, i) && CountsAreAsked(states, actions, i)
    ensures RecordsAreData(c, states, actions, i + 1) && CountsAreAsked(states, actions, i + 1)
  {
    var s, a := states[i], actions[i];
    assert states[i + 1] == Step(c, s, a.p, a.ch) && a.p < |s.procs|;
    StepLogs(c, s, a.p, a.ch);
    RunRecorded(c, states, actions, a.p, i);
    hide IsRun, Step, CallOf, IntAt, RecordsAreData, CountsAreAsked, Stored;
    RecordsMore(c, states, actions, i);
    CountsMore(states, actions, i);
  }

  /** In every run, whatever is looked up and whatever fails. */
  lemma RunFromCalls(c: Config, states: seq<State>, actions: seq<Action>, i: nat)
    requires ValidConfig(c) && IsRun(c, states, actions) && i < |states|
    ensures RecordsAreData(c, states, actions, i) && CountsAreAsked(states, actions, i)
  {
    hide Step, RecordsAreData, CountsAreAsked;
    assert RecordsAreData(c, states, actions, 0) && CountsAreAsked(states, actions, 0) by {
      NothingFromCalls(c, states, actions);
    }
    for k := 0 to i
      invariant RecordsAreData(c, states, actions, k) && CountsAreAsked(states, actions, k)
    {
      NextFromCalls(c, states, actions, k);
    }
  }

  lemma NothingFromCalls(c: Config, states: seq<State>, actions: seq<Action>)
    requires ValidConfig(c) && IsRun(c, states, actions)
    ensures RecordsAreData(c, states, actions, 0) && CountsAreAsked(states, actions, 0)
  {
  }

  /** A write that has stored its bytes returns their number. */
  predicate ReturnsStored(c: Config, x: Proc) {
    x.pc.WriteAdvance? || x.pc.WriteWrap? || x.pc.WriteUnlock? || x.pc.WriteUp? ==> x.ret == |Stored(c, x.data)|
  }

  lemma StepReturns(c: Config, s: State, x: Proc, ch: Choice)
    requires ValidConfig(c) && ReturnsStored(c, x)
    ensures ReturnsStored(c, Next(c, s, x, ch).1)
  {
    hide Stored;
    if Writes(x) {
      WriteStepReturns(c, s, x, ch);
    } else {
      OtherStepReturns(c, s, x, ch);
    }
    hide StepWrite, StepRead, StepWait, StepCall, StepLeave, ReturnsStored;
  }

  lemma WriteStepReturns(c: Config, s: State, x: Proc, ch: Choice)
    requires ValidConfig(c) && ReturnsStored(c, x) && Writes(x)
    ensures ReturnsStored(c, StepWrite(c, s, x, ch).1)
  {
    hide Put, Encode, Stored, Partial, MaxOffset;
  }

  lemma OtherStepReturns(c: Config, s: State, x: Proc, ch: Choice)
    requires ValidConfig(c) && ReturnsStored(c, x) && !Writes(x)
    ensures ReturnsStored(c, Next(c, s, x, ch).1)
  {
    if Waits(x) {
      WaitReturns(c, s, x, ch);
    } else if Reads(x) {
      ReadReturns(c, s, x, ch);
    } else {
      LeaveReturns(c, s, x);
    }
    hide StepRead, StepWait, StepLeave, IntAt, Stored;
    assert ReturnsStored(c, Next(c, s, x, ch).1);
  }

  lemma WaitReturns(c: Config, s: State, x: Proc, ch: Choice)
    requires Waits(x)
    ensures ReturnsStored(c, StepWait(c, s, x, ch).1)
  {
    hide IntAt, Stored;
  }

  lemma ReadReturns(c: Config, s: State, x: Proc, ch: Choice)
    requires Reads(x)
    ensures ReturnsStored(c, StepRead(c, s, x, ch).1)
  {
    hide Get, Stored, ReadLength, AsSize;
  }

  lemma LeaveReturns(c: Config, s: State, x: Proc)
    requires ReturnsStored(c, x) && !Reads(x) && !Writes(x)
    ensures ReturnsStored(c, StepLeave(s, x).1)
  {
    hide Stored;
  }

  /** In every run a write on its way out returns the number of bytes that it was called
      with, or the size of a slot if that is less. */
  lemma WriteReturns(c: Config, states: seq<State>, actions: seq<Action>, p: nat, i: nat)
    requires ValidConfig(c) && IsRun(c, states, actions) && i < |states| && p < |states[i].procs|
    ensures ReturnsStored(c, states[i].procs[p])
    ensures states[i].procs[p].pc.WriteUp? ==>
      var j := CallOf(states, actions, p, i);
      j < |actions| && actions[j].ch.CallWrite? && states[i].procs[p].ret == Least(|actions[j].ch.data|, c.elem)
  {
    RunRecorded(c, states, actions, p, i);
    RunReturns(c, states, actions, p, i);
    hide IsRun, CallOf, IntAt;
  }

  lemma StepProcReturns(c: Config, s: State, p: nat, ch: Choice, q: nat)
    requires ValidConfig(c) && p < |s.procs| && q < |s.procs| && ReturnsStored(c, s.procs[q])
    ensures q < |Step(c, s, p, ch).procs| && ReturnsStored(c, Step(c, s, p, ch).procs[q])
  {
    if p == q { StepReturns(c, s, s.procs[p], ch); }
    hide Next, ReturnsStored;
  }

  lemma StepSameProcs(c: Config, s: State, p: nat, ch: Choice)
    requires ValidConfig(c) && p < |s.procs|
    ensures |Step(c, s, p, ch).procs| == |s.procs|
  {
    hide Next;
  }

  lemma RunReturns(c: Config, states: seq<State>, actions: seq<Action>, p: nat, i: nat)
    requires ValidConfig(c) && IsRun(c, states, actions) && i < |states| && p < |states[i].procs|
    ensures ReturnsStored(c, states[i].procs[p])
    decreases i
  {
    if i > 0 {
      var s, a := states[i - 1], actions[i - 1];
      assert states[i] == Step(c, s, a.p, a.ch);
      StepSameProcs(c, s, a.p, a.ch);
      hide Step, ReturnsStored, Initial;
      RunReturns(c, states, actions, p, i - 1);
      StepProcReturns(c, s, a.p, a.ch, p);
    } else {
      assert states[0].procs[p] == Fresh();
    }
  }

  lemma RunRecorded(c: Config, states: seq<State>, actions: seq<Action>, p: nat, i: nat)
    requires ValidConfig(c) && IsRun(c, states, actions) && i < |states| && p < |states[i].procs|
    ensures Recorded(c, states, actions, p, i)
    decreases i
  {
    if i > 0 {
      assert states[i] == Step(c, states[i - 1], actions[i - 1].p, actions[i - 1].ch);
      RunRecorded(c, states, actions, p, i - 1);
      StepRecorded(c, states, actions, p, i - 1);
    }
  }
}
