/** Runs of the driver on which it falls short, from the start on: a length looked up in an
    empty ring, a slot looked up too early, and a slot looked up halfway through. */
module ScullLimits {
  import opened Octets
  import opened ScullModel
  import opened ScullTokens
  import opened ScullRing
  import opened ScullFifo
  import P = ScullPayload

  // ---- making runs

  /** A run, without a failed copy if it is `clean`. */
  predicate GoodRun(c: Config, states: seq<State>, actions: seq<Action>, clean: bool)
    requires ValidConfig(c)
  {
    IsRun(c, states, actions) && (clean ==> NoFailedWrite(c, states, actions))
  }

  function Last(states: seq<State>): State
    requires states != []
  {
    states[|states| - 1]
  }

  predicate Continues(states: seq<State>, longer: seq<State>) {
    |states| < |longer| && longer[..|states|] == states
  }

  lemma Longer(a: seq<State>, b: seq<State>)
    requires Continues(a, b)
    ensures b != []
  {
  }

  lemma ContinuesOn(a: seq<State>, b: seq<State>, d: seq<State>)
    requires Continues(a, b) && Continues(b, d)
    ensures Continues(a, d)
  {
    assert d[..|a|] == b[..|a|];
  }

  /** One more step. */
  lemma Then(c: Config, states: seq<State>, actions: seq<Action>, p: nat, ch: Choice, clean: bool)
    returns (states': seq<State>, actions': seq<Action>)
    requires ValidConfig(c) && GoodRun(c, states, actions, clean) && p < |Last(states).procs| && (clean ==> !ch.Fault?)
    ensures GoodRun(c, states', actions', clean) && Last(states') == Step(c, Last(states), p, ch)
    ensures Continues(states, states')
  {
    states', actions' := states + [Step(c, Last(states), p, ch)], actions + [Action(p, ch)];
    forall i | 0 <= i < |actions'|
      ensures actions'[i].p < |states'[i].procs|
      ensures states'[i + 1] == Step(c, states'[i], actions'[i].p, actions'[i].ch)
      ensures clean ==> !FailedWrite(states'[i], actions'[i].p, actions'[i].ch)
    {
      if i < |actions| {
        assert states'[i] == states[i] && actions'[i] == actions[i] && states'[i + 1] == states[i + 1];
      }
    }
  }

  function AtPc(s: State, p: nat, pc: Pc): seq<Proc>
    requires p < |s.procs|
  {
    s.procs[p := s.procs[p].(pc := pc)]
  }

  function Writer(s: State, data: seq<byte>): Proc {
    Proc(WriteDown, |data|, data, s.end, [], 0, |s.committed|, false)
  }

  function Reader(s: State, count: nat): Proc {
    Proc(ReadDown, count, [], IntAt(s.ring, s.start, 0), [], 0, |s.delivered|, |s.delivered| < |s.committed|)
  }

  lemma WriteCalled(c: Config, states: seq<State>, actions: seq<Action>, p: nat, data: seq<byte>, clean: bool)
    returns (states': seq<State>, actions': seq<Action>)
    requires ValidConfig(c) && GoodRun(c, states, actions, clean)
    requires p < |Last(states).procs| && Last(states).procs[p].pc.Idle?
    ensures GoodRun(c, states', actions', clean) && Continues(states, states')
    ensures Last(states') == Last(states).(procs := Last(states).procs[p := Writer(Last(states), data)])
  {
    hide GoodRun, IntAt;
    states', actions' := Then(c, states, actions, p, CallWrite(data), clean);
  }

  lemma ReadCalled(c: Config, states: seq<State>, actions: seq<Action>, p: nat, count: nat, clean: bool)
    returns (states': seq<State>, actions': seq<Action>)
    requires ValidConfig(c) && GoodRun(c, states, actions, clean)
    requires p < |Last(states).procs| && Last(states).procs[p].pc.Idle?
    ensures GoodRun(c, states', actions', clean) && Continues(states, states')
    ensures Last(states') == Last(states).(procs := Last(states).procs[p := Reader(Last(states), count)])
  {
    hide GoodRun, IntAt;
    states', actions' := Then(c, states, actions, p, CallRead(count, 0), clean);
  }

  /** A writer gets its slot and the lock, and passes the header. */
  lemma Enters(c: Config, states: seq<State>, actions: seq<Action>, p: nat, clean: bool)
    returns (states': seq<State>, actions': seq<Action>)
    requires ValidConfig(c) && c.lookup.OnEntry? && GoodRun(c, states, actions, clean)
    requires var s := Last(states); p < |s.procs| && s.procs[p].pc.WriteDown? && s.empty > 0 && !s.locked
    ensures GoodRun(c, states', actions', clean) && Continues(states, states')
    ensures var s := Last(states);
      Last(states') == s.(empty := s.empty - 1, locked := true, end := s.end + HEADER, procs := AtPc(s, p, WriteStore))
  {
    var s := Last(states);
    hide GoodRun, Put, Get, Encode, Stored, Partial, IntAt, MaxOffset;
    var s1 := s.(empty := s.empty - 1, procs := AtPc(s, p, WriteLock));
    var s2 := s1.(locked := true, procs := AtPc(s, p, WriteHeader));
    states', actions' := Then(c, states, actions, p, Proceed, clean);
    assert Last(states') == s1;
    states', actions' := Then(c, states', actions', p, Proceed, clean);
    assert Last(states') == s2;
    states', actions' := Then(c, states', actions', p, Proceed, clean);
  }

  /** It stores its length where it looked. */
  lemma Stores(c: Config, states: seq<State>, actions: seq<Action>, p: nat, clean: bool)
    returns (states': seq<State>, actions': seq<Action>)
    requires ValidConfig(c) && GoodRun(c, states, actions, clean)
    requires var s := Last(states); p < |s.procs| && s.procs[p].pc.WriteStore?
    ensures GoodRun(c, states', actions', clean) && Continues(states, states')
    ensures var s := Last(states); var x := s.procs[p];
      Last(states') == s.(ring := Put(s.ring, x.mark, Encode(|Stored(c, x.data)|)), procs := AtPc(s, p, WriteCopy))
  {
    hide GoodRun, Put, Get, Encode, Stored, Partial, IntAt, MaxOffset;
    states', actions' := Then(c, states, actions, p, Proceed, clean);
  }

  /** Five steps in a row. */
  predicate Five(c: Config, s: State, p: nat, s1: State, s2: State, s3: State, s4: State, s5: State)
    requires ValidConfig(c)
  {
    p < |s.procs| == |s1.procs| == |s2.procs| == |s3.procs| == |s4.procs| &&
    s1 == Step(c, s, p, Proceed) && s2 == Step(c, s1, p, Proceed) && s3 == Step(c, s2, p, Proceed) &&
    s4 == Step(c, s3, p, Proceed) && s5 == Step(c, s4, p, Proceed)
  }

  lemma ThenFive(c: Config, states: seq<State>, actions: seq<Action>, p: nat, clean: bool,
                 s1: State, s2: State, s3: State, s4: State, s5: State)
    returns (states': seq<State>, actions': seq<Action>)
    requires ValidConfig(c) && GoodRun(c, states, actions, clean) && Five(c, Last(states), p, s1, s2, s3, s4, s5)
    ensures GoodRun(c, states', actions', clean) && Continues(states, states') && Last(states') == s5
  {
    assert states != [];
    hide GoodRun, Step, Continues;
    var t1, a1 := Then(c, states, actions, p, Proceed, clean);
    assert t1 != [] by { Longer(states, t1); }
    var t2, a2 := Then(c, t1, a1, p, Proceed, clean);
    assert t2 != [] by { Longer(t1, t2); }
    var t3, a3 := Then(c, t2, a2, p, Proceed, clean);
    assert t3 != [] by { Longer(t2, t3); }
    var t4, a4 := Then(c, t3, a3, p, Proceed, clean);
    assert t4 != [] by { Longer(t3, t4); }
    states', actions' := Then(c, t4, a4, p, Proceed, clean);
    Longer(t4, states');
    ContinuesOn(states, t1, t2);
    ContinuesOn(states, t2, t3);
    ContinuesOn(states, t3, t4);
    ContinuesOn(states, t4, states');
  }

  lemma CopySteps(c: Config, s: State, p: nat) returns (s1: State, s2: State)
    requires ValidConfig(c) && p < |s.procs| && s.procs[p].pc.WriteCopy?
    ensures |s1.procs| == |s.procs| && s1 == Step(c, s, p, Proceed) && s2 == Step(c, s1, p, Proceed)
    ensures var data := Stored(c, s.procs[p].data);
      s2 == s.(ring := Put(s.ring, s.end, data), end := s.end + c.elem,
               procs := s.procs[p := s.procs[p].(pc := WriteWrap, ret := |data|)])
  {
    var data := Stored(c, s.procs[p].data);
    hide Put, Get, Encode, Stored, Partial, IntAt, MaxOffset;
    var x := s.procs[p].(pc := WriteAdvance, ret := |data|);
    s1 := s.(ring := Put(s.ring, s.end, data), procs := s.procs[p := x]);
    s2 := s1.(end := s.end + c.elem, procs := s.procs[p := x.(pc := WriteWrap)]);
    assert s1 == Step(c, s, p, Proceed);
    assert s2 == Step(c, s1, p, Proceed);
  }

  lemma LeaveSteps(c: Config, s: State, p: nat) returns (s3: State, s4: State, s5: State)
    requires ValidConfig(c) && p < |s.procs| && s.procs[p].pc.WriteWrap?
    ensures |s.procs| == |s3.procs| == |s4.procs|
    ensures s3 == Step(c, s, p, Proceed) && s4 == Step(c, s3, p, Proceed) && s5 == Step(c, s4, p, Proceed)
    ensures s5 == s.(end := if s.end == MaxOffset(c) then 0 else s.end, locked := false, full := s.full + 1,
                     committed := s.committed + [Stored(c, s.procs[p].data)], procs := s.procs[p := Fresh()])
  {
    hide Put, Get, Encode, Stored, Partial, IntAt, MaxOffset;
    var x := s.procs[p];
    s3 := s.(end := if s.end == MaxOffset(c) then 0 else s.end, committed := s.committed + [Stored(c, x.data)],
             procs := s.procs[p := x.(pc := WriteUnlock)]);
    s4 := s3.(locked := false, procs := s.procs[p := x.(pc := WriteUp)]);
    s5 := s4.(full := s.full + 1, procs := s.procs[p := Fresh()]);
    assert s3 == Step(c, s, p, Proceed);
    assert s4 == Step(c, s3, p, Proceed);
    assert s5 == Step(c, s4, p, Proceed);
  }

  /** It copies its bytes, moves on, and leaves. */
  lemma Commits(c: Config, states: seq<State>, actions: seq<Action>, p: nat, clean: bool)
    returns (states': seq<State>, actions': seq<Action>)
    requires ValidConfig(c) && GoodRun(c, states, actions, clean)
    requires var s := Last(states); p < |s.procs| && s.procs[p].pc.WriteCopy?
    ensures GoodRun(c, states', actions', clean) && Continues(states, states')
    ensures var s := Last(states); var data := Stored(c, s.procs[p].data);
      Last(states') ==
      s.(ring := Put(s.ring, s.end, data), end := if s.end + c.elem == MaxOffset(c) then 0 else s.end + c.elem,
         committed := s.committed + [data], locked := false, full := s.full + 1, procs := s.procs[p := Fresh()])
  {
    assert states != [];
    hide GoodRun, Put, Stored, MaxOffset;
    var s1, s2 := CopySteps(c, Last(states), p);
    var s3, s4, s5 := LeaveSteps(c, s2, p);
    assert Five(c, Last(states), p, s1, s2, s3, s4, s5);
    hide Step;
    states', actions' := ThenFive(c, states, actions, p, clean, s1, s2, s3, s4, s5);
  }

  lemma ReadSteps(c: Config, s: State, p: nat) returns (s1: State, s2: State, s3: State, s4: State, s5: State)
    requires ValidConfig(c) && c.lookup.OnEntry? && p < |s.procs| && s.procs[p].pc.ReadDown? && s.full > 0 && !s.locked
    requires ReadLength(s.procs[p].count, s.procs[p].mark) >= 0
    ensures Five(c, s, p, s1, s2, s3, s4, s5) && s5.committed == s.committed
    ensures var x := s.procs[p];
      s5.delivered == s.delivered +
        [Delivery(x.count, Get(s.ring, s.start + HEADER, ReadLength(x.count, x.mark)),
                  if x.count < AsSize(x.mark) then x.count else c.elem)]
  {
    var x := s.procs[p];
    hide Put, Get, Encode, Stored, Partial, IntAt, MaxOffset, ReadLength, AsSize;
    s1 := s.(full := s.full - 1, procs := AtPc(s, p, ReadLock));
    s2 := s1.(locked := true, procs := AtPc(s, p, ReadCopy));
    var y := x.(pc := ReadAdvance, out := Get(s.ring, s.start + HEADER, ReadLength(x.count, x.mark)),
                ret := if x.count < AsSize(x.mark) then x.count else c.elem);
    s3 := s2.(procs := s.procs[p := y]);
    s4 := s3.(start := s.start + SlotSize(c), procs := s.procs[p := y.(pc := ReadWrap)]);
    assert s1 == Step(c, s, p, Proceed);
    assert s2 == Step(c, s1, p, Proceed);
    assert s3 == Step(c, s2, p, Proceed);
    assert s4 == Step(c, s3, p, Proceed);
    s5 := Step(c, s4, p, Proceed);
  }

  /** A whole read that waits for nothing, up to its delivery. */
  lemma ReadsAll(c: Config, states: seq<State>, actions: seq<Action>, p: nat, clean: bool)
    returns (states': seq<State>, actions': seq<Action>)
    requires ValidConfig(c) && c.lookup.OnEntry? && GoodRun(c, states, actions, clean)
    requires var s := Last(states); p < |s.procs| && s.procs[p].pc.ReadDown? && s.full > 0 && !s.locked
    requires var x := Last(states).procs[p]; ReadLength(x.count, x.mark) >= 0
    ensures GoodRun(c, states', actions', clean) && Continues(states, states')
    ensures var s := Last(states); var x := s.procs[p];
      Last(states').committed == s.committed &&
      Last(states').delivered == s.delivered +
        [Delivery(x.count, Get(s.ring, s.start + HEADER, ReadLength(x.count, x.mark)),
                  if x.count < AsSize(x.mark) then x.count else c.elem)]
  {
    assert states != [];
    hide GoodRun, Five, Get, ReadLength, AsSize;
    var s1, s2, s3, s4, s5 := ReadSteps(c, Last(states), p);
    states', actions' := ThenFive(c, states, actions, p, clean, s1, s2, s3, s4, s5);
  }

  /** The start: two processes, and memory of zeros. */
  function Start(c: Config): State
    requires ValidConfig(c)
  {
    State(seq(MaxOffset(c), _ => 0), 0, 0, 0, c.slots, false, [Fresh(), Fresh()], [], [])
  }

  lemma StartIsRun(c: Config)
    requires ValidConfig(c)
    ensures forall clean :: GoodRun(c, [Start(c)], [], clean)
  {
  }

  // ---- a length looked up in an empty ring

  const ONE_SLOT := Config(1, 1, OnEntry)

  /** A reader enters an empty ring and looks up a length of 0; a writer then commits one
      byte; the reader gets the lock, delivers nothing, and returns 1. */
  lemma EarlyReaderLosesRecord() returns (states: seq<State>, actions: seq<Action>)
    ensures GoodRun(ONE_SLOT, states, actions, true)
    ensures Last(states).committed == [[7]] && Last(states).delivered == [Delivery(1, [], 1)]
    ensures !Faithful(ONE_SLOT, Last(states))
  {
    var c := ONE_SLOT;
    StartIsRun(c);
    states, actions := ReadCalled(c, [Start(c)], [], 0, 1, true);
    assert Start(c).ring[0..HEADER] == [0, 0, 0, 0];
    assert Last(states).procs[0].mark == 0;
    hide GoodRun, IntAt;
    states, actions := WriteCalled(c, states, actions, 1, [7], true);
    states, actions := Enters(c, states, actions, 1, true);
    states, actions := Stores(c, states, actions, 1, true);
    states, actions := Commits(c, states, actions, 1, true);
    states, actions := ReadsAll(c, states, actions, 0, true);
    assert Last(states).delivered[0] == Delivery(1, [], 1);
    assert !Right(c, Last(states).delivered[0], Last(states).committed[0]);
  }

  // ---- a slot looked up too early

  const TWO_SLOTS := Config(2, 4, OnEntry)

  /** The second process is in a write of [9], with its length just stored; the first, idle,
      has written `rec`. */
  predicate HasStored(s: State, rec: seq<byte>) {
    |s.ring| == 16 && s.start == 0 && s.end == 12 && s.full == 1 && s.locked && |s.procs| == 2 &&
    s.procs[0] == Fresh() && s.procs[1].pc.WriteCopy? && s.procs[1].data == [9] &&
    s.committed == [rec] && s.delivered == []
  }

  /** The first has committed; the second has looked a slot up. */
  predicate HasCommitted(s: State, rec: seq<byte>, mark: int) {
    |s.ring| == 16 && s.start == 0 && s.end == 8 && s.full == 1 && s.empty == 1 && !s.locked && |s.procs| == 2 &&
    s.procs[0] == Fresh() && s.procs[1].pc.WriteDown? && s.procs[1].data == [9] && s.procs[1].mark == mark &&
    s.committed == [rec] && s.delivered == []
  }

  /** The first is in the lock, past the header of the first slot. */
  lemma FirstCommits(states: seq<State>, actions: seq<Action>, rec: seq<byte>, mark: int)
    returns (states': seq<State>, actions': seq<Action>)
    requires GoodRun(TWO_SLOTS, states, actions, true) && |rec| <= 4
    requires var first := Proc(WriteStore, |rec|, rec, 0, [], 0, 0, false);
      var second := Proc(WriteDown, 1, [9], mark, [], 0, 0, false);
      Last(states) == State(Start(TWO_SLOTS).ring, 0, 4, 0, 1, true, [first, second], [], [])
    ensures GoodRun(TWO_SLOTS, states', actions', true) && HasCommitted(Last(states'), rec, mark)
    ensures var ring := Last(states').ring;
      ring[0] == |rec| && (forall i :: 1 <= i < 4 ==> ring[i] == 0) &&
      forall i :: 0 <= i < |rec| ==> ring[4 + i] == rec[i]
  {
    assert states != [] && Stored(TWO_SLOTS, rec) == rec;
    assert Encode(|rec|) == [|rec|, 0, 0, 0];
    hide GoodRun, Encode, Stored;
    states', actions' := Stores(TWO_SLOTS, states, actions, 0, true);
    states', actions' := Commits(TWO_SLOTS, states', actions', 0, true);
  }

  /** The second stores its length where it looked. */
  lemma SecondStores(states: seq<State>, actions: seq<Action>, rec: seq<byte>, mark: int)
    returns (states': seq<State>, actions': seq<Action>)
    requires GoodRun(TWO_SLOTS, states, actions, true) && HasCommitted(Last(states), rec, mark)
    ensures GoodRun(TWO_SLOTS, states', actions', true) && HasStored(Last(states'), rec)
    ensures Last(states').ring == Put(Last(states).ring, mark, [1, 0, 0, 0])
  {
    assert states != [] && Stored(TWO_SLOTS, [9]) == [9] && Encode(1) == [1, 0, 0, 0];
    hide GoodRun, Encode, Stored, Put;
    states', actions' := Enters(TWO_SLOTS, states, actions, 1, true);
    states', actions' := Stores(TWO_SLOTS, states', actions', 1, true);
  }

  lemma FirstBytes(ring: seq<byte>, n: byte)
    requires |ring| >= HEADER && ring[0] == n && ring[1] == ring[2] == ring[3] == 0
    ensures IntAt(ring, 0, 0) == n
  {
    assert ring[0..HEADER] == [n, 0, 0, 0];
  }

  /** The second writer commits, and the first slot is read. */
  lemma FirstSlotIsRead(states: seq<State>, actions: seq<Action>, rec: seq<byte>, count: nat, n: byte)
    returns (states': seq<State>, actions': seq<Action>)
    requires GoodRun(TWO_SLOTS, states, actions, true) && HasStored(Last(states), rec)
    requires var ring := Last(states).ring; ring[0] == n && ring[1] == ring[2] == ring[3] == 0
    requires n <= count && n <= 4
    ensures GoodRun(TWO_SLOTS, states', actions', true) && Continues(states, states')
    ensures Last(states').committed == [rec, [9]]
    ensures Last(states').delivered == [Delivery(count, Last(states).ring[4..4 + n], 4)]
  {
    var c := TWO_SLOTS;
    assert states != [];
    hide GoodRun, IntAt;
    states', actions' := Commits(c, states, actions, 1, true);
    states', actions' := ReadCalled(c, states', actions', 0, count, true);
    var t := Last(states');
    assert forall i :: 0 <= i < 12 ==> t.ring[i] == Last(states).ring[i];
    FirstBytes(t.ring, n);
    hide Put, Stored;
    states', actions' := ReadsAll(c, states', actions', 0, true);
    assert Get(t.ring, HEADER, n) == Last(states).ring[4..4 + n];
  }

  /** Two writers look up the first slot.  The second, with the record [9], stores its length
      over that of the record [1, 2], which is then read as [1]. */
  lemma StaleWriterSpoilsRecord()
    returns (states: seq<State>, actions: seq<Action>, before: seq<State>)
    ensures GoodRun(TWO_SLOTS, states, actions, true) && before != [] && before <= states
    ensures !Records(TWO_SLOTS, Last(before))
    ensures Last(states).committed == [[1, 2], [9]] && Last(states).delivered == [Delivery(2, [1], 4)]
    ensures !Faithful(TWO_SLOTS, Last(states))
  {
    before, actions := StaleWriterStores();
    var s := Last(before);
    assert s.ring[0..HEADER][0] == 1 && Encode(2)[0] == 2 && Slot(TWO_SLOTS, 0) == 0;
    assert !SlotHolds(s.ring, Slot(TWO_SLOTS, 0), s.committed[0]);
    assert s.ring[4..5] == [1];
    assert before != [];
    hide GoodRun;
    states, actions := FirstSlotIsRead(before, actions, [1, 2], 2, 1);
    assert !Right(TWO_SLOTS, Last(states).delivered[0], Last(states).committed[0]);
  }

  lemma StaleWriterStores() returns (states: seq<State>, actions: seq<Action>)
    ensures GoodRun(TWO_SLOTS, states, actions, true) && HasStored(Last(states), [1, 2])
    ensures var ring := Last(states).ring; ring[0] == 1 && ring[1] == ring[2] == ring[3] == 0 && ring[4] == 1
  {
    var c := TWO_SLOTS;
    StartIsRun(c);
    hide GoodRun, IntAt, Put;
    states, actions := WriteCalled(c, [Start(c)], [], 0, [1, 2], true);
    states, actions := WriteCalled(c, states, actions, 1, [9], true);
    states, actions := Enters(c, states, actions, 0, true);
    states, actions := FirstCommits(states, actions, [1, 2], 0);
    var rec: seq<byte> := [1, 2];
    assert Last(states).ring[4 + 0] == rec[0];
    states, actions := SecondStores(states, actions, [1, 2], 0);
  }

  // ---- a slot looked up halfway through

  /** The second writer is called when the first, with the record [1, 2, 3, 4], is past the
      header of its slot.  It stores its length over the first bytes of that record, which
      is then read as [1, 0, 0, 0]. */
  lemma MidSlotWriterSpoilsBytes()
    returns (states: seq<State>, actions: seq<Action>, before: seq<State>)
    ensures GoodRun(TWO_SLOTS, states, actions, true) && before != [] && before <= states
    ensures !P.Payloads(TWO_SLOTS, Last(before))
    ensures Last(states).committed == [[1, 2, 3, 4], [9]] && Last(states).delivered == [Delivery(4, [1, 0, 0, 0], 4)]
    ensures !P.Ordered(Last(states), Last(states).committed)
  {
    before, actions := MidSlotWriterStores();
    var s := Last(before);
    assert s.ring[4..8] == [1, 0, 0, 0] && Slot(TWO_SLOTS, 0) == 0;
    assert !P.Payload(s.ring, Slot(TWO_SLOTS, 0), s.committed[0]) by {
      assert s.ring[4..8][1] != s.committed[0][1];
    }
    assert before != [];
    hide GoodRun;
    states, actions := FirstSlotIsRead(before, actions, [1, 2, 3, 4], 4, 4);
    assert Last(states).delivered[0].bytes[1] != Last(states).committed[0][1];
  }

  lemma MidSlotWriterStores() returns (states: seq<State>, actions: seq<Action>)
    ensures GoodRun(TWO_SLOTS, states, actions, true) && HasStored(Last(states), [1, 2, 3, 4])
    ensures var ring := Last(states).ring;
      ring[0] == 4 && ring[1] == ring[2] == ring[3] == 0 && ring[4] == 1 && ring[5] == ring[6] == ring[7] == 0
  {
    var c := TWO_SLOTS;
    StartIsRun(c);
    hide GoodRun, IntAt, Put;
    states, actions := WriteCalled(c, [Start(c)], [], 0, [1, 2, 3, 4], true);
    states, actions := Enters(c, states, actions, 0, true);
    states, actions := WriteCalled(c, states, actions, 1, [9], true);
    states, actions := FirstCommits(states, actions, [1, 2, 3, 4], 4);
    states, actions := SecondStores(states, actions, [1, 2, 3, 4], 4);
  }

  // ---- a copy that fails

  /** A copy from user space fails: the process unlocks and gives its slot back. */
  lemma Fails(c: Config, states: seq<State>, actions: seq<Action>, p: nat, copied: nat)
    returns (states': seq<State>, actions': seq<Action>)
    requires ValidConfig(c) && GoodRun(c, states, actions, false)
    requires var s := Last(states); p < |s.procs| && s.procs[p].pc.WriteCopy?
    ensures GoodRun(c, states', actions', false) && Continues(states, states')
    ensures var s := Last(states);
      Last(states') == s.(ring := Put(s.ring, s.end, Partial(Stored(c, s.procs[p].data), copied)),
                          locked := false, empty := s.empty + 1, procs := s.procs[p := Fresh()])
  {
    var s := Last(states);
    hide GoodRun, Put, Get, Encode, Stored, Partial, IntAt, MaxOffset;
    var s1 := s.(ring := Put(s.ring, s.end, Partial(Stored(c, s.procs[p].data), copied)),
                 procs := AtPc(s, p, WriteFail));
    var s2 := s1.(locked := false, procs := AtPc(s, p, WriteGiveBack));
    states', actions' := Then(c, states, actions, p, Fault(copied), false);
    assert Last(states') == s1;
    states', actions' := Then(c, states', actions', p, Proceed, false);
    assert Last(states') == s2;
    states', actions' := Then(c, states', actions', p, Proceed, false);
  }

  /** What is left when the first process has failed to write [5]. */
  predicate Shifted(s: State) {
    |s.ring| == 16 && s.ring[0] == 1 && s.ring[1] == s.ring[2] == s.ring[3] == 0 && s.start == 0 && s.end == HEADER &&
    s.full == 0 && s.empty == 2 && !s.locked && s.procs == [Fresh(), Fresh()] && s.committed == [] && s.delivered == []
  }

  lemma WriteFails() returns (states: seq<State>, actions: seq<Action>)
    ensures GoodRun(TWO_SLOTS, states, actions, false) && Shifted(Last(states))
  {
    var c := TWO_SLOTS;
    StartIsRun(c);
    assert Stored(c, [5]) == [5] && Encode(1) == [1, 0, 0, 0];
    hide GoodRun, IntAt, Stored, Encode;
    states, actions := WriteCalled(c, [Start(c)], [], 0, [5], false);
    states, actions := Enters(c, states, actions, 0, false);
    states, actions := Stores(c, states, actions, 0, false);
    states, actions := Fails(c, states, actions, 0, 0);
  }

  /** The second process then writes [9]. */
  lemma NextWrites(states: seq<State>, actions: seq<Action>)
    returns (states': seq<State>, actions': seq<Action>)
    requires GoodRun(TWO_SLOTS, states, actions, false) && Shifted(Last(states))
    ensures GoodRun(TWO_SLOTS, states', actions', false) && Continues(states, states')
    ensures var s := Last(states');
      |s.ring| == 16 && s.ring[0] == 1 && s.ring[1] == s.ring[2] == s.ring[3] == 0 && s.ring[4] == 1 && s.start == 0 &&
      s.full == 1 && !s.locked && |s.procs| == 2 && s.procs[0] == Fresh() && s.committed == [[9]] && s.delivered == []
  {
    var c := TWO_SLOTS;
    assert states != [];
    assert Stored(c, [9]) == [9] && Encode(1) == [1, 0, 0, 0];
    hide GoodRun, Stored, Encode;
    var t1, a1 := WriteCalled(c, states, actions, 1, [9], false);
    var t2, a2 := Enters(c, t1, a1, 1, false);
    var t3, a3 := Stores(c, t2, a2, 1, false);
    states', actions' := Commits(c, t3, a3, 1, false);
    hide Continues;
    ContinuesOn(states, t1, t2);
    ContinuesOn(states, t2, t3);
    ContinuesOn(states, t3, states');
  }

  /** The first process fails to write [5], and `end` stays past the header.  The second
      then writes [9], a header too far on, and the first reads [1]: a byte of a length. */
  lemma FailedCopyShiftsRing() returns (states: seq<State>, actions: seq<Action>, before: seq<State>)
    ensures GoodRun(TWO_SLOTS, states, actions, false) && before != [] && before <= states
    ensures var s := Last(before); !s.locked && s.end == HEADER && !Pointers(TWO_SLOTS, s)
    ensures Last(states).committed == [[9]] && Last(states).delivered == [Delivery(1, [1], 4)]
    ensures !Faithful(TWO_SLOTS, Last(states))
  {
    var c := TWO_SLOTS;
    before, actions := WriteFails();
    assert before != [];
    TotalZero(Last(before).procs, EndShift(c));
    assert !Pointers(c, Last(before));
    hide GoodRun, IntAt, Pointers;
    var t1, a1 := NextWrites(before, actions);
    assert Last(t1).ring[HEADER] == 1;
    FirstBytes(Last(t1).ring, 1);
    var t2, a2 := ReadCalled(c, t1, a1, 0, 1, false);
    states, actions := ReadsAll(c, t2, a2, 0, false);
    assert Get(Last(t1).ring, HEADER, 1) == [1];
    assert !Right(c, Last(states).delivered[0], Last(states).committed[0]);
    hide Continues;
    ContinuesOn(t1, t2, states);
    ContinuesOn(before, t1, states);
    PrefixOf(before, states);
  }

  lemma PrefixOf(a: seq<State>, b: seq<State>)
    requires Continues(a, b)
    ensures a <= b
  {
  }
}
