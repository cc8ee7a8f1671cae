/** What readers get, exactly, with headers looked up on entry: a read delivers its record
    if and only if the length it looked up when it was called serves as well as the
    record's own. */
module ScullReads {
  import opened Octets
  import opened ScullModel
  import opened ScullTokens
  import opened ScullRing
  import opened ScullCalls
  import opened ScullFifo
  import P = ScullPayload

  /** A length looked up cuts a read of a record of length n as the record's own would, in
      the bytes copied and in the value returned. */
  predicate Serves(c: Config, count: nat, mark: int, n: nat) {
    ReadLength(count, mark) == (if count < n then count else n) &&
    (count == c.elem || (count < AsSize(mark) <==> count < n))
  }

  /** For lengths and counts as the machine has them: the right length, or both beyond the
      count, which is then what is returned. */
  lemma ServesIff(c: Config, count: nat, mark: int, n: nat)
    requires n <= c.elem && count < 0x8000_0000_0000_0000 && -0x8000_0000 <= mark < 0x8000_0000
    ensures Serves(c, count, mark, n) <==>
      mark == n || (count < AsSize(mark) && (count < n || (count == n && n == c.elem)))
  {
  }

  lemma RightIff(c: Config, s: State, held: seq<seq<byte>>, x: Proc)
    requires P.HasCopied(c, s, held, x) && P.SameSizes(held, s.committed)
    ensures var rec := s.committed[|s.delivered|];
      Right(c, Delivery(x.count, x.out, x.ret), rec) <==>
      Serves(c, x.count, x.mark, |rec|) && Cut(held[|s.delivered|], x.count) == Cut(rec, x.count)
  {
    var rec, lay := s.committed[|s.delivered|], held[|s.delivered|];
    assert |rec| == |lay|;
    assert |x.out| == |Cut(rec, x.count)| ==> x.out == Cut(lay, x.count);
  }

  /** The length that the call begun at step j looked up. */
  function LookedUp(states: seq<State>, actions: seq<Action>, j: nat): int
    requires j < |states|
  {
    if j < |actions| && actions[j].ch.CallRead?
    then IntAt(states[j].ring, states[j].start, actions[j].ch.wild) else 0
  }

  /** The read that completes at step m, if one does, was served by what it looked up. */
  predicate ServedAt(c: Config, states: seq<State>, actions: seq<Action>, m: nat)
    requires ValidConfig(c) && IsRun(c, states, actions) && m < |actions|
  {
    var s, p := states[m], actions[m].p;
    s.procs[p].pc.ReadWrap? && |s.delivered| < |s.committed| ==>
      Serves(c, s.procs[p].count, LookedUp(states, actions, CallOf(states, actions, p, m)),
             |s.committed[|s.delivered|]|)
  }

  lemma StepFaithful(c: Config, s: State, p: nat, ch: Choice)
    requires ValidConfig(c) && p < |s.procs| && |s.delivered| <= |s.committed|
    requires s.procs[p].pc.ReadWrap? ==> |s.delivered| < |s.committed|
    ensures var x := s.procs[p];
      Faithful(c, Step(c, s, p, ch)) <==>
      Faithful(c, s) &&
      (x.pc.ReadWrap? ==> Right(c, Delivery(x.count, x.out, x.ret), s.committed[|s.delivered|]))
  {
    var x := s.procs[p];
    StepLogs(c, s, p, ch);
    hide Right, Step;
    var r := Step(c, s, p, ch);
    if x.pc.ReadWrap? && Faithful(c, r) {
      assert Right(c, r.delivered[|s.delivered|], r.committed[|s.delivered|]);
      forall k | 0 <= k < |s.delivered| ensures Right(c, s.delivered[k], s.committed[k]) {
        assert Right(c, r.delivered[k], r.committed[k]);
      }
    }
  }

  /** What it copied from was, as far as it asked, the record: the lengths stored over it, if
      any, agree with it so far. */
  predicate UnspoiledAt(c: Config, states: seq<State>, actions: seq<Action>, m: nat)
    requires ValidConfig(c) && IsRun(c, states, actions) && m < |actions|
  {
    var s, x, held := states[m], states[m].procs[actions[m].p], P.HeldAt(c, states, actions, m);
    x.pc.ReadWrap? && |s.delivered| < |s.committed| && |s.delivered| < |held| ==>
      Cut(held[|s.delivered|], x.count) == Cut(s.committed[|s.delivered|], x.count)
  }

  lemma StepServed(c: Config, states: seq<State>, actions: seq<Action>, m: nat)
    requires ValidConfig(c) && c.lookup.OnEntry? && IsRun(c, states, actions) && m < |actions|
    requires P.Inv(c, states[m], P.HeldAt(c, states, actions, m))
    ensures Faithful(c, states[m + 1]) <==>
      Faithful(c, states[m]) && ServedAt(c, states, actions, m) && UnspoiledAt(c, states, actions, m)
  {
    var s, p, held := states[m], actions[m].p, P.HeldAt(c, states, actions, m);
    var x := s.procs[p];
    RunRecorded(c, states, actions, p, m);
    assert P.OnTrack(c, s, held, x) && P.SameSizes(held, s.committed) && P.Ordered(s, held);
    assert states[m + 1] == Step(c, s, p, actions[m].ch);
    hide IsRun, Tokens, Pointers, P.Lies, IntAt, Faithful, Step, Serves, Right, Cut, P.HeldAt;
    StepFaithful(c, s, p, actions[m].ch);
    if x.pc.ReadWrap? { RightIff(c, s, held, x); }
  }

  /** In every run without a failed copy: what was delivered is first in, first out, record
      by record, if and only if every completed read was served by the length in the slot at
      `start` when it was called, and what it read was not spoiled. */
  lemma FaithfulIff(c: Config, states: seq<State>, actions: seq<Action>, i: nat)
    requires ValidConfig(c) && c.lookup.OnEntry? && IsRun(c, states, actions) && i < |states|
    requires NoFailedWrite(c, states, actions)
    ensures Faithful(c, states[i]) <==>
      forall m :: 0 <= m < i ==> ServedAt(c, states, actions, m) && UnspoiledAt(c, states, actions, m)
    ensures Faithful(c, states[i]) <==> PassesOn(c, states, actions, i)
  {
    PassesOnIff(c, states, actions, i);
    assert Faithful(c, states[0]);
    hide Faithful, ServedAt, UnspoiledAt, P.Inv, NoFailedWrite, IsRun, PassesOn;
    for k := 0 to i
      invariant Faithful(c, states[k]) <==>
        forall m :: 0 <= m < k ==> ServedAt(c, states, actions, m) && UnspoiledAt(c, states, actions, m)
    {
      P.RunHeld(c, states, actions, k);
      StepServed(c, states, actions, k);
    }
  }

  /** As long as no length is stored over bytes that it differs from, nothing is spoiled. */
  lemma SparedIsUnspoiled(c: Config, states: seq<State>, actions: seq<Action>, m: nat)
    requires ValidConfig(c) && c.lookup.OnEntry? && IsRun(c, states, actions) && m < |actions|
    requires NoFailedWrite(c, states, actions) && P.SparedUpTo(c, states, actions, m)
    ensures UnspoiledAt(c, states, actions, m)
  {
    assert m < |states|;
    hide IsRun, NoFailedWrite, P.SparedUpTo, P.HeldAt, Cut;
    P.RunSpared(c, states, actions, m);
  }

  /** A writer that was called when another was still to fill its slot stores its length
      into that slot when it is filled: that spoils the record there unless the lengths
      happen to agree. */
  lemma StaleStoreIff(c: Config, states: seq<State>, actions: seq<Action>, m: nat, k: nat)
    requires ValidConfig(c) && c.lookup.OnEntry? && IsRun(c, states, actions) && m < |actions|
    requires states[m].procs[actions[m].p].pc.WriteStore? && Records(c, states[m])
    requires |states[m].delivered| <= k < |states[m].committed|
    requires states[CallOf(states, actions, actions[m].p, m)].end == Slot(c, k)
    ensures Records(c, states[m + 1]) <==>
      |Stored(c, states[m].procs[actions[m].p].data)| == |states[m].committed[k]|
  {
    var s, p := states[m], actions[m].p;
    var x := s.procs[p];
    RunRecorded(c, states, actions, p, m);
    RunTokens(c, states, actions, m);
    TokensMean(c, s);
    assert states[m + 1] == Step(c, s, p, actions[m].ch);
    var n, at := |Stored(c, x.data)|, Slot(c, k);
    var r := states[m + 1];
    assert r.ring == Put(s.ring, at, Encode(n)) && r.committed == s.committed && r.delivered == s.delivered;
    hide IsRun, Tokens, Step, Stored;
    assert SlotHolds(s.ring, at, s.committed[k]);
    HeaderOverIff(s.ring, at, s.committed[k], n);
    hide Slot, SlotHolds, Put, Encode;
    assert Records(c, r) ==> SlotHolds(r.ring, at, r.committed[k]);
    assert n == |s.committed[k]| ==> r.ring == s.ring;
  }

  lemma HeaderOverIff(ring: seq<byte>, at: nat, rec: seq<byte>, n: nat)
    requires SlotHolds(ring, at, rec) && n < 0x8000_0000
    ensures SlotHolds(Put(ring, at, Encode(n)), at, rec) <==> n == |rec|
    ensures n == |rec| ==> Put(ring, at, Encode(n)) == ring
  {
    DecodeEncode(n);
    DecodeEncode(|rec|);
    var e, r := Encode(n), Put(ring, at, Encode(n));
    assert |e| == HEADER;
    hide Encode, Decode;
    assert r[at..at + HEADER] == e;
    var h := ring[at..at + HEADER];
    assert forall i :: 0 <= i < HEADER ==> h[i] == ring[at + i];
    assert r[at + HEADER..at + HEADER + |rec|] == ring[at + HEADER..at + HEADER + |rec|];
  }

  /** A read returns the number of bytes it delivered exactly when the record was cut
      to the count, or fills a whole slot: otherwise it returns the size of a slot. */
  lemma ReturnsLengthIff(c: Config, d: Delivery, rec: seq<byte>)
    requires Right(c, d, rec)
    ensures d.ret == |d.bytes| <==> d.count < |rec| || |rec| == c.elem
  {
  }
}
