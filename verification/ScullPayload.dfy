/** The bytes in the ring.  Every write puts its bytes into its own slot, whatever it
    looked up; only its length can land elsewhere.  Unread bytes are spoiled exactly by a
    length stored in the middle of a slot, where another writer was when the call began;
    what then lies in the slot is the record with those four bytes over it. */
module ScullPayload {
  import opened Octets
  import opened ScullModel
  import opened ScullTokens
  import opened ScullRing
  import opened ScullCalls
  import Arith

  /** Where `end` can be: at a slot, past its header, or past the slot. */
  ghost predicate EndForm(c: Config, m: int)
    requires ValidConfig(c)
  {
    exists k: nat :: m == Slot(c, k) || m == Slot(c, k) + HEADER || m == Slot(c, k) + SlotSize(c)
  }

  /** The bytes of a record in the slot at an offset, whatever its header says. */
  predicate Payload(ring: seq<byte>, at: int, rec: seq<byte>) {
    InRing(ring, at + HEADER, |rec|) && ring[at + HEADER..at + HEADER + |rec|] == rec
  }

  /** What lies in the slots of the unread records: held[k] in that of the k-th. */
  predicate Lies(c: Config, s: State, held: seq<seq<byte>>)
    requires ValidConfig(c)
  {
    |s.delivered| <= |held| &&
    forall k :: |s.delivered| <= k < |held| ==> |held[k]| <= c.elem && Payload(s.ring, Slot(c, k), held[k])
  }

  /** The unread records lie there. */
  predicate Payloads(c: Config, s: State)
    requires ValidConfig(c)
  {
    Lies(c, s, s.committed)
  }

  /** Equal as far as both go. */
  predicate Agree(a: seq<byte>, b: seq<byte>) {
    forall i :: 0 <= i < |a| && i < |b| ==> a[i] == b[i]
  }

  /** The k-th completed read got bytes of the k-th of some records, and no more than it
      asked for. */
  predicate Ordered(s: State, held: seq<seq<byte>>) {
    |s.delivered| <= |held| &&
    forall k :: 0 <= k < |s.delivered| ==>
      Agree(s.delivered[k].bytes, held[k]) && |s.delivered[k].bytes| <= s.delivered[k].count
  }

  /** What a process has done right so far. */
  ghost predicate OnTrack(c: Config, s: State, held: seq<seq<byte>>, x: Proc)
    requires ValidConfig(c)
  {
    match x.pc
    case ReadAdvance => HasCopied(c, s, held, x)
    case ReadWrap => HasCopied(c, s, held, x)
    case WriteDown => EndForm(c, x.mark)
    case WriteLock => EndForm(c, x.mark)
    case WriteHeader => EndForm(c, x.mark)
    case WriteStore => EndForm(c, x.mark)
    case WriteAdvance => Payload(s.ring, Slot(c, |s.committed|), Stored(c, x.data))
    case WriteWrap => Payload(s.ring, Slot(c, |s.committed|), Stored(c, x.data))
    case _ => true
  }

  /** A read has copied bytes of what lay in its slot, as many as the length it looked up
      makes it. */
  predicate HasCopied(c: Config, s: State, held: seq<seq<byte>>, x: Proc) {
    |s.delivered| < |held| && Agree(x.out, held[|s.delivered|]) &&
    |x.out| == ReadLength(x.count, x.mark) && x.ret == if x.count < AsSize(x.mark) then x.count else c.elem
  }

  predicate SameSizes(a: seq<seq<byte>>, b: seq<seq<byte>>) {
    |a| == |b| && forall k :: 0 <= k < |a| ==> |a[k]| == |b[k]|
  }

  ghost predicate Inv(c: Config, s: State, held: seq<seq<byte>>)
    requires ValidConfig(c)
  {
    Tokens(c, s) && Pointers(c, s) && SameSizes(held, s.committed) && Lies(c, s, held) && Ordered(s, held) &&
    forall p :: 0 <= p < |s.procs| ==> OnTrack(c, s, held, s.procs[p])
  }

  /** Some bytes stored over the first bytes of others. */
  function Over(rec: seq<byte>, e: seq<byte>): (r: seq<byte>)
    ensures |r| == |rec| && forall i :: 0 <= i < |rec| ==> r[i] == if i < |e| then e[i] else rec[i]
  {
    seq(|rec|, i requires 0 <= i < |rec| => if i < |e| then e[i] else rec[i])
  }

  /** A length stored at m: over the bytes of the unread record just past whose header that is. */
  function Overlaid(c: Config, s: State, held: seq<seq<byte>>, m: int, n: nat): (r: seq<seq<byte>>)
    requires ValidConfig(c) && n < 0x1_0000_0000
    ensures |r| == |held| && forall k :: 0 <= k < |held| ==>
      r[k] == if |s.delivered| <= k && m == Slot(c, k) + HEADER then Over(held[k], Encode(n)) else held[k]
  {
    seq(|held|, k requires 0 <= k < |held| =>
      if |s.delivered| <= k && m == Slot(c, k) + HEADER then Over(held[k], Encode(n)) else held[k])
  }

  /** What lies in the slots after a step of a process that looked up the slot at m. */
  function Holds(c: Config, s: State, x: Proc, m: int, held: seq<seq<byte>>): seq<seq<byte>>
    requires ValidConfig(c)
  {
    if x.pc.WriteStore? then Overlaid(c, s, held, m, |Stored(c, x.data)|)
    else if x.pc.WriteWrap? then held + [Stored(c, x.data)]
    else held
  }

  /** A length stored at m agrees with the unread record into whose bytes it falls. */
  predicate StoreAgrees(c: Config, s: State, m: int, n: nat)
    requires ValidConfig(c) && n < 0x1_0000_0000
  {
    forall k :: |s.delivered| <= k < |s.committed| && m == Slot(c, k) + HEADER ==> Agree(Encode(n), s.committed[k])
  }

  /** The step of process p does not spoil anything. */
  predicate Spares(c: Config, s: State, p: nat)
    requires ValidConfig(c) && p < |s.procs|
  {
    var x := s.procs[p];
    x.pc.WriteStore? ==> StoreAgrees(c, s, x.mark, |Stored(c, x.data)|)
  }

  // ---- the ring

  /** Two slots are the same or apart. */
  lemma SlotsAlign(c: Config, j: nat, k: nat)
    requires ValidConfig(c)
    ensures Slot(c, j) == Slot(c, k) || Slot(c, j) + SlotSize(c) <= Slot(c, k) || Slot(c, k) + SlotSize(c) <= Slot(c, j)
  {
    var a, b := j % c.slots, k % c.slots;
    if a < b { Arith.MulMono(a + 1, b, SlotSize(c)); }
    if b < a { Arith.MulMono(b + 1, a, SlotSize(c)); }
  }

  lemma PutBeside(ring: seq<byte>, w: int, data: seq<byte>, at: int, rec: seq<byte>)
    requires Payload(ring, at, rec)
    requires w + |data| <= at + HEADER || at + HEADER + |rec| <= w
    ensures Payload(Put(ring, w, data), at, rec)
  {
    var r := Put(ring, w, data);
    assert forall i :: at + HEADER <= i < at + HEADER + |rec| ==> r[i] == ring[i];
    assert r[at + HEADER..at + HEADER + |rec|] == ring[at + HEADER..at + HEADER + |rec|];
  }

  lemma PutOver(ring: seq<byte>, e: seq<byte>, at: int, rec: seq<byte>)
    requires Payload(ring, at, rec)
    ensures Payload(Put(ring, at + HEADER, e), at, Over(rec, e))
  {
    var to := at + HEADER;
    var r := Put(ring, to, e);
    assert forall i :: 0 <= i < |rec| ==> r[to..to + |rec|][i] == if i < |e| then e[i] else ring[to..to + |rec|][i];
    assert r[to..to + |rec|] == Over(rec, e);
  }

  /** Four bytes at a place where `end` can be, against what lies in one slot: they fall onto
      it only just past its header. */
  lemma FourBytes(c: Config, ring: seq<byte>, m: int, e: seq<byte>, k: nat, rec: seq<byte>)
    requires ValidConfig(c) && EndForm(c, m) && |e| == HEADER && |rec| <= c.elem && Payload(ring, Slot(c, k), rec)
    ensures Payload(Put(ring, m, e), Slot(c, k), if m == Slot(c, k) + HEADER then Over(rec, e) else rec)
  {
    var j: nat :| m == Slot(c, j) || m == Slot(c, j) + HEADER || m == Slot(c, j) + SlotSize(c);
    SlotsAlign(c, j, k);
    hide Slot, Put;
    if m == Slot(c, k) + HEADER {
      PutOver(ring, e, Slot(c, k), rec);
    } else {
      PutBeside(ring, m, e, Slot(c, k), rec);
    }
  }

  lemma StoreLies(c: Config, s: State, held: seq<seq<byte>>, m: int, n: nat)
    requires ValidConfig(c) && Lies(c, s, held) && EndForm(c, m) && n < 0x1_0000_0000
    ensures Lies(c, s.(ring := Put(s.ring, m, Encode(n))), Overlaid(c, s, held, m, n))
  {
    var e, r := Encode(n), Overlaid(c, s, held, m, n);
    assert |e| == HEADER;
    hide Slot, Put, Encode, EndForm;
    forall k | |s.delivered| <= k < |held| ensures |r[k]| <= c.elem && Payload(Put(s.ring, m, e), Slot(c, k), r[k]) {
      assert |held[k]| <= c.elem && Payload(s.ring, Slot(c, k), held[k]);
      FourBytes(c, s.ring, m, e, k, held[k]);
    }
  }

  /** Storing a length changes no unread record exactly if it agrees. */
  lemma OverlaidIff(c: Config, s: State, m: int, n: nat)
    requires ValidConfig(c) && n < 0x1_0000_0000
    ensures Overlaid(c, s, s.committed, m, n) == s.committed <==> StoreAgrees(c, s, m, n)
  {
    var e, r := Encode(n), Overlaid(c, s, s.committed, m, n);
    hide Slot, Encode;
    forall k | 0 <= k < |s.committed| ensures Over(s.committed[k], e) == s.committed[k] <==> Agree(e, s.committed[k]) {
      assert Over(s.committed[k], e) == s.committed[k] ==>
        forall i :: 0 <= i < |e| && i < |s.committed[k]| ==> Over(s.committed[k], e)[i] == e[i];
    }
    if r == s.committed {
      forall k | |s.delivered| <= k < |s.committed| && m == Slot(c, k) + HEADER ensures Agree(e, s.committed[k]) {
        assert r[k] == Over(s.committed[k], e);
      }
    }
  }

  /** As the ring has one content, what lies in the slots is determined. */
  lemma LiesOnce(c: Config, s: State, a: seq<seq<byte>>, b: seq<seq<byte>>)
    requires ValidConfig(c) && Lies(c, s, a) && Lies(c, s, b) && SameSizes(a, b)
    ensures forall k :: |s.delivered| <= k < |a| ==> a[k] == b[k]
  {
    forall k | |s.delivered| <= k < |a| ensures a[k] == b[k] {
      assert Payload(s.ring, Slot(c, k), a[k]) && Payload(s.ring, Slot(c, k), b[k]);
    }
  }

  /** Storing a length spoils a record exactly if it does not agree. */
  lemma StoreIff(c: Config, s: State, m: int, n: nat)
    requires ValidConfig(c) && Payloads(c, s) && EndForm(c, m) && n < 0x1_0000_0000
    ensures Payloads(c, s.(ring := Put(s.ring, m, Encode(n)))) <==> StoreAgrees(c, s, m, n)
  {
    var r := s.(ring := Put(s.ring, m, Encode(n)));
    StoreLies(c, s, s.committed, m, n);
    OverlaidIff(c, s, m, n);
    hide Slot, Put, Encode, EndForm, StoreAgrees, Payload;
    if Payloads(c, r) {
      LiesOnce(c, r, s.committed, Overlaid(c, s, s.committed, m, n));
      assert Overlaid(c, s, s.committed, m, n) == s.committed;
    }
  }

  lemma BytesBeside(c: Config, s: State, held: seq<seq<byte>>, data: seq<byte>)
    requires ValidConfig(c) && Lies(c, s, held) && |held| < |s.delivered| + c.slots && |data| <= c.elem
    requires |s.ring| == MaxOffset(c)
    ensures var r := s.(ring := Put(s.ring, Slot(c, |held|) + HEADER, data));
      Lies(c, r, held) && Payload(r.ring, Slot(c, |held|), data)
  {
    var w := |held|;
    var at := Slot(c, w) + HEADER;
    SlotInRing(c, w);
    assert Put(s.ring, at, data)[at..at + |data|] == data;
    forall k | |s.delivered| <= k < w ensures Payload(Put(s.ring, at, data), Slot(c, k), held[k]) {
      SlotsApart(c, k, w);
      assert |held[k]| <= c.elem;
      hide Slot, Put;
      PutBeside(s.ring, at, data, Slot(c, k), held[k]);
    }
  }

  // ---- where `end` is

  /** Somebody is inside the lock when it is held. */
  lemma SomebodyInside(c: Config, s: State)
    requires Tokens(c, s) && s.locked
    ensures exists p :: 0 <= p < |s.procs| && Inside(s.procs[p])
  {
    if forall p :: 0 <= p < |s.procs| ==> !Inside(s.procs[p]) {
      TotalZero(s.procs, HoldsLock());
    }
  }

  lemma EndHasForm(c: Config, s: State)
    requires ValidConfig(c) && Tokens(c, s) && Pointers(c, s)
    ensures EndForm(c, s.end)
  {
    if s.locked {
      SomebodyInside(c, s);
      var p :| 0 <= p < |s.procs| && Inside(s.procs[p]);
      OnlyMine(c, s, p);
    } else {
      NobodyInside(c, s);
    }
    assert s.end == Slot(c, |s.committed|) + Total(s.procs, EndShift(c));
  }

  // ---- one step

  lemma CopyAgrees(c: Config, s: State, held: seq<seq<byte>>, x: Proc)
    requires ValidConfig(c) && Lies(c, s, held) && |s.delivered| < |held| && s.start == Slot(c, |s.delivered|)
    requires ReadLength(x.count, x.mark) >= 0
    ensures Agree(Get(s.ring, s.start + HEADER, ReadLength(x.count, x.mark)), held[|s.delivered|])
  {
    var rec, at := held[|s.delivered|], s.start + HEADER;
    var out := Get(s.ring, at, ReadLength(x.count, x.mark));
    assert s.ring[at..at + |rec|] == rec;
    assert forall i :: 0 <= i < |out| && i < |rec| ==> out[i] == s.ring[at..at + |rec|][i];
  }

  lemma ReadStep(c: Config, s: State, held: seq<seq<byte>>, x: Proc, ch: Choice)
    requires ValidConfig(c) && Reads(x) && Lies(c, s, held) && Ordered(s, held) && OnTrack(c, s, held, x)
    requires x.pc.ReadCopy? ==> s.start == Slot(c, |s.delivered|) && |s.delivered| < |held|
    ensures var (r, y) := StepRead(c, s, x, ch); Lies(c, r, held) && Ordered(r, held) && OnTrack(c, r, held, y)
  {
    if x.pc.ReadCopy? && ReadLength(x.count, x.mark) >= 0 { CopyAgrees(c, s, held, x); }
    assert ReadLength(x.count, x.mark) <= x.count;
    hide Slot, Payload, Get, MaxOffset, ReadLength, Agree, AsSize;
    var (r, y) := StepRead(c, s, x, ch);
    assert Lies(c, r, held) && Ordered(r, held) && OnTrack(c, r, held, y);
  }

  lemma WriteStep(c: Config, s: State, held: seq<seq<byte>>, x: Proc, ch: Choice)
    requires ValidConfig(c) && Writes(x) && Lies(c, s, held) && Ordered(s, held) && OnTrack(c, s, held, x)
    requires |s.ring| == MaxOffset(c) && |held| == |s.committed|
    requires x.pc.WriteCopy? ==>
      s.end == Slot(c, |s.committed|) + HEADER && !ch.Fault? && |s.committed| < |s.delivered| + c.slots
    ensures var (r, y) := StepWrite(c, s, x, ch); var to := Holds(c, s, x, x.mark, held);
      Lies(c, r, to) && Ordered(r, to) && OnTrack(c, r, to, y)
  {
    var data := Stored(c, x.data);
    if x.pc.WriteStore? { StoreLies(c, s, held, x.mark, |data|); }
    if x.pc.WriteCopy? { BytesBeside(c, s, held, data); }
    hide Slot, Payload, Put, Encode, MaxOffset, Agree, EndForm, Stored, Over;
    var (r, y) := StepWrite(c, s, x, ch);
    var to := Holds(c, s, x, x.mark, held);
    assert Lies(c, r, to);
    assert Ordered(r, to) && OnTrack(c, r, to, y);
  }

  lemma OutsideStep(c: Config, s: State, held: seq<seq<byte>>, x: Proc, ch: Choice)
    requires ValidConfig(c) && !Reads(x) && !Writes(x) && OnTrack(c, s, held, x) && EndForm(c, s.end)
    ensures var (r, y) := Next(c, s, x, ch);
      r.ring == s.ring && r.committed == s.committed && r.delivered == s.delivered && OnTrack(c, r, held, y)
  {
    hide Slot, Payload, Agree, IntAt, EndForm, Stored, HasCopied;
    var (r, y) := Next(c, s, x, ch);
    assert r.ring == s.ring && r.committed == s.committed && r.delivered == s.delivered;
    assert OnTrack(c, r, held, y);
  }

  lemma MoverOnTrack(c: Config, s: State, held: seq<seq<byte>>, p: nat, ch: Choice)
    requires ValidConfig(c) && p < |s.procs| && Inv(c, s, held) && !FailedWrite(s, p, ch)
    ensures var x := s.procs[p]; var (r, y) := Next(c, s, x, ch); var to := Holds(c, s, x, x.mark, held);
      Lies(c, r, to) && Ordered(r, to) && OnTrack(c, r, to, y)
  {
    var x := s.procs[p];
    TokensMean(c, s);
    EndHasForm(c, s);
    if Inside(x) { OnlyMine(c, s, p); }
    assert OnTrack(c, s, held, x);
    hide Slot, Tokens, Payload, OnTrack, StepCall, StepWait, StepRead, StepWrite, StepLeave, EndForm, Agree, Stored;
    hide SameSizes, Overlaid;
    assert |held| == |s.committed| by { SizesSame(held, s.committed); }
    if Reads(x) {
      ReadStep(c, s, held, x, ch);
    } else if Writes(x) {
      WriteStep(c, s, held, x, ch);
    } else {
      OutsideStep(c, s, held, x, ch);
    }
  }

  lemma SizesSame(a: seq<seq<byte>>, b: seq<seq<byte>>)
    requires SameSizes(a, b)
    ensures |a| == |b|
  {
  }

  /** Who is not in the lock has nothing in the ring to lose. */
  lemma OthersOnTrack(c: Config, s: State, held: seq<seq<byte>>, p: nat, q: nat, ch: Choice)
    requires ValidConfig(c) && p < |s.procs| && q < |s.procs| && q != p && Inv(c, s, held)
    ensures var x := s.procs[p];
      OnTrack(c, Next(c, s, x, ch).0, Holds(c, s, x, x.mark, held), s.procs[q])
  {
    var x, z := s.procs[p], s.procs[q];
    TokensMean(c, s);
    EndHasForm(c, s);
    assert OnTrack(c, s, held, z) && OnTrack(c, s, held, x);
    assert Reads(x) || Writes(x) ==> !Inside(z);
    hide Tokens, Slot, Payload, Agree, EndForm, Stored, HasCopied, Overlaid;
    if !Reads(x) && !Writes(x) { OutsideStep(c, s, held, x, ch); }
    SameForOthers(c, s, Next(c, s, x, ch).0, held, Holds(c, s, x, x.mark, held), z);
  }

  lemma SameForOthers(c: Config, s: State, r: State, held: seq<seq<byte>>, to: seq<seq<byte>>, z: Proc)
    requires ValidConfig(c) && OnTrack(c, s, held, z)
    requires !Inside(z) ||
      (r.ring == s.ring && r.committed == s.committed && r.delivered == s.delivered && to == held)
    ensures OnTrack(c, r, to, z)
  {
    hide Slot, Payload, Agree, EndForm, Stored;
    assert OnTrack(c, r, to, z);
  }

  lemma SameOnTrack(c: Config, r: State, held: seq<seq<byte>>, procs: seq<Proc>)
    requires ValidConfig(c)
    ensures var t := r.(procs := procs);
      (Lies(c, r, held) ==> Lies(c, t, held)) && (Ordered(r, held) ==> Ordered(t, held)) &&
      forall z :: OnTrack(c, r, held, z) ==> OnTrack(c, t, held, z)
  {
    hide Slot, Payload, Agree, EndForm, Stored;
    var t := r.(procs := procs);
    assert (Lies(c, r, held) ==> Lies(c, t, held)) && (Ordered(r, held) ==> Ordered(t, held));
    forall z | OnTrack(c, r, held, z) ensures OnTrack(c, t, held, z) {
      SameForOthers(c, r, t, held, held, z);
    }
  }

  lemma HoldsSizes(c: Config, s: State, p: nat, ch: Choice, m: int, held: seq<seq<byte>>)
    requires ValidConfig(c) && p < |s.procs| && SameSizes(held, s.committed)
    ensures SameSizes(Holds(c, s, s.procs[p], m, held), Step(c, s, p, ch).committed)
  {
    StepLogs(c, s, p, ch);
    hide Slot, Encode, Stored, Step;
  }

  /** Every step without a failed copy leaves in the slots what Holds says. */
  lemma StepHolds(c: Config, s: State, held: seq<seq<byte>>, p: nat, ch: Choice)
    requires ValidConfig(c) && p < |s.procs| && Inv(c, s, held) && !FailedWrite(s, p, ch)
    ensures Inv(c, Step(c, s, p, ch), Holds(c, s, s.procs[p], s.procs[p].mark, held))
  {
    HoldsSizes(c, s, p, ch, s.procs[p].mark, held);
    hide Next, Tokens, Pointers, Lies, Ordered, OnTrack, Holds, SameSizes;
    StepTokens(c, s, p, ch);
    StepPointers(c, s, p, ch);
    MoverOnTrack(c, s, held, p, ch);
    var (r, y) := Next(c, s, s.procs[p], ch);
    var t, to := Step(c, s, p, ch), Holds(c, s, s.procs[p], s.procs[p].mark, held);
    SameOnTrack(c, r, to, t.procs);
    forall q | 0 <= q < |t.procs| ensures OnTrack(c, t, to, t.procs[q]) {
      if q != p { OthersOnTrack(c, s, held, p, q, ch); }
      assert OnTrack(c, r, to, t.procs[q]);
    }
    assert Inv(c, t, to);
  }

  /** With the records themselves in the slots, they stay there exactly if the step spares
      them. */
  lemma HoldsIff(c: Config, s: State, p: nat, ch: Choice)
    requires ValidConfig(c) && p < |s.procs|
    ensures Holds(c, s, s.procs[p], s.procs[p].mark, s.committed) == Step(c, s, p, ch).committed <==> Spares(c, s, p)
  {
    var x := s.procs[p];
    if x.pc.WriteStore? { OverlaidIff(c, s, x.mark, |Stored(c, x.data)|); }
    StepLogs(c, s, p, ch);
    hide Stored, StoreAgrees, Overlaid, Step;
  }

  /** A step spoils an unread byte exactly if it does not spare it; else all is kept. */
  lemma StepInvIff(c: Config, s: State, p: nat, ch: Choice)
    requires ValidConfig(c) && p < |s.procs| && Inv(c, s, s.committed) && !FailedWrite(s, p, ch)
    ensures Payloads(c, Step(c, s, p, ch)) <==> Spares(c, s, p)
    ensures Spares(c, s, p) ==> Inv(c, Step(c, s, p, ch), Step(c, s, p, ch).committed)
  {
    StepHolds(c, s, s.committed, p, ch);
    HoldsIff(c, s, p, ch);
    SpoiledStays(c, s, p, ch);
  }

  lemma SpoiledStays(c: Config, s: State, p: nat, ch: Choice)
    requires ValidConfig(c) && p < |s.procs|
    requires Inv(c, Step(c, s, p, ch), Holds(c, s, s.procs[p], s.procs[p].mark, s.committed))
    ensures Payloads(c, Step(c, s, p, ch)) ==>
      Holds(c, s, s.procs[p], s.procs[p].mark, s.committed) == Step(c, s, p, ch).committed
  {
    var t, to := Step(c, s, p, ch), Holds(c, s, s.procs[p], s.procs[p].mark, s.committed);
    assert SameSizes(to, t.committed) && Lies(c, t, to);
    HeldBefore(c, s, p, ch, s.committed);
    if Payloads(c, t) {
      hide Step, Holds, Lies, Slot, Tokens, Pointers;
      LiesOnce(c, t, to, t.committed);
      assert to == t.committed;
    }
  }

  /** What has been delivered is not touched any more. */
  lemma HeldBefore(c: Config, s: State, p: nat, ch: Choice, held: seq<seq<byte>>)
    requires ValidConfig(c) && p < |s.procs| && held == s.committed
    ensures var t, to := Step(c, s, p, ch), Holds(c, s, s.procs[p], s.procs[p].mark, held);
      forall k :: 0 <= k < |t.delivered| && k < |to| && k < |t.committed| ==> to[k] == t.committed[k]
  {
    hide Slot, Put, Get, Encode, Stored, Partial, IntAt, MaxOffset, ReadLength, Over;
  }

  // ---- whole runs

  /** What lies in the slots after i steps: of each record its own bytes, with the lengths
      stored over them that writes called in the middle of its slot stored there. */
  function HeldAt(c: Config, states: seq<State>, actions: seq<Action>, i: nat): seq<seq<byte>>
    requires ValidConfig(c) && IsRun(c, states, actions) && i < |states|
  {
    if i == 0 then []
    else
      var s, p := states[i - 1], actions[i - 1].p;
      Holds(c, s, s.procs[p], states[CallOf(states, actions, p, i - 1)].end, HeldAt(c, states, actions, i - 1))
  }

  /** No write so far stored its length into the bytes of an unread record that it differs
      from: in terms of the call, `end` was in the middle of that slot when it began. */
  predicate SparedUpTo(c: Config, states: seq<State>, actions: seq<Action>, i: nat)
    requires ValidConfig(c) && IsRun(c, states, actions) && i < |states|
  {
    forall m :: 0 <= m < i ==>
      (states[m].procs[actions[m].p].pc.WriteStore? ==>
        var j := CallOf(states, actions, actions[m].p, m);
        StoreAgrees(c, states[m], states[j].end, |Stored(c, states[m].procs[actions[m].p].data)|))
  }

  lemma InitialInv(c: Config, s: State)
    requires ValidConfig(c) && Initial(c, s)
    ensures Inv(c, s, [])
  {
    InitialTokens(c, s);
    InitialPointers(c, s);
  }

  /** The length is stored where `end` was when the call began. */
  lemma StoresWhereCalled(c: Config, states: seq<State>, actions: seq<Action>, m: nat)
    requires ValidConfig(c) && c.lookup.OnEntry? && IsRun(c, states, actions) && m < |actions|
    ensures var s, p := states[m], actions[m].p;
      s.procs[p].pc.WriteStore? ==> s.procs[p].mark == states[CallOf(states, actions, p, m)].end
  {
    RunRecorded(c, states, actions, actions[m].p, m);
  }

  lemma HeldStep(c: Config, states: seq<State>, actions: seq<Action>, i: nat)
    requires ValidConfig(c) && c.lookup.OnEntry? && IsRun(c, states, actions) && i < |actions|
    ensures var s, p := states[i], actions[i].p;
      HeldAt(c, states, actions, i + 1) == Holds(c, s, s.procs[p], s.procs[p].mark, HeldAt(c, states, actions, i))
  {
    StoresWhereCalled(c, states, actions, i);
    hide IsRun, Overlaid, CallOf;
  }

  /** So it is in every run without a failed copy. */
  lemma RunHeld(c: Config, states: seq<State>, actions: seq<Action>, i: nat)
    requires ValidConfig(c) && c.lookup.OnEntry? && IsRun(c, states, actions) && i < |states|
    requires NoFailedWrite(c, states, actions)
    ensures Inv(c, states[i], HeldAt(c, states, actions, i))
  {
    InitialInv(c, states[0]);
    hide Inv, Step, Initial, FailedWrite, CallOf, Holds, Overlaid;
    for k := 0 to i
      invariant Inv(c, states[k], HeldAt(c, states, actions, k))
    {
      HeldStep(c, states, actions, k);
      StepHolds(c, states[k], HeldAt(c, states, actions, k), actions[k].p, actions[k].ch);
    }
  }

  lemma InvMeans(c: Config, s: State, held: seq<seq<byte>>)
    requires ValidConfig(c) && Inv(c, s, held)
    ensures Ordered(s, held) && Lies(c, s, held)
  {
  }

  lemma SparesIff(c: Config, states: seq<State>, actions: seq<Action>, m: nat)
    requires ValidConfig(c) && c.lookup.OnEntry? && IsRun(c, states, actions) && m < |actions|
    ensures SparedUpTo(c, states, actions, m + 1) <==>
      SparedUpTo(c, states, actions, m) && Spares(c, states[m], actions[m].p)
  {
    StoresWhereCalled(c, states, actions, m);
    hide IsRun, StoreAgrees, Stored, CallOf;
  }

  /** As long as no such length is stored, and as long as the unread bytes are in their
      slots, the records themselves lie there. */
  lemma RunSpared(c: Config, states: seq<State>, actions: seq<Action>, i: nat)
    requires ValidConfig(c) && c.lookup.OnEntry? && IsRun(c, states, actions) && i < |states|
    requires NoFailedWrite(c, states, actions)
    requires SparedUpTo(c, states, actions, i) || forall m :: 0 <= m <= i ==> Payloads(c, states[m])
    ensures Inv(c, states[i], states[i].committed) && SparedUpTo(c, states, actions, i)
    ensures HeldAt(c, states, actions, i) == states[i].committed
  {
    InitialInv(c, states[0]);
    assert SparedUpTo(c, states, actions, 0) && states[0].committed == [];
    hide Inv, Step, Initial, Payloads, Spares, FailedWrite, SparedUpTo, Holds, CallOf;
    for k := 0 to i
      invariant Inv(c, states[k], states[k].committed) && SparedUpTo(c, states, actions, k)
      invariant HeldAt(c, states, actions, k) == states[k].committed
    {
      HeldStep(c, states, actions, k);
      HoldsIff(c, states[k], actions[k].p, actions[k].ch);
      if SparedUpTo(c, states, actions, i) { SparedBefore(c, states, actions, k + 1, i); }
      SparesIff(c, states, actions, k);
      StepInvIff(c, states[k], actions[k].p, actions[k].ch);
    }
  }

  lemma SparedBefore(c: Config, states: seq<State>, actions: seq<Action>, k: nat, i: nat)
    requires ValidConfig(c) && IsRun(c, states, actions) && k <= i < |states| && SparedUpTo(c, states, actions, i)
    ensures SparedUpTo(c, states, actions, k)
  {
  }

  /** In every run without a failed copy, with headers looked up on entry: the bytes of the
      unread records are in their slots throughout if and only if no length stored in the
      middle of a slot differs from the record there.  Then every completed read got bytes
      of its record, whatever lengths were looked up. */
  lemma BytesInOrderIff(c: Config, states: seq<State>, actions: seq<Action>, i: nat)
    requires ValidConfig(c) && c.lookup.OnEntry? && IsRun(c, states, actions) && i < |states|
    requires NoFailedWrite(c, states, actions)
    ensures (forall m :: 0 <= m <= i ==> Payloads(c, states[m])) <==> SparedUpTo(c, states, actions, i)
    ensures SparedUpTo(c, states, actions, i) ==> Ordered(states[i], states[i].committed)
  {
    hide IsRun, Ordered, NoFailedWrite, Lies, SparedUpTo, Inv;
    if forall m :: 0 <= m <= i ==> Payloads(c, states[m]) {
      RunSpared(c, states, actions, i);
    }
    if SparedUpTo(c, states, actions, i) {
      forall m | 0 <= m <= i ensures Payloads(c, states[m]) {
        SparedBefore(c, states, actions, m, i);
        RunSpared(c, states, actions, m);
        InvMeans(c, states[m], states[m].committed);
      }
      RunSpared(c, states, actions, i);
      InvMeans(c, states[i], states[i].committed);
    }
  }
}
