/** The driver's critical sections as they run: on the ring and the two pointers, in
    place.  Each is proved to do what the steps of ScullModel do when one process takes
    them one after the other, which inside the lock is how they are taken. */
module ScullDevice {
  import opened Octets
  import opened ScullModel

  /** A process runs through n steps with the same choice, nobody else moving. */
  function Alone(c: Config, s: State, x: Proc, ch: Choice, n: nat): (State, Proc)
    requires ValidConfig(c)
    decreases n
  {
    if n == 0 then (s, x)
    else var (r, y) := Next(c, s, x, ch); Alone(c, r, y, ch, n - 1)
  }

  class Device {
    const elem: nat
    const ring: array<byte>
    var start: int
    var end: int

    ghost predicate Shows(c: Config, s: State)
      reads this, ring
    {
      ValidConfig(c) && elem == c.elem && ring.Length == MaxOffset(c) &&
      ring[..] == s.ring && start == s.start && end == s.end
    }

    /** scull_init_module. */
    constructor (slots: nat, elem: nat)
      requires ValidConfig(Config(slots, elem, OnEntry))
      ensures this.elem == elem && fresh(ring)
      ensures ring.Length == MaxOffset(Config(slots, elem, OnEntry)) && start == 0 && end == 0
    {
      this.elem := elem;
      ring := new byte[(4 + elem) * slots];
      start, end := 0, 0;
    }

    /** Stores bytes at an offset; what falls outside the ring is not modelled. */
    method Store(at: int, data: seq<byte>)
      modifies ring
      ensures ring[..] == Put(old(ring[..]), at, data)
    {
      ghost var was := ring[..];
      var i := 0;
      while i < |data|
        invariant 0 <= i <= |data|
        invariant forall k :: 0 <= k < ring.Length ==>
          ring[k] == (if at <= k < at + i then data[k - at] else was[k])
      {
        if 0 <= at + i < ring.Length {
          ring[at + i] := data[i];
        }
        i := i + 1;
      }
    }

    /** Fetches n bytes from an offset; memory outside the ring reads as 0. */
    method Fetch(at: int, n: nat) returns (out: seq<byte>)
      ensures out == Get(ring[..], at, n)
    {
      out := [];
      var i := 0;
      while i < n
        invariant 0 <= i <= n && |out| == i
        invariant forall k :: 0 <= k < i ==> out[k] == if 0 <= at + k < ring.Length then ring[at + k] else 0
      {
        out := out + [if 0 <= at + i < ring.Length then ring[at + i] else 0];
        i := i + 1;
      }
      assert forall k :: 0 <= k < |out| ==> out[k] == Get(ring[..], at, n)[k];
    }

    /** The length and the bytes of a write go into the ring. */
    method FillSlot(buf: seq<byte>, mark: int, fault: bool, copied: nat, ghost c: Config) returns (n: nat)
      requires ValidConfig(c) && elem == c.elem
      modifies ring
      ensures n == Least(|buf|, elem)
      ensures ring[..] == Put(Put(old(ring[..]), mark, Encode(n)), end,
                              if fault then Partial(buf[..n], copied) else buf[..n])
    {
      hide Put;
      var data := if |buf| > elem then buf[..elem] else buf;
      n := |data|;
      Store(mark, Encode(n));
      if fault {
        Store(end, Partial(data, copied));
      } else {
        Store(end, data);
      }
    }

    /** The body of a write, under the lock; `mark` was looked up before. */
    method WriteLocked(buf: seq<byte>, mark: int, fault: bool, copied: nat, ghost c: Config, ghost s: State)
      returns (ret: int)
      requires Shows(c, s)
      modifies ring, `end
      ensures var x := Proc(WriteHeader, |buf|, buf, mark, [], 0, 0, false);
        if fault then
          var (r, y) := Alone(c, s, x, Fault(copied), 3); Shows(c, r) && y.pc.WriteFail? && ret == -1
        else
          var (r, y) := Alone(c, s, x, Proceed, 5); Shows(c, r) && y.pc.WriteUnlock? && ret == y.ret
      ensures !fault ==> ret == Least(|buf|, elem)
    {
      assert Stored(c, buf) == buf[..Least(|buf|, elem)];
      hide Put, Encode, Partial, Stored, Alone, MaxOffset;
      ghost var x := Proc(WriteHeader, |buf|, buf, mark, [], 0, 0, false);
      end := end + HEADER;
      var n := FillSlot(buf, mark, fault, copied, c);
      if fault {
        FailingWrite(c, s, x, copied);
        assert Shows(c, Alone(c, s, x, Fault(copied), 3).0);
        return -1;
      }
      PassingWrite(c, s, x);
      end := end + elem;
      if end == ring.Length {
        end := 0;
      }
      ret := n;
      assert Shows(c, Alone(c, s, x, Proceed, 5).0);
    }

    /** The body of a read, under the lock; `len` was looked up before. */
    method ReadLocked(count: nat, len: int, fault: bool, ghost c: Config, ghost s: State)
      returns (out: seq<byte>, ret: int)
      requires Shows(c, s)
      modifies `start
      ensures var x := Proc(ReadCopy, count, [], len, [], 0, 0, false);
        var fails := fault || ReadLength(count, len) < 0;
        var (r, y) := Alone(c, s, x, if fault then Fault(0) else Proceed, if fails then 1 else 3);
        Shows(c, r) &&
        (if fails then y.pc.ReadFail? && ret == -1 else y.pc.ReadUnlock? && ret == y.ret && out == y.out)
    {
      ghost var x := Proc(ReadCopy, count, [], len, [], 0, 0, false);
      out := [];
      if fault || (count >= AsSize(len) && len < 0) {
        FailingRead(c, s, x, if fault then Fault(0) else Proceed);
        return out, -1;
      }
      if count < AsSize(len) {
        out := Fetch(start + HEADER, count);
        ret := count;
      } else {
        out := Fetch(start + HEADER, len);
        ret := elem;
      }
      assert out == Get(s.ring, s.start + HEADER, ReadLength(count, len));
      PassingRead(c, s, x);
      start := start + (HEADER + elem);
      if start == ring.Length {
        start := 0;
      }
    }
  }

  // ---- the steps of one section, put together

  lemma AloneStep(c: Config, s: State, x: Proc, ch: Choice, n: nat)
    requires ValidConfig(c) && n > 0
    ensures var (r, y) := Next(c, s, x, ch); Alone(c, s, x, ch, n) == Alone(c, r, y, ch, n - 1)
  {
  }

  lemma PassingWrite(c: Config, s: State, x: Proc)
    requires ValidConfig(c) && x.pc.WriteHeader?
    ensures var (r, y) := Alone(c, s, x, Proceed, 5); var data := Stored(c, x.data);
      y.pc.WriteUnlock? && y.ret == |data| && r.start == s.start &&
      r.ring == Put(Put(s.ring, x.mark, Encode(|data|)), s.end + HEADER, data) &&
      r.end == if s.end + HEADER + c.elem == MaxOffset(c) then 0 else s.end + HEADER + c.elem
  {
    hide Put, Encode, Stored, Partial, MaxOffset, Alone;
    var (s1, x1) := Next(c, s, x, Proceed);
    var (s2, x2) := Next(c, s1, x1, Proceed);
    var (s3, x3) := Next(c, s2, x2, Proceed);
    AloneStep(c, s, x, Proceed, 5);
    AloneStep(c, s1, x1, Proceed, 4);
    AloneStep(c, s2, x2, Proceed, 3);
    hide Next;
    Advancing(c, s3, x3);
  }

  lemma Advancing(c: Config, s: State, x: Proc)
    requires ValidConfig(c) && x.pc.WriteAdvance?
    ensures var (r, y) := Alone(c, s, x, Proceed, 2);
      y.pc.WriteUnlock? && y.ret == x.ret && r.start == s.start && r.ring == s.ring &&
      r.end == if s.end + c.elem == MaxOffset(c) then 0 else s.end + c.elem
  {
  }

  lemma AloneDone(c: Config, s: State, x: Proc, ch: Choice)
    requires ValidConfig(c)
    ensures Alone(c, s, x, ch, 0) == (s, x)
  {
  }

  lemma FailingWrite(c: Config, s: State, x: Proc, copied: nat)
    requires ValidConfig(c) && x.pc.WriteHeader?
    ensures var (r, y) := Alone(c, s, x, Fault(copied), 3); var data := Stored(c, x.data);
      y.pc.WriteFail? && r.start == s.start && r.end == s.end + HEADER &&
      r.ring == Put(Put(s.ring, x.mark, Encode(|data|)), s.end + HEADER, Partial(data, copied))
  {
    hide Put, Encode, Stored, Partial, MaxOffset, Alone;
    var ch := Fault(copied);
    var (s1, x1) := Next(c, s, x, ch);
    var (s2, x2) := Next(c, s1, x1, ch);
    AloneStep(c, s, x, ch, 3);
    AloneStep(c, s1, x1, ch, 2);
    AloneStep(c, s2, x2, ch, 1);
    AloneDone(c, Next(c, s2, x2, ch).0, Next(c, s2, x2, ch).1, ch);
  }

  lemma PassingRead(c: Config, s: State, x: Proc)
    requires ValidConfig(c) && x.pc.ReadCopy? && ReadLength(x.count, x.mark) >= 0
    ensures var (r, y) := Alone(c, s, x, Proceed, 3);
      y.pc.ReadUnlock? && r.ring == s.ring && r.end == s.end &&
      y.out == Get(s.ring, s.start + HEADER, ReadLength(x.count, x.mark)) &&
      y.ret == (if x.count < AsSize(x.mark) then x.count else c.elem) &&
      r.start == if s.start + SlotSize(c) == MaxOffset(c) then 0 else s.start + SlotSize(c)
  {
    hide Get, MaxOffset, Alone, ReadLength, AsSize, SlotSize;
    var (s1, x1) := Next(c, s, x, Proceed);
    var (s2, x2) := Next(c, s1, x1, Proceed);
    var (s3, x3) := Next(c, s2, x2, Proceed);
    AloneStep(c, s, x, Proceed, 3);
    AloneStep(c, s1, x1, Proceed, 2);
    AloneStep(c, s2, x2, Proceed, 1);
    AloneDone(c, s3, x3, Proceed);
    assert x2.pc.ReadWrap? && x2.out == x1.out && x2.ret == x1.ret && s2.start == s.start + SlotSize(c);
    assert Alone(c, s, x, Proceed, 3) == (s3, x3);
    hide Next;
  }

  lemma FailingRead(c: Config, s: State, x: Proc, ch: Choice)
    requires ValidConfig(c) && x.pc.ReadCopy? && (ch.Fault? || ReadLength(x.count, x.mark) < 0)
    ensures var (r, y) := Alone(c, s, x, ch, 1);
      y.pc.ReadFail? && r == s
  {
  }
}
