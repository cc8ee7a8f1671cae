/** The bounded FIFO driver of rmiller-pa5/driver/scull.c as a transition system: any
    number of processes, each somewhere inside a read or a write, sharing a byte ring,
    two counting semaphores and a mutex.  One step of a process is one access to what
    is shared, in the order the source makes them.  The header of the next slot is looked
    up before the semaphore and the lock, as it is there, or, in the form it is meant to
    have, as the lock is taken. */
module ScullModel {
  import opened Octets

  const HEADER := 4

  /** When a call looks up the header of its slot: as written, or as meant. */
  datatype Lookup = OnEntry | UnderLock

  /** The parameters of the module, number of slots and payload bytes of a slot; and the
      form of the driver. */
  datatype Config = Config(slots: nat, elem: nat, lookup: Lookup)

  predicate ValidConfig(c: Config) {
    c.slots >= 1 && c.elem < 0x8000_0000
  }

  function SlotSize(c: Config): nat { HEADER + c.elem }

  function MaxOffset(c: Config): nat { SlotSize(c) * c.slots }

  // ---- the four bytes of an int

  function Encode(n: nat): seq<byte>
    requires n < 0x1_0000_0000
  {
    [n % 256, n / 256 % 256, n / 0x1_0000 % 256, n / 0x100_0000]
  }

  function Decode(b: seq<byte>): int
    requires |b| == HEADER
  {
    var u := b[0] as int + 256 * b[1] as int + 0x1_0000 * b[2] as int + 0x100_0000 * b[3] as int;
    if u < 0x8000_0000 then u else u - 0x1_0000_0000
  }

  /** An int compared with a size_t. */
  function AsSize(n: int): int {
    if n < 0 then n + 0x1_0000_0000_0000_0000 else n
  }

  // ---- the ring

  /** The int at an offset; `wild` stands for memory outside the ring. */
  function IntAt(ring: seq<byte>, at: int, wild: int): int {
    if 0 <= at && at + HEADER <= |ring| then Decode(ring[at..at + HEADER]) else wild
  }

  predicate InRing(ring: seq<byte>, at: int, n: int) {
    0 <= at && 0 <= n && at + n <= |ring|
  }

  /** Overwrites bytes; what falls outside the ring is not modelled. */
  function Put(ring: seq<byte>, at: int, data: seq<byte>): (r: seq<byte>)
    ensures |r| == |ring|
    ensures forall i :: 0 <= i < |ring| ==> r[i] == if at <= i < at + |data| then data[i - at] else ring[i]
  {
    seq(|ring|, i requires 0 <= i < |ring| => if at <= i < at + |data| then data[i - at] else ring[i])
  }

  /** n bytes from an offset; memory outside the ring is not modelled and reads as 0. */
  function Get(ring: seq<byte>, at: int, n: nat): (r: seq<byte>)
    ensures |r| == n
  {
    seq(n, i requires 0 <= i < n => if 0 <= at + i < |ring| then ring[at + i] else 0)
  }

  // ---- processes

  datatype Pc =
    | Idle
    | ReadDown | ReadLock | ReadCopy | ReadAdvance | ReadWrap | ReadUnlock | ReadUp
    | ReadFail | ReadGiveBack
    | WriteDown | WriteLock | WriteHeader | WriteStore | WriteCopy | WriteAdvance | WriteWrap
    | WriteUnlock | WriteUp
    | WriteFail | WriteGiveBack

  /** A process: where it is, what was asked of it (`count`, or `data` to write), the
      header it looked up on entry (`mark`: a length for a reader, an offset for a
      writer), and what it copied out.  `seen` and `seenRecord` record, for the proofs,
      how many calls of its kind had completed then, and whether a record was there. */
  datatype Proc = Proc(pc: Pc, count: nat, data: seq<byte>, mark: int, out: seq<byte>, ret: int,
                       seen: nat, seenRecord: bool)

  /** A completed read: bytes asked for, bytes copied out, value returned. */
  datatype Delivery = Delivery(count: nat, bytes: seq<byte>, ret: int)

  /** `committed` and `delivered` record the completed writes and reads. */
  datatype State = State(ring: seq<byte>, start: int, end: int, full: nat, empty: nat, locked: bool,
                         procs: seq<Proc>, committed: seq<seq<byte>>, delivered: seq<Delivery>)

  /** What is left to chance at a step: a new call, an interrupted wait, a copy to or
      from user space that fails after some bytes. */
  datatype Choice =
    | CallRead(count: nat, wild: int)
    | CallWrite(data: seq<byte>)
    | Proceed
    | Interrupt
    | Fault(copied: nat)

  function Fresh(): Proc { Proc(Idle, 0, [], 0, [], 0, 0, false) }

  /** scull_init_module: the ring is whatever memory was allocated. */
  predicate Initial(c: Config, s: State) {
    |s.ring| == MaxOffset(c) && s.start == 0 && s.end == 0 && s.full == 0 && s.empty == c.slots &&
    !s.locked && s.committed == [] && s.delivered == [] &&
    forall p :: 0 <= p < |s.procs| ==> s.procs[p] == Fresh()
  }

  /** The number of bytes a read copies: cut to the count asked for.  A negative number is
      taken for a huge one, and the copy fails. */
  function ReadLength(count: nat, mark: int): int {
    if count < AsSize(mark) then count else mark
  }

  function Least(a: nat, b: nat): nat { if a < b then a else b }

  /** What a write stores: cut to the payload of a slot. */
  function Stored(c: Config, data: seq<byte>): (r: seq<byte>)
    ensures r <= data && |r| == Least(|data|, c.elem)
  {
    if |data| > c.elem then data[..c.elem] else data
  }

  /** A failing copy into the ring: some bytes arrive, the rest is zeroed. */
  function Partial(data: seq<byte>, copied: nat): (r: seq<byte>)
    ensures |r| == |data|
  {
    seq(|data|, i requires 0 <= i < |data| => if i < copied then data[i] else 0)
  }

  /** A call begins: the header is looked up, before any waiting. */
  function StepCall(s: State, x: Proc, ch: Choice): (State, Proc) {
    match ch
    case CallRead(count, wild) =>
      (s, Proc(ReadDown, count, [], IntAt(s.ring, s.start, wild), [], 0,
               |s.delivered|, |s.delivered| < |s.committed|))
    case CallWrite(data) =>
      (s, Proc(WriteDown, |data|, data, s.end, [], 0, |s.committed|, false))
    case _ => (s, x)
  }

  /** Waiting on a semaphore or the mutex: blocked, interrupted, or through. */
  function StepWait(c: Config, s: State, x: Proc, ch: Choice): (State, Proc) {
    match x.pc
    case ReadDown =>
      if ch.Interrupt? then (s, Fresh())
      else if s.full == 0 then (s, x)
      else (s.(full := s.full - 1), x.(pc := ReadLock))
    case ReadLock =>
      if ch.Interrupt? then (s, x.(pc := ReadGiveBack))
      else if s.locked then (s, x)
      else (s.(locked := true),
            x.(pc := ReadCopy, mark := if c.lookup.UnderLock? then IntAt(s.ring, s.start, x.mark) else x.mark))
    case WriteDown =>
      if ch.Interrupt? then (s, Fresh())
      else if s.empty == 0 then (s, x)
      else (s.(empty := s.empty - 1), x.(pc := WriteLock))
    case WriteLock =>
      if ch.Interrupt? then (s, x.(pc := WriteGiveBack))
      else if s.locked then (s, x)
      else (s.(locked := true), x.(pc := WriteHeader, mark := if c.lookup.UnderLock? then s.end else x.mark))
    case _ => (s, x)
  }

  /** A reader inside the lock. */
  function StepRead(c: Config, s: State, x: Proc, ch: Choice): (State, Proc) {
    match x.pc
    case ReadCopy =>
      var n := ReadLength(x.count, x.mark);
      if ch.Fault? || n < 0 then (s, x.(pc := ReadFail))
      else (s, x.(pc := ReadAdvance,
                  out := Get(s.ring, s.start + HEADER, n),
                  ret := if x.count < AsSize(x.mark) then x.count else c.elem))
    case ReadAdvance => (s.(start := s.start + SlotSize(c)), x.(pc := ReadWrap))
    case ReadWrap =>
      (s.(start := if s.start == MaxOffset(c) then 0 else s.start,
          delivered := s.delivered + [Delivery(x.count, x.out, x.ret)]), x.(pc := ReadUnlock))
    case _ => (s, x)
  }

  /** A writer inside the lock. */
  function StepWrite(c: Config, s: State, x: Proc, ch: Choice): (State, Proc)
    requires ValidConfig(c)
  {
    var data := Stored(c, x.data);
    match x.pc
    case WriteHeader => (s.(end := s.end + HEADER), x.(pc := WriteStore))
    case WriteStore => (s.(ring := Put(s.ring, x.mark, Encode(|data|))), x.(pc := WriteCopy))
    case WriteCopy =>
      if ch.Fault? then (s.(ring := Put(s.ring, s.end, Partial(data, ch.copied))), x.(pc := WriteFail))
      else (s.(ring := Put(s.ring, s.end, data)), x.(pc := WriteAdvance, ret := |data|))
    case WriteAdvance => (s.(end := s.end + c.elem), x.(pc := WriteWrap))
    case WriteWrap =>
      (s.(end := if s.end == MaxOffset(c) then 0 else s.end,
          committed := s.committed + [data]), x.(pc := WriteUnlock))
    case _ => (s, x)
  }

  /** Unlocking, then announcing the space or the record, or giving the token back. */
  function StepLeave(s: State, x: Proc): (State, Proc) {
    match x.pc
    case ReadUnlock => (s.(locked := false), x.(pc := ReadUp))
    case ReadUp => (s.(empty := s.empty + 1), Fresh())
    case ReadFail => (s.(locked := false), x.(pc := ReadGiveBack))
    case ReadGiveBack => (s.(full := s.full + 1), Fresh())
    case WriteUnlock => (s.(locked := false), x.(pc := WriteUp))
    case WriteUp => (s.(full := s.full + 1), Fresh())
    case WriteFail => (s.(locked := false), x.(pc := WriteGiveBack))
    case WriteGiveBack => (s.(empty := s.empty + 1), Fresh())
    case _ => (s, x)
  }

  predicate Waits(x: Proc) {
    x.pc.ReadDown? || x.pc.ReadLock? || x.pc.WriteDown? || x.pc.WriteLock?
  }

  predicate Reads(x: Proc) {
    x.pc.ReadCopy? || x.pc.ReadAdvance? || x.pc.ReadWrap?
  }

  predicate Writes(x: Proc) {
    x.pc.WriteHeader? || x.pc.WriteStore? || x.pc.WriteCopy? || x.pc.WriteAdvance? || x.pc.WriteWrap?
  }

  /** What one process does next, to what is shared and to itself. */
  function Next(c: Config, s: State, x: Proc, ch: Choice): (State, Proc)
    requires ValidConfig(c)
  {
    if x.pc.Idle? then StepCall(s, x, ch)
    else if Waits(x) then StepWait(c, s, x, ch)
    else if Reads(x) then StepRead(c, s, x, ch)
    else if Writes(x) then StepWrite(c, s, x, ch)
    else StepLeave(s, x)
  }

  /** One step of process p. */
  function Step(c: Config, s: State, p: nat, ch: Choice): State
    requires p < |s.procs| && ValidConfig(c)
  {
    var (r, y) := Next(c, s, s.procs[p], ch);
    r.(procs := s.procs[p := y])
  }

  /** A schedule: which process moves, with which choice. */
  datatype Action = Action(p: nat, ch: Choice)

  /** The states after each action of a schedule, the first one included. */
  predicate IsRun(c: Config, states: seq<State>, actions: seq<Action>)
    requires ValidConfig(c)
  {
    |states| == |actions| + 1 && Initial(c, states[0]) &&
    forall i :: 0 <= i < |actions| ==>
      actions[i].p < |states[i].procs| &&
      states[i + 1] == Step(c, states[i], actions[i].p, actions[i].ch)
  }
}
