/** What the operations on one file may change: blocks come from the free ones, other
    files keep every slot and every byte, and nothing marked is left without an owner. */
module FsEffects {
  import opened Octets
  import opened FsModel

  /** The blocks that the map leaves free. */
  function FreeBlocks(map_: seq<bool>): set<nat> {
    set b: nat | b < |map_| && !map_[b]
  }

  /** The blocks held by file i. */
  function BlocksOf(v: Vol, owner: Owner, i: nat): set<nat> {
    set b: nat | b in owner && owner[b].i == i && Ptr(v, owner[b]) == b && b != 0
  }

  predicate SameTable(v: Vol, w: Vol) {
    |w.disk| == |v.disk| && |w.blockMap| == |v.blockMap| && |w.inodes| == |v.inodes| &&
    w.base == v.base && w.inodeMap == v.inodeMap
  }

  predicate SameInodes(v: Vol, w: Vol, i: nat)
    requires |w.inodes| == |v.inodes|
  {
    forall j :: 0 <= j < |v.inodes| ==>
      (if j == i then w.inodes[j].mode == v.inodes[j].mode && w.inodes[j].size == v.inodes[j].size
       else w.inodes[j] == v.inodes[j])
  }

  /** From v to w file i only gained blocks: slots only fill up, only slots of i, and from
      free blocks; every block newly marked is one that file i now holds. */
  ghost predicate Grows(v: Vol, w: Vol, owner: Owner, i: nat) {
    SameTable(v, w) &&
    (forall s :: Ptr(v, s) != 0 ==> Ptr(w, s) == Ptr(v, s)) &&
    (forall s :: Ptr(v, s) == 0 && Ptr(w, s) != 0 ==> s.i == i && FreeIn(v, Ptr(w, s))) &&
    (forall b :: 0 <= b < |v.blockMap| && v.blockMap[b] ==> w.blockMap[b]) &&
    (forall b :: 0 <= b < |v.blockMap| && w.blockMap[b] && !v.blockMap[b] ==> HeldBy(w, owner, i, b))
  }

  /** Growth that changes nothing else in the inodes but block numbers of file i. */
  ghost predicate Extends(v: Vol, w: Vol, owner: Owner, i: nat) {
    Grows(v, w, owner, i) && SameInodes(v, w, i)
  }

  predicate FreeIn(v: Vol, b: nat) { b < |v.blockMap| && !v.blockMap[b] }

  predicate HeldBy(v: Vol, owner: Owner, i: nat, b: nat) {
    b != 0 && b in owner && owner[b].i == i && Ptr(v, owner[b]) == b
  }

  /** One more block: allocated, zeroed, stored in an empty slot of file i. */
  predicate Attached(v: Vol, w: Vol, i: nat, b: nat) {
    SameTable(v, w) && SameInodes(v, w, i) && b < |v.blockMap| && !v.blockMap[b] &&
    w.blockMap == v.blockMap[b := true]
  }

  lemma ExtendsMore(v0: Vol, v: Vol, w: Vol, owner: Owner, i: nat, s: Slot, b: nat)
    requires Extends(v0, v, owner, i) && Attached(v, w, i, b) && s.i == i && Ptr(v, s) == 0 && b != 0
    requires forall t :: Ptr(w, t) == if t == s then b else Ptr(v, t)
    ensures Extends(v0, w, owner[b := s], i)
  {
  }

  /** Data written, nothing allocated. */
  lemma ExtendsSame(v0: Vol, v: Vol, w: Vol, owner: Owner, i: nat)
    requires Extends(v0, v, owner, i) && SameTable(v, w) && SameInodes(v, w, i) && w.blockMap == v.blockMap
    requires forall t :: Ptr(w, t) == Ptr(v, t)
    ensures Extends(v0, w, owner, i)
  {
  }

  /** Conservation: what was free is free still or is held by file i now. */
  lemma GrowthConserves(v: Vol, w: Vol, owner: Owner, owner': Owner, i: nat)
    requires Owns(v, owner) && Owns(w, owner') && Grows(v, w, owner', i)
    ensures FreeBlocks(v.blockMap) == FreeBlocks(w.blockMap) + (BlocksOf(w, owner', i) - BlocksOf(v, owner, i))
    ensures FreeBlocks(w.blockMap) !! BlocksOf(w, owner', i)
    ensures BlocksOf(v, owner, i) <= BlocksOf(w, owner', i)
  {
  }

  // ---- bytes

  /** w is v with the bytes of `data` from position `at` of file i on. */
  ghost predicate Wrote(v: Vol, w: Vol, i: nat, at: nat, data: seq<byte>) {
    forall j: nat, p: nat :: ByteAt(w, j, p) ==
      if j == i && at <= p < at + |data| then data[p - at] else ByteAt(v, j, p)
  }

  /** Two adjoining writes. */
  lemma WroteMore(v0: Vol, v: Vol, w: Vol, i: nat, at: nat, a: seq<byte>, b: seq<byte>)
    requires Wrote(v0, v, i, at, a) && Wrote(v, w, i, at + |a|, b)
    ensures Wrote(v0, w, i, at, a + b)
  {
  }

  /** Every other file, and this one up to `upTo`, keeps its bytes. */
  ghost predicate OthersKeep(v: Vol, w: Vol, i: nat, upTo: nat) {
    forall j: nat, p: nat :: j != i || p < upTo ==> ByteAt(w, j, p) == ByteAt(v, j, p)
  }

  // ---- one slot made sure of

  /** Slot s is filled: it was already, or a free block was zeroed, marked and stored. */
  ghost predicate Gained(v: Vol, w: Vol, owner: Owner, owner': Owner, s: Slot) {
    if Ptr(v, s) != 0 then w == v && owner' == owner
    else
      Ptr(w, s) != 0 && owner' == owner[Ptr(w, s) := s] && Attached(v, w, s.i, Ptr(w, s)) &&
      (forall t :: Ptr(w, t) == if t == s then Ptr(w, s) else Ptr(v, t)) &&
      forall j: nat, p: nat :: ByteAt(w, j, p) == ByteAt(v, j, p)
  }

  lemma ExtendsGained(v0: Vol, v: Vol, w: Vol, owner: Owner, owner': Owner, s: Slot)
    requires Extends(v0, v, owner, s.i) && Gained(v, w, owner, owner', s)
    ensures Extends(v0, w, owner', s.i)
  {
    if Ptr(v, s) == 0 { ExtendsMore(v0, v, w, owner, s.i, s, Ptr(w, s)); }
  }

  lemma WroteGained(v0: Vol, v: Vol, w: Vol, owner: Owner, owner': Owner, s: Slot, i: nat, at: nat, a: seq<byte>)
    requires Wrote(v0, v, i, at, a) && Gained(v, w, owner, owner', s)
    ensures Wrote(v0, w, i, at, a)
  {
  }

  /** The next piece of a write, into block k of file i. */
  lemma WritePiece(v0: Vol, v: Vol, owner: Owner, i: nat, at: nat, done: seq<byte>, k: nat, off: nat, data: seq<byte>)
    requires Owns(v, owner) && Extends(v0, v, owner, i) && Wrote(v0, v, i, at, done)
    requires k * BLOCK_SIZE + off == at + |done| && off + |data| <= BLOCK_SIZE
    requires Ptr(v, Leaf(i, k)) != 0 && Ptr(v, Leaf(i, k)) < |v.disk|
    ensures var b := Ptr(v, Leaf(i, k)); var w := SetBlock(v, b, Spliced(v.disk[b], off, data));
      Owns(w, owner) && Extends(v0, w, owner, i) && Wrote(v0, w, i, at, done + data) &&
      forall t :: Ptr(w, t) == Ptr(v, t)
  {
    var b := Ptr(v, Leaf(i, k));
    var w := SetBlock(v, b, Spliced(v.disk[b], off, data));
    WriteBlockBytes(v, owner, i, k, off, data);
    hide Extends, Spliced, Leaf;
    ExtendsSame(v0, v, w, owner, i);
    assert Wrote(v, w, i, at + |done|, data);
    WroteMore(v0, v, w, i, at, done, data);
  }

  // ---- which slots fill up

  /** The slots on the way to block k of file i, and the block's own. */
  function Path(i: nat, k: nat): set<Slot> {
    {Leaf(i, k)} +
    (if k < N_DIRECT then {}
     else if k < N_DIRECT + PTRS_PER_BLK then {Indir1(i)}
     else {Indir2(i), Mid(i, (k - N_DIRECT - PTRS_PER_BLK) / PTRS_PER_BLK)})
  }

  /** A block from lo on and below hi, or an index block on the way to one up to hi. */
  predicate InStretch(s: Slot, i: nat, lo: nat, hi: nat) {
    exists k: nat :: lo <= k <= hi && s in Path(i, k) && (IsLeaf(s) ==> k < hi)
  }

  /** From v to w only slots of that stretch filled up. */
  ghost predicate Gains(v: Vol, w: Vol, i: nat, lo: nat, hi: nat) {
    forall s :: Ptr(v, s) == 0 && Ptr(w, s) != 0 ==> InStretch(s, i, lo, hi)
  }

  lemma StretchWider(s: Slot, i: nat, lo: nat, hi: nat, lo': nat, hi': nat)
    requires InStretch(s, i, lo, hi) && lo' <= lo && hi <= hi'
    ensures InStretch(s, i, lo', hi')
  {
    var k: nat :| lo <= k <= hi && s in Path(i, k) && (IsLeaf(s) ==> k < hi);
    assert lo' <= k <= hi' && s in Path(i, k);
  }

  lemma GainsWider(v: Vol, w: Vol, i: nat, lo: nat, hi: nat, lo': nat, hi': nat)
    requires Gains(v, w, i, lo, hi) && lo' <= lo && hi <= hi'
    ensures Gains(v, w, i, lo', hi')
  {
    forall s | Ptr(v, s) == 0 && Ptr(w, s) != 0 ensures InStretch(s, i, lo', hi') {
      StretchWider(s, i, lo, hi, lo', hi');
    }
  }

  lemma GainsTransitive(u: Vol, v: Vol, w: Vol, i: nat, lo: nat, hi: nat)
    requires Gains(u, v, i, lo, hi) && Gains(v, w, i, lo, hi)
    ensures Gains(u, w, i, lo, hi)
  {
    forall s | Ptr(u, s) == 0 && Ptr(w, s) != 0 ensures InStretch(s, i, lo, hi) {
      if Ptr(v, s) == 0 { assert InStretch(s, i, lo, hi); }
    }
  }

  lemma GainsOne(v0: Vol, v: Vol, w: Vol, owner: Owner, owner': Owner, s: Slot, i: nat, lo: nat, hi: nat)
    requires Gains(v0, v, i, lo, hi) && Gained(v, w, owner, owner', s) && InStretch(s, i, lo, hi)
    ensures Gains(v0, w, i, lo, hi)
  {
  }

  // ---- a write in progress

  /** From v0 to w the bytes `done` were put from position `at` of file i on, blocks lo
      to hi - 1 are there, no other slots filled up but on the way to block hi, and
      nothing else changed but what Extends allows. */
  ghost predicate Progress(v0: Vol, w: Vol, owner: Owner, i: nat, at: nat, done: seq<byte>, lo: nat, hi: nat) {
    Owns(w, owner) && Extends(v0, w, owner, i) && Wrote(v0, w, i, at, done) && Gains(v0, w, i, lo, hi) &&
    forall k :: lo <= k < hi ==> Ptr(w, Leaf(i, k)) != 0
  }

  lemma ProgressStart(v: Vol, owner: Owner, i: nat, at: nat, lo: nat)
    requires Owns(v, owner)
    ensures Progress(v, v, owner, i, at, [], lo, lo)
  {
  }

  lemma ProgressNeed(v0: Vol, v: Vol, w: Vol, owner: Owner, owner': Owner,
                     i: nat, at: nat, done: seq<byte>, lo: nat, hi: nat)
    requires Progress(v0, v, owner, i, at, done, lo, hi) && lo <= hi
    requires Owns(w, owner') && Gained(v, w, owner, owner', Leaf(i, hi))
    ensures Progress(v0, w, owner', i, at, done, lo, hi + 1)
  {
    hide Leaf, InStretch, Gained, Gains, Owns, Wrote, Extends, Ptr;
    NeedGains(v0, v, w, owner, owner', i, lo, hi);
    ExtendsGained(v0, v, w, owner, owner', Leaf(i, hi));
    WroteGained(v0, v, w, owner, owner', Leaf(i, hi), i, at, done);
    NeedLeaves(v, w, owner, owner', i, lo, hi);
  }

  lemma NeedGains(v0: Vol, v: Vol, w: Vol, owner: Owner, owner': Owner, i: nat, lo: nat, hi: nat)
    requires Gains(v0, v, i, lo, hi) && Gained(v, w, owner, owner', Leaf(i, hi)) && lo <= hi
    ensures Gains(v0, w, i, lo, hi + 1) && Leaf(i, hi).i == i
  {
    LeafInStretch(i, lo, hi);
    hide Leaf, InStretch, Gained, Gains, Ptr;
    GainsWider(v0, v, i, lo, hi, lo, hi + 1);
    GainsOne(v0, v, w, owner, owner', Leaf(i, hi), i, lo, hi + 1);
  }

  lemma NeedLeaves(v: Vol, w: Vol, owner: Owner, owner': Owner, i: nat, lo: nat, hi: nat)
    requires Gained(v, w, owner, owner', Leaf(i, hi))
    requires forall k :: lo <= k < hi ==> Ptr(v, Leaf(i, k)) != 0
    ensures forall k :: lo <= k < hi + 1 ==> Ptr(w, Leaf(i, k)) != 0
  {
    GainedPtrs(v, w, owner, owner', Leaf(i, hi));
    hide Gained, Leaf, Ptr;
    forall k | lo <= k < hi + 1 ensures Ptr(w, Leaf(i, k)) != 0 {
      assert k < hi ==> Ptr(v, Leaf(i, k)) != 0;
    }
  }

  lemma GainedPtrs(v: Vol, w: Vol, owner: Owner, owner': Owner, s: Slot)
    requires Gained(v, w, owner, owner', s)
    ensures Ptr(w, s) != 0 && forall t :: Ptr(v, t) != 0 ==> Ptr(w, t) != 0
  {
  }

  lemma LeafInStretch(i: nat, lo: nat, hi: nat)
    requires lo <= hi
    ensures InStretch(Leaf(i, hi), i, lo, hi + 1) && Leaf(i, hi).i == i
  {
    assert Leaf(i, hi) in Path(i, hi);
  }

  lemma ProgressPiece(v0: Vol, v: Vol, owner: Owner, i: nat, at: nat, done: seq<byte>,
                      lo: nat, k: nat, off: nat, data: seq<byte>)
    requires Progress(v0, v, owner, i, at, done, lo, k + 1) && lo <= k
    requires k * BLOCK_SIZE + off == at + |done| && off + |data| <= BLOCK_SIZE
    ensures 0 < Ptr(v, Leaf(i, k)) < |v.disk|
    ensures var b := Ptr(v, Leaf(i, k));
      Progress(v0, SetBlock(v, b, Spliced(v.disk[b], off, data)), owner, i, at, done + data, lo, k + 1) &&
      forall t :: Ptr(SetBlock(v, b, Spliced(v.disk[b], off, data)), t) == Ptr(v, t)
  {
    assert Holds(v, owner, Leaf(i, k));
    WritePiece(v0, v, owner, i, at, done, k, off, data);
    hide Owns, Leaf, Wrote, Extends, Spliced, InStretch;
  }

  // ---- one stretch after another

  lemma ExtendsTransitive(u: Vol, v: Vol, w: Vol, o: Owner, o': Owner, i: nat)
    requires Owns(v, o) && Owns(w, o') && Extends(u, v, o, i) && Extends(v, w, o', i)
    ensures Extends(u, w, o', i)
  {
  }

  /** Growth after growth is growth: any number of writes to a file. */
  lemma GrowsTransitive(u: Vol, v: Vol, w: Vol, o: Owner, o': Owner, i: nat)
    requires Owns(v, o) && Owns(w, o') && Grows(u, v, o, i) && Grows(v, w, o', i)
    ensures Grows(u, w, o', i)
  {
  }

  /** An index block on the way to block k is made sure of in between. */
  lemma ProgressBetween(v0: Vol, v: Vol, w: Vol, owner: Owner, owner': Owner,
                        i: nat, at: nat, done: seq<byte>, lo: nat, hi: nat, s: Slot, k: nat)
    requires Progress(v0, v, owner, i, at, done, lo, hi)
    requires lo <= k <= hi && s in Path(i, k) && !IsLeaf(s)
    requires Owns(w, owner') && Gained(v, w, owner, owner', s)
    ensures Progress(v0, w, owner', i, at, done, lo, hi)
  {
    assert InStretch(s, i, lo, hi) && s.i == i;
    hide InStretch, Leaf, Path, Gained, Gains, Owns, Wrote, Extends;
    GainsOne(v0, v, w, owner, owner', s, i, lo, hi);
    ExtendsGained(v0, v, w, owner, owner', s);
    WroteGained(v0, v, w, owner, owner', s, i, at, done);
    GainedPtrs(v, w, owner, owner', s);
    hide Ptr;
    assert Progress(v0, w, owner', i, at, done, lo, hi);
  }

  lemma ProgressCompose(u: Vol, v: Vol, w: Vol, o: Owner, o': Owner, i: nat,
                        at: nat, a: seq<byte>, b: seq<byte>, lo: nat, mid: nat, hi: nat)
    requires Progress(u, v, o, i, at, a, lo, mid) && Progress(v, w, o', i, at + |a|, b, mid, hi) && lo <= mid <= hi
    ensures Progress(u, w, o', i, at, a + b, lo, hi)
  {
    GainsWider(u, v, i, lo, mid, lo, hi);
    GainsWider(v, w, i, mid, hi, lo, hi);
    GainsTransitive(u, v, w, i, lo, hi);
    hide Gains, Leaf;
    ExtendsTransitive(u, v, w, o, o', i);
    WroteMore(u, v, w, i, at, a, b);
    hide Owns, Wrote;
    assert forall k :: lo <= k < mid ==> Ptr(v, Leaf(i, k)) != 0;
  }

  /** A write of nothing: what it gained is on the way to a block of the stretch. */
  lemma ProgressNothing(u: Vol, v: Vol, w: Vol, o: Owner, o': Owner, i: nat,
                        at: nat, a: seq<byte>, lo: nat, hi: nat, at': nat, k: nat)
    requires Progress(u, v, o, i, at, a, lo, hi) && Progress(v, w, o', i, at', [], k, k)
    requires lo <= k <= hi || w == v
    ensures Progress(u, w, o', i, at, a, lo, hi)
  {
    if lo <= k <= hi {
      GainsWider(v, w, i, k, k, lo, hi);
      GainsTransitive(u, v, w, i, lo, hi);
    }
    hide Gains, Leaf;
    ExtendsTransitive(u, v, w, o, o', i);
    assert forall j: nat, p: nat :: ByteAt(w, j, p) == ByteAt(v, j, p);
  }

  // ---- counting

  lemma {:induction false} InjectSize<T, U>(a: set<T>, b: set<U>, f: T -> U)
    requires forall x :: x in a ==> f(x) in b
    requires forall x, y :: x in a && y in a && f(x) == f(y) ==> x == y
    ensures |a| <= |b|
  {
    if a != {} {
      var x :| x in a;
      InjectSize(a - {x}, b - {f(x)}, f);
    }
  }

  /** The slots of blocks lo to hi - 1 of file i. */
  function Leaves(i: nat, lo: nat, hi: nat): set<Slot> {
    set k: nat | lo <= k < hi :: Leaf(i, k)
  }

  lemma {:induction false} LeavesSize(i: nat, lo: nat, hi: nat)
    requires lo <= hi
    ensures |Leaves(i, lo, hi)| == hi - lo
  {
    hide Leaf, IsLeaf;
    if hi > lo {
      LeavesSize(i, lo, hi - 1);
      forall k: nat | lo <= k < hi - 1 ensures Leaf(i, k) != Leaf(i, hi - 1) { LeafInverse(i, k, i, hi - 1); }
      assert Leaves(i, lo, hi) == Leaves(i, lo, hi - 1) + {Leaf(i, hi - 1)};
      assert Leaf(i, hi - 1) !in Leaves(i, lo, hi - 1);
    }
  }

  function MarkedBlocks(map_: seq<bool>): set<nat> {
    set b: nat | b < |map_| && map_[b]
  }

  lemma {:induction false} MarkedSize(m: seq<bool>)
    ensures |MarkedBlocks(m)| <= |m|
  {
    if m != [] {
      var n := |m| - 1;
      MarkedSize(m[..n]);
      assert MarkedBlocks(m) == MarkedBlocks(m[..n]) + if m[n] then {n} else {};
    }
  }

  /** A file has no more blocks than the disk. */
  lemma FewBlocks(w: Vol, owner: Owner, i: nat, lo: nat, hi: nat)
    requires Owns(w, owner) && lo <= hi && forall k: nat :: lo <= k < hi ==> Ptr(w, Leaf(i, k)) != 0
    ensures hi - lo <= BITS_PER_BLK
  {
    var f, slots, all := (s: Slot) => Ptr(w, s), Leaves(i, lo, hi), MarkedBlocks(w.blockMap);
    forall s | s in slots ensures f(s) in all {
      assert Holds(w, owner, s);
    }
    forall s, t | s in slots && t in slots && f(s) == f(t) ensures s == t {
      if s != t { OwnsDistinct(w, owner, s, t); }
    }
    LeavesSize(i, lo, hi);
    MarkedSize(w.blockMap);
    InjectSize(slots, all, f);
  }
}
