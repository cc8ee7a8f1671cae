/** The steps of the file operations: which calls run past a buffer, what a write in
    progress has done so far, and the lemmas that carry it from one step to the next. */
module FsSteps {
  import opened Octets
  import opened FsModel
  import opened FsEffects
  import opened FsTruncation

  /** Bytes reached through the double indirect block. */
  const INDIR2_SIZE := PTRS_PER_BLK * INDIR1_SIZE

  function NewFile(): Inode { Inode(Regular, 0, [0, 0, 0, 0, 0, 0], 0, 0) }

  /** The inode numbers that get_free_inode chooses from. */
  function FreeInodes(map_: seq<bool>): set<nat> {
    set i: nat | 2 <= i < |map_| && !map_[i]
  }

  lemma FreeInodeFound(m: seq<bool>, r: int)
    ensures r < 0 && (forall i :: 2 <= i < |m| ==> m[i]) ==> FreeInodes(m) == {}
    ensures 2 <= r < |m| && !m[r] ==> r in FreeInodes(m)
  {
  }

  /** The block of entries of directory i. */
  function DirBlock(v: Vol, i: nat): Block {
    var b := Ptr(v, Direct(i, 0));
    if 0 < b < |v.disk| then v.disk[b] else Zeros()
  }

  /** Every block number of an owned file is one of the disk. */
  lemma BlocksInRange(v: Vol, owner: Owner, i: nat)
    requires Owns(v, owner) && i < |v.inodes|
    ensures WellFormed(v)
    ensures var n := v.inodes[i];
      n.indir1 < |v.disk| && n.indir2 < |v.disk| &&
      (forall k :: 0 <= k < N_DIRECT ==> n.direct[k] < |v.disk|) &&
      (n.indir1 != 0 ==> forall k: nat :: k < PTRS_PER_BLK ==> PtrAt(v.disk[n.indir1], k) < |v.disk|) &&
      (n.indir2 != 0 ==>
        (forall a: nat :: a < PTRS_PER_BLK ==> PtrAt(v.disk[n.indir2], a) < |v.disk|) &&
        (forall a: nat, k: nat :: a < PTRS_PER_BLK && k < PTRS_PER_BLK && PtrAt(v.disk[n.indir2], a) != 0 ==>
          PtrAt(v.disk[PtrAt(v.disk[n.indir2], a)], k) < |v.disk|))
  {
    var n := v.inodes[i];
    SlotInRange(v, owner, Indir1(i));
    SlotInRange(v, owner, Indir2(i));
    forall k: nat | k < N_DIRECT ensures n.direct[k] < |v.disk| { SlotInRange(v, owner, Direct(i, k)); }
    forall k: nat | k < PTRS_PER_BLK && n.indir1 != 0 ensures PtrAt(v.disk[n.indir1], k) < |v.disk| {
      SlotInRange(v, owner, Leaf1(i, k));
    }
    forall a: nat | a < PTRS_PER_BLK && n.indir2 != 0 ensures PtrAt(v.disk[n.indir2], a) < |v.disk| {
      SlotInRange(v, owner, Mid(i, a));
    }
    forall a: nat, k: nat | a < PTRS_PER_BLK && k < PTRS_PER_BLK && n.indir2 != 0 && PtrAt(v.disk[n.indir2], a) != 0
      ensures PtrAt(v.disk[PtrAt(v.disk[n.indir2], a)], k) < |v.disk|
    {
      SlotInRange(v, owner, Leaf2(i, a, k));
    }
  }

  lemma SlotInRange(v: Vol, owner: Owner, s: Slot)
    requires Owns(v, owner)
    ensures Ptr(v, s) < |v.disk|
  {
  }

  lemma MoreNumbers(ns: seq<nat>, i: nat)
    requires i < |ns|
    ensures Numbers(ns[..i + 1]) == Numbers(ns[..i]) + if ns[i] != 0 then {ns[i]} else {}
  {
  }

  lemma MoreGrandchildren(disk: seq<Block>, x: Block, n: nat)
    requires n < PTRS_PER_BLK && PtrAt(x, n) < |disk|
    ensures Grandchildren(disk, x, n + 1) ==
      Grandchildren(disk, x, n) + if PtrAt(x, n) != 0 then Pointers(disk[PtrAt(x, n)], PTRS_PER_BLK) else {}
  {
  }

  /** The reads that overrun: those that start inside a block. */
  predicate BadRead(offset: nat, len: nat) {
    len > 0 && offset % BLOCK_SIZE != 0
  }

  /** The blocks of a stretch that starts at FAR at the latest are there. */
  ghost predicate Readable(v: Vol, i: nat, offset: nat, len: nat) {
    offset <= FAR && forall k: nat :: offset / BLOCK_SIZE <= k < UpTo(offset, len) ==> Ptr(v, Leaf(i, k)) != 0
  }

  /** The blocks of the first n bytes past FAR are there. */
  ghost predicate FarThere(v: Vol, i: nat, n: nat) {
    forall k: nat :: N_DIRECT + PTRS_PER_BLK <= k < N_DIRECT + PTRS_PER_BLK + UpTo(0, n) ==> Ptr(v, Leaf(i, k)) != 0
  }

  /** Of a stretch that starts at FAR at the latest the blocks below FAR are there, and past
      it the double indirect block is, with the blocks in order or all of them there. */
  ghost predicate Reachable(v: Vol, i: nat, offset: nat, len: nat) {
    offset <= FAR && Readable(v, i, offset, Min(len, FAR - offset)) &&
    (offset + len > FAR ==>
      Ptr(v, Indir2(i)) != 0 && (InOrder(v, i) || FarThere(v, i, offset + len - FAR)))
  }

  /** Within its size a file that is Backed is reachable, and below FAR readable. */
  lemma BackedReads(v: Vol, i: nat, offset: nat, len: nat)
    requires Backed(v, i) && offset + len <= v.inodes[i].size && offset <= FAR
    ensures Reachable(v, i, offset, len)
    ensures offset + len <= FAR ==> Readable(v, i, offset, len)
  {
    PtrIndirects(v, i);
  }

  /** A readable stretch is reachable. */
  lemma ReadableReaches(v: Vol, i: nat, offset: nat, len: nat)
    requires Readable(v, i, offset, len)
    ensures Reachable(v, i, offset, len)
  {
    if offset + len > FAR {
      FarOfReadable(v, i, offset, len);
      FarThereFirst(v, i, offset + len - FAR);
    }
  }

  lemma FarOfReadable(v: Vol, i: nat, offset: nat, len: nat)
    requires Readable(v, i, offset, len) && offset + len > FAR
    ensures FarThere(v, i, offset + len - FAR)
  {
    assert UpTo(offset, len) == N_DIRECT + PTRS_PER_BLK + UpTo(0, offset + len - FAR);
  }

  lemma ReachableThere(v: Vol, i: nat, offset: nat, len: nat)
    ensures Reachable(v, i, offset, len) ==> offset <= FAR
    ensures Reachable(v, i, offset, len) ==>
      forall p: nat {:trigger p / BLOCK_SIZE} :: offset <= p < Min(offset + len, FAR) ==>
        Ptr(v, Leaf(i, p / BLOCK_SIZE)) != 0
    ensures Reachable(v, i, offset, len) && offset + len > FAR ==>
      Ptr(v, Indir2(i)) != 0 && (InOrder(v, i) || FarThere(v, i, offset + len - FAR))
  {
    if Reachable(v, i, offset, len) {
      var n := Min(len, FAR - offset);
      forall p: nat {:trigger p / BLOCK_SIZE} | offset <= p < Min(offset + len, FAR)
        ensures Ptr(v, Leaf(i, p / BLOCK_SIZE)) != 0
      {
        assert offset / BLOCK_SIZE <= p / BLOCK_SIZE < UpTo(offset, n);
      }
    }
  }

  /** A read that stops at a block past FAR that is not there, or nowhere. */
  lemma ReadableIff(v: Vol, i: nat, offset: nat, len: nat, r: nat)
    requires Reachable(v, i, offset, len) && r <= len
    requires r == len && offset + len > FAR ==> FarThere(v, i, offset + len - FAR)
    requires r < len ==> offset + r >= FAR && FarMissing(v, i, offset + r - FAR)
    ensures r == len <==> Readable(v, i, offset, len)
    ensures r < len ==> Ptr(v, Leaf(i, (offset + r) / BLOCK_SIZE)) == 0
  {
    if r < len {
      assert offset / BLOCK_SIZE <= (offset + r) / BLOCK_SIZE < UpTo(offset, len);
      assert (offset + r) / BLOCK_SIZE == N_DIRECT + PTRS_PER_BLK + (offset + r - FAR) / BLOCK_SIZE;
    } else if offset + len > FAR {
      assert UpTo(offset, len) == N_DIRECT + PTRS_PER_BLK + UpTo(0, offset + len - FAR);
      forall k: nat | offset / BLOCK_SIZE <= k < UpTo(offset, len) ensures Ptr(v, Leaf(i, k)) != 0 {
        assert k < N_DIRECT + PTRS_PER_BLK ==> k < UpTo(offset, FAR - offset);
      }
    }
  }

  lemma FarThereFirst(v: Vol, i: nat, len: nat)
    ensures FarThere(v, i, len) && len > 0 ==> Ptr(v, Indir2(i)) != 0
  {
    NoIndirect2NoLeaf(v, i);
    assert len > 0 ==> UpTo(0, len) > 0;
  }

  /** What a read past FAR has come to: `got` bytes, from blocks that are there, before the
      k-th level-1 index block; less only if the next block is not there. */
  ghost predicate FarRead(v: Vol, i: nat, len: nat, got: nat, k: nat) {
    got <= len && FarThere(v, i, got) &&
    (got == len || got == k * INDIR1_SIZE || (got < k * INDIR1_SIZE && FarMissing(v, i, got)))
  }

  lemma FarReadStart(v: Vol, i: nat, len: nat)
    ensures FarRead(v, i, len, 0, 0)
  {
  }

  /** Where the next index block is there, the read goes on from its start. */
  lemma FarReadGoesOn(v: Vol, i: nat, len: nat, got: nat, k: nat)
    requires FarRead(v, i, len, got, k) && got < len && (InOrder(v, i) || FarThere(v, i, len))
    ensures Ptr(v, Mid(i, k)) != 0 ==> got == k * INDIR1_SIZE
    ensures Ptr(v, Mid(i, k)) == 0 ==> FarMissing(v, i, got)
  {
    if got == k * INDIR1_SIZE {
      if Ptr(v, Mid(i, k)) == 0 { NoMidNoLeaf(v, i, k); }
    } else {
      assert InMidsBefore(k, N_DIRECT + PTRS_PER_BLK + got / BLOCK_SIZE);
      assert got / BLOCK_SIZE < UpTo(0, len);
    }
  }

  /** The pieces of the index blocks before the k-th, and what the k-th gave. */
  lemma FarReadMore(v: Vol, i: nat, len: nat, got: nat, k: nat, temp: nat, more: nat, first: nat)
    requires FarRead(v, i, len, got, k) && got == k * INDIR1_SIZE && got < len && temp == Min(len - got, INDIR1_SIZE)
    requires first == N_DIRECT + PTRS_PER_BLK + PTRS_PER_BLK * k && more <= temp
    requires forall j: nat :: first <= j < first + UpTo(0, more) ==> Ptr(v, Leaf(i, j)) != 0
    requires more < temp ==> Ptr(v, Leaf(i, first + more / BLOCK_SIZE)) == 0
    ensures FarRead(v, i, len, got + more, k + 1)
  {
    var base := N_DIRECT + PTRS_PER_BLK;
    assert UpTo(0, got) == PTRS_PER_BLK * k;
    assert UpTo(0, got + more) == PTRS_PER_BLK * k + UpTo(0, more);
    assert (got + more) / BLOCK_SIZE == PTRS_PER_BLK * k + more / BLOCK_SIZE;
  }

  lemma FarReadIs(v: Vol, i: nat, len: nat, got: nat, k: nat)
    requires FarRead(v, i, len, got, k)
    ensures FarThere(v, i, got)
  {
  }

  /** The read is over when the double indirect block ends. */
  lemma FarReadEnds(v: Vol, i: nat, len: nat, got: nat, k: nat)
    requires FarRead(v, i, len, got, k) && (got == len || k == PTRS_PER_BLK)
    ensures FarThere(v, i, got) && (got < len ==> FarMissing(v, i, got))
  {
    NoMidNoLeaf(v, i, PTRS_PER_BLK);
  }

  lemma PtrIndirects(v: Vol, i: nat)
    requires i < |v.inodes|
    ensures Ptr(v, Indir1(i)) == v.inodes[i].indir1 && Ptr(v, Indir2(i)) == v.inodes[i].indir2
  {
  }

  lemma BytesJoin(v: Vol, i: nat, at: nat, m: nat, n: nat)
    ensures Bytes(v, i, at, m) + Bytes(v, i, at + m, n) == Bytes(v, i, at, m + n)
  {
  }

  /** What was written is what is read back. */
  lemma ReadsBack(v: Vol, w: Vol, i: nat, at: nat, data: seq<byte>)
    requires Wrote(v, w, i, at, data)
    ensures Bytes(w, i, at, |data|) == data
  {
  }

  /** The slot `parent` holds the index block for blocks first, ..., first + 255 of i. */
  predicate IndexFor(parent: Slot, i: nat, first: nat) {
    (parent == Indir1(i) && first == N_DIRECT) ||
    (parent.Mid? && parent.i == i && parent.a < PTRS_PER_BLK &&
     first == N_DIRECT + PTRS_PER_BLK + PTRS_PER_BLK * parent.a)
  }

  lemma IndexedLeaf(parent: Slot, i: nat, first: nat, k: nat)
    requires IndexFor(parent, i, first) && k < PTRS_PER_BLK
    ensures var s := Leaf(i, first + k);
      (s.Leaf1? || s.Leaf2?) && Parent(s) == parent && Index(s) == k && s.i == i
  {
  }

  /** Writing data leaves the index block of `parent` as it was. */
  lemma IndexKept(v: Vol, w: Vol, owner: Owner, s: Slot, parent: Slot, b: nat, data: nat)
    requires Owns(v, owner) && IsLeaf(s) && Ptr(v, s) == data != 0 && Ptr(v, parent) == b != 0 && s != parent
    requires w.inodes == v.inodes && |w.disk| == |v.disk| && b < |v.disk|
    requires forall c :: 0 <= c < |v.disk| && c != data ==> w.disk[c] == v.disk[c]
    requires forall t :: Ptr(w, t) == Ptr(v, t)
    ensures w.disk[b] == v.disk[b] && Ptr(w, parent) == b
  {
  }

  function Min(a: int, b: int): int { if a < b then a else b }

  /** What a write of n bytes counts past FAR when it puts `put` of them: all, or up to the
      end of the piece that goes through the first level-1 index block with nothing put. */
  function FarCount(n: nat, put: nat): nat {
    if put >= n then put else Min(n, (Pieces(put) + 1) * INDIR1_SIZE)
  }

  /** The level-1 index blocks that n bytes past FAR go through. */
  function Pieces(n: nat): nat {
    (n + INDIR1_SIZE - 1) / INDIR1_SIZE
  }

  /** Before the k-th piece of a write of n bytes past FAR `taken` of them are counted and
      `pos` put, fewer only if the piece before it was not put whole. */
  predicate Paced(n: nat, taken: int, pos: nat, k: nat) {
    taken == Min(n, k * INDIR1_SIZE) && pos <= taken && k <= PTRS_PER_BLK &&
    (pos == taken || (k - 1) * INDIR1_SIZE < pos < k * INDIR1_SIZE)
  }

  lemma PacedStart(n: nat)
    ensures Paced(n, 0, 0, 0) && Aligned(n, 0)
  {
  }

  lemma PacedMore(n: nat, taken: nat, pos: nat, k: nat, temp: nat, written: nat)
    requires Paced(n, taken, pos, k) && taken < n && k < PTRS_PER_BLK && pos == k * INDIR1_SIZE
    requires temp == Min(n - taken, INDIR1_SIZE) && 0 < written <= temp
    ensures Paced(n, taken + temp, pos + written, k + 1)
    ensures Aligned(n, pos + written) || (written < temp && written % BLOCK_SIZE != 0)
  {
    assert pos == BLOCK_SIZE * (k * PTRS_PER_BLK);
    assert written % BLOCK_SIZE == 0 ==> pos + written == BLOCK_SIZE * (k * PTRS_PER_BLK + written / BLOCK_SIZE);
  }

  /** Short of n a block boundary. */
  predicate Aligned(n: nat, pos: nat) {
    pos < n ==> pos % BLOCK_SIZE == 0
  }

  /** The piece in which the write stops is counted whole. */
  lemma PacedStops(n: nat, taken: nat, pos: nat, k: nat, temp: nat)
    requires Paced(n, taken, pos, k) && taken < n && k < PTRS_PER_BLK && temp == Min(n - taken, INDIR1_SIZE)
    ensures taken + temp == FarCount(Min(n, INDIR2_SIZE), pos)
    ensures Aligned(n, pos) && pos < Min(n, INDIR2_SIZE) ==> pos % BLOCK_SIZE == 0
  {
    assert Pieces(pos) == k;
  }

  lemma PacedEnds(n: nat, taken: nat, pos: nat, k: nat)
    requires Paced(n, taken, pos, k) && (taken == n || k == PTRS_PER_BLK)
    ensures taken == FarCount(Min(n, INDIR2_SIZE), pos)
    ensures Aligned(n, pos) && pos < Min(n, INDIR2_SIZE) ==> pos % BLOCK_SIZE == 0
  {
    if pos < taken { assert Pieces(pos) == k; }
  }

  lemma FarCountMore(n: nat, put: nat)
    requires put <= n
    ensures put <= FarCount(n, put) <= n && (FarCount(n, put) == put <==> put == n)
  {
  }

  /** The pointers run out only beyond what a disk holds. */
  lemma FarCountNear(n: nat, put: nat)
    requires put < n && put <= BITS_PER_BLK * BLOCK_SIZE
    ensures FarCount(Min(n, INDIR2_SIZE), put) == FarCount(n, put)
  {
  }

  /** As Progress, for the first bytes past FAR. */
  ghost predicate FarProgress(v0: Vol, w: Vol, owner: Owner, i: nat, done: seq<byte>) {
    Progress(v0, w, owner, i, FAR, done, N_DIRECT + PTRS_PER_BLK, N_DIRECT + PTRS_PER_BLK + UpTo(0, |done|))
  }

  lemma FarStart(v: Vol, owner: Owner, i: nat)
    requires Owns(v, owner)
    ensures Extends(v, v, owner, i) && OthersKeep(v, v, i, FAR) && FarProgress(v, v, owner, i, [])
  {
  }

  /** Level-1 index block k is made sure of, and the next piece goes through it. */
  lemma FarPiece(v0: Vol, v1: Vol, v2: Vol, w: Vol, o1: Owner, o2: Owner, o: Owner,
                 i: nat, done: seq<byte>, piece: seq<byte>, k: nat)
    requires FarProgress(v0, v1, o1, i, done) && |done| == k * INDIR1_SIZE
    requires Owns(v2, o2) && Gained(v1, v2, o1, o2, Mid(i, k))
    requires var first := N_DIRECT + PTRS_PER_BLK + PTRS_PER_BLK * k;
      Progress(v2, w, o, i, first * BLOCK_SIZE, piece, first, first + UpTo(0, |piece|))
    ensures FarProgress(v0, w, o, i, done + piece)
  {
    hide Progress, Owns, Gained;
    var base, first := N_DIRECT + PTRS_PER_BLK, N_DIRECT + PTRS_PER_BLK + PTRS_PER_BLK * k;
    assert first == base + UpTo(0, |done|) && first * BLOCK_SIZE == FAR + |done|;
    assert first + UpTo(0, |piece|) == base + UpTo(0, |done + piece|);
    ProgressBetween(v0, v1, v2, o1, o2, i, FAR, done, base, first, Mid(i, k), first);
    ProgressCompose(v0, v2, w, o2, o, i, FAR, done, piece, base, first, first + UpTo(0, |piece|));
  }

  /** Level-1 index blocks are there only once all the blocks before theirs are. */
  ghost predicate InOrder(v: Vol, i: nat) {
    forall a: nat, b: nat :: Ptr(v, Mid(i, a)) != 0 && InMidsBefore(a, b) ==> Ptr(v, Leaf(i, b)) != 0
  }

  /** Block b is one of those of the level-1 index blocks before the a-th. */
  predicate InMidsBefore(a: nat, b: nat) {
    N_DIRECT + PTRS_PER_BLK <= b < N_DIRECT + PTRS_PER_BLK + PTRS_PER_BLK * a
  }

  lemma InOrderGained(v: Vol, w: Vol, o: Owner, o': Owner, i: nat)
    requires InOrder(v, i) && Gained(v, w, o, o', Indir2(i))
    ensures InOrder(w, i)
  {
  }

  /** A write keeps that, as it takes its blocks in order. */
  lemma InOrderKept(v: Vol, w: Vol, owner: Owner, i: nat, at: nat, done: seq<byte>, lo: nat, hi: nat)
    requires Progress(v, w, owner, i, at, done, lo, hi) && lo <= N_DIRECT + PTRS_PER_BLK
    ensures InOrder(v, i) ==> InOrder(w, i)
  {
    if InOrder(v, i) {
      forall a: nat, b: nat | Ptr(w, Mid(i, a)) != 0 && InMidsBefore(a, b) ensures Ptr(w, Leaf(i, b)) != 0 {
        if Ptr(v, Mid(i, a)) != 0 {
          assert Ptr(v, Leaf(i, b)) != 0;
        } else {
          assert InStretch(Mid(i, a), i, lo, hi);
          MidInStretch(i, a, lo, hi);
        }
      }
    }
  }

  lemma MidInStretch(i: nat, a: nat, lo: nat, hi: nat)
    requires InStretch(Mid(i, a), i, lo, hi)
    ensures N_DIRECT + PTRS_PER_BLK + PTRS_PER_BLK * a <= hi
  {
    var k: nat :| lo <= k <= hi && Mid(i, a) in Path(i, k);
    assert a == (k - N_DIRECT - PTRS_PER_BLK) / PTRS_PER_BLK;
  }

  /** The disk is full, and the write stopped at a block before level-1 index block k. */
  ghost predicate Stuck(w: Vol, i: nat, pos: nat, k: nat) {
    FreeBlocks(w.blockMap) == {} && pos < k * INDIR1_SIZE &&
    Ptr(w, Leaf(i, N_DIRECT + PTRS_PER_BLK + pos / BLOCK_SIZE)) == 0
  }

  /** The block that holds byte `pos` past FAR is not there. */
  predicate FarMissing(w: Vol, i: nat, pos: nat) {
    Ptr(w, Leaf(i, N_DIRECT + PTRS_PER_BLK + pos / BLOCK_SIZE)) == 0
  }

  lemma StuckMissing(w: Vol, i: nat, pos: nat, k: nat)
    ensures Stuck(w, i, pos, k) ==> FarMissing(w, i, pos) && FreeBlocks(w.blockMap) == {}
    ensures pos == k * INDIR1_SIZE && Ptr(w, Mid(i, k)) == 0 ==> FarMissing(w, i, pos)
  {
    if Ptr(w, Mid(i, k)) == 0 { NoMidNoLeaf(w, i, k); }
  }

  lemma StuckIsFull(w: Vol, i: nat, pos: nat, k: nat)
    ensures Stuck(w, i, pos, k) ==> FreeBlocks(w.blockMap) == {}
  {
  }

  lemma StuckNow(w: Vol, i: nat, pos: nat, written: nat, k: nat)
    requires pos == k * INDIR1_SIZE && written <= INDIR1_SIZE
    ensures Ptr(w, Leaf(i, N_DIRECT + PTRS_PER_BLK + PTRS_PER_BLK * k + written / BLOCK_SIZE)) == 0 ==>
      FarMissing(w, i, pos + written) &&
      (FreeBlocks(w.blockMap) == {} && written < INDIR1_SIZE ==> Stuck(w, i, pos + written, k + 1))
  {
    assert (pos + written) / BLOCK_SIZE == PTRS_PER_BLK * k + written / BLOCK_SIZE;
  }

  /** Then there is no such index block. */
  lemma StuckStops(w: Vol, i: nat, pos: nat, k: nat)
    requires InOrder(w, i)
    ensures Stuck(w, i, pos, k) ==> Ptr(w, Mid(i, k)) == 0
  {
    assert pos < k * INDIR1_SIZE ==> InMidsBefore(k, N_DIRECT + PTRS_PER_BLK + pos / BLOCK_SIZE);
  }

  lemma FarInOrder(v0: Vol, w: Vol, owner: Owner, i: nat, done: seq<byte>)
    requires FarProgress(v0, w, owner, i, done) && InOrder(v0, i)
    ensures InOrder(w, i)
  {
    InOrderKept(v0, w, owner, i, FAR, done, N_DIRECT + PTRS_PER_BLK, N_DIRECT + PTRS_PER_BLK + UpTo(0, |done|));
  }

  /** Without its level-1 index block a block is not there. */
  lemma NoMidNoLeaf(w: Vol, i: nat, k: nat)
    requires Ptr(w, Mid(i, k)) == 0
    ensures Ptr(w, Leaf(i, N_DIRECT + PTRS_PER_BLK + PTRS_PER_BLK * k)) == 0
  {
    var s := Leaf(i, N_DIRECT + PTRS_PER_BLK + PTRS_PER_BLK * k);
    assert s == Leaf2(i, k, 0);
    PtrIsEntry(w, s);
  }

  lemma FarGained(v0: Vol, v: Vol, w: Vol, o: Owner, o': Owner, s: Slot, upTo: nat)
    requires Extends(v0, v, o, s.i) && OthersKeep(v0, v, s.i, upTo) && Gained(v, w, o, o', s)
    ensures Extends(v0, w, o', s.i) && OthersKeep(v0, w, s.i, upTo)
  {
    ExtendsGained(v0, v, w, o, o', s);
  }

  lemma MidHeld(v: Vol, owner: Owner, s: Slot)
    requires Owns(v, owner) && Ptr(v, s) != 0
    ensures Ptr(v, s) < |v.disk|
  {
  }

  lemma FarOthers(v0: Vol, v: Vol, w: Vol, o: Owner, o': Owner, i: nat, at: nat, done: seq<byte>, lo: nat, hi: nat)
    requires Owns(v, o) && Extends(v0, v, o, i) && OthersKeep(v0, v, i, FAR) && at >= FAR
    requires Progress(v, w, o', i, at, done, lo, hi)
    ensures Extends(v0, w, o', i) && OthersKeep(v0, w, i, FAR)
  {
  }

  predicate IsIndex(s: Slot) { s.Indir1? || s.Indir2? || s.Mid? }

  /** Every index block of v but the one in slot `but` has the same contents in w. */
  ghost predicate IndexSame(v: Vol, w: Vol, but: Slot) {
    |w.disk| == |v.disk| &&
    forall t :: IsIndex(t) && t != but && 0 < Ptr(v, t) < |v.disk| ==> w.disk[Ptr(v, t)] == v.disk[Ptr(v, t)]
  }

  lemma IndexSameStart(v: Vol, but: Slot)
    ensures IndexSame(v, v, but)
  {
  }

  lemma IndexSameNeed(v0: Vol, v: Vol, w: Vol, owner: Owner, i: nat, but: Slot)
    requires Owns(v, owner) && Extends(v0, v, owner, i) && IndexSame(v0, v, but) && Ptr(v, but) != 0
    requires |w.disk| == |v.disk|
    requires forall c :: 0 <= c < |v.disk| && c != Ptr(v, but) && c !in FreeBlocks(v.blockMap) ==>
      w.disk[c] == v.disk[c]
    ensures IndexSame(v0, w, but)
  {
  }

  lemma IndexSameData(v0: Vol, v: Vol, w: Vol, owner: Owner, i: nat, s: Slot, but: Slot)
    requires Owns(v, owner) && Extends(v0, v, owner, i) && IndexSame(v0, v, but) && |w.disk| == |v.disk|
    requires IsLeaf(s) && Ptr(v, s) != 0
    requires forall c :: 0 <= c < |v.disk| && c != Ptr(v, s) ==> w.disk[c] == v.disk[c]
    ensures IndexSame(v0, w, but)
  {
  }

  /** Adding blocks below one index block leaves another one as it was. */
  lemma IndexStays(v: Vol, w: Vol, o: Owner, o': Owner, i: nat, but: Slot, b: nat)
    requires Owns(v, o) && Owns(w, o') && Extends(v, w, o', i) && IndexSame(v, w, but) && but != Indir2(i)
    requires Ptr(v, Indir2(i)) == b != 0
    ensures Ptr(w, Indir2(i)) == b < |w.disk| && w.disk[b] == v.disk[b]
  {
  }

  function Max(a: int, b: int): int { if a < b then b else a }

  function Resize(v: Vol, i: nat, size: int): Vol {
    if i < |v.inodes| then SetInode(v, i, v.inodes[i].(size := size)) else v
  }

  /** The index blocks of file i come in order: a double indirect block only once all the
      nearer blocks are there, and InOrder. */
  ghost predicate Built(v: Vol, i: nat) {
    i < |v.inodes| && InOrder(v, i) &&
    (v.inodes[i].indir2 != 0 ==> forall k: nat :: k < N_DIRECT + PTRS_PER_BLK ==> Ptr(v, Leaf(i, k)) != 0)
  }

  /** The blocks of file i are there up to its size, or up to FAR, and in order; a size past
      FAR means a double indirect block. */
  ghost predicate Backed(v: Vol, i: nat) {
    Built(v, i) && 0 <= v.inodes[i].size && (v.inodes[i].size > FAR ==> v.inodes[i].indir2 != 0) &&
    forall k: nat :: k * BLOCK_SIZE < Min(v.inodes[i].size, FAR) ==> Ptr(v, Leaf(i, k)) != 0
  }

  ghost predicate Writable(v: Vol, i: nat, offset: nat) {
    Backed(v, i) && !v.inodes[i].mode.Directory? && offset <= v.inodes[i].size && offset <= FAR
  }

  /** The calls that overrun: a write of at most a block's length that crosses a block
      boundary, starting in the direct blocks; any other start inside a block. */
  predicate BadWrite(offset: nat, len: nat) {
    len > 0 && if offset < DIR_SIZE then Crosses(offset, len) else offset < FAR && offset % BLOCK_SIZE != 0
  }

  lemma ResizeBack(v: Vol, w: Vol, owner: Owner, i: nat)
    requires Extends(v, w, owner, i) && i < |v.inodes|
    ensures Resize(w, i, v.inodes[i].size) == w && |w.inodes| == |v.inodes|
    ensures w.inodes[i].size == v.inodes[i].size && w.inodes[i].mode == v.inodes[i].mode
    ensures Grows(v, w, owner, i)
  {
  }

  /** Adding blocks to a file in use, and changing its size, leave the free inodes empty. */
  lemma ExtendsKeepsFreeEmpty(v: Vol, w: Vol, owner: Owner, i: nat)
    requires Extends(v, w, owner, i) && i < |v.inodes|
    ensures FreeInodesEmpty(v) && (i < |v.inodeMap| ==> v.inodeMap[i]) ==>
      FreeInodesEmpty(w) && forall size :: FreeInodesEmpty(Resize(w, i, size))
  {
  }

  /** The block in which an unaligned offset lies is there. */
  lemma BackedReaches(v: Vol, i: nat, offset: nat)
    ensures Writable(v, i, offset) && offset % BLOCK_SIZE != 0 ==> Ptr(v, Leaf(i, offset / BLOCK_SIZE)) != 0
    ensures Writable(v, i, offset) ==> offset <= v.inodes[i].size && offset <= FAR
  {
  }

  /** Changing only the recorded size changes no slot and no byte. */
  lemma Resized(v: Vol, w: Vol, owner: Owner, i: nat, size: int)
    requires Owns(w, owner) && Extends(v, w, owner, i) && i < |v.inodes|
    ensures var x := Resize(w, i, size);
      Owns(x, owner) && Resize(x, i, v.inodes[i].size) == w && |x.inodes| == |w.inodes| &&
      (forall s :: Ptr(x, s) == Ptr(w, s)) && (forall j: nat, p: nat :: ByteAt(x, j, p) == ByteAt(w, j, p)) &&
      (forall j: nat, at: nat, data: seq<byte> :: Wrote(v, w, j, at, data) ==> Wrote(v, x, j, at, data)) &&
      (Built(w, i) ==> Built(x, i)) &&
      (size == w.inodes[i].size ==> x == w) && Grows(v, x, owner, i)
  {
    var x := Resize(w, i, size);
    forall s ensures Ptr(x, s) == Ptr(w, s) {
      if s.i == i && i < |w.inodes| { assert InodePtr(x, x.inodes[i], s) == InodePtr(w, w.inodes[i], s); }
    }
    forall s | Ptr(x, s) != 0 ensures Holds(x, owner, s) { assert Holds(w, owner, s); }
    assert x.inodes[i := x.inodes[i].(size := v.inodes[i].size)] == w.inodes;
    assert w.inodes[i := w.inodes[i]] == w.inodes;
    assert InOrder(w, i) ==> InOrder(x, i);
  }

  /** The disk is full, and the block that the next byte of the write goes to is not there;
      it is the first byte of that block, or of the write. */
  ghost predicate Stops(w: Vol, i: nat, at: nat, put: nat) {
    FreeBlocks(w.blockMap) == {} && Ptr(w, Leaf(i, (at + put) / BLOCK_SIZE)) == 0 &&
    (put == 0 || (at + put) % BLOCK_SIZE == 0)
  }

  /** Of the slots of file i those on the way to the bytes put filled up, and no others but
      index blocks on the way to the next. */
  ghost predicate FilledUp(v: Vol, w: Vol, i: nat, at: nat, put: nat) {
    Gains(v, w, i, at / BLOCK_SIZE, UpTo(at, put)) &&
    forall k :: at / BLOCK_SIZE <= k < UpTo(at, put) ==> Ptr(w, Leaf(i, k)) != 0
  }

  /** What a write at `at` of a file that is Backed leaves behind, with count r and `put`
      bytes really put: those are in place, and no other byte of any file changed; fewer
      only if the disk is full.  A write that ends before the double indirect part
      counts what it put; with all of it the size covers it, with less the size is as
      before.  One that goes on there raises the size to FAR only, and by what it did not
      count; it counts whole pieces, one more than it put when the disk fills up.  The file
      is Backed again in each case. */
  ghost predicate Written(v: Vol, w: Vol, i: nat, at: nat, data: seq<byte>, r: int, put: nat)
    requires i < |v.inodes| == |w.inodes|
  {
    put <= r <= |data| && Wrote(v, w, i, at, data[..put]) && Backed(w, i) && FilledUp(v, w, i, at, put) &&
    (put < |data| ==> Stops(w, i, at, put)) &&
    if at + r <= FAR then
      r == put && w.inodes[i].indir2 == v.inodes[i].indir2 &&
      (at + |data| > FAR ==> w.inodes[i].indir2 == 0) &&
      w.inodes[i].size == if r == |data| then Max(v.inodes[i].size, at + r) else v.inodes[i].size
    else
      at + put >= FAR && w.inodes[i].size == Max(v.inodes[i].size, FAR + |data| - r) &&
      w.inodes[i].indir2 != 0 && r == FAR - at + FarCount(at + |data| - FAR, at + put - FAR)
  }

  /** The pointers of a file have room for more blocks than there are. */
  lemma NeverFull(v0: Vol, w: Vol, owner: Owner, i: nat, at: nat, data: seq<byte>, put: nat)
    requires put <= |data| && Progress(v0, w, owner, i, at, data[..put], at / BLOCK_SIZE, UpTo(at, put)) && at <= FAR
    ensures at + put < FAR + INDIR2_SIZE && put <= BITS_PER_BLK * BLOCK_SIZE
  {
    hide Ptr, Leaf, Owns, Extends, Wrote, Gains;
    var lo, hi := at / BLOCK_SIZE, UpTo(at, put);
    FewBlocks(w, owner, i, lo, hi);
  }

  /** Blocks up to what was written, and in order. */
  lemma BuiltKept(v: Vol, w: Vol, owner: Owner, i: nat, at: nat, done: seq<byte>)
    requires Progress(v, w, owner, i, at, done, at / BLOCK_SIZE, UpTo(at, |done|)) && i < |v.inodes| == |w.inodes|
    requires Writable(v, i, at)
    requires w.inodes[i].indir2 == v.inodes[i].indir2 || at + |done| >= FAR
    ensures Built(w, i)
    ensures forall k: nat :: k * BLOCK_SIZE < Min(Max(v.inodes[i].size, at + |done|), FAR) ==> Ptr(w, Leaf(i, k)) != 0
  {
    InOrderKept(v, w, owner, i, at, done, at / BLOCK_SIZE, UpTo(at, |done|));
    hide InOrder, Gains;
    forall k: nat | k * BLOCK_SIZE < Min(Max(v.inodes[i].size, at + |done|), FAR) ensures Ptr(w, Leaf(i, k)) != 0 {
      if k * BLOCK_SIZE < v.inodes[i].size { assert Ptr(v, Leaf(i, k)) != 0; }
    }
    if v.inodes[i].indir2 != 0 {
      forall k: nat | k < N_DIRECT + PTRS_PER_BLK ensures Ptr(w, Leaf(i, k)) != 0 {
        assert Ptr(v, Leaf(i, k)) != 0;
      }
    }
  }

  /** The recorded size does not matter to the rest. */
  lemma WrittenResized(v: Vol, w: Vol, owner: Owner, i: nat, at: nat, data: seq<byte>, put: nat, size: int)
    requires put <= |data| && i < |v.inodes| == |w.inodes|
    requires Progress(v, w, owner, i, at, data[..put], at / BLOCK_SIZE, UpTo(at, put)) && Built(w, i)
    ensures var x := Resize(w, i, size);
      Wrote(v, x, i, at, data[..put]) && Built(x, i) && FilledUp(v, x, i, at, put) && |x.inodes| == |w.inodes| &&
      (Stops(w, i, at, put) ==> Stops(x, i, at, put)) && x.inodes[i] == w.inodes[i].(size := size) &&
      forall k: nat :: Ptr(x, Leaf(i, k)) == Ptr(w, Leaf(i, k))
  {
    Resized(v, w, owner, i, size);
    var x := Resize(w, i, size);
    assert Wrote(v, x, i, at, data[..put]);
    hide Owns, Extends, Wrote, Built, InStretch, Ptr, Leaf;
    assert Gains(v, x, i, at / BLOCK_SIZE, UpTo(at, put));
  }

  lemma ResizedBack(v: Vol, w: Vol, owner: Owner, i: nat)
    requires i < |v.inodes| == |w.inodes| && Extends(v, w, owner, i)
    ensures Resize(w, i, v.inodes[i].size) == w && w.inodes[i].size == v.inodes[i].size
  {
    ResizeBack(v, w, owner, i);
  }

  /** A full write below FAR. */
  lemma NearWritten(v: Vol, w: Vol, owner: Owner, i: nat, at: nat, data: seq<byte>)
    requires Progress(v, w, owner, i, at, data, at / BLOCK_SIZE, UpTo(at, |data|)) && i < |v.inodes| == |w.inodes|
    requires Writable(v, i, at) && at + |data| <= FAR && w.inodes[i].indir2 == v.inodes[i].indir2
    ensures Written(v, Resize(w, i, Max(v.inodes[i].size, at + |data|)), i, at, data, |data|, |data|)
  {
    assert data[..|data|] == data;
    BuiltKept(v, w, owner, i, at, data);
    BackedReaches(v, i, at);
    hide Progress, Built, Leaf, Ptr, FilledUp, Wrote, Stops;
    WrittenResized(v, w, owner, i, at, data, |data|, Max(v.inodes[i].size, at + |data|));
    var x := Resize(w, i, Max(v.inodes[i].size, at + |data|));
    hide Resize;
    assert Backed(x, i);
    hide Backed;
    assert Written(v, x, i, at, data, |data|, |data|);
  }

  /** A write past FAR that goes on in the double indirect part. */
  lemma FarWritten(v: Vol, w: Vol, owner: Owner, i: nat, at: nat, data: seq<byte>, r: nat, put: nat)
    requires put <= r <= |data| && i < |v.inodes| == |w.inodes| && Writable(v, i, at)
    requires at + put >= FAR && at + r > FAR && w.inodes[i].indir2 != 0
    requires put < |data| && at + put < FAR + INDIR2_SIZE ==> Stops(w, i, at, put)
    requires r == FAR - at + FarCount(Min(at + |data| - FAR, INDIR2_SIZE), at + put - FAR)
    requires Progress(v, w, owner, i, at, data[..put], at / BLOCK_SIZE, UpTo(at, put))
    ensures Written(v, Resize(w, i, Max(v.inodes[i].size, FAR + |data| - r)), i, at, data, r, put)
  {
    hide FilledUp, Wrote, Stops, Progress, Ptr, Leaf;
    var size := Max(v.inodes[i].size, FAR + |data| - r);
    BuiltKept(v, w, owner, i, at, data[..put]);
    BackedReaches(v, i, at);
    NeverFull(v, w, owner, i, at, data, put);
    if put < |data| { FarCountNear(at + |data| - FAR, at + put - FAR); }
    hide FarCount;
    hide Writable, Built;
    WrittenResized(v, w, owner, i, at, data, put, size);
    hide Resize;
    FarBacked(Resize(w, i, size), i);
    hide Backed;
    assert Written(v, Resize(w, i, size), i, at, data, r, put);
  }

  lemma FarBacked(x: Vol, i: nat)
    requires Built(x, i) && forall k: nat :: k * BLOCK_SIZE < FAR ==> Ptr(x, Leaf(i, k)) != 0
    ensures x.inodes[i].size >= FAR && x.inodes[i].indir2 != 0 ==> Backed(x, i)
  {
  }

  /** A write that stopped short before the double indirect part: the size is as before. */
  lemma ShortWritten(v: Vol, w: Vol, owner: Owner, i: nat, at: nat, data: seq<byte>, done: nat)
    requires done < |data| && i < |v.inodes| == |w.inodes| && at + done <= FAR
    requires Progress(v, w, owner, i, at, data[..done], at / BLOCK_SIZE, UpTo(at, done))
    requires Writable(v, i, at) && w.inodes[i].indir2 == v.inodes[i].indir2 && Stops(w, i, at, done)
    requires at + |data| > FAR ==> w.inodes[i].indir2 == 0
    ensures Written(v, w, i, at, data, done, done)
  {
    BuiltKept(v, w, owner, i, at, data[..done]);
    BackedReaches(v, i, at);
    ProgressExtends(v, w, owner, i, at, data[..done], at / BLOCK_SIZE, UpTo(at, done));
    ResizedBack(v, w, owner, i);
    hide Progress, Extends, Built, Leaf, Ptr, FilledUp, Wrote, Stops;
    WrittenResized(v, w, owner, i, at, data, done, v.inodes[i].size);
    hide Resize;
    assert Backed(w, i);
    hide Backed;
    assert Written(v, w, i, at, data, done, done);
  }

  /** What holds after the part of a write below FAR. */
  lemma NearDone(v: Vol, w: Vol, owner: Owner, i: nat, at: nat, data: seq<byte>, done: nat)
    requires done <= |data| && i < |v.inodes| == |w.inodes| && w.inodes[i].indir2 == v.inodes[i].indir2
    requires Progress(v, w, owner, i, at, data[..done], at / BLOCK_SIZE, UpTo(at, done))
    requires done < |data| && at + done < FAR ==> Stops(w, i, at, done)
    requires at <= FAR ==> at + done <= FAR
    ensures OthersKeep(v, w, i, Min(at, FAR)) && Extends(v, w, owner, i)
    ensures done < |data| && at + done < FAR ==> FreeBlocks(w.blockMap) == {}
    ensures Writable(v, i, at) ==> InOrder(w, i) && at + done <= FAR
    ensures Writable(v, i, at) && done < |data| && at + done < FAR ==>
      Ptr(w, Indir2(i)) == 0 && Written(v, w, i, at, data, done, done)
    ensures Writable(v, i, at) && done < |data| && Stops(w, i, at, done) ==>
      (w.inodes[i].indir2 == 0 ==> Written(v, w, i, at, data, done, done))
    ensures Writable(v, i, at) && done == |data| ==>
      Written(v, Resize(w, i, Max(v.inodes[i].size, at + done)), i, at, data, done, done)
  {
    ProgressExtends(v, w, owner, i, at, data[..done], at / BLOCK_SIZE, UpTo(at, done));
    assert OthersKeep(v, w, i, Min(at, FAR));
    hide Progress, Extends, Leaf, Ptr, Written, OthersKeep, InOrder, Resize;
    if Writable(v, i, at) { WritableDone(v, w, owner, i, at, data, done); }
    hide Writable;
  }

  lemma WritableDone(v: Vol, w: Vol, owner: Owner, i: nat, at: nat, data: seq<byte>, done: nat)
    requires done <= |data| && i < |v.inodes| == |w.inodes| && w.inodes[i].indir2 == v.inodes[i].indir2
    requires Progress(v, w, owner, i, at, data[..done], at / BLOCK_SIZE, UpTo(at, done)) && Extends(v, w, owner, i)
    requires done < |data| && at + done < FAR ==> Stops(w, i, at, done)
    requires Writable(v, i, at) && (at <= FAR ==> at + done <= FAR)
    ensures InOrder(w, i) && at + done <= FAR
    ensures done < |data| && at + done < FAR ==> Ptr(w, Indir2(i)) == 0 && Written(v, w, i, at, data, done, done)
    ensures done < |data| && Stops(w, i, at, done) ==>
      (w.inodes[i].indir2 == 0 ==> Written(v, w, i, at, data, done, done))
    ensures done == |data| ==> Written(v, Resize(w, i, Max(v.inodes[i].size, at + done)), i, at, data, done, done)
  {
    ShortNotFar(v, w, owner, i, (at + done) / BLOCK_SIZE);
    BackedReaches(v, i, at);
    BuiltKept(v, w, owner, i, at, data[..done]);
    assert done < |data| && at + done < FAR ==> Ptr(w, Leaf(i, (at + done) / BLOCK_SIZE)) == 0;
    assert InOrder(w, i) && Backed(v, i);
    hide Progress, Extends, Leaf, Ptr, Written, FreeBlocks, Backed, InOrder, Built, Stops, Resize;
    if done < |data| && Stops(w, i, at, done) && (at + |data| > FAR ==> w.inodes[i].indir2 == 0) {
      ShortWritten(v, w, owner, i, at, data, done);
    }
    if done == |data| {
      assert data[..done] == data;
      NearWritten(v, w, owner, i, at, data);
    }
  }

  /** A write that stopped short of FAR met a missing block: no double indirect block. */
  lemma ShortNotFar(v0: Vol, w: Vol, owner: Owner, i: nat, k: nat)
    requires Extends(v0, w, owner, i) && i < |v0.inodes| && |w.inodes| == |v0.inodes|
    ensures Backed(v0, i) && k < N_DIRECT + PTRS_PER_BLK && Ptr(w, Leaf(i, k)) == 0 ==> v0.inodes[i].indir2 == 0
    ensures Ptr(w, Indir2(i)) == w.inodes[i].indir2
  {
  }

  /** Subtraction on unsigned 64-bit sizes. */
  function SizeT(x: int): int {
    if x < 0 then x + 0x1_0000_0000_0000_0000 else x
  }

  /** Positions relative to the single indirect part. */
  lemma Relative(off: nat)
    requires off < FAR
    ensures var rel := SizeT(off - DIR_SIZE);
      if off >= DIR_SIZE then
        rel == off - DIR_SIZE && rel % BLOCK_SIZE == off % BLOCK_SIZE && N_DIRECT + rel / BLOCK_SIZE == off / BLOCK_SIZE
      else rel >= INDIR1_SIZE
    ensures forall n: nat {:trigger (off + n) / BLOCK_SIZE} :: off >= DIR_SIZE ==>
      N_DIRECT + (off - DIR_SIZE + n) / BLOCK_SIZE == (off + n) / BLOCK_SIZE
  {
  }

  lemma OthersBoth(u: Vol, v: Vol, w: Vol, i: nat, a: nat, b: nat, upTo: nat)
    requires OthersKeep(u, v, i, a) && OthersKeep(v, w, i, b) && upTo <= a && upTo <= b
    ensures OthersKeep(u, w, i, upTo)
  {
  }

  /** What lies before the write, and every other file, is as it was. */
  lemma OthersCompose(v0: Vol, v: Vol, w: Vol, i: nat, upTo: nat)
    requires OthersKeep(v0, v, i, upTo) && OthersKeep(v, w, i, FAR) && upTo <= FAR
    ensures OthersKeep(v0, w, i, upTo)
  {
  }

  lemma GainedKeeps(v: Vol, x: Vol, w: Vol, o: Owner, o': Owner, i: nat, s: Slot, upTo: nat)
    requires Gained(v, x, o, o', s)
    ensures OthersKeep(x, w, i, upTo) ==> OthersKeep(v, w, i, upTo)
  {
  }

  /** The index blocks on the way to a block. */
  lemma OnTheWay(i: nat, k: nat)
    ensures N_DIRECT <= k < N_DIRECT + PTRS_PER_BLK ==> Indir1(i) in Path(i, k)
    ensures k >= N_DIRECT + PTRS_PER_BLK ==> Indir2(i) in Path(i, k)
  {
  }

  lemma OthersResized(v0: Vol, w: Vol, owner: Owner, i: nat, upTo: nat, size: int)
    requires Owns(w, owner) && Extends(v0, w, owner, i) && i < |v0.inodes| && OthersKeep(v0, w, i, upTo)
    ensures OthersKeep(v0, Resize(w, i, size), i, upTo)
  {
    Resized(v0, w, owner, i, size);
  }

  lemma OthersStart(v: Vol, i: nat, upTo: nat)
    ensures OthersKeep(v, v, i, upTo)
  {
  }

  lemma NearExtends(v0: Vol, v: Vol, w: Vol, o: Owner, o': Owner, i: nat)
    requires Owns(v, o) && Owns(w, o') && Extends(v0, v, o, i) && Extends(v, w, o', i)
    ensures Extends(v0, w, o', i)
    ensures |w.inodes| == |v.inodes|
  {
  }

  /** An index block on the way to the next byte of a write is made sure of. */
  lemma IndexNeeded(v0: Vol, v: Vol, w: Vol, o: Owner, o': Owner, i: nat, offset: nat, done: seq<byte>, s: Slot)
    requires Progress(v0, v, o, i, offset, done, offset / BLOCK_SIZE, UpTo(offset, |done|))
    requires Owns(w, o') && Gained(v, w, o, o', s) && !IsLeaf(s)
    requires Ptr(v, s) != 0 || s in Path(i, (offset + |done|) / BLOCK_SIZE)
    ensures Progress(v0, w, o', i, offset, done, offset / BLOCK_SIZE, UpTo(offset, |done|))
  {
    hide Progress, Owns, Ptr, Path;
    if Ptr(v, s) != 0 {
      assert w == v && o' == o;
    } else {
      ProgressBetween(v0, v, w, o, o', i, offset, done, offset / BLOCK_SIZE, UpTo(offset, |done|), s,
                      (offset + |done|) / BLOCK_SIZE);
    }
  }

  /** Without a double indirect block the first block past FAR is not there. */
  lemma NoIndirect2NoLeaf(w: Vol, i: nat)
    ensures Ptr(w, Indir2(i)) == 0 ==> FarMissing(w, i, 0)
  {
    if Ptr(w, Indir2(i)) == 0 {
      PtrIsEntry(w, Mid(i, 0));
      NoMidNoLeaf(w, i, 0);
    }
  }

  lemma FarStops(w: Vol, i: nat, at: nat, done: nat, put: nat)
    requires at + done == FAR && FreeBlocks(w.blockMap) == {} && FarMissing(w, i, put) && put % BLOCK_SIZE == 0
    ensures Stops(w, i, at, done + put)
  {
    assert (FAR + put) / BLOCK_SIZE == N_DIRECT + PTRS_PER_BLK + put / BLOCK_SIZE;
    assert at + (done + put) == FAR + put;
  }

  /** What goes through the single indirect block follows what went before it. */
  lemma IndirectJoin(v0: Vol, v: Vol, w: Vol, o: Owner, o': Owner, i: nat, offset: nat, buf: seq<byte>,
                     done: nat, n: nat, rel: nat)
    requires done + n <= |buf| && rel == SizeT(offset + done - DIR_SIZE)
    requires n > 0 ==> offset + done >= DIR_SIZE && (offset + done) % BLOCK_SIZE == 0
    requires Progress(v0, v, o, i, offset, buf[..done], offset / BLOCK_SIZE, UpTo(offset, done))
    requires Progress(v, w, o', i, N_DIRECT * BLOCK_SIZE + rel, buf[done..][..n],
                      N_DIRECT + rel / BLOCK_SIZE, N_DIRECT + UpTo(rel, n))
    requires offset + done < FAR && (offset + done < DIR_SIZE ==> w == v)
    ensures Progress(v0, w, o', i, offset, buf[..done + n], offset / BLOCK_SIZE, UpTo(offset, done + n))
    ensures Extends(v0, w, o', i)
  {
    hide Progress, Extends;
    var lo, mid, hi := offset / BLOCK_SIZE, UpTo(offset, done), N_DIRECT + UpTo(rel, n);
    assert buf[..done + n] == buf[..done] + buf[done..][..n];
    if n == 0 {
      assert buf[done..][..n] == [] && buf[..done + n] == buf[..done];
      ProgressNothing(v0, v, w, o, o', i, offset, buf[..done], lo, mid, N_DIRECT * BLOCK_SIZE + rel, hi);
    } else {
      ProgressCompose(v0, v, w, o, o', i, offset, buf[..done], buf[done..][..n], lo, mid, hi);
    }
    ProgressExtends(v0, w, o', i, offset, buf[..done + n], lo, UpTo(offset, done + n));
  }

  /** What goes past FAR follows what went up to it. */
  lemma FarJoin(v0: Vol, v: Vol, w: Vol, o: Owner, o': Owner, i: nat, offset: nat, buf: seq<byte>, done: nat, n: nat)
    requires done + n <= |buf| && offset + done == FAR
    requires Progress(v0, v, o, i, offset, buf[..done], offset / BLOCK_SIZE, UpTo(offset, done))
    requires FarProgress(v, w, o', i, buf[done..][..n])
    ensures Progress(v0, w, o', i, offset, buf[..done + n], offset / BLOCK_SIZE, UpTo(offset, done + n))
  {
    hide Progress;
    var base := N_DIRECT + PTRS_PER_BLK;
    assert UpTo(offset, done) == base;
    assert base + UpTo(0, n) == UpTo(offset, done + n);
    assert buf[..done + n] == buf[..done] + buf[done..][..n];
    ProgressCompose(v0, v, w, o, o', i, offset, buf[..done], buf[done..][..n],
                    offset / BLOCK_SIZE, base, base + UpTo(0, n));
  }

  lemma LeafNeedsIndirect(v: Vol, owner: Owner, i: nat, k: nat)
    requires Owns(v, owner)
    ensures N_DIRECT <= k < N_DIRECT + PTRS_PER_BLK && Ptr(v, Leaf(i, k)) != 0 ==> Ptr(v, Indir1(i)) != 0
  {
  }

  /** No block becomes free. */
  lemma GainedUses(v: Vol, w: Vol, o: Owner, o': Owner, s: Slot)
    requires Gained(v, w, o, o', s)
    ensures FreeBlocks(w.blockMap) <= FreeBlocks(v.blockMap)
    ensures forall t :: Ptr(v, t) != 0 ==> Ptr(w, t) == Ptr(v, t)
  {
  }

  lemma ProgressUses(v0: Vol, w: Vol, owner: Owner, i: nat, at: nat, done: seq<byte>, lo: nat, hi: nat)
    requires Progress(v0, w, owner, i, at, done, lo, hi)
    ensures FreeBlocks(w.blockMap) <= FreeBlocks(v0.blockMap)
    ensures |w.inodes| == |v0.inodes|
  {
  }

  /** The number of the block after the last one touched. */
  function UpTo(offset: nat, n: nat): nat {
    if n == 0 then offset / BLOCK_SIZE else (offset + n - 1) / BLOCK_SIZE + 1
  }

  lemma ProgressHolds(v0: Vol, w: Vol, owner: Owner, i: nat, at: nat, done: seq<byte>, lo: nat, hi: nat)
    requires Progress(v0, w, owner, i, at, done, lo, hi)
    ensures Owns(w, owner)
    ensures forall s :: Ptr(w, s) != 0 ==> Ptr(w, s) < |w.disk|
  {
  }

  lemma ProgressExtends(v0: Vol, w: Vol, owner: Owner, i: nat, at: nat, done: seq<byte>, lo: nat, hi: nat)
    requires Progress(v0, w, owner, i, at, done, lo, hi)
    ensures Extends(v0, w, owner, i) && OthersKeep(v0, w, i, at)
  {
  }

  /** A write of at most a block's length that starts in one block and ends in the next. */
  predicate Crosses(offset: nat, len: nat) {
    len <= BLOCK_SIZE && offset % BLOCK_SIZE + len > BLOCK_SIZE
  }
}
