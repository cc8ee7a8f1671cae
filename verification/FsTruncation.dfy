/** Giving the blocks of a file back: which blocks truncation frees, which it forgets,
    and what that does to ownership and to the number of free blocks. */
module FsTruncation {
  import opened FsModel
  import opened FsEffects

  /** m' is m with exactly the blocks of a set cleared. */
  predicate ClearsOnly(m: seq<bool>, m': seq<bool>, blocks: set<nat>) {
    |m'| == |m| && forall b :: 0 <= b < |m| ==> (m'[b] <==> m[b] && b !in blocks)
  }

  /** The numbers in an index block, entries lo on left out. */
  function Pointers(x: Block, n: nat): set<nat>
    requires n <= PTRS_PER_BLK
  {
    set k: nat | k < n && PtrAt(x, k) != 0 :: PtrAt(x, k)
  }

  function Numbers(ns: seq<nat>): set<nat> {
    set k: nat | k < |ns| && ns[k] != 0 :: ns[k]
  }

  /** The numbers in the first n of the index blocks that an index block names. */
  function Grandchildren(disk: seq<Block>, x: Block, n: nat): set<nat>
    requires n <= PTRS_PER_BLK
  {
    set a: nat, k: nat | a < n && k < PTRS_PER_BLK && 0 < PtrAt(x, a) < |disk| && PtrAt(disk[PtrAt(x, a)], k) != 0
      :: PtrAt(disk[PtrAt(x, a)], k)
  }

  /** The level-1 index blocks of file i. */
  function Mids(v: Vol, i: nat): set<nat> {
    set a: nat | a < PTRS_PER_BLK && Ptr(v, Mid(i, a)) != 0 :: Ptr(v, Mid(i, a))
  }

  /** The blocks that truncation of file i clears in the map. */
  function Freed(v: Vol, i: nat): set<nat>
    requires i < |v.inodes|
  {
    Numbers(v.inodes[i].direct) + Freed1(v, v.inodes[i]) + Freed2(v, v.inodes[i])
  }

  function Freed1(v: Vol, n: Inode): set<nat> {
    if 0 < n.indir1 < |v.disk| then Pointers(v.disk[n.indir1], PTRS_PER_BLK) + {n.indir1} else {}
  }

  function Freed2(v: Vol, n: Inode): set<nat> {
    if 0 < n.indir2 < |v.disk| then Grandchildren(v.disk, v.disk[n.indir2], PTRS_PER_BLK) + {n.indir2} else {}
  }

  /** Every block of the file is freed or is a level-1 index block, and not both. */
  lemma FreedAndMids(v: Vol, owner: Owner, i: nat)
    requires Owns(v, owner) && i < |v.inodes|
    ensures BlocksOf(v, owner, i) == Freed(v, i) + Mids(v, i)
    ensures Freed(v, i) !! Mids(v, i)
    ensures forall b :: b in Freed(v, i) ==> v.base <= b < |v.blockMap| && v.blockMap[b]
  {
    forall b: nat | b in BlocksOf(v, owner, i) ensures b in Freed(v, i) + Mids(v, i) {
      BlockIsFreedOrMid(v, owner, i, owner[b]);
    }
    forall b: nat | b in Freed(v, i)
      ensures b in BlocksOf(v, owner, i) && !owner[b].Mid?
      ensures v.base <= b < |v.blockMap| && v.blockMap[b]
    {
      var s := FreedSlot(v, owner, i, b);
      assert Holds(v, owner, s);
    }
    forall b: nat | b in Mids(v, i) ensures b in BlocksOf(v, owner, i) && owner[b].Mid? {
      var a: nat :| a < PTRS_PER_BLK && Ptr(v, Mid(i, a)) != 0 && b == Ptr(v, Mid(i, a));
      assert Holds(v, owner, Mid(i, a));
    }
  }

  lemma BlockIsFreedOrMid(v: Vol, owner: Owner, i: nat, s: Slot)
    requires Owns(v, owner) && i < |v.inodes| && s.i == i && Ptr(v, s) != 0
    ensures Ptr(v, s) in Freed(v, i) + Mids(v, i)
  {
  }

  /** The slot, not a level-1 one, from which a freed block comes. */
  lemma FreedSlot(v: Vol, owner: Owner, i: nat, b: nat) returns (s: Slot)
    requires Owns(v, owner) && i < |v.inodes| && b in Freed(v, i)
    ensures s.i == i && !s.Mid? && Ptr(v, s) == b != 0
  {
    var n := v.inodes[i];
    if b in Numbers(n.direct) {
      var k: nat :| k < |n.direct| && n.direct[k] != 0 && b == n.direct[k];
      s := Direct(i, k);
    } else if 0 < n.indir1 < |v.disk| && b in Pointers(v.disk[n.indir1], PTRS_PER_BLK) + {n.indir1} {
      if b == n.indir1 {
        s := Indir1(i);
      } else {
        var k: nat :| k < PTRS_PER_BLK && PtrAt(v.disk[n.indir1], k) != 0 && b == PtrAt(v.disk[n.indir1], k);
        s := Leaf1(i, k);
      }
    } else if b == n.indir2 {
      s := Indir2(i);
    } else {
      var x := v.disk[n.indir2];
      var a: nat, k: nat :| a < PTRS_PER_BLK && k < PTRS_PER_BLK && 0 < PtrAt(x, a) < |v.disk| &&
        PtrAt(v.disk[PtrAt(x, a)], k) != 0 && b == PtrAt(v.disk[PtrAt(x, a)], k);
      s := Leaf2(i, a, k);
    }
  }

  /** The inode of a truncated file. */
  function Emptied(n: Inode): Inode {
    Inode(n.mode, 0, [0, 0, 0, 0, 0, 0], 0, 0)
  }

  /** The volume after truncation of file i. */
  ghost predicate Truncated(v: Vol, w: Vol, i: nat)
    requires i < |v.inodes|
  {
    w.base == v.base && w.disk == v.disk && w.inodeMap == v.inodeMap &&
    w.inodes == v.inodes[i := Emptied(v.inodes[i])] && ClearsOnly(v.blockMap, w.blockMap, Freed(v, i))
  }

  /** File i is gone: its inode is cleared and free, its blocks are free but for the level-1
      index blocks, and every other slot is as it was. */
  ghost predicate FileGone(v: Vol, w: Vol, owner: Owner, i: int) {
    0 <= i < |v.inodes| && i < |v.inodeMap| && w.base == v.base && |w.disk| == |v.disk| &&
    w.inodes == v.inodes[i := Cleared()] && w.inodeMap == v.inodeMap[i := false] &&
    ClearsOnly(v.blockMap, w.blockMap, BlocksOf(v, owner, i) - Mids(v, i)) &&
    forall s: Slot :: Ptr(w, s) == if s.i == i then 0 else Ptr(v, s)
  }

  lemma IsGone(v: Vol, w: Vol, owner: Owner, i: nat)
    requires Owns(v, owner) && i < |v.inodes| && i < |v.inodeMap| && w.base == v.base && |w.disk| == |v.disk|
    requires w.inodes == v.inodes[i := Cleared()] && w.inodeMap == v.inodeMap[i := false]
    requires ClearsOnly(v.blockMap, w.blockMap, Freed(v, i))
    requires forall s: Slot :: Ptr(w, s) == if s.i == i then 0 else Ptr(v, s)
    ensures FileGone(v, w, owner, i)
  {
    FreedAndMids(v, owner, i);
    hide Owns, Freed, BlocksOf, Mids, Ptr;
    assert Freed(v, i) == BlocksOf(v, owner, i) - Mids(v, i);
  }

  /** Truncation empties file i, leaves every slot and byte of every other file, and
      keeps ownership. */
  lemma TruncateKeeps(v: Vol, w: Vol, owner: Owner, i: nat)
    requires Owns(v, owner) && i < |v.inodes| && Truncated(v, w, i)
    ensures Owns(w, owner)
    ensures forall s :: Ptr(w, s) == if s.i == i then 0 else Ptr(v, s)
    ensures forall j: nat, p: nat :: ByteAt(w, j, p) == if j == i then 0 else ByteAt(v, j, p)
    ensures FreeInodesEmpty(v) ==> FreeInodesEmpty(w)
  {
    forall s ensures Ptr(w, s) == if s.i == i then 0 else Ptr(v, s) {
      if s.i < |w.inodes| && s.i != i { assert InodePtr(w, w.inodes[s.i], s) == InodePtr(v, v.inodes[s.i], s); }
    }
    FreedAndMids(v, owner, i);
    forall s | Ptr(w, s) != 0 ensures Holds(w, owner, s) {
      assert Holds(v, owner, s);
      assert Ptr(v, s) in Freed(v, i) ==> Ptr(v, s) in BlocksOf(v, owner, i);
    }
    forall j: nat, p: nat ensures ByteAt(w, j, p) == if j == i then 0 else ByteAt(v, j, p) {
      LeafInverse(j, p / BLOCK_SIZE, j, p / BLOCK_SIZE);
    }
  }

  /** The number of free blocks rises by exactly the blocks the file held, less the
      level-1 index blocks, which stay marked with nobody holding them. */
  lemma TruncateCounts(v: Vol, m: seq<bool>, owner: Owner, i: nat)
    requires Owns(v, owner) && i < |v.inodes| && ClearsOnly(v.blockMap, m, Freed(v, i))
    ensures FreeBlocks(m) == FreeBlocks(v.blockMap) + Freed(v, i)
    ensures |FreeBlocks(m)| == |FreeBlocks(v.blockMap)| + |BlocksOf(v, owner, i)| - |Mids(v, i)|
  {
    FreedAndMids(v, owner, i);
    hide Owns, Freed, Mids, BlocksOf, Ptr;
    assert FreeBlocks(m) == FreeBlocks(v.blockMap) + Freed(v, i);
    assert FreeBlocks(v.blockMap) !! Freed(v, i);
    assert |BlocksOf(v, owner, i)| == |Freed(v, i)| + |Mids(v, i)|;
  }

  /** Truncation gives back every block of the file if and only if the file has no
      level-1 index block. */
  lemma TruncateConservesIff(v: Vol, m: seq<bool>, owner: Owner, i: nat)
    requires Owns(v, owner) && i < |v.inodes| && ClearsOnly(v.blockMap, m, Freed(v, i))
    ensures |FreeBlocks(m)| == |FreeBlocks(v.blockMap)| + |BlocksOf(v, owner, i)| <==>
      forall a: nat :: a < PTRS_PER_BLK ==> Ptr(v, Mid(i, a)) == 0
  {
    TruncateCounts(v, m, owner, i);
    hide Owns, Freed, BlocksOf, FreeBlocks, ClearsOnly;
    if |Mids(v, i)| == 0 {
      forall a: nat | a < PTRS_PER_BLK ensures Ptr(v, Mid(i, a)) == 0 {
        assert Ptr(v, Mid(i, a)) != 0 ==> Ptr(v, Mid(i, a)) in Mids(v, i);
      }
    } else {
      var b :| b in Mids(v, i);
    }
  }

  /** A new file, filled by any writes, then truncated or unlinked: the free blocks are
      the same set as before, but for the level-1 index blocks. */
  lemma FillAndTruncate(u: Vol, v: Vol, m: seq<bool>, owner: Owner, owner': Owner, i: nat)
    requires Owns(u, owner) && Owns(v, owner') && Grows(u, v, owner', i) && i < |v.inodes|
    requires forall s: Slot :: s.i == i ==> Ptr(u, s) == 0
    requires ClearsOnly(v.blockMap, m, Freed(v, i))
    ensures FreeBlocks(u.blockMap) == FreeBlocks(m) + Mids(v, i)
    ensures FreeBlocks(m) !! Mids(v, i)
  {
    NoBlocks(u, owner, i);
    hide Owns, Grows, Freed, Mids, BlocksOf, FreeBlocks, ClearsOnly, Ptr;
    GrowthConserves(u, v, owner, owner', i);
    TruncateCounts(v, m, owner', i);
    FreedAndMids(v, owner', i);
    Shuffle(FreeBlocks(u.blockMap), FreeBlocks(v.blockMap), FreeBlocks(m),
            BlocksOf(v, owner', i), Freed(v, i), Mids(v, i));
  }

  lemma NoBlocks(u: Vol, owner: Owner, i: nat)
    requires forall s: Slot :: s.i == i ==> Ptr(u, s) == 0
    ensures BlocksOf(u, owner, i) == {}
  {
  }

  lemma Shuffle(before: set<nat>, full: set<nat>, after: set<nat>, held: set<nat>, freed: set<nat>, kept: set<nat>)
    requires before == full + (held - {}) && full !! held
    requires after == full + freed && held == freed + kept && freed !! kept
    ensures before == after + kept && after !! kept
  {
  }

  // ---- making and removing files, at the level of inodes

  /** An inode that the inode map leaves free holds no block. */
  predicate FreeInodesEmpty(v: Vol) {
    |v.inodeMap| <= |v.inodes| &&
    forall i :: 0 <= i < |v.inodeMap| && !v.inodeMap[i] ==> Empty(v.inodes[i])
  }

  predicate Empty(n: Inode) {
    n.direct == [0, 0, 0, 0, 0, 0] && n.indir1 == 0 && n.indir2 == 0
  }

  lemma EmptyHoldsNothing(v: Vol, i: nat)
    requires i < |v.inodes| && Empty(v.inodes[i])
    ensures forall s: Slot :: s.i == i ==> Ptr(v, s) == 0
  {
  }

  /** Replacing an inode that holds nothing by another that holds nothing. */
  lemma SwapEmpty(v: Vol, owner: Owner, i: nat, n: Inode, map_: seq<bool>)
    requires Owns(v, owner) && i < |v.inodes| && Empty(v.inodes[i]) && Empty(n) && |map_| == |v.inodeMap|
    ensures var w := Vol(v.base, v.disk, v.blockMap, v.inodes[i := n], map_);
      Owns(w, owner) && (forall s :: Ptr(w, s) == Ptr(v, s)) &&
      (forall j: nat, p: nat :: ByteAt(w, j, p) == ByteAt(v, j, p))
  {
    var w := Vol(v.base, v.disk, v.blockMap, v.inodes[i := n], map_);
    forall s ensures Ptr(w, s) == Ptr(v, s) {
      if s.i < |v.inodes| { assert s.i != i ==> InodePtr(w, w.inodes[s.i], s) == InodePtr(v, v.inodes[s.i], s); }
    }
    forall s | Ptr(w, s) != 0 ensures Holds(w, owner, s) { assert Holds(v, owner, s); }
  }
}
