/** The block allocator and the file operations of pmeunier-project/fs.c on the
    in-memory tables and the disk, changed in place. */
module FsVolume {
  import opened Octets
  import opened Errno
  import opened FsModel
  import opened FsEffects
  import opened FsTruncation
  import opened FsSteps
  import opened FsDirectory
  import FsNames

  const INODES_PER_BLK := 16

  class Volume {
    const base: nat
    var disk: seq<Block>
    var blockMap: seq<bool>
    var inodes: seq<Inode>
    var inodeMap: seq<bool>
    // the copies on disk of the inode region and of the two maps
    var diskInodes: seq<Inode>
    var diskInodeMap: seq<bool>
    var diskBlockMap: seq<bool>
    ghost var owner: Owner

    ghost function View(): Vol
      reads this
    {
      Vol(base, disk, blockMap, inodes, inodeMap)
    }

    /** A volume mounted, its tables read from disk. */
    constructor (v: Vol, ghost o: Owner)
      requires Owns(v, o) && |v.inodes| % INODES_PER_BLK == 0
      ensures Valid() && View() == v && owner == o && Synced()
    {
      base, disk, blockMap, inodes, inodeMap := v.base, v.disk, v.blockMap, v.inodes, v.inodeMap;
      diskInodes, diskInodeMap, diskBlockMap := v.inodes, v.inodeMap, v.blockMap;
      owner := o;
    }

    ghost predicate Valid()
      reads this
    {
      Owns(View(), owner) && |inodes| % INODES_PER_BLK == 0 && |diskInodes| == |inodes|
    }

    predicate InodesSynced()
      reads this
    {
      diskInodes == inodes && diskInodeMap == inodeMap
    }

    /** The three tables on disk. */
    ghost function OnDisk(): (seq<Inode>, seq<bool>, seq<bool>)
      reads this
    {
      (diskInodes, diskInodeMap, diskBlockMap)
    }

    /** What fs_init would read back is what is in memory. */
    predicate Synced()
      reads this
    {
      InodesSynced() && diskBlockMap == blockMap
    }

    /** fs_init on a volume in use, as fs_getattr calls it. */
    method FsInit()
      modifies `inodes, `inodeMap, `blockMap
      ensures View() == Vol(base, disk, diskBlockMap, diskInodes, diskInodeMap)
      ensures View() == old(View()) <==> old(Synced())
      ensures Synced() && (old(Valid() && Synced()) ==> Valid())
    {
      inodes, inodeMap, blockMap := diskInodes, diskInodeMap, diskBlockMap;
    }

    method NumFreeBlk() returns (count: nat)
      ensures count == |FreeBlocks(blockMap)|
    {
      count := 0;
      ghost var free: set<nat> := {};
      var i := 0;
      while i < |blockMap|
        invariant 0 <= i <= |blockMap|
        invariant free == (set b: nat | b < i && !blockMap[b]) && count == |free|
      {
        if !blockMap[i] {
          count := count + 1;
          free := free + {i};
        }
        i := i + 1;
      }
    }

    /** The lowest free block, zeroed and marked, or -ENOSPC. */
    method GetFreeBlk() returns (r: int)
      requires Valid()
      modifies `disk, `blockMap
      ensures Valid() && (r == ENOSPC || 0 <= r < |disk|)
      ensures r < 0 ==> FreeBlocks(old(blockMap)) == {} && View() == old(View())
      ensures r >= 0 ==> r in FreeBlocks(old(blockMap)) && (forall b :: b in FreeBlocks(old(blockMap)) ==> r <= b)
      ensures r >= 0 ==> View() == Alloc(old(View()), r) && Loose(View(), r)
      ensures r >= 0 ==> (forall s :: Ptr(View(), s) == old(Ptr(View(), s))) &&
                         (forall i, p :: ByteAt(View(), i, p) == old(ByteAt(View(), i, p)))
    {
      var i := 0;
      while i < |disk|
        invariant 0 <= i <= |disk|
        invariant forall b :: 0 <= b < i ==> blockMap[b]
      {
        if !blockMap[i] {
          AllocKeeps(View(), owner, i);
          disk := disk[i := Zeros()];
          blockMap := blockMap[i := true];
          return i;
        }
        i := i + 1;
      }
      return ENOSPC;
    }

    method ReturnBlk(b: nat)
      requires b < |blockMap|
      modifies `blockMap
      ensures blockMap == old(blockMap)[b := false]
    {
      blockMap := blockMap[b := false];
    }

    method UpdateBlk()
      modifies `diskBlockMap
      ensures diskBlockMap == blockMap
    {
      diskBlockMap := blockMap;
    }

    /** Writes the block of the inode table that inode inum is in, and the inode map. */
    method UpdateInode(inum: nat)
      requires inum < |inodes| == |diskInodes| && |inodes| % INODES_PER_BLK == 0
      modifies `diskInodes, `diskInodeMap
      ensures diskInodeMap == inodeMap && |diskInodes| == |inodes|
      ensures forall j :: 0 <= j < |inodes| ==>
        diskInodes[j] == if j / INODES_PER_BLK == inum / INODES_PER_BLK then inodes[j] else old(diskInodes)[j]
    {
      var first := inum - inum % INODES_PER_BLK;
      diskInodes := diskInodes[..first] + inodes[first..first + INODES_PER_BLK] + diskInodes[first + INODES_PER_BLK..];
      diskInodeMap := inodeMap;
    }

    // ---- writing

    /** Copies len bytes of the buffer into a block.  A copy past the end of the block
        or of the buffer is a memory error: it is reported and not carried out. */
    method FsWriteBlk(b: nat, buf: seq<byte>, from: nat, len: nat, at: nat) returns (ok: bool)
      requires b < |disk|
      modifies `disk
      ensures ok <==> at + len <= BLOCK_SIZE && from + len <= |buf|
      ensures !ok ==> disk == old(disk)
      ensures ok ==> disk == old(disk)[b := Spliced(old(disk)[b], at, buf[from..from + len])]
    {
      ok := at + len <= BLOCK_SIZE && from + len <= |buf|;
      if ok {
        disk := disk[b := Spliced(disk[b], at, buf[from..from + len])];
      }
    }

    /** Makes sure of block k of an inode, 0 <= k < 6. */
    method NeedDirect(inum: nat, k: nat) returns (ok: bool)
      requires Valid() && inum < |inodes| && k < N_DIRECT
      modifies this
      ensures Valid()
      ensures ok ==> Gained(old(View()), View(), old(owner), owner, Direct(inum, k))
      ensures |inodes| == old(|inodes|) && inodes[inum].indir2 == old(inodes[inum].indir2)
      ensures ok ==> |inodes[inum].direct| == N_DIRECT &&
                     inodes[inum].direct[k] == Ptr(View(), Leaf(inum, k)) != 0
      ensures !ok ==> View() == old(View()) && owner == old(owner)
      ensures ok <==> old(Ptr(View(), Direct(inum, k))) != 0 || FreeBlocks(old(blockMap)) != {}
      ensures diskBlockMap == old(diskBlockMap) && (old(InodesSynced()) ==> InodesSynced())
    {
      ok := true;
      if inodes[inum].direct[k] == 0 {
        var freeb := GetFreeBlk();
        if freeb < 0 {
          return false;
        }
        assert freeb in FreeBlocks(old(blockMap));
        AttachInode(View(), owner, Direct(inum, k), freeb);
        inodes := inodes[inum := inodes[inum].(direct := inodes[inum].direct[k := freeb])];
        owner := owner[freeb := Direct(inum, k)];
        UpdateInode(inum);
      }
    }

    /** One turn of a writing loop, once its block is there: copies a piece. */
    method WriteTurn(b: nat, buf: seq<byte>, from: nat, cur: nat, off: nat,
                     ghost v0: Vol, ghost i: nat, ghost at: nat, ghost lo: nat, ghost k: nat) returns (ok: bool)
      requires Valid() && from <= |buf|
      requires Progress(v0, View(), owner, i, at, buf[..from], lo, k + 1) && lo <= k
      requires k * BLOCK_SIZE + off == at + from && Ptr(View(), Leaf(i, k)) == b != 0
      modifies `disk
      ensures Valid() && (ok <==> off + cur <= BLOCK_SIZE && from + cur <= |buf|)
      ensures !ok ==> View() == old(View())
      ensures ok ==> Progress(v0, View(), owner, i, at, buf[..from + cur], lo, k + 1)
      ensures |disk| == old(|disk|) && forall c :: 0 <= c < |disk| && c != b ==> disk[c] == old(disk)[c]
      ensures forall t :: Ptr(View(), t) == old(Ptr(View(), t))
    {
      hide Progress, Spliced;
      if off + cur <= BLOCK_SIZE && from + cur <= |buf| {
        ProgressPiece(v0, View(), owner, i, at, buf[..from], lo, k, off, buf[from..from + cur]);
        assert buf[..from + cur] == buf[..from] + buf[from..from + cur];
      }
      ProgressHolds(v0, View(), owner, i, at, buf[..from], lo, k + 1);
      ok := FsWriteBlk(b, buf, from, cur, off);
      if ok { ProgressHolds(v0, View(), owner, i, at, buf[..from + cur], lo, k + 1); }
    }

    /** Makes sure of entry k of the index block b, whose copy in memory is idx. */
    method NeedEntry(idx: Block, b: nat, k: nat, ghost s: Slot) returns (idx': Block, ok: bool)
      requires Valid() && 0 < b < |disk| && idx == disk[b] && k < PTRS_PER_BLK
      requires s.Leaf1? || s.Mid? || s.Leaf2?
      requires s.i < |inodes| && Index(s) == k && Ptr(View(), Parent(s)) == b
      modifies `disk, `blockMap, `owner
      ensures Valid() && |disk| == old(|disk|) && idx' == disk[b]
      ensures ok ==> Gained(old(View()), View(), old(owner), owner, s)
      ensures ok ==> Ptr(View(), Parent(s)) == b && PtrAt(idx', k) == Ptr(View(), s) != 0
      ensures forall c :: 0 <= c < |disk| && c != b && c !in FreeBlocks(old(blockMap)) ==> disk[c] == old(disk)[c]
      ensures !ok ==> View() == old(View()) && owner == old(owner)
      ensures ok <==> old(Ptr(View(), s)) != 0 || FreeBlocks(old(blockMap)) != {}
    {
      ok, idx' := true, idx;
      PtrIsEntry(View(), s);
      if PtrAt(idx, k) == 0 {
        var freeb := GetFreeBlk();
        if freeb < 0 {
          return idx, false;
        }
        assert freeb in FreeBlocks(old(blockMap));
        assert Ptr(View(), Parent(s)) == b && freeb != b;
        AttachEntry(View(), owner, s, freeb);
        idx' := SetPtr(idx, k, freeb);
        disk := disk[b := idx'];
        owner := owner[freeb := s];
        SetPtrAt(idx, k, freeb, k);
      }
    }

    /** The loop over the direct blocks.  It stops short only when the disk is full or
        the direct blocks end; it overruns a block exactly when a write of at most one
        block's length crosses a block boundary. */
    method FsWriteDir(inum: nat, buf: seq<byte>, offset: nat) returns (n: nat, ok: bool)
      requires Valid() && inum < |inodes|
      modifies this
      ensures Valid() && n <= |buf|
      ensures |inodes| == old(|inodes|) && inodes[inum].indir2 == old(inodes[inum].indir2)
      ensures ok ==> Progress(old(View()), View(), owner, inum, offset, buf[..n], offset / BLOCK_SIZE, UpTo(offset, n))
      ensures !ok ==> Extends(old(View()), View(), owner, inum) && OthersKeep(old(View()), View(), inum, offset)
      ensures ok && n < |buf| && offset + n < DIR_SIZE ==>
        FreeBlocks(blockMap) == {} && Ptr(View(), Leaf(inum, (offset + n) / BLOCK_SIZE)) == 0
      ensures ok && 0 < n < |buf| ==> (offset + n) % BLOCK_SIZE == 0
      ensures if offset < DIR_SIZE then offset + n <= DIR_SIZE else n == 0
      ensures !ok ==> Crosses(offset, |buf|) && offset < DIR_SIZE
      ensures Crosses(offset, |buf|) && offset < DIR_SIZE ==>
        !ok || (n == 0 && old(Ptr(View(), Leaf(inum, offset / BLOCK_SIZE))) == 0 && FreeBlocks(old(blockMap)) == {})
      ensures diskBlockMap == old(diskBlockMap) && (old(InodesSynced()) ==> InodesSynced())
    {
      hide Progress, Owns, Ptr, FreeBlocks, OthersKeep;
      ghost var v0, lo := View(), offset / BLOCK_SIZE;
      var len := |buf|;
      var blkNum, blkOffset, left := offset / BLOCK_SIZE, offset % BLOCK_SIZE, len;
      ok := true;
      ProgressStart(v0, owner, inum, offset, lo);
      while blkNum < N_DIRECT && left > 0
        invariant 0 <= left <= len && blkOffset < BLOCK_SIZE && lo <= blkNum
        invariant left > 0 ==> blkNum * BLOCK_SIZE + blkOffset == offset + (len - left)
        invariant left < len ==> blkOffset == 0 && !(Crosses(offset, len) && offset < DIR_SIZE) && blkNum <= N_DIRECT
        invariant left < len ==> blkNum == UpTo(offset, len - left)
        invariant left == len ==> blkNum == lo && blkOffset == offset % BLOCK_SIZE
        invariant left == len ==> View() == v0 && owner == old(owner)
        invariant Valid() && |inodes| == |v0.inodes| && inodes[inum].indir2 == v0.inodes[inum].indir2
        invariant Progress(v0, View(), owner, inum, offset, buf[..len - left], lo, blkNum)
        invariant diskBlockMap == old(diskBlockMap) && (old(InodesSynced()) ==> InodesSynced())
      {
        var cur := if left > BLOCK_SIZE then BLOCK_SIZE - blkOffset else left;
        ghost var v1, o1 := View(), owner;
        var got := NeedDirect(inum, blkNum);
        if !got {
          return len - left, true;
        }
        ProgressNeed(v0, v1, View(), o1, owner, inum, offset, buf[..len - left], lo, blkNum);
        ok := WriteTurn(inodes[inum].direct[blkNum], buf, len - left, cur, blkOffset, v0, inum, offset, lo, blkNum);
        if !ok {
          ProgressExtends(v0, View(), owner, inum, offset, buf[..len - left], lo, blkNum + 1);
          return len - left, false;
        }
        left := left - cur;
        blkNum := blkNum + 1;
        blkOffset := 0;
      }
      n := len - left;
    }

    /** One turn of the loop over the entries of an index block: makes sure of entry k,
        then copies a piece.  It is `short` when the disk is full, and not `ok` when the
        copy would overrun the block or the buffer. */
    method EntryTurn(idx: Block, b: nat, k: nat, buf: seq<byte>, from: nat, temp: nat, off: nat,
                     ghost v0: Vol, ghost i: nat, ghost at: nat, ghost lo: nat, ghost first: nat, ghost parent: Slot)
      returns (idx': Block, short: bool, ok: bool)
      requires Valid() && 0 < b < |disk| && idx == disk[b] && k < PTRS_PER_BLK && i < |inodes| && from <= |buf|
      requires IndexFor(parent, i, first) && Ptr(View(), parent) == b && IndexSame(v0, View(), parent)
      requires Progress(v0, View(), owner, i, at, buf[..from], lo, first + k) && lo <= first + k
      requires (first + k) * BLOCK_SIZE + off == at + from
      modifies `disk, `blockMap, `owner
      ensures Valid() && b < |disk| && idx' == disk[b] && Ptr(View(), parent) == b && IndexSame(v0, View(), parent)
      ensures short ==> ok && View() == old(View()) && owner == old(owner)
      ensures short <==> old(Ptr(View(), Leaf(i, first + k))) == 0 && FreeBlocks(old(blockMap)) == {}
      ensures ok <==> short || (off + temp <= BLOCK_SIZE && from + temp <= |buf|)
      ensures ok && !short ==> Progress(v0, View(), owner, i, at, buf[..from + temp], lo, first + k + 1)
      ensures !ok ==> Extends(v0, View(), owner, i) && OthersKeep(v0, View(), i, at)
    {
      hide Progress, Owns, Ptr, FreeBlocks, IndexFor, Leaf, IndexSame, Extends, OthersKeep;
      ghost var v1, o1, s := View(), owner, Leaf(i, first + k);
      IndexedLeaf(parent, i, first, k);
      ProgressExtends(v0, v1, o1, i, at, buf[..from], lo, first + k);
      var got;
      idx', got := NeedEntry(idx, b, k, s);
      if !got {
        return idx, true, true;
      }
      ProgressNeed(v0, v1, View(), o1, owner, i, at, buf[..from], lo, first + k);
      ghost var v2 := View();
      IndexSameNeed(v0, v1, v2, o1, i, parent);
      ProgressExtends(v0, v2, owner, i, at, buf[..from], lo, first + k + 1);
      var data := PtrAt(idx', k);
      ok := WriteTurn(data, buf, from, temp, off, v0, i, at, lo, first + k);
      short := false;
      IndexKept(v2, View(), owner, s, parent, b, data);
      IndexSameData(v0, v2, View(), owner, i, s, parent);
    }

    /** The loop over the entries of one index block, the block of slot `parent`.  A
        start that is not at a block boundary always overruns. */
    method FsWriteIndir1(b: nat, buf: seq<byte>, offset: nat, ghost parent: Slot, ghost i: nat, ghost first: nat)
      returns (n: nat, ok: bool)
      requires Valid() && 0 < b < |disk| && i < |inodes|
      requires IndexFor(parent, i, first) && Ptr(View(), parent) == b
      modifies `disk, `blockMap, `owner
      ensures Valid() && n <= |buf|
      ensures ok ==> Progress(old(View()), View(), owner, i, first * BLOCK_SIZE + offset, buf[..n],
                              first + offset / BLOCK_SIZE, first + UpTo(offset, n))
      ensures !ok ==> Extends(old(View()), View(), owner, i) &&
                      OthersKeep(old(View()), View(), i, first * BLOCK_SIZE + offset)
      ensures IndexSame(old(View()), View(), parent)
      ensures ok && n < |buf| && offset + n < INDIR1_SIZE ==>
        FreeBlocks(blockMap) == {} && Ptr(View(), Leaf(i, first + (offset + n) / BLOCK_SIZE)) == 0
      ensures ok && 0 < n < |buf| ==> n % BLOCK_SIZE == 0
      ensures if offset < INDIR1_SIZE then offset + n <= INDIR1_SIZE else n == 0 && View() == old(View())
      ensures !ok ==> offset % BLOCK_SIZE != 0 && |buf| > 0 && offset < INDIR1_SIZE
      ensures offset % BLOCK_SIZE != 0 && |buf| > 0 && offset < INDIR1_SIZE ==>
        !ok ||
        (n == 0 && old(Ptr(View(), Leaf(i, first + offset / BLOCK_SIZE))) == 0 && FreeBlocks(old(blockMap)) == {})
    {
      hide Progress, Owns, Ptr, FreeBlocks, IndexFor, Leaf, IndexSame, Extends, OthersKeep;
      ghost var v0, at, lo := View(), first * BLOCK_SIZE + offset, first + offset / BLOCK_SIZE;
      var indices := disk[b];
      var len := |buf|;
      var blkNum, blkOffset, left := offset / BLOCK_SIZE, offset % BLOCK_SIZE, len;
      ok := true;
      ProgressStart(v0, owner, i, at, lo);
      IndexSameStart(v0, parent);
      while blkNum < PTRS_PER_BLK && left > 0
        invariant ok && 0 <= left <= len && blkOffset < BLOCK_SIZE && lo <= first + blkNum
        invariant left > 0 ==> blkNum * BLOCK_SIZE + blkOffset == offset + (len - left)
        invariant left < len ==> blkOffset == 0 && offset % BLOCK_SIZE == 0 && blkNum <= PTRS_PER_BLK
        invariant left < len ==> blkNum == UpTo(offset, len - left)
        invariant left == len ==> first + blkNum == lo && blkOffset == offset % BLOCK_SIZE
        invariant left == len ==> View() == v0 && owner == old(owner)
        invariant Valid() && b < |disk| && indices == disk[b] && Ptr(View(), parent) == b
        invariant Progress(v0, View(), owner, i, at, buf[..len - left], lo, first + blkNum)
        invariant IndexSame(v0, View(), parent)
      {
        var cur := if left > BLOCK_SIZE then BLOCK_SIZE - blkOffset else left;
        var temp := blkOffset + cur;
        var short;
        indices, short, ok := EntryTurn(indices, b, blkNum, buf, len - left, temp, blkOffset,
                                        v0, i, at, lo, first, parent);
        if short || !ok {
          return len - left, ok;
        }
        left := left - temp;
        blkNum := blkNum + 1;
        blkOffset := 0;
      }
      n := len - left;
    }

    /** One turn of the loop over the double indirect block: makes sure of its entry k,
        then writes through that index block.  `even` says that the loop began at the
        start of the double indirect part, of a file whose blocks are in order: then the
        bytes go in place one after the other, and stop when the disk is full. */
    method MidTurn(idx: Block, b: nat, k: nat, buf: seq<byte>, pos: nat, temp: nat, off: nat,
                   ghost v0: Vol, ghost i: nat, ghost even: bool)
      returns (idx': Block, written: nat, short: bool, ok: bool)
      requires Valid() && 0 < b < |disk| && idx == disk[b] && k < PTRS_PER_BLK && i < |inodes|
      requires Ptr(View(), Indir2(i)) == b && pos + temp <= |buf|
      requires Extends(v0, View(), owner, i) && OthersKeep(v0, View(), i, FAR)
      requires even ==> off == 0 && 0 < temp <= INDIR1_SIZE && InOrder(v0, i)
      requires even ==> FarProgress(v0, View(), owner, i, buf[..pos])
      requires even ==> pos == k * INDIR1_SIZE || Stuck(View(), i, pos, k)
      modifies `disk, `blockMap, `owner
      ensures Valid() && Extends(v0, View(), owner, i) && OthersKeep(v0, View(), i, FAR)
      ensures ok ==> b < |disk| && idx' == disk[b] && Ptr(View(), Indir2(i)) == b
      ensures written <= temp && (!ok ==> off != 0) && (short ==> written == 0)
      ensures ok && written < temp ==> written % BLOCK_SIZE == 0
      ensures even ==> FarProgress(v0, View(), owner, i, buf[..pos + written])
      ensures even && short ==> FreeBlocks(blockMap) == {} && FarMissing(View(), i, pos)
      ensures even && !short ==> 0 < written
      ensures even && !short ==> pos == k * INDIR1_SIZE && (written == temp || Stuck(View(), i, pos + written, k + 1))
    {
      hide Owns, Ptr, Extends, OthersKeep, Gained, FarProgress, FreeBlocks, InOrder, Stuck, FarMissing;
      written, short, ok := 0, true, true;
      ghost var v1, o1, s := View(), owner, Mid(i, k);
      if even {
        FarInOrder(v0, v1, o1, i, buf[..pos]);
        StuckStops(v1, i, pos, k);
        StuckMissing(v1, i, pos, k);
      }
      var got;
      idx', got := NeedEntry(idx, b, k, s);
      if !got {
        assert buf[..pos + 0] == buf[..pos];
        return;
      }
      FarGained(v0, v1, View(), o1, owner, s, FAR);
      MidHeld(View(), owner, s);
      assert even ==> pos == k * INDIR1_SIZE by { StuckIsFull(v1, i, pos, k); }
      written, ok := WriteMid(PtrAt(idx', k), idx', b, k, buf, pos, temp, off, v0, v1, o1, i, even);
      short := ok && written == 0;
      if even && short { StuckMissing(View(), i, pos, k + 1); }
    }

    /** The piece that goes through level-1 index block k, once that is there. */
    method WriteMid(mid: nat, idx: Block, b: nat, k: nat, buf: seq<byte>, pos: nat, temp: nat, off: nat,
                    ghost v0: Vol, ghost v1: Vol, ghost o1: Owner, ghost i: nat, ghost even: bool)
      returns (written: nat, ok: bool)
      requires Valid() && 0 < b < |disk| && idx == disk[b] && k < PTRS_PER_BLK && i < |inodes|
      requires Ptr(View(), Indir2(i)) == b && pos + temp <= |buf|
      requires Gained(v1, View(), o1, owner, Mid(i, k)) && Ptr(View(), Mid(i, k)) == mid && 0 < mid < |disk|
      requires Extends(v0, View(), owner, i) && OthersKeep(v0, View(), i, FAR)
      requires even ==> off == 0 && 0 < temp <= INDIR1_SIZE && pos == k * INDIR1_SIZE
      requires even ==> FarProgress(v0, v1, o1, i, buf[..pos])
      modifies `disk, `blockMap, `owner
      ensures Valid() && Extends(v0, View(), owner, i) && OthersKeep(v0, View(), i, FAR)
      ensures ok ==> b < |disk| && idx == disk[b] && Ptr(View(), Indir2(i)) == b
      ensures written <= temp && (!ok ==> off != 0)
      ensures ok && written < temp ==> written % BLOCK_SIZE == 0
      ensures even ==> FarProgress(v0, View(), owner, i, buf[..pos + written])
      ensures even ==> written == temp || Stuck(View(), i, pos + written, k + 1)
    {
      hide Owns, Ptr, Extends, OthersKeep, Gained, Progress, FarProgress, FreeBlocks;
      hide Leaf, Stuck, FarMissing, IndexSame;
      ghost var v2, o2, first, s := View(), owner, N_DIRECT + PTRS_PER_BLK + PTRS_PER_BLK * k, Mid(i, k);
      var piece := buf[pos..pos + temp];
      written, ok := FsWriteIndir1(mid, piece, off, s, i, first);
      if !ok {
        ExtendsTransitive(v0, v2, View(), o2, owner, i);
        OthersBoth(v0, v2, View(), i, FAR, first * BLOCK_SIZE + off, FAR);
        return;
      }
      FarOthers(v0, v2, View(), o2, owner, i, first * BLOCK_SIZE + off, piece[..written],
                first + off / BLOCK_SIZE, first + UpTo(off, written));
      ProgressExtends(v2, View(), owner, i, first * BLOCK_SIZE + off, piece[..written],
                      first + off / BLOCK_SIZE, first + UpTo(off, written));
      IndexStays(v2, View(), o2, owner, i, s, b);
      if even {
        assert buf[..pos + written] == buf[..pos] + piece[..written];
        FarPiece(v0, v1, v2, View(), o1, o2, owner, i, buf[..pos], piece[..written], k);
        StuckNow(View(), i, pos, written, k);
      }
    }

    /** The loop over the entries of the double indirect block.  From its start on, in a file
        whose blocks are in order, `put` bytes go in place, fewer than fit only if the disk is
        full.  The count is taken before the blocks are there, so it is too high then. */
    method FsWriteIndir2(b: nat, buf: seq<byte>, offset: nat, ghost i: nat) returns (n: nat, ok: bool, ghost put: nat)
      requires Valid() && 0 < b < |disk| && i < |inodes| && Ptr(View(), Indir2(i)) == b
      modifies `disk, `blockMap, `owner
      ensures Valid() && n <= |buf| && Extends(old(View()), View(), owner, i)
      ensures offset >= INDIR2_SIZE ==> n == 0 && ok
      ensures offset % INDIR1_SIZE == 0 ==> ok
      ensures OthersKeep(old(View()), View(), i, FAR)
      ensures offset == 0 ==> n <= INDIR2_SIZE && (n == 0 ==> buf == [])
      ensures offset == 0 && old(InOrder(View(), i)) ==>
        put <= n && FarProgress(old(View()), View(), owner, i, buf[..put])
      ensures offset == 0 && old(InOrder(View(), i)) ==> n == FarCount(Min(|buf|, INDIR2_SIZE), put)
      ensures offset == 0 && old(InOrder(View(), i)) && put < Min(|buf|, INDIR2_SIZE) ==>
        FreeBlocks(blockMap) == {} && FarMissing(View(), i, put) && put % BLOCK_SIZE == 0
    {
      hide Owns, Ptr, Extends, OthersKeep, FarProgress, FreeBlocks, InOrder, Stuck, FarMissing, Paced, FarCount;
      ghost var v0, even := View(), offset == 0 && InOrder(View(), i);
      var indices := disk[b];
      var blkNum, blkOffset, left, pos := offset / INDIR1_SIZE, offset % INDIR1_SIZE, |buf|, 0;
      ok, put := true, 0;
      FarStart(v0, owner, i);
      assert buf[..0] == [];
      PacedStart(|buf|);
      hide Aligned;
      while blkNum < PTRS_PER_BLK && left > 0
        invariant ok && 0 <= left <= |buf| && 0 <= pos <= |buf| - left && 0 <= blkOffset && put == pos
        invariant offset >= INDIR2_SIZE ==> left == |buf| && blkNum >= PTRS_PER_BLK
        invariant offset % INDIR1_SIZE == 0 ==> blkOffset == 0
        invariant offset == 0 ==> blkNum <= PTRS_PER_BLK
        invariant offset == 0 ==> |buf| - left == Min(|buf|, blkNum * INDIR1_SIZE)
        invariant Valid() && |inodes| == |v0.inodes| && b < |disk| && indices == disk[b] && Ptr(View(), Indir2(i)) == b
        invariant Extends(v0, View(), owner, i) && OthersKeep(v0, View(), i, FAR)
        invariant even ==> FarProgress(v0, View(), owner, i, buf[..pos])
        invariant even ==> pos == |buf| - left || Stuck(View(), i, pos, blkNum)
        invariant even ==> Aligned(|buf|, pos)
        invariant even ==> Paced(|buf|, |buf| - left, pos, blkNum)
      {
        var cur := if left > INDIR1_SIZE then INDIR1_SIZE - blkOffset else left;
        var temp := blkOffset + cur;
        if temp > left {
          return |buf| - left, false, pos;
        }
        left := left - temp;
        var written, short;
        indices, written, short, ok := MidTurn(indices, b, blkNum, buf, pos, temp, blkOffset, v0, i, even);
        if short || !ok {
          if even { PacedStops(|buf|, |buf| - left - temp, pos, blkNum, temp); }
          return |buf| - left, ok, pos;
        }
        if even { PacedMore(|buf|, |buf| - left - temp, pos, blkNum, temp, written); }
        pos := pos + written;
        put := pos;
        blkNum := blkNum + 1;
        blkOffset := 0;
      }
      n := |buf| - left;
      if even {
        StuckMissing(View(), i, pos, blkNum);
        PacedEnds(|buf|, n, pos, blkNum);
      }
    }

    /** Makes sure of the single or the double indirect block of an inode. */
    method NeedIndirect(inum: nat, double: bool) returns (ok: bool)
      requires Valid() && inum < |inodes|
      modifies this
      ensures Valid() && |inodes| == old(|inodes|) && |disk| == old(|disk|)
      ensures var s := if double then Indir2(inum) else Indir1(inum);
        (ok ==> Gained(old(View()), View(), old(owner), owner, s) && 0 < Ptr(View(), s) < |disk|) &&
        (!ok ==> View() == old(View()) && owner == old(owner) && FreeBlocks(blockMap) == {}) &&
        (ok <==> old(Ptr(View(), s)) != 0 || FreeBlocks(old(blockMap)) != {})
      ensures !double ==> inodes[inum].indir2 == old(inodes[inum].indir2)
      ensures ok ==> Ptr(View(), Indir1(inum)) == inodes[inum].indir1
      ensures ok ==> Ptr(View(), Indir2(inum)) == inodes[inum].indir2
      ensures diskBlockMap == old(diskBlockMap) && (old(InodesSynced()) ==> InodesSynced())
    {
      ok := true;
      ghost var s := if double then Indir2(inum) else Indir1(inum);
      if (if double then inodes[inum].indir2 else inodes[inum].indir1) == 0 {
        var freeb := GetFreeBlk();
        if freeb < 0 {
          return false;
        }
        assert freeb in FreeBlocks(old(blockMap));
        AttachInode(View(), owner, s, freeb);
        inodes := inodes[inum := if double then inodes[inum].(indir2 := freeb) else inodes[inum].(indir1 := freeb)];
        owner := owner[freeb := s];
        UpdateInode(inum);
      }
      assert Holds(View(), owner, s);
    }

    /** The single indirect part of a write: `done` bytes have been written, and the
        offset `off` is where the rest goes.  `full` says that the block could not be had. */
    method WriteIndirect1(inum: nat, buf: seq<byte>, done: nat, off: nat,
                          ghost v0: Vol, ghost offset: nat) returns (n: nat, ok: bool, full: bool)
      requires Valid() && inum < |inodes| && done < |buf| && off == offset + done < FAR
      requires Progress(v0, View(), owner, inum, offset, buf[..done], offset / BLOCK_SIZE, UpTo(offset, done))
      requires off < DIR_SIZE ==> FreeBlocks(blockMap) == {} && Ptr(View(), Leaf(inum, off / BLOCK_SIZE)) == 0
      modifies this
      ensures Valid() && |inodes| == old(|inodes|) && done + n <= |buf|
      ensures Extends(v0, View(), owner, inum) && inodes[inum].indir2 == old(inodes[inum].indir2)
      ensures OthersKeep(v0, View(), inum, offset)
      ensures full ==> ok && n == 0 && FreeBlocks(blockMap) == {} && View() == old(View())
      ensures ok ==> Progress(v0, View(), owner, inum, offset, buf[..done + n],
                              offset / BLOCK_SIZE, UpTo(offset, done + n))
      ensures ok && done + n < |buf| && off + n < FAR ==>
        FreeBlocks(blockMap) == {} && Ptr(View(), Leaf(inum, (off + n) / BLOCK_SIZE)) == 0
      ensures ok && 0 < n && done + n < |buf| ==> (off + n) % BLOCK_SIZE == 0
      ensures off + n <= FAR
      ensures !ok ==> off >= DIR_SIZE && off % BLOCK_SIZE != 0
      ensures off >= DIR_SIZE && off % BLOCK_SIZE != 0 && old(Ptr(View(), Leaf(inum, off / BLOCK_SIZE))) != 0 ==> !ok
      ensures diskBlockMap == old(diskBlockMap) && (old(InodesSynced()) ==> InodesSynced())
    {
      hide Progress, Owns, Ptr, FreeBlocks, Gained, Extends, IndexSame, Leaf, UpTo, SizeT, Path, OthersKeep;
      ghost var v1, o1, lo, hi := View(), owner, offset / BLOCK_SIZE, UpTo(offset, done);
      full := false;
      LeafNeedsIndirect(View(), owner, inum, off / BLOCK_SIZE);
      var got := NeedIndirect(inum, false);
      if !got {
        assert buf[..done + 0] == buf[..done];
        ProgressExtends(v0, View(), owner, inum, offset, buf[..done], lo, hi);
        return 0, true, true;
      }
      OnTheWay(inum, off / BLOCK_SIZE);
      IndexNeeded(v0, v1, View(), o1, owner, inum, offset, buf[..done], Indir1(inum));
      GainedUses(v1, View(), o1, owner, Indir1(inum));
      ghost var v2, o2 := View(), owner;
      Relative(off);
      var rel := SizeT(off - DIR_SIZE);
      n, ok := FsWriteIndir1(inodes[inum].indir1, buf[done..], rel, Indir1(inum), inum, N_DIRECT);
      ProgressExtends(v0, v2, o2, inum, offset, buf[..done], lo, hi);
      if !ok {
        ExtendsTransitive(v0, v2, View(), o2, owner, inum);
        OthersBoth(v0, v2, View(), inum, offset, N_DIRECT * BLOCK_SIZE + rel, offset);
        n := 0;
        return;
      }
      ProgressUses(v2, View(), owner, inum, N_DIRECT * BLOCK_SIZE + rel, buf[done..][..n],
                   N_DIRECT + rel / BLOCK_SIZE, N_DIRECT + UpTo(rel, n));
      IndirectJoin(v0, v2, View(), o2, owner, inum, offset, buf, done, n, rel);
      ProgressExtends(v0, View(), owner, inum, offset, buf[..done + n], lo, UpTo(offset, done + n));
    }

    /** The double indirect part of a write, as WriteIndirect1; its count n may be more than
        the bytes `put`. */
    method WriteIndirect2(inum: nat, buf: seq<byte>, done: nat, off: nat, ghost v0: Vol, ghost offset: nat)
      returns (n: nat, ok: bool, full: bool, ghost put: nat)
      requires Valid() && inum < |inodes| && done < |buf| && off == offset + done
      requires Progress(v0, View(), owner, inum, offset, buf[..done], offset / BLOCK_SIZE, UpTo(offset, done))
      requires off < FAR ==> FreeBlocks(blockMap) == {}
      modifies this
      ensures Valid() && |inodes| == old(|inodes|) && done + n <= |buf| && Extends(v0, View(), owner, inum)
      ensures OthersKeep(old(View()), View(), inum, FAR)
      ensures full ==> ok && n == 0 && put == 0 && FreeBlocks(blockMap) == {} && View() == old(View())
      ensures full ==> inodes[inum].indir2 == 0
      ensures full <==> old(Ptr(View(), Indir2(inum))) == 0 && FreeBlocks(old(blockMap)) == {}
      ensures off == FAR ==> ok && (full || 0 < n <= INDIR2_SIZE)
      ensures off == FAR && old(InOrder(View(), inum)) ==> put <= n
      ensures off == FAR && old(InOrder(View(), inum)) ==>
        Progress(v0, View(), owner, inum, offset, buf[..done + put], offset / BLOCK_SIZE, UpTo(offset, done + put))
      ensures off == FAR && old(InOrder(View(), inum)) && put < Min(|buf| - done, INDIR2_SIZE) ==>
        Stops(View(), inum, offset, done + put)
      ensures off == FAR && old(InOrder(View(), inum)) && !full ==>
        n == FarCount(Min(|buf| - done, INDIR2_SIZE), put)
      ensures !full && ok && off == FAR ==> inodes[inum].indir2 != 0
      ensures diskBlockMap == old(diskBlockMap) && (old(InodesSynced()) ==> InodesSynced())
    {
      hide Progress, FarProgress, Owns, Ptr, FreeBlocks, Gained, Extends, OthersKeep;
      hide Leaf, InOrder, Path, FarMissing, Stops;
      ghost var v1, o1 := View(), owner;
      full, put := false, 0;
      PtrIndirects(v1, inum);
      assert buf[..done + 0] == buf[..done];
      ProgressExtends(v0, v1, o1, inum, offset, buf[..done], offset / BLOCK_SIZE, UpTo(offset, done));
      NoIndirect2NoLeaf(v1, inum);
      var got := NeedIndirect(inum, true);
      if !got {
        OthersStart(v1, inum, FAR);
        if off == FAR { FarStops(v1, inum, offset, done, 0); }
        return 0, true, true, 0;
      }
      OnTheWay(inum, off / BLOCK_SIZE);
      IndexNeeded(v0, v1, View(), o1, owner, inum, offset, buf[..done], Indir2(inum));
      ghost var v2, o2 := View(), owner;
      if InOrder(v1, inum) { InOrderGained(v1, v2, o1, o2, inum); }
      n, ok, put := FsWriteIndir2(inodes[inum].indir2, buf[done..], SizeT(off - DIR_SIZE - INDIR1_SIZE), inum);
      ProgressExtends(v0, v2, o2, inum, offset, buf[..done], offset / BLOCK_SIZE, UpTo(offset, done));
      NearExtends(v0, v2, View(), o2, owner, inum);
      GainedKeeps(v1, v2, View(), o1, o2, inum, Indir2(inum), FAR);
      if off == FAR && InOrder(v1, inum) {
        FarJoin(v0, v2, View(), o2, owner, inum, offset, buf, done, put);
        if put < Min(|buf| - done, INDIR2_SIZE) { FarStops(View(), inum, offset, done, put); }
      }
    }

    /** The direct and the single indirect part of a write: `done` bytes of it.  `full`
        says that the single indirect block could not be had. */
    method WriteNear(inum: nat, buf: seq<byte>, offset: nat) returns (done: nat, ok: bool, full: bool)
      requires Valid() && inum < |inodes|
      modifies this
      ensures Valid() && |inodes| == old(|inodes|) && done <= |buf|
      ensures Extends(old(View()), View(), owner, inum) && inodes[inum].indir2 == old(inodes[inum].indir2)
      ensures OthersKeep(old(View()), View(), inum, offset)
      ensures ok ==> Progress(old(View()), View(), owner, inum, offset, buf[..done],
                              offset / BLOCK_SIZE, UpTo(offset, done))
      ensures ok && done < |buf| && offset + done < FAR ==> Stops(View(), inum, offset, done)
      ensures full ==> ok && done < |buf| && offset + done < FAR
      ensures offset <= FAR ==> offset + done <= FAR
      ensures old(Writable(View(), inum, offset)) ==> (!ok <==> BadWrite(offset, |buf|))
      ensures diskBlockMap == old(diskBlockMap) && (old(InodesSynced()) ==> InodesSynced())
    {
      hide Owns, Ptr, Progress, Extends, FreeBlocks, Leaf, Backed, OthersKeep;
      ghost var v0, lo := View(), offset / BLOCK_SIZE;
      done, ok, full := 0, true, false;
      ProgressStart(v0, owner, inum, offset, lo);
      ProgressExtends(v0, v0, owner, inum, offset, [], lo, lo);
      BackedReaches(v0, inum, offset);
      assert buf[..0] == [];
      if |buf| > 0 && offset < DIR_SIZE {
        done, ok := FsWriteDir(inum, buf, offset);
        if !ok {
          return;
        }
        ProgressExtends(v0, View(), owner, inum, offset, buf[..done], lo, UpTo(offset, done));
      }
      if |buf| - done > 0 && offset + done < FAR {
        var n;
        n, ok, full := WriteIndirect1(inum, buf, done, offset + done, v0, offset);
        done := done + n;
      }
    }

    /** The end of a write: the size is raised to `off`, the tables go to disk. */
    method FinishWrite(inum: nat, off: int, ghost v: Vol)
      requires Valid() && inum < |inodes| == |v.inodes| && Extends(v, View(), owner, inum)
      modifies `inodes, `diskInodes, `diskInodeMap, `diskBlockMap
      ensures Valid() && View() == Resize(old(View()), inum, Max(old(inodes[inum].size), off))
      ensures Grows(v, View(), owner, inum)
      ensures diskBlockMap == blockMap && (old(InodesSynced()) ==> InodesSynced())
    {
      hide Extends, Grows, Ptr;
      ghost var w := View();
      if off > inodes[inum].size {
        inodes := inodes[inum := inodes[inum].(size := off)];
      }
      ResizeBack(v, w, owner, inum);
      Resized(v, w, owner, inum, inodes[inum].size);
      UpdateInode(inum);
      UpdateBlk();
      assert old(InodesSynced()) ==> diskInodes == inodes;
    }

    /** fs_write, on an inode found.  Result r is the count (or an error), `put` the number
        of bytes really put, and ok says that no copy overran a buffer, as it does exactly
        for the offsets that BadWrite names when the file's blocks are there up to its size.
        Written says what the call leaves behind.  On disk the inodes are always current; the
        block map is, unless the write stopped before the double indirect part. */
    method FsWrite(inum: nat, buf: seq<byte>, offset: nat) returns (r: int, ok: bool, ghost put: nat)
      requires Valid() && inum < |inodes|
      modifies this
      ensures Valid() && |inodes| == old(|inodes|)
      ensures old(inodes[inum].mode.Directory? || offset > inodes[inum].size) ==>
        ok && View() == old(View()) && OnDisk() == old(OnDisk()) &&
        r == if old(inodes[inum].mode.Directory?) then EISDIR else 0
      ensures Extends(old(View()), Resize(View(), inum, old(inodes[inum].size)), owner, inum)
      ensures Grows(old(View()), View(), owner, inum)
      ensures old(Writable(View(), inum, offset)) ==> (!ok <==> BadWrite(offset, |buf|))
      ensures old(Writable(View(), inum, offset)) && ok ==> Written(old(View()), View(), inum, offset, buf, r, put)
      ensures OthersKeep(old(View()), View(), inum, Min(offset, FAR))
      ensures old(InodesSynced()) ==> InodesSynced()
      ensures old(Writable(View(), inum, offset)) && ok ==>
        diskBlockMap == if r < |buf| && offset + r <= FAR then old(diskBlockMap) else blockMap
      ensures old(FreeInodesEmpty(View()) && (inum < |inodeMap| ==> inodeMap[inum])) ==> FreeInodesEmpty(View())
    {
      hide Owns, Ptr, Progress, Extends, Grows, Written, FreeBlocks, Leaf, Backed;
      hide Built, InOrder, FreeInodesEmpty, OthersKeep, Stops;
      ghost var v0, size, lo := View(), inodes[inum].size, offset / BLOCK_SIZE;
      r, ok, put := 0, true, 0;
      ProgressStart(v0, owner, inum, offset, lo);
      ProgressExtends(v0, v0, owner, inum, offset, [], lo, lo);
      ResizeBack(v0, v0, owner, inum);
      OthersStart(v0, inum, Min(offset, FAR));
      if inodes[inum].mode.Directory? {
        return EISDIR, true, 0;
      }
      if offset > inodes[inum].size {
        return 0, true, 0;
      }
      BackedReaches(v0, inum, offset);
      var left, off, full := |buf|, offset, false;
      var done;
      done, ok, full := WriteNear(inum, buf, offset);
      ghost var v1 := View();
      ResizeBack(v0, v1, owner, inum);
      ExtendsKeepsFreeEmpty(v0, v1, owner, inum);
      OthersStart(v0, inum, offset);
      OthersBoth(v0, v0, v1, inum, offset, offset, Min(offset, FAR));
      if !ok {
        return done, false, 0;
      }
      NearDone(v0, v1, owner, inum, offset, buf, done);
      put := done;
      if full {
        return done, true, put;
      }
      left, off := left - done, off + done;
      if left > 0 && off < FAR + INDIR2_SIZE {
        var n;
        ghost var more;
        n, ok, full, more := WriteIndirect2(inum, buf, done, off, v0, offset);
        ResizeBack(v0, View(), owner, inum);
        ExtendsKeepsFreeEmpty(v0, View(), owner, inum);
        OthersCompose(v0, v1, View(), inum, Min(offset, FAR));
        if !ok {
          return done, false, 0;
        }
        if full {
          return done, true, put;
        }
        put := done + more;
        left := left - n;
        off := off + left;
        if Writable(v0, inum, offset) { FarWritten(v0, View(), owner, inum, offset, buf, done + n, put); }
      }
      OthersResized(v0, View(), owner, inum, Min(offset, FAR), Max(size, off));
      Resized(v0, View(), owner, inum, Max(size, off));
      FinishWrite(inum, off, v0);
      r := |buf| - left;
    }

    // ---- reading

    /** Copies len bytes out of a block into the rest of a buffer, `room` bytes; as
        FsWriteBlk, a copy past the end of either is reported and not carried out. */
    method FsReadBlk(b: nat, len: nat, at: nat, room: nat) returns (out: seq<byte>, ok: bool)
      requires b < |disk|
      ensures ok <==> at + len <= BLOCK_SIZE && len <= room
      ensures ok ==> out == disk[b][at..at + len]
    {
      ok := at + len <= BLOCK_SIZE && len <= room;
      out := if ok then disk[b][at..at + len] else [];
    }

    /** One turn of a reading loop: block b is block k of file i. */
    method ReadTurn(b: nat, temp: nat, off: nat, room: nat, out: seq<byte>, ghost i: nat, ghost at: nat, ghost k: nat)
      returns (out': seq<byte>, ok: bool)
      requires Valid() && Ptr(View(), Leaf(i, k)) == b != 0
      requires out == Bytes(View(), i, at, |out|) && k * BLOCK_SIZE + off == at + |out|
      ensures ok <==> off + temp <= BLOCK_SIZE && temp <= room
      ensures ok ==> |out'| == |out| + temp && out' == Bytes(View(), i, at, |out'|)
    {
      assert Holds(View(), owner, Leaf(i, k));
      var data;
      data, ok := FsReadBlk(b, temp, off, room);
      out' := out + data;
      if ok {
        forall p | 0 <= p < |out'| ensures out'[p] == ByteAt(View(), i, at + p) {
          if p >= |out| { assert (at + p) / BLOCK_SIZE == k && (at + p) % BLOCK_SIZE == off + p - |out|; }
          else { assert out[p] == Bytes(View(), i, at, |out|)[p]; }
        }
      }
    }

    /** The loop over the direct blocks.  Any start inside a block overruns. */
    method FsReadDir(inum: nat, len: nat, offset: nat) returns (out: seq<byte>, ok: bool)
      requires Valid() && inum < |inodes|
      ensures ok ==> |out| <= len && out == Bytes(View(), inum, offset, |out|)
      ensures ok && |out| < len ==>
        offset + |out| >= DIR_SIZE || Ptr(View(), Leaf(inum, (offset + |out|) / BLOCK_SIZE)) == 0
      ensures ok ==> offset + |out| <= DIR_SIZE || |out| == 0
      ensures !ok <==> offset % BLOCK_SIZE != 0 && len > 0 && offset < DIR_SIZE &&
                       Ptr(View(), Leaf(inum, offset / BLOCK_SIZE)) != 0
    {
      hide ByteAt;
      var blkNum, blkOffset, left := offset / BLOCK_SIZE, offset % BLOCK_SIZE, len;
      out, ok := [], true;
      while blkNum < N_DIRECT && left > 0
        invariant ok && 0 <= left <= len && |out| == len - left && blkOffset < BLOCK_SIZE
        invariant left > 0 ==> blkNum * BLOCK_SIZE + blkOffset == offset + |out|
        invariant left == len ==> blkNum == offset / BLOCK_SIZE && blkOffset == offset % BLOCK_SIZE
        invariant left < len ==> blkOffset == 0 && offset % BLOCK_SIZE == 0 && blkNum <= N_DIRECT
        invariant left < len ==> offset + |out| <= blkNum * BLOCK_SIZE
        invariant out == Bytes(View(), inum, offset, |out|)
      {
        var cur := if left > BLOCK_SIZE then BLOCK_SIZE - blkOffset else left;
        var temp := blkOffset + cur;
        if inodes[inum].direct[blkNum] == 0 {
          return;
        }
        out, ok := ReadTurn(inodes[inum].direct[blkNum], temp, blkOffset, left, out, inum, offset, blkNum);
        if !ok {
          return;
        }
        left := left - temp;
        blkNum := blkNum + 1;
        blkOffset := 0;
      }
    }

    /** The loop over the entries of the index block of slot `parent`. */
    method FsReadIndir1(b: nat, len: nat, offset: nat, ghost parent: Slot, ghost i: nat, ghost first: nat)
      returns (out: seq<byte>, ok: bool)
      requires Valid() && 0 < b < |disk| && IndexFor(parent, i, first) && Ptr(View(), parent) == b
      ensures ok ==> |out| <= len && out == Bytes(View(), i, first * BLOCK_SIZE + offset, |out|)
      ensures ok && |out| < len ==>
        offset + |out| >= INDIR1_SIZE || Ptr(View(), Leaf(i, first + (offset + |out|) / BLOCK_SIZE)) == 0
      ensures ok ==> offset + |out| <= INDIR1_SIZE || |out| == 0
      ensures ok ==> forall j: nat :: first + offset / BLOCK_SIZE <= j < first + UpTo(offset, |out|) ==>
        Ptr(View(), Leaf(i, j)) != 0
      ensures !ok <==> offset % BLOCK_SIZE != 0 && len > 0 && offset < INDIR1_SIZE &&
                       Ptr(View(), Leaf(i, first + offset / BLOCK_SIZE)) != 0
    {
      hide ByteAt, Owns, Leaf, IndexFor;
      ghost var at := first * BLOCK_SIZE + offset;
      var indices := disk[b];
      var blkNum, blkOffset, left := offset / BLOCK_SIZE, offset % BLOCK_SIZE, len;
      out, ok := [], true;
      while blkNum < PTRS_PER_BLK && left > 0
        invariant ok && 0 <= left <= len && |out| == len - left && blkOffset < BLOCK_SIZE
        invariant left > 0 ==> blkNum * BLOCK_SIZE + blkOffset == offset + |out|
        invariant left == len ==> blkNum == offset / BLOCK_SIZE && blkOffset == offset % BLOCK_SIZE
        invariant left < len ==> blkOffset == 0 && offset % BLOCK_SIZE == 0 && blkNum <= PTRS_PER_BLK
        invariant left < len ==> offset + |out| <= blkNum * BLOCK_SIZE
        invariant forall j: nat :: first + offset / BLOCK_SIZE <= j < first + blkNum ==> Ptr(View(), Leaf(i, j)) != 0
        invariant out == Bytes(View(), i, at, |out|)
      {
        IndexedLeaf(parent, i, first, blkNum);
        PtrIsEntry(View(), Leaf(i, first + blkNum));
        var cur := if left > BLOCK_SIZE then BLOCK_SIZE - blkOffset else left;
        var temp := blkOffset + cur;
        if PtrAt(indices, blkNum) == 0 {
          return;
        }
        out, ok := ReadTurn(PtrAt(indices, blkNum), temp, blkOffset, left, out, i, at, first + blkNum);
        if !ok {
          return;
        }
        left := left - temp;
        blkNum := blkNum + 1;
        blkOffset := 0;
      }
    }

    /** The loop over the entries of the double indirect block.  From its start on, in a file
        whose blocks are in order, it reads up to the first block that is not there.  A piece
        longer than what is left of the buffer, as it can only be after a start inside an index
        block's share, is taken to overrun. */
    method FsReadIndir2(b: nat, len: nat, offset: nat, ghost i: nat) returns (out: seq<byte>, ok: bool)
      requires Valid() && 0 < b < |disk| && Ptr(View(), Indir2(i)) == b
      ensures offset == 0 && (InOrder(View(), i) || FarThere(View(), i, len)) ==>
        ok && |out| <= len && out == Bytes(View(), i, FAR, |out|) && FarThere(View(), i, |out|)
      ensures offset == 0 && (InOrder(View(), i) || FarThere(View(), i, len)) ==>
        (|out| < len ==> FarMissing(View(), i, |out|))
    {
      hide ByteAt, Owns, Ptr, Leaf, FarThere, FarRead, FarMissing, InOrder;
      var indices := disk[b];
      var blkNum, blkOffset, left := offset / INDIR1_SIZE, offset % INDIR1_SIZE, len;
      ghost var even := offset == 0 && (InOrder(View(), i) || FarThere(View(), i, len));
      out, ok := [], true;
      FarReadStart(View(), i, len);
      while blkNum < PTRS_PER_BLK && left > 0
        invariant 0 <= left <= len && (even ==> ok) && 0 <= blkOffset < INDIR1_SIZE
        invariant even ==> |out| == len - left && blkOffset == 0 && blkNum <= PTRS_PER_BLK
        invariant even ==> FarRead(View(), i, len, |out|, blkNum) && out == Bytes(View(), i, FAR, |out|)
      {
        var cur := if left > INDIR1_SIZE then INDIR1_SIZE - blkOffset else left;
        var temp := blkOffset + cur;
        if temp > left {
          return out, false;
        }
        PtrIsEntry(View(), Mid(i, blkNum));
        if even { FarReadGoesOn(View(), i, len, |out|, blkNum); }
        if PtrAt(indices, blkNum) == 0 {
          if even { FarReadIs(View(), i, len, |out|, blkNum); }
          return;
        }
        var n;
        out, n, ok := ReadMid(PtrAt(indices, blkNum), temp, blkOffset, out, i, blkNum, len, even);
        if !ok {
          return;
        }
        left := left - n;
        blkNum := blkNum + 1;
        blkOffset := 0;
      }
      if even { FarReadEnds(View(), i, len, |out|, blkNum); }
    }

    /** The piece that is read through level-1 index block k. */
    method ReadMid(mid: nat, temp: nat, off: nat, out: seq<byte>, ghost i: nat, ghost k: nat, ghost len: nat,
                   ghost even: bool)
      returns (out': seq<byte>, n: nat, ok: bool)
      requires Valid() && Ptr(View(), Mid(i, k)) == mid != 0 && k < PTRS_PER_BLK
      requires even ==> off == 0 && |out| == k * INDIR1_SIZE < len && temp == Min(len - |out|, INDIR1_SIZE)
      requires even ==> FarRead(View(), i, len, |out|, k) && out == Bytes(View(), i, FAR, |out|)
      ensures n <= temp && |out'| == |out| + n && (even ==> ok)
      ensures even ==> FarRead(View(), i, len, |out'|, k + 1) && out' == Bytes(View(), i, FAR, |out'|)
    {
      hide ByteAt, Owns, Ptr, Leaf, FarRead;
      MidHeld(View(), owner, Mid(i, k));
      ghost var first := N_DIRECT + PTRS_PER_BLK + PTRS_PER_BLK * k;
      var more;
      more, ok := FsReadIndir1(mid, temp, off, Mid(i, k), i, first);
      if !ok {
        return out, 0, false;
      }
      if even {
        FarReadMore(View(), i, len, |out|, k, temp, |more|, first);
        BytesJoin(View(), i, FAR, |out|, |more|);
      }
      out', n := out + more, |more|;
    }

    /** The single indirect part of a read, from byte `off` on.  Where the code would take
        block 0 for the index block that is not there, the read is taken to overrun. */
    method ReadIndirect1(inum: nat, len: nat, off: nat) returns (out: seq<byte>, ok: bool)
      requires Valid() && inum < |inodes| && 0 < len && off < FAR
      ensures ok ==> |out| <= len && (off >= DIR_SIZE ==> out == Bytes(View(), inum, off, |out|))
      ensures ok && off >= DIR_SIZE && |out| < len ==>
        off + |out| == FAR || Ptr(View(), Leaf(inum, (off + |out|) / BLOCK_SIZE)) == 0
      ensures off >= DIR_SIZE && Ptr(View(), Leaf(inum, off / BLOCK_SIZE)) != 0 ==> (!ok <==> off % BLOCK_SIZE != 0)
      ensures ok ==> off + |out| <= FAR
    {
      hide Owns, ByteAt, Ptr, Leaf;
      out := [];
      LeafNeedsIndirect(View(), owner, inum, off / BLOCK_SIZE);
      PtrIndirects(View(), inum);
      if inodes[inum].indir1 == 0 {
        return out, false;
      }
      MidHeld(View(), owner, Indir1(inum));
      Relative(off);
      out, ok := FsReadIndir1(inodes[inum].indir1, len, SizeT(off - DIR_SIZE), Indir1(inum), inum, N_DIRECT);
    }

    /** The double indirect part of a read, likewise. */
    method ReadIndirect2(inum: nat, len: nat, off: nat) returns (out: seq<byte>, ok: bool)
      requires Valid() && inum < |inodes| && 0 < len
      ensures off == FAR && Ptr(View(), Indir2(inum)) != 0 && (InOrder(View(), inum) || FarThere(View(), inum, len)) ==>
        ok && |out| <= len && out == Bytes(View(), inum, FAR, |out|) && FarThere(View(), inum, |out|)
      ensures off == FAR && Ptr(View(), Indir2(inum)) != 0 && (InOrder(View(), inum) || FarThere(View(), inum, len)) ==>
        (|out| < len ==> FarMissing(View(), inum, |out|))
    {
      hide Owns, ByteAt, Ptr, Leaf, FarThere, FarMissing, InOrder;
      PtrIndirects(View(), inum);
      if inodes[inum].indir2 == 0 {
        return [], false;
      }
      MidHeld(View(), owner, Indir2(inum));
      out, ok := FsReadIndir2(inodes[inum].indir2, len, SizeT(off - FAR), inum);
    }

    /** The parts of a read. */
    method ReadParts(inum: nat, len: nat, offset: nat) returns (out: seq<byte>, ok: bool)
      requires Valid() && inum < |inodes|
      ensures Reachable(View(), inum, offset, len) ==> (!ok <==> BadRead(offset, len))
      ensures Reachable(View(), inum, offset, len) && ok ==>
        |out| <= len && out == Bytes(View(), inum, offset, |out|)
      ensures Reachable(View(), inum, offset, len) && ok && |out| < len ==>
        offset + |out| >= FAR && Ptr(View(), Leaf(inum, (offset + |out|) / BLOCK_SIZE)) == 0
      ensures Reachable(View(), inum, offset, len) && ok ==> (|out| == len <==> Readable(View(), inum, offset, len))
    {
      hide Owns, ByteAt, Ptr, Leaf, Readable, Reachable, FarThere, FarMissing, InOrder;
      out, ok := [], true;
      ReachableThere(View(), inum, offset, len);
      ghost var able := Reachable(View(), inum, offset, len);
      if len > 0 && offset < DIR_SIZE {
        out, ok := FsReadDir(inum, len, offset);
        if !ok {
          return;
        }
      }
      var off := offset + |out|;
      if len - |out| > 0 && off < FAR {
        var more;
        more, ok := ReadIndirect1(inum, len - |out|, off);
        if !ok {
          return;
        }
        BytesJoin(View(), inum, offset, |out|, |more|);
        out := out + more;
        off := off + |more|;
      }
      ghost var near := |out|;
      if len - |out| > 0 && off < FAR + INDIR2_SIZE {
        var more;
        more, ok := ReadIndirect2(inum, len - |out|, off);
        BytesJoin(View(), inum, offset, |out|, |more|);
        out := out + more;
      }
      if able && ok { ReadableIff(View(), inum, offset, len, |out|); }
    }

    /** fs_read, on an inode found.  A read within the file that is reachable, as it is in
        every file that is Backed, returns its bytes, up to a block that is not there, and
        overruns exactly when it does not start at a block boundary.  A read that runs past
        the end of the file copies nothing, and yet returns the number of bytes up to the
        end. */
    method FsRead(inum: nat, len: nat, offset: nat) returns (out: seq<byte>, r: int, ok: bool)
      requires Valid() && inum < |inodes|
      ensures inodes[inum].mode.Directory? ==> ok && r == EISDIR && out == []
      ensures !inodes[inum].mode.Directory? && offset + len > inodes[inum].size ==>
        ok && out == [] && r == if offset > inodes[inum].size then 0 else inodes[inum].size - offset
      ensures !inodes[inum].mode.Directory? && offset + len <= inodes[inum].size &&
              Reachable(View(), inum, offset, len) ==>
        (!ok <==> BadRead(offset, len)) &&
        (ok ==> r == |out| <= len && out == Bytes(View(), inum, offset, r)) &&
        (ok ==> (r == len <==> Readable(View(), inum, offset, len))) &&
        (ok && r < len ==> offset + r >= FAR && Ptr(View(), Leaf(inum, (offset + r) / BLOCK_SIZE)) == 0)
    {
      hide Owns, ByteAt, Ptr, Leaf, Readable, Reachable;
      if inodes[inum].mode.Directory? {
        return [], EISDIR, true;
      }
      if offset > inodes[inum].size {
        return [], 0, true;
      }
      if offset + len > inodes[inum].size {
        return [], inodes[inum].size - offset, true;
      }
      out, ok := ReadParts(inum, len, offset);
      r := |out|;
    }

    // ---- truncation

    method FsTruncateDir(inum: nat)
      requires WellFormed(View()) && inum < |inodes| && |inodes[inum].direct| == N_DIRECT
      requires forall k :: 0 <= k < N_DIRECT ==> inodes[inum].direct[k] < |blockMap|
      modifies `blockMap, `inodes
      ensures ClearsOnly(old(blockMap), blockMap, Numbers(old(inodes[inum].direct)))
      ensures inodes == old(inodes)[inum := old(inodes[inum]).(direct := [0, 0, 0, 0, 0, 0])]
    {
      ghost var ns := inodes[inum].direct;
      var i := 0;
      while i < N_DIRECT
        invariant 0 <= i <= N_DIRECT && |inodes| == old(|inodes|)
        invariant ClearsOnly(old(blockMap), blockMap, Numbers(ns[..i]))
        invariant forall k :: 0 <= k < |inodes| && k != inum ==> inodes[k] == old(inodes)[k]
        invariant inodes[inum] == old(inodes[inum]).(direct := inodes[inum].direct) && |inodes[inum].direct| == N_DIRECT
        invariant forall k :: 0 <= k < N_DIRECT ==> inodes[inum].direct[k] == if k < i then 0 else ns[k]
      {
        hide Numbers;
        MoreNumbers(ns, i);
        if inodes[inum].direct[i] != 0 {
          ReturnBlk(inodes[inum].direct[i]);
        }
        inodes := inodes[inum := inodes[inum].(direct := inodes[inum].direct[i := 0])];
        i := i + 1;
      }
      assert ns[..N_DIRECT] == ns;
      assert inodes[inum].direct == [0, 0, 0, 0, 0, 0];
    }

    /** Frees the blocks that index block b names, not the index block. */
    method FsTruncateIndir1(b: nat)
      requires b < |disk| && forall k: nat :: k < PTRS_PER_BLK ==> PtrAt(disk[b], k) < |blockMap|
      modifies `blockMap
      ensures ClearsOnly(old(blockMap), blockMap, Pointers(disk[b], PTRS_PER_BLK))
    {
      var i := 0;
      while i < PTRS_PER_BLK
        invariant 0 <= i <= PTRS_PER_BLK
        invariant ClearsOnly(old(blockMap), blockMap, Pointers(disk[b], i))
      {
        if PtrAt(disk[b], i) != 0 {
          ReturnBlk(PtrAt(disk[b], i));
        }
        i := i + 1;
      }
    }

    /** Frees the blocks named by the index blocks that b names; those index blocks stay
        marked. */
    method FsTruncateIndir2(b: nat)
      requires b < |disk| && forall a: nat :: a < PTRS_PER_BLK ==> PtrAt(disk[b], a) < |disk|
      requires forall a: nat, k: nat :: a < PTRS_PER_BLK && k < PTRS_PER_BLK && PtrAt(disk[b], a) != 0 ==>
        PtrAt(disk[PtrAt(disk[b], a)], k) < |blockMap|
      modifies `blockMap
      ensures ClearsOnly(old(blockMap), blockMap, Grandchildren(disk, disk[b], PTRS_PER_BLK))
    {
      var i := 0;
      while i < PTRS_PER_BLK
        invariant 0 <= i <= PTRS_PER_BLK
        invariant ClearsOnly(old(blockMap), blockMap, Grandchildren(disk, disk[b], i))
      {
        ghost var m := blockMap;
        if PtrAt(disk[b], i) != 0 {
          FsTruncateIndir1(PtrAt(disk[b], i));
        }
        MoreGrandchildren(disk, disk[b], i);
        i := i + 1;
      }
    }

    method FreeIndirect1(inum: nat)
      requires inum < |inodes| && inodes[inum].indir1 < |disk| == |blockMap|
      requires inodes[inum].indir1 != 0 ==>
        forall k: nat :: k < PTRS_PER_BLK ==> PtrAt(disk[inodes[inum].indir1], k) < |disk|
      modifies `blockMap, `inodes
      ensures ClearsOnly(old(blockMap), blockMap, Freed1(old(View()), old(inodes[inum])))
      ensures inodes == old(inodes)[inum := old(inodes[inum]).(indir1 := 0)]
    {
      if inodes[inum].indir1 != 0 {
        FsTruncateIndir1(inodes[inum].indir1);
        ReturnBlk(inodes[inum].indir1);
      }
      inodes := inodes[inum := inodes[inum].(indir1 := 0)];
    }

    method FreeIndirect2(inum: nat)
      requires inum < |inodes| && inodes[inum].indir2 < |disk| == |blockMap|
      requires inodes[inum].indir2 != 0 ==>
        (forall a: nat :: a < PTRS_PER_BLK ==> PtrAt(disk[inodes[inum].indir2], a) < |disk|) &&
        (forall a: nat, k: nat :: a < PTRS_PER_BLK && k < PTRS_PER_BLK && PtrAt(disk[inodes[inum].indir2], a) != 0 ==>
          PtrAt(disk[PtrAt(disk[inodes[inum].indir2], a)], k) < |disk|)
      modifies `blockMap, `inodes
      ensures ClearsOnly(old(blockMap), blockMap, Freed2(old(View()), old(inodes[inum])))
      ensures inodes == old(inodes)[inum := old(inodes[inum]).(indir2 := 0)]
    {
      if inodes[inum].indir2 != 0 {
        FsTruncateIndir2(inodes[inum].indir2);
        ReturnBlk(inodes[inum].indir2);
      }
      inodes := inodes[inum := inodes[inum].(indir2 := 0)];
    }

    /** The three stretches of the file, and its size. */
    method FreeFile(inum: nat)
      requires Valid() && inum < |inodes|
      modifies `blockMap, `inodes
      ensures Truncated(old(View()), View(), inum) && |inodes| == old(|inodes|)
      ensures inodes[inum].mode == old(inodes[inum].mode) && inodes[inum].size == 0 && Empty(inodes[inum])
      ensures forall j :: 0 <= j < |inodes| && j != inum ==> inodes[j] == old(inodes)[j]
    {
      hide Owns, Numbers, Pointers, Grandchildren;
      ghost var v := View();
      BlocksInRange(v, owner, inum);
      FsTruncateDir(inum);
      FreeIndirect1(inum);
      FreeIndirect2(inum);
      inodes := inodes[inum := inodes[inum].(size := 0)];
      assert inodes == v.inodes[inum := Emptied(v.inodes[inum])];
    }

    /** fs_truncate, on an inode found; only length 0 is accepted.  The file's blocks are
        freed but for its level-1 index blocks, and the disk is brought up to date. */
    method FsTruncate(inum: nat, len: int) returns (r: int)
      requires Valid() && inum < |inodes|
      modifies this
      ensures Valid() && owner == old(owner)
      ensures r == if len != 0 then EINVAL else if old(inodes[inum].mode.Directory?) then EISDIR else 0
      ensures r != 0 ==> View() == old(View()) && OnDisk() == old(OnDisk())
      ensures r == 0 ==> Truncated(old(View()), View(), inum)
      ensures r == 0 ==> inodes[inum].mode == old(inodes[inum].mode) && inodes[inum].size == 0 && Empty(inodes[inum])
      ensures r == 0 ==> diskBlockMap == blockMap && diskInodeMap == inodeMap
      ensures r == 0 ==> (old(InodesSynced()) ==> InodesSynced())
      ensures old(FreeInodesEmpty(View())) ==> FreeInodesEmpty(View())
    {
      hide Owns, Truncated;
      if len != 0 {
        return EINVAL;
      }
      if inodes[inum].mode.Directory? {
        return EISDIR;
      }
      ghost var v := View();
      FreeFile(inum);
      UpdateInode(inum);
      UpdateBlk();
      TruncateKeeps(v, View(), owner, inum);
      r := 0;
    }

    // ---- making and removing files, on inodes and the directory block found

    /** The lowest free inode from 2 on, marked, or -ENOSPC. */
    method GetFreeInode() returns (r: int)
      modifies `inodeMap
      ensures |inodeMap| == old(|inodeMap|) && (r == ENOSPC || 2 <= r < |inodeMap|)
      ensures r < 0 ==> inodeMap == old(inodeMap) && forall i :: 2 <= i < |inodeMap| ==> inodeMap[i]
      ensures r >= 0 ==> !old(inodeMap)[r] && inodeMap == old(inodeMap)[r := true] &&
                         forall i :: 2 <= i < r ==> old(inodeMap)[i]
    {
      var i := 2;
      while i < |inodeMap|
        invariant 2 <= i && inodeMap == old(inodeMap)
        invariant forall k :: 2 <= k < i && k < |inodeMap| ==> inodeMap[k]
      {
        if !inodeMap[i] {
          inodeMap := inodeMap[i := true];
          return i;
        }
        i := i + 1;
      }
      return ENOSPC;
    }

    /** As GetFreeInode: no slot and no byte changes, and the inode holds nothing. */
    method TakeInode() returns (r: int)
      requires Valid() && FreeInodesEmpty(View())
      modifies `inodeMap
      ensures Valid() && FreeInodesEmpty(View()) && |inodeMap| == old(|inodeMap|)
      ensures r < 0 ==> r == ENOSPC && FreeInodes(old(inodeMap)) == {} && inodeMap == old(inodeMap)
      ensures r >= 0 ==> r in FreeInodes(old(inodeMap)) && r < |inodeMap| && Empty(inodes[r])
      ensures r >= 0 ==> forall j :: j in FreeInodes(old(inodeMap)) ==> r <= j
      ensures r >= 0 ==> inodeMap == old(inodeMap)[r := true] != old(inodeMap)
      ensures forall s :: Ptr(View(), s) == old(Ptr(View(), s))
      ensures forall j: nat, p: nat :: ByteAt(View(), j, p) == old(ByteAt(View(), j, p))
    {
      ghost var v := View();
      r := GetFreeInode();
      FreeInodeFound(v.inodeMap, r);
      if r >= 0 {
        assert inodeMap[r] != v.inodeMap[r] && Empty(inodes[r]);
        SwapEmpty(v, owner, r, inodes[r], inodeMap);
        assert inodes == inodes[r := inodes[r]];
      }
    }

    /** A new empty file in an inode that holds nothing. */
    method MakeFile(inum: nat)
      requires Valid() && inum < |inodes| && Empty(inodes[inum])
      modifies `inodes, `diskInodes, `diskInodeMap, `diskBlockMap
      ensures Valid() && inodes == old(inodes)[inum := NewFile()] && Backed(View(), inum)
      ensures forall s :: Ptr(View(), s) == old(Ptr(View(), s))
      ensures forall j: nat, p: nat :: ByteAt(View(), j, p) == old(ByteAt(View(), j, p))
      ensures diskBlockMap == blockMap && diskInodeMap == inodeMap
      ensures old(diskInodes == inodes) ==> diskInodes == inodes
    {
      ghost var v := View();
      var n := inodes[inum];
      inodes := inodes[inum := Inode(Regular, 0, n.direct[0 := 0], n.indir1, n.indir2)];
      assert inodes[inum] == NewFile();
      SwapEmpty(v, owner, inum, NewFile(), inodeMap);
      UpdateInode(inum);
      UpdateBlk();
      assert old(diskInodes == inodes) ==> diskInodes == inodes;
    }

    /** fs_mknod, with the parent directory found: the file gets entry `freed` and inode
        `inum`.  A full directory costs an inode: its mark in memory stays. */
    method FsMknod(parent: nat, name: string) returns (r: int, inum: nat, freed: int)
      requires Valid() && FreeInodesEmpty(View()) && NameOk(name)
      requires parent < |inodes| && inodes[parent].mode.Directory? && Ptr(View(), Direct(parent, 0)) != 0
      modifies this
      ensures Valid() && owner == old(owner) && FreeInodesEmpty(View()) && blockMap == old(blockMap)
      ensures |inodeMap| == old(|inodeMap|) && |inodes| == old(|inodes|) && |disk| == old(|disk|)
      ensures forall s :: Ptr(View(), s) == old(Ptr(View(), s))
      ensures r == 0 || r == ENOSPC
      ensures r < 0 <==> FreeInodes(old(inodeMap)) == {} || FsNames.Full(Entries(old(DirBlock(View(), parent))))
      ensures r < 0 ==> disk == old(disk) && inodes == old(inodes) && OnDisk() == old(OnDisk())
      ensures r < 0 ==> (inodeMap == old(inodeMap) <==> FreeInodes(old(inodeMap)) == {})
      ensures r == 0 ==> 2 <= inum < |inodeMap| && inum in FreeInodes(old(inodeMap))
      ensures r == 0 ==> forall j :: j in FreeInodes(old(inodeMap)) ==> inum <= j
      ensures r == 0 ==> freed == FsNames.FirstFree(Entries(old(DirBlock(View(), parent)))) < DIRENTS_PER_BLK
      ensures r == 0 ==> inodeMap == old(inodeMap)[inum := true]
      ensures r == 0 ==> inodes == old(inodes)[inum := NewFile()] && Backed(View(), inum)
      ensures r == 0 ==> Ptr(View(), Direct(parent, 0)) < |disk|
      ensures r == 0 ==>
        disk == old(disk)[Ptr(View(), Direct(parent, 0)) :=
                          StoreEntry(old(DirBlock(View(), parent)), freed, inum, name)]
      ensures r == 0 ==> diskBlockMap == blockMap && diskInodeMap == inodeMap
      ensures r == 0 ==> (old(InodesSynced()) ==> InodesSynced())
      ensures forall j: nat, p: nat :: j != parent ==> ByteAt(View(), j, p) == old(ByteAt(View(), j, p))
    {
      inum := 0;
      ghost var v := View();
      assert Ptr(v, Direct(parent, 0)) == inodes[parent].direct[0] && |inodes[parent].direct| > 0;
      MidHeld(v, owner, Direct(parent, 0));
      hide Owns, ByteAt, Entries, StoreEntry, NameOk, FreeInodes, FsNames.Full, FreeInodesEmpty, Backed, Ptr, DirBlock;
      var entries := disk[inodes[parent].direct[0]];
      freed := FsNames.FindFreeDir(Entries(entries));
      var freei := TakeInode();
      if freed < 0 || freei < 0 {
        return ENOSPC, 0, freed;
      }
      inum := freei;
      assert FreeInodes(v.inodeMap) != {};
      PutFile(parent, inum, StoreEntry(entries, freed, inum, name));
      r := 0;
    }

    /** The new file goes into its inode, and its entry to disk. */
    method PutFile(parent: nat, inum: nat, entries: Block)
      requires Valid() && FreeInodesEmpty(View()) && inum < |inodes| && Empty(inodes[inum])
      requires parent < |inodes| && Ptr(View(), Direct(parent, 0)) != 0
      modifies `disk, `inodes, `diskInodes, `diskInodeMap, `diskBlockMap
      ensures Valid() && FreeInodesEmpty(View())
      ensures inodes == old(inodes)[inum := NewFile()] && Backed(View(), inum)
      ensures old(Ptr(View(), Direct(parent, 0))) < |disk| == old(|disk|)
      ensures disk == old(disk)[old(Ptr(View(), Direct(parent, 0))) := entries]
      ensures forall s :: Ptr(View(), s) == old(Ptr(View(), s))
      ensures forall j: nat, p: nat :: j != parent ==> ByteAt(View(), j, p) == old(ByteAt(View(), j, p))
      ensures diskBlockMap == blockMap && diskInodeMap == inodeMap
      ensures old(diskInodes == inodes) ==> diskInodes == inodes
    {
      hide Owns, ByteAt;
      MakeFile(inum);
      WriteEntries(parent, entries);
    }

    /** The directory's block of entries goes to disk. */
    method WriteEntries(parent: nat, entries: Block)
      requires Valid() && parent < |inodes| && Ptr(View(), Direct(parent, 0)) != 0
      modifies `disk
      ensures Valid() && old(Ptr(View(), Direct(parent, 0))) < |disk| == old(|disk|)
      ensures disk == old(disk)[old(Ptr(View(), Direct(parent, 0))) := entries]
      ensures forall s :: Ptr(View(), s) == old(Ptr(View(), s))
      ensures forall j: nat, p: nat :: j != parent ==> ByteAt(View(), j, p) == old(ByteAt(View(), j, p))
    {
      ghost var s, v := Direct(parent, 0), View();
      assert Ptr(v, s) == inodes[parent].direct[0] && Holds(v, owner, s);
      DataKeepsPtrs(v, owner, s, entries);
      disk := disk[inodes[parent].direct[0] := entries];
      forall j: nat, p: nat | j != parent ensures ByteAt(View(), j, p) == ByteAt(v, j, p) {
        var t := Leaf(j, p / BLOCK_SIZE);
        LeafInverse(j, p / BLOCK_SIZE, j, p / BLOCK_SIZE);
        OwnsDistinct(v, owner, s, t);
      }
    }

    /** The inode of a file that holds nothing is cleared and given back. */
    method ClearInode(inum: nat)
      requires Valid() && inum < |inodeMap| && Empty(inodes[inum])
      modifies `inodes, `inodeMap, `diskInodes, `diskInodeMap, `diskBlockMap
      ensures Valid() && inodes == old(inodes)[inum := Cleared()] && inodeMap == old(inodeMap)[inum := false]
      ensures forall s :: Ptr(View(), s) == old(Ptr(View(), s))
      ensures forall j: nat, p: nat :: ByteAt(View(), j, p) == old(ByteAt(View(), j, p))
      ensures diskBlockMap == blockMap && diskInodeMap == inodeMap
      ensures old(diskInodes == inodes) ==> diskInodes == inodes
    {
      ghost var v := View();
      inodes := inodes[inum := Cleared()];
      inodeMap := inodeMap[inum := false];
      SwapEmpty(v, owner, inum, Cleared(), inodeMap);
      UpdateInode(inum);
      UpdateBlk();
      assert old(diskInodes == inodes) ==> diskInodes == inodes;
    }

    /** fs_unlink, with the file and its parent directory found. */
    method FsUnlink(inum: nat, parent: nat, name: string) returns (r: int)
      requires Valid() && FreeInodesEmpty(View()) && inum < |inodeMap|
      requires parent < |inodes| && inodes[parent].mode.Directory? && Ptr(View(), Direct(parent, 0)) != 0
      modifies this
      ensures Valid() && owner == old(owner) && FreeInodesEmpty(View())
      ensures r == if old(inodes[inum].mode.Directory?) then EISDIR else 0
      ensures r != 0 ==> View() == old(View()) && OnDisk() == old(OnDisk())
      ensures r == 0 ==> inodeMap == old(inodeMap)[inum := false] && inodes == old(inodes)[inum := Cleared()]
      ensures r == 0 ==> ClearsOnly(old(blockMap), blockMap, Freed(old(View()), inum))
      ensures r == 0 ==> FileGone(old(View()), View(), old(owner), inum)
      ensures r == 0 ==> Ptr(View(), Direct(parent, 0)) < |disk| == old(|disk|)
      ensures r == 0 ==> disk == old(disk)[Ptr(View(), Direct(parent, 0)) := DirBlock(View(), parent)]
      ensures r == 0 ==>
        Entries(DirBlock(View(), parent)) == FsNames.Removed(Entries(old(DirBlock(View(), parent))), name)
      ensures r == 0 ==> diskBlockMap == blockMap && diskInodeMap == inodeMap
      ensures r == 0 ==> (old(InodesSynced()) ==> InodesSynced())
      ensures forall j: nat, p: nat :: j != parent && j != inum ==> ByteAt(View(), j, p) == old(ByteAt(View(), j, p))
    {
      ghost var v := View();
      assert Ptr(v, Direct(parent, 0)) == inodes[parent].direct[0] && |inodes[parent].direct| > 0;
      MidHeld(v, owner, Direct(parent, 0));
      hide Owns, Freed, ByteAt, Entries, FileGone;
      r := FsTruncate(inum, 0);
      if r < 0 {
        return;
      }
      TruncateKeeps(v, View(), owner, inum);
      var entries := RemoveEntries(disk[inodes[parent].direct[0]], name);
      WriteEntries(parent, entries);
      ClearInode(inum);
      IsGone(v, View(), owner, inum);
    }

    /** fs_rename, with the directory of both names found. */
    method FsRename(parent: nat, src: string, dst: string)
      requires Valid() && NameOk(dst)
      requires parent < |inodes| && inodes[parent].mode.Directory? && Ptr(View(), Direct(parent, 0)) != 0
      modifies `disk
      ensures Valid() && |disk| == old(|disk|)
      ensures forall s :: Ptr(View(), s) == old(Ptr(View(), s))
      ensures Ptr(View(), Direct(parent, 0)) < |disk|
      ensures disk == old(disk)[Ptr(View(), Direct(parent, 0)) := DirBlock(View(), parent)]
      ensures Entries(DirBlock(View(), parent)) == FsNames.Renamed(Entries(old(DirBlock(View(), parent))), src, dst)
      ensures forall j: nat, p: nat :: j != parent ==> ByteAt(View(), j, p) == old(ByteAt(View(), j, p))
    {
      hide Owns, ByteAt, Entries, NameOk;
      MidHeld(View(), owner, Direct(parent, 0));
      var entries := RenameEntries(disk[inodes[parent].direct[0]], src, dst);
      WriteEntries(parent, entries);
    }
  }
}
