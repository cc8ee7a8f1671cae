/** What several operations on a volume do together. */
module FsLaws {
  import opened Octets
  import opened FsModel
  import opened FsEffects
  import opened FsTruncation
  import opened FsSteps
  import opened FsCounting
  import opened FsVolume
  import opened FsDirectory
  import opened FsPaths
  import N = FsNames
  import P = FsParse

  /** There was a free block for every empty slot on the way to the n bytes. */
  predicate Enough(v: Vol, i: nat, at: nat, n: nat) {
    |MissingFor(v, i, at, n)| <= |FreeBlocks(v.blockMap)|
  }

  /** The size covers a write exactly if it did before or if the write ends at FAR at the
      latest and is complete. */
  lemma SizeAfter(v: Vol, w: Vol, o: Owner, o': Owner, i: nat, at: nat, data: seq<byte>, r: int, put: nat)
    requires Owns(v, o) && Owns(w, o') && Grows(v, w, o', i) && i < |v.inodes| == |w.inodes|
    requires Writable(v, i, at) && Written(v, w, i, at, data, r, put)
    ensures put == |data| <==> Enough(v, i, at, |data|)
    ensures at + |data| <= w.inodes[i].size <==>
      at + |data| <= v.inodes[i].size || (at + |data| <= FAR && Enough(v, i, at, |data|))
    ensures w.inodes[i].size == Max(v.inodes[i].size, at + |data|) <==> at + |data| <= w.inodes[i].size
  {
    CompleteIff(v, w, o, o', i, at, |data|, put);
    if at + |data| <= v.inodes[i].size && at + |data| <= FAR { BackedMissesNothing(v, i, at, |data|); }
  }

  /** Up to its size, and FAR, a file misses no block. */
  lemma BackedMissesNothing(v: Vol, i: nat, at: nat, n: nat)
    requires Backed(v, i) && at + n <= v.inodes[i].size && at + n <= FAR
    ensures MissingFor(v, i, at, n) == {}
  {
    forall k: nat, s | at / BLOCK_SIZE <= k < UpTo(at, n) && s in Path(i, k) ensures Ptr(v, s) != 0 {
      assert k * BLOCK_SIZE < Min(v.inodes[i].size, FAR);
      PathThere(v, i, k, s);
    }
  }

  /** The blocks are there exactly if the write is complete. */
  lemma ReadableAfter(v: Vol, w: Vol, i: nat, at: nat, data: seq<byte>, r: int, put: nat)
    requires i < |v.inodes| == |w.inodes| && at <= FAR && Written(v, w, i, at, data, r, put)
    ensures Readable(w, i, at, |data|) <==> put == |data|
    ensures put == |data| ==> Bytes(w, i, at, |data|) == data
  {
    if put == |data| {
      assert data[..put] == data;
      ReadsBack(v, w, i, at, data);
    } else {
      assert at / BLOCK_SIZE <= (at + put) / BLOCK_SIZE < UpTo(at, |data|);
    }
  }

  /** A write and a read of the same range, of any file that is Backed.  The size becomes
      what the write reaches exactly if it was that much before, or if the write ends at FAR
      at the latest and there was a free block for every empty slot on the way to its bytes.
      The read returns the bytes exactly if there were those blocks, the size covers them,
      and the range starts at a block boundary. */
  method WriteThenRead(vol: Volume, inum: nat, buf: seq<byte>, offset: nat)
    returns (written: bool, r: int, out: seq<byte>, count: int, read: bool)
    requires vol.Valid() && Writable(vol.View(), inum, offset)
    modifies vol
    ensures vol.Valid() && |vol.inodes| == old(|vol.inodes|) && (written <==> !BadWrite(offset, |buf|))
    ensures written ==>
      (vol.inodes[inum].size == Max(old(vol.inodes[inum].size), offset + |buf|) <==>
       offset + |buf| <= old(vol.inodes[inum].size) ||
       (offset + |buf| <= FAR && Enough(old(vol.View()), inum, offset, |buf|)))
    ensures written && |buf| > 0 ==>
      (read && out == buf <==>
       offset % BLOCK_SIZE == 0 && offset + |buf| <= Max(old(vol.inodes[inum].size), FAR) &&
       Enough(old(vol.View()), inum, offset, |buf|))
    ensures written && offset + |buf| > Max(old(vol.inodes[inum].size), FAR) ==>
      read && out == [] && count == vol.inodes[inum].size - offset
  {
    assert inum < |vol.inodes|;
    out, count, read := [], 0, false;
    ghost var put;
    ghost var v, o := vol.View(), vol.owner;
    BackedReaches(v, inum, offset);
    assert !vol.inodes[inum].mode.Directory?;
    hide Owns, Grows, OthersKeep, Bytes, Readable, Reachable, Writable, Written, Enough;
    r, written, put := vol.FsWrite(inum, buf, offset);
    if written {
      ghost var w := vol.View();
      StillAFile(v, w, vol.owner, inum, offset);
      SizeAfter(v, w, o, vol.owner, inum, offset, buf, r, put);
      ReadableAfter(v, w, inum, offset, buf, r, put);
      if offset + |buf| <= w.inodes[inum].size {
        WrittenIsBacked(v, w, inum, offset, buf, r, put);
        BackedReads(w, inum, offset, |buf|);
      }
      out, count, read := vol.FsRead(inum, |buf|, offset);
    }
  }

  lemma WrittenIsBacked(v: Vol, w: Vol, i: nat, at: nat, data: seq<byte>, r: int, put: nat)
    requires i < |v.inodes| == |w.inodes| && Written(v, w, i, at, data, r, put)
    ensures Backed(w, i)
  {
  }

  /** A write, with the disk in step before, and then the tables read back as fs_getattr
      does.  The map on disk is too old exactly if there were fewer free blocks than empty
      slots on the way to the bytes below FAR, with the double indirect block among them for
      a write past FAR; then the volume still has an owner for every block exactly if no
      block was free. */
  method WriteThenReload(vol: Volume, inum: nat, buf: seq<byte>, offset: nat) returns (r: int)
    requires vol.Valid() && vol.Synced() && Writable(vol.View(), inum, offset) && !BadWrite(offset, |buf|)
    modifies vol
    ensures r < |buf| && offset + r <= FAR <==>
      |MapNeeds(old(vol.View()), inum, offset, |buf|)| > |FreeBlocks(old(vol.blockMap))|
    ensures (exists o: Owner :: Owns(vol.View(), o)) <==>
      |MapNeeds(old(vol.View()), inum, offset, |buf|)| <= |FreeBlocks(old(vol.blockMap))| ||
      FreeBlocks(old(vol.blockMap)) == {}
  {
    assert inum < |vol.inodes|;
    hide Owns, Ptr, Grows, FilledUp, OthersKeep, Wrote, MapNeeds, Built, Backed, Extends, FreeBlocks, Stops;
    ghost var v, o := vol.View(), vol.owner;
    BackedReaches(v, inum, offset);
    var ok;
    ghost var put;
    r, ok, put := vol.FsWrite(inum, buf, offset);
    ghost var w, o' := vol.View(), vol.owner;
    StopsBelowIff(v, w, o, o', inum, offset, buf, r, put);
    ghost var stale := r < |buf| && offset + r <= FAR;
    if stale { StaleMapWhenFull(v, w, o, o', inum); }
    vol.FsInit();
    assert vol.View() == if stale then w.(blockMap := v.blockMap) else w;
  }

  /** A file made at a path and written is found at that path again, and reads back whatever
      else the volume holds exactly if it ends below FAR and there were free blocks enough. */
  method CreateWriteFind(vol: Volume, root: nat, path: string, buf: seq<byte>, stale: string)
    returns (r: int, inum: nat, out: seq<byte>)
    requires vol.Valid() && FreeInodesEmpty(vol.View()) && Tree(vol.View()) && CString(path) && root < |vol.inodeMap|
    modifies vol
    ensures vol.Valid() && Tree(vol.View())
    ensures r == 0 ==> N.Inode(Dirs(vol.View()), root, path) == inum
    ensures r == 0 ==> (out == buf <==> |buf| <= FAR && Needed(|buf|) <= |FreeBlocks(old(vol.blockMap))|)
  {
    hide Owns, Ptr, Grows, Extends, ByteAt, Wrote, FreeBlocks, Dirs, Tree, FreeInodesEmpty, N.Linked, N.Resolve, N.Full;
    hide FilledUp, Built, InOrder, MissingFor, OthersKeep, Readable, Stops, Bytes;
    out := [];
    r, inum := Mknod(vol, root, path, stale);
    if r != 0 {
      return;
    }
    ghost var u, o := vol.View(), vol.owner;
    NewIsWritable(u, inum);
    var count, ok;
    ghost var put;
    count, ok, put := vol.FsWrite(inum, buf, 0);
    ghost var w := vol.View();
    StillAFile(u, w, vol.owner, inum, 0);
    WritesKeepNames(u, w, o, vol.owner, inum);
    if |buf| <= FAR {
      CompleteIff(u, w, o, vol.owner, inum, 0, |buf|, put);
      NeededIs(u, inum, |buf|);
    }
    var found := Translate(vol, root, path);
    var n, read;
    out, n, read := vol.FsRead(found, |buf|, 0);
    if count == |buf| <= FAR {
      assert buf[..put] == buf;
      BackedReads(w, inum, 0, |buf|);
      ReadsBack(u, w, inum, 0, buf);
    }
  }

  lemma NewIsWritable(u: Vol, i: nat)
    requires i < |u.inodes| && u.inodes[i] == NewFile()
    ensures Writable(u, i, 0) && forall s: Slot :: s.i == i ==> Ptr(u, s) == 0
  {
    EmptyHoldsNothing(u, i);
  }

  lemma StillAFile(u: Vol, w: Vol, owner: Owner, i: nat, at: nat)
    requires i < |u.inodes| == |w.inodes| && Extends(u, Resize(w, i, u.inodes[i].size), owner, i)
    requires OthersKeep(u, w, i, Min(at, FAR))
    ensures OthersKeep(u, w, i, 0) && w.inodes[i].mode == u.inodes[i].mode && w.inodeMap == u.inodeMap
  {
  }

  lemma StillNames(u: Vol, w: Vol, o: Owner, o': Owner, i: nat, at: nat)
    requires Owns(u, o) && Tree(u) && i < |u.inodes| == |w.inodes| && !u.inodes[i].mode.Directory?
    requires Grows(u, w, o', i) && Extends(u, Resize(w, i, u.inodes[i].size), o', i)
    requires OthersKeep(u, w, i, Min(at, FAR))
    ensures Dirs(w) == Dirs(u) && Tree(w)
  {
    StillAFile(u, w, o', i, at);
    hide OthersKeep, Extends, Grows, Owns, Tree, Dirs, Resize;
    WritesKeepNames(u, w, o, o', i);
  }

  datatype Piece = Piece(data: seq<byte>, at: nat)

  /** Writes that neither overrun nor reach past FAR. */
  predicate Plain(p: Piece) {
    !BadWrite(p.at, |p.data|) && p.at + |p.data| <= FAR
  }

  predicate AllPlain(pieces: seq<Piece>) {
    forall k :: 0 <= k < |pieces| ==> Plain(pieces[k])
  }

  /** File i has grown, and nothing else has changed: no name, and no other inode. */
  ghost predicate OnlyGrew(u: Vol, w: Vol, owner: Owner, i: nat) {
    i < |u.inodes| == |w.inodes| && Grows(u, w, owner, i) && w.inodeMap == u.inodeMap &&
    w.inodes[i].mode == u.inodes[i].mode &&
    (forall j :: 0 <= j < |u.inodes| && j != i ==> w.inodes[j] == u.inodes[j]) &&
    (Tree(u) && !u.inodes[i].mode.Directory? ==> Dirs(w) == Dirs(u) && Tree(w))
  }

  lemma GrewMore(u: Vol, v: Vol, w: Vol, o: Owner, o': Owner, i: nat, at: nat)
    requires OnlyGrew(u, v, o, i) && Owns(v, o) && Owns(w, o') && |w.inodes| == |v.inodes| && Grows(v, w, o', i)
    requires Extends(v, Resize(w, i, v.inodes[i].size), o', i) && OthersKeep(v, w, i, Min(at, FAR))
    ensures OnlyGrew(u, w, o', i)
  {
    OneFileOnly(v, w, o', i);
    GrowsTransitive(u, v, w, o, o', i);
    hide Owns, Grows, Extends, OthersKeep, Tree, Dirs, Resize;
    if Tree(u) && !u.inodes[i].mode.Directory? { StillNames(v, w, o, o', i, at); }
  }

  lemma GrewNothing(u: Vol, owner: Owner, i: nat)
    requires i < |u.inodes|
    ensures OnlyGrew(u, u, owner, i)
  {
  }

  /** Any writes to one file, up to one that overruns. */
  method Fill(vol: Volume, inum: nat, pieces: seq<Piece>)
    requires vol.Valid() && inum < |vol.inodes|
    modifies vol
    ensures vol.Valid() && OnlyGrew(old(vol.View()), vol.View(), vol.owner, inum)
    ensures old(FreeInodesEmpty(vol.View()) && (inum < |vol.inodeMap| ==> vol.inodeMap[inum])) ==>
      FreeInodesEmpty(vol.View())
    ensures old(vol.InodesSynced()) ==> vol.InodesSynced()
    ensures old(Writable(vol.View(), inum, 0)) && AllPlain(pieces) ==>
      vol.inodes[inum].indir2 == old(vol.inodes[inum].indir2)
  {
    ghost var u, o := vol.View(), vol.owner;
    ghost var plain := Writable(u, inum, 0) && AllPlain(pieces);
    hide Owns, Ptr, Grows, Extends, ByteAt, Wrote, FreeBlocks, FilledUp, Stops;
    hide Built, OthersKeep, Plain, FreeInodesEmpty, OnlyGrew;
    GrewNothing(u, o, inum);
    GrewSame(u, u, o, inum);
    var i, ok := 0, true;
    while i < |pieces| && ok
      invariant 0 <= i <= |pieces| && vol.Valid() && |vol.inodes| == |u.inodes|
      invariant OnlyGrew(u, vol.View(), vol.owner, inum)
      invariant FreeInodesEmpty(u) && (inum < |u.inodeMap| ==> u.inodeMap[inum]) ==> FreeInodesEmpty(vol.View())
      invariant plain ==> ok && Backed(vol.View(), inum) && vol.inodes[inum].indir2 == u.inodes[inum].indir2
      invariant old(vol.InodesSynced()) ==> vol.InodesSynced()
    {
      ghost var v, o' := vol.View(), vol.owner;
      ghost var put;
      var count;
      GrewSame(u, v, o', inum);
      if plain { PlainIs(pieces[i]); }
      count, ok, put := vol.FsWrite(inum, pieces[i].data, pieces[i].at);
      GrewMore(u, v, vol.View(), o', vol.owner, inum, pieces[i].at);
      i := i + 1;
    }
  }

  lemma GrewSame(u: Vol, v: Vol, owner: Owner, i: nat)
    requires OnlyGrew(u, v, owner, i)
    ensures |v.inodes| == |u.inodes| && v.inodeMap == u.inodeMap && v.inodes[i].mode == u.inodes[i].mode
  {
  }

  /** A file made at a path, filled by any writes, even on a disk that fills up, and removed
      by that path from the volume `filled`: the blocks free before are those free after and
      the level-1 index blocks that the writes took.  Both maps are as they were exactly if
      there were none, as after plain writes, and every path leads where it led. */
  method CreateFillRemove(vol: Volume, root: nat, path: string, pieces: seq<Piece>, stale: string)
    returns (r: int, ghost inum: nat, ghost filled: Vol)
    requires vol.Valid() && FreeInodesEmpty(vol.View()) && Tree(vol.View()) && CString(path) && root < |vol.inodeMap|
    modifies vol
    ensures vol.Valid() && FreeInodesEmpty(vol.View()) && Tree(vol.View()) && |vol.blockMap| == old(|vol.blockMap|)
    ensures r == 0 ==> exists o :: FileGone(filled, vol.View(), o, inum)
    ensures r == 0 ==> FreeBlocks(old(vol.blockMap)) == FreeBlocks(vol.blockMap) + Mids(filled, inum)
    ensures r == 0 ==> FreeBlocks(vol.blockMap) !! Mids(filled, inum)
    ensures r == 0 ==> (vol.blockMap == old(vol.blockMap) <==> Mids(filled, inum) == {})
    ensures r == 0 && AllPlain(pieces) ==> vol.blockMap == old(vol.blockMap)
    ensures r != 0 ==> vol.blockMap == old(vol.blockMap) && vol.OnDisk() == old(vol.OnDisk())
    ensures r == 0 ==> vol.inodeMap == old(vol.inodeMap)
    ensures r == 0 ==> forall i: nat, q ::
      N.Resolve(Dirs(vol.View()), i, q) == N.Resolve(old(Dirs(vol.View())), i, q)
    ensures r == 0 ==> vol.diskBlockMap == vol.blockMap && vol.diskInodeMap == vol.inodeMap
    ensures r == 0 ==> (old(vol.InodesSynced()) ==> vol.InodesSynced())
  {
    hide Owns, Ptr, Grows, ByteAt, FreeBlocks, Plain, FreeInodesEmpty, Backed, Mids, FileGone, BlocksOf;
    hide Dirs, Tree, N.Linked, N.Resolve, N.Find, N.Removed, Truncated, CString, FreeInodes;
    filled := vol.View();
    ghost var t, d, name := Dirs(filled), N.Parent(Dirs(filled), root, path), N.Last(P.Components(path), stale);
    var file;
    r, file := Mknod(vol, root, path, stale);
    inum := file;
    if r != 0 {
      return;
    }
    ghost var u, o := vol.View(), vol.owner;
    NewIsWritable(u, inum);
    FreeMeans(filled.inodeMap, inum);
    assert u.inodeMap == filled.inodeMap[inum := true];
    ghost var before := filled.inodeMap;
    Fill(vol, file, pieces);
    filled := vol.View();
    ghost var o' := vol.owner;
    GrowsSameMap(u, filled, o', inum);
    FileNotInDirs(filled, inum);
    r := Unlink(vol, root, path, stale);
    IsGoneMeans(filled, vol.View(), o', inum);
    FillAndGone(u, filled, vol.View(), o, o', inum);
    N.LinkedBack(t, Dirs(u), Dirs(vol.View()), d, name, inum);
    assert vol.inodeMap == before;
    if AllPlain(pieces) { NoIndirect2(filled, inum); }
    if Mids(filled, inum) == {} { SameFree(u.blockMap, vol.blockMap); }
  }

  lemma FreeMeans(m: seq<bool>, i: nat)
    requires i in FreeInodes(m)
    ensures i < |m| && !m[i]
  {
  }

  lemma FileNotInDirs(v: Vol, i: nat)
    requires i < |v.inodes| && !v.inodes[i].mode.Directory?
    ensures i !in Dirs(v)
  {
  }

  lemma IsGoneMeans(v: Vol, w: Vol, owner: Owner, i: nat)
    requires FileGone(v, w, owner, i)
    ensures w.inodeMap == v.inodeMap[i := false] && |w.blockMap| == |v.blockMap|
  {
  }

  lemma FillAndGone(u: Vol, v: Vol, w: Vol, o: Owner, o': Owner, i: nat)
    requires Owns(u, o) && Owns(v, o') && Grows(u, v, o', i) && FileGone(v, w, o', i)
    requires forall s: Slot :: s.i == i ==> Ptr(u, s) == 0
    ensures FreeBlocks(u.blockMap) == FreeBlocks(w.blockMap) + Mids(v, i) && FreeBlocks(w.blockMap) !! Mids(v, i)
  {
    FreedAndMids(v, o', i);
    assert ClearsOnly(v.blockMap, w.blockMap, BlocksOf(v, o', i) - Mids(v, i));
    hide Owns, Grows, Freed, BlocksOf, Mids, Ptr, FreeBlocks, FileGone;
    assert BlocksOf(v, o', i) - Mids(v, i) == Freed(v, i);
    FillAndTruncate(u, v, w.blockMap, o, o', i);
  }

  /** A creation that fails leaves the disk alone, so that reading the tables back undoes
      whatever it did in memory. */
  method CreateFailsThenReload(vol: Volume, root: nat, path: string, stale: string) returns (r: int)
    requires vol.Valid() && vol.Synced() && FreeInodesEmpty(vol.View()) && Tree(vol.View())
    requires CString(path) && root < |vol.inodeMap|
    modifies vol
    ensures r != 0 ==> vol.View() == old(vol.View())
    ensures r == 0 ==> vol.Synced() && N.Inode(Dirs(vol.View()), root, path) >= 0
  {
    hide Owns, Dirs, Tree, FreeInodesEmpty, N.Resolve, N.Linked, N.Find, Ptr, ByteAt, FreeInodes, CString;
    var inum;
    r, inum := Mknod(vol, root, path, stale);
    vol.FsInit();
  }

  lemma PlainIs(p: Piece)
    requires Plain(p)
    ensures !BadWrite(p.at, |p.data|) && p.at + |p.data| <= FAR
  {
  }

  lemma OneFileOnly(v: Vol, w: Vol, owner: Owner, i: nat)
    requires i < |v.inodes| == |w.inodes| && Extends(v, Resize(w, i, v.inodes[i].size), owner, i)
    ensures w.inodes[i].mode == v.inodes[i].mode && w.inodeMap == v.inodeMap
    ensures forall j :: 0 <= j < |v.inodes| && j != i ==> w.inodes[j] == v.inodes[j]
  {
  }

  lemma GrowsSameMap(u: Vol, v: Vol, owner: Owner, i: nat)
    requires Grows(u, v, owner, i)
    ensures |v.blockMap| == |u.blockMap|
  {
  }

  lemma NoIndirect2(v: Vol, i: nat)
    requires i < |v.inodes| && v.inodes[i].indir2 == 0
    ensures Mids(v, i) == {}
  {
  }

  lemma SameFree(m: seq<bool>, m': seq<bool>)
    requires |m| == |m'| && FreeBlocks(m) == FreeBlocks(m')
    ensures m == m'
  {
    forall b: nat | b < |m| ensures m[b] == m'[b] {
      assert b in FreeBlocks(m) <==> b in FreeBlocks(m');
    }
  }

  /** A write that stops short leaves the disk with the new inodes and the old block map.
      Read back, they make an owned volume exactly if the write took no block. */
  lemma StaleMapIff(v: Vol, w: Vol, owner: Owner, owner': Owner, i: nat)
    requires Owns(v, owner) && Owns(w, owner') && Grows(v, w, owner', i)
    ensures (exists o: Owner :: Owns(w.(blockMap := v.blockMap), o)) <==> w.blockMap == v.blockMap
  {
    var x := w.(blockMap := v.blockMap);
    forall s ensures Ptr(x, s) == Ptr(w, s) {
      if s.i < |w.inodes| { assert InodePtr(x, x.inodes[s.i], s) == InodePtr(w, w.inodes[s.i], s); }
    }
    if w.blockMap == v.blockMap {
      assert x == w && Owns(x, owner');
    } else {
      var b :| 0 <= b < |v.blockMap| && w.blockMap[b] != v.blockMap[b];
      assert HeldBy(w, owner', i, b);
      forall o: Owner ensures !Owns(x, o) {
        assert Owns(x, o) ==> Holds(x, o, owner'[b]);
      }
    }
  }

  /** When the disk is full after the write, a block was taken exactly if one was free. */
  lemma StaleMapWhenFull(v: Vol, w: Vol, owner: Owner, owner': Owner, i: nat)
    requires Owns(v, owner) && Owns(w, owner') && Grows(v, w, owner', i) && FreeBlocks(w.blockMap) == {}
    ensures (exists o: Owner :: Owns(w.(blockMap := v.blockMap), o)) <==> FreeBlocks(v.blockMap) == {}
  {
    StaleMapIff(v, w, owner, owner', i);
    hide Owns;
    assert |w.blockMap| == |v.blockMap|;
    if w.blockMap != v.blockMap {
      var b :| 0 <= b < |v.blockMap| && w.blockMap[b] != v.blockMap[b];
      assert b in FreeBlocks(v.blockMap);
    }
  }

  /** A volume with nothing on it but a root directory. */
  function Fresh(base: nat, blocks: nat, n: nat, root: nat): Vol
    requires 1 <= base < blocks && root < n
  {
    Vol(base, seq(blocks, b => Zeros()), seq(blocks, b => b <= base),
        seq(n, i => if i == root then Inode(Directory, BLOCK_SIZE, [base, 0, 0, 0, 0, 0], 0, 0) else Cleared()),
        seq(n, i => i < 2 || i == root))
  }

  /** There every invariant holds: the operations start from here. */
  lemma FreshIsOwned(base: nat, blocks: nat, n: nat, root: nat)
    requires 1 <= base < blocks <= BITS_PER_BLK && root < n <= BITS_PER_BLK
    ensures Owns(Fresh(base, blocks, n, root), map[base := Direct(root, 0)])
    ensures FreeInodesEmpty(Fresh(base, blocks, n, root))
    ensures Backed(Fresh(base, blocks, n, root), root)
    ensures root > 0 ==> Tree(Fresh(base, blocks, n, root))
  {
    var v := Fresh(base, blocks, n, root);
    var top := Inode(Directory, BLOCK_SIZE, [base, 0, 0, 0, 0, 0], 0, 0);
    assert forall i :: 0 <= i < n ==> v.inodes[i] == if i == root then top else Cleared();
    forall s | Ptr(v, s) != 0 ensures s == Direct(root, 0) && Ptr(v, s) == base {
    }
    assert Ptr(v, Leaf(root, 0)) == base;
  }
}
