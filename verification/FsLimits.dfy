/** Calls on which the file system falls short, as the criteria of the other files have it:
    a copy that overruns, a map read back too old, a size left behind, a count too high, a
    block and an inode lost. */
module FsLimits {
  import opened Octets
  import opened FsModel
  import opened FsEffects
  import opened FsTruncation
  import opened FsSteps
  import opened FsDirectory
  import opened FsVolume
  import opened FsPaths
  import opened FsCounting
  import opened FsLaws
  import opened Errno
  import N = FsNames
  import P = FsParse

  const ROOT := Inode(Directory, 1024, [4, 0, 0, 0, 0, 0], 0, 0)

  /** A disk whose first four blocks are for the tables, with `used` blocks marked; a root
      directory; file 2 as given. */
  function Sample(file: Inode, disk: seq<Block>, used: nat): Vol {
    Vol(4, disk, seq(|disk|, b => b < used),
        seq(16, i => if i == 1 then ROOT else if i == 2 then file else Cleared()), seq(16, i => i < 3))
  }

  function Blank(n: nat): (disk: seq<Block>)
    ensures |disk| == n && forall b :: 0 <= b < n ==> disk[b] == Zeros()
  {
    seq(n, b => Zeros())
  }

  lemma SampleIs(file: Inode, disk: seq<Block>, used: nat)
    ensures var v := Sample(file, disk, used);
      (forall b :: 0 <= b < |disk| ==> v.blockMap[b] == (b < used)) && v.inodes[1] == ROOT && v.inodes[2] == file &&
      forall i :: 0 <= i < 16 && i != 1 && i != 2 ==> v.inodes[i] == Cleared()
  {
  }

  // ---- overruns

  /** A file of one block. */
  const ONE_BLOCK := Inode(Regular, 1024, [5, 0, 0, 0, 0, 0], 0, 0)

  lemma OneBlockIsOwned(n: nat)
    requires 6 < n <= BITS_PER_BLK
    ensures var v := Sample(ONE_BLOCK, Blank(n), 6);
      Owns(v, map[4 := Direct(1, 0), 5 := Direct(2, 0)]) && Writable(v, 2, 1000) && Writable(v, 2, 1024) &&
      Ptr(v, Leaf(2, 0)) != 0 && Ptr(v, Direct(2, 1)) == 0 == Ptr(v, Direct(2, 2))
  {
    var v := Sample(ONE_BLOCK, Blank(n), 6);
    SampleIs(ONE_BLOCK, Blank(n), 6);
    forall s | Ptr(v, s) != 0
      ensures (s == Direct(1, 0) && Ptr(v, s) == 4) || (s == Direct(2, 0) && Ptr(v, s) == 5)
    {
    }
    assert Ptr(v, Leaf(2, 0)) == 5;
    assert InOrder(v, 2);
  }

  /** Reading ten bytes at 1000 of it, or writing a hundred there, runs past a buffer. */
  method Overruns() returns (readOk: bool, writeOk: bool)
    ensures !readOk && !writeOk
  {
    OneBlockIsOwned(16);
    SampleIs(ONE_BLOCK, Blank(16), 6);
    hide Owns, Ptr, Writable, Written, Grows, Extends, OthersKeep, FreeInodesEmpty;
    var vol := new Volume(Sample(ONE_BLOCK, Blank(16), 6), map[4 := Direct(1, 0), 5 := Direct(2, 0)]);
    var out, r;
    out, r, readOk := vol.FsRead(2, 10, 1000);
    ghost var put;
    r, writeOk, put := vol.FsWrite(2, seq<byte>(100, i => 7), 1000);
  }

  // ---- a map read back too old

  /** With one block free, of the two that the next 2048 bytes need. */
  lemma OneOfTwo()
    ensures var v := Sample(ONE_BLOCK, Blank(7), 6);
      FreeBlocks(v.blockMap) == {6} && |MapNeeds(v, 2, 1024, 2048)| == 2
  {
    OneBlockIsOwned(7);
    SampleIs(ONE_BLOCK, Blank(7), 6);
    var v := Sample(ONE_BLOCK, Blank(7), 6);
    assert UpTo(1024, 2048) == 3;
    assert Direct(2, 1) in Path(2, 1) && Direct(2, 2) in Path(2, 2);
    assert MissingFor(v, 2, 1024, 2048) == {Direct(2, 1), Direct(2, 2)};
  }

  /** Writing them and reading the tables back: nobody can own the blocks. */
  method MapTooOld() returns (r: int, ghost owned: bool)
    ensures r < 2048 && !owned
  {
    OneBlockIsOwned(7);
    OneOfTwo();
    SampleIs(ONE_BLOCK, Blank(7), 6);
    hide Owns, Ptr, Writable, MapNeeds, FreeBlocks, Sample, Blank;
    var vol := new Volume(Sample(ONE_BLOCK, Blank(7), 6), map[4 := Direct(1, 0), 5 := Direct(2, 0)]);
    r := WriteThenReload(vol, 2, seq<byte>(2048, i => 7), 1024);
    owned := exists o: Owner :: Owns(vol.View(), o);
  }

  // ---- past the single indirect block

  /** A new file, and n - 5 free blocks. */
  function EmptyFile(n: nat): Vol {
    Sample(NewFile(), Blank(n), 5)
  }

  const EMPTY_OWNER: Owner := map[4 := Direct(1, 0)]

  lemma {:induction false} FreeSize(m: seq<bool>, used: nat)
    requires forall b :: 0 <= b < |m| ==> m[b] == (b < used)
    ensures |FreeBlocks(m)| == if |m| > used then |m| - used else 0
  {
    if m != [] {
      var n := |m| - 1;
      FreeSize(m[..n], used);
      assert FreeBlocks(m) == FreeBlocks(m[..n]) + if m[n] then {} else {n};
    }
  }

  lemma EmptyFileIsOwned(n: nat)
    requires 6 <= n <= BITS_PER_BLK
    ensures Owns(EmptyFile(n), EMPTY_OWNER) && Writable(EmptyFile(n), 2, 0)
    ensures forall s: Slot :: s.i == 2 ==> Ptr(EmptyFile(n), s) == 0
    ensures |FreeBlocks(EmptyFile(n).blockMap)| == n - 5
  {
    var v := EmptyFile(n);
    SampleIs(NewFile(), Blank(n), 5);
    forall s | Ptr(v, s) != 0 ensures s == Direct(1, 0) && Ptr(v, s) == 4 {
    }
    assert InOrder(v, 2);
    FreeSize(v.blockMap, 5);
  }

  lemma NeededPast()
    ensures Needed(FAR) == 263 && Needed(FAR + 1) == 266
  {
  }

  /** One byte more than reaches FAR needs 266 blocks, 264 of them before the last two. */
  lemma NeedsPast(n: nat)
    requires 6 <= n <= BITS_PER_BLK
    ensures |MissingFor(EmptyFile(n), 2, 0, FAR + 1)| == 266 && |MapNeeds(EmptyFile(n), 2, 0, FAR + 1)| == 264
  {
    EmptyFileIsOwned(n);
    NeededPast();
    var v := EmptyFile(n);
    assert Ptr(v, Indir2(2)) == 0;
    hide MissingFor, MapNeeds, EmptyFile, Ptr, Owns, Writable, FreeBlocks, Needed;
    NeededIs(v, 2, FAR + 1);
    NeededIs(v, 2, FAR);
    MapNeedsSize(v, 2, 0, FAR + 1);
  }

  function Past(): seq<byte> {
    seq<byte>(FAR + 1, i => 7)
  }

  /** A write of 268289 bytes to the new file: with 264 or 265 free blocks the last byte is
      not put. */
  method WritePast(n: nat) returns (vol: Volume, r: int, ghost put: nat)
    requires 269 <= n <= BITS_PER_BLK
    ensures fresh(vol) && vol.Valid() && |vol.inodes| == 16 && Grows(EmptyFile(n), vol.View(), vol.owner, 2)
    ensures Written(EmptyFile(n), vol.View(), 2, 0, Past(), r, put) && r == FAR + 1
    ensures put == if n < 271 then FAR else FAR + 1
    ensures vol.inodes[2].mode.Regular? && vol.inodes[2].size == FAR
  {
    EmptyFileIsOwned(n);
    NeedsPast(n);
    SampleIs(NewFile(), Blank(n), 5);
    ghost var v := EmptyFile(n);
    assert |v.inodes| == 16 && v.inodes[2] == NewFile();
    hide Owns, Ptr, Writable, MissingFor, MapNeeds, Grows, Extends, OthersKeep, FilledUp, Stops, Wrote, Backed;
    hide FreeInodesEmpty, FreeBlocks, Sample, Blank, EmptyFile;
    vol := new Volume(Sample(NewFile(), Blank(n), 5), EMPTY_OWNER);
    var ok;
    r, ok, put := vol.FsWrite(2, Past(), 0);
    StillAFile(v, vol.View(), vol.owner, 2, 0);
    StopsBelowIff(v, vol.View(), EMPTY_OWNER, vol.owner, 2, 0, Past(), r, put);
    CountIff(v, vol.View(), EMPTY_OWNER, vol.owner, 2, 0, Past(), r, put);
  }

  /** It is complete and says so, but leaves the size at 268288: reading the same range
      gives nothing. */
  method SizeLeftBehind() returns (r: int, ghost put: nat, out: seq<byte>, size: int)
    ensures r == put == FAR + 1 && out == [] && size == FAR
  {
    hide Written, Grows;
    var vol;
    vol, r, put := WritePast(300);
    size := vol.inodes[2].size;
    var count, read;
    out, count, read := vol.FsRead(2, FAR + 1, 0);
  }

  /** With 264 free blocks it says that all bytes were written, and the last was not. */
  method CountTooHigh() returns (r: int, ghost put: nat)
    ensures r == FAR + 1 && put == FAR
  {
    var vol;
    vol, r, put := WritePast(269);
  }

  lemma CountedPast()
    ensures FarCount(792576 - FAR, 0) == 262144
  {
  }

  /** For FAR bytes there are blocks enough, for one more there are not. */
  lemma EnoughForFar()
    ensures var v := EmptyFile(269); |FreeBlocks(v.blockMap)| == 264 && |MapNeeds(v, 2, 0, 792576)| == 264
    ensures var v := EmptyFile(269); |MissingFor(v, 2, 0, FAR)| == 263 && |MissingFor(v, 2, 0, FAR + 1)| == 266
  {
    var v := EmptyFile(269);
    EmptyFileIsOwned(269);
    NeedsPast(269);
    assert MapNeeds(v, 2, 0, FAR + 1) == MapNeeds(v, 2, 0, 792576);
    hide MissingFor, MapNeeds, EmptyFile, Ptr, Owns, Writable, FreeBlocks, Needed;
    NeededPast();
    NeededIs(v, 2, FAR);
  }

  lemma CountsTooMuch(w: Vol, owner: Owner, data: seq<byte>, r: int, put: nat)
    requires Owns(w, owner) && Grows(EmptyFile(269), w, owner, 2) && |w.inodes| == 16 && |data| == 792576
    requires |EmptyFile(269).inodes| == 16 && EmptyFile(269).inodes[2] == NewFile()
    requires Written(EmptyFile(269), w, 2, 0, data, r, put)
    ensures put == FAR && r == 530432 == w.inodes[2].size
  {
    var v := EmptyFile(269);
    EmptyFileIsOwned(269);
    EnoughForFar();
    CountedPast();
    assert NewFile().size == 0;
    hide Owns, Ptr, Writable, MissingFor, MapNeeds, Grows, FreeBlocks, EmptyFile, Written, FarCount, NewFile;
    StopsBelowIff(v, w, EMPTY_OWNER, owner, 2, 0, data, r, put);
    WrittenCounts(v, w, 2, 0, data, r, put);
    PutIs(v, w, EMPTY_OWNER, owner, 2, 0, data, r, put);
    assert FAR <= put && !(FAR + 1 <= put);
    CountIff(v, w, EMPTY_OWNER, owner, 2, 0, data, r, put);
  }

  lemma WrittenCounts(v: Vol, w: Vol, i: nat, at: nat, data: seq<byte>, r: int, put: nat)
    requires i < |v.inodes| == |w.inodes| && Written(v, w, i, at, data, r, put)
    ensures put <= r <= |data|
  {
  }

  /** Of 792576 bytes it then says that 530432 were written, and makes that the size. */
  method SizeTooHigh() returns (r: int, size: int, ghost put: nat)
    ensures r == 530432 == size && put == FAR
  {
    EmptyFileIsOwned(269);
    SampleIs(NewFile(), Blank(269), 5);
    ghost var v := EmptyFile(269);
    assert |v.inodes| == 16 && v.inodes[2] == NewFile();
    hide Owns, Ptr, Writable, Grows, Extends, OthersKeep, Written, FreeInodesEmpty, Sample, Blank, EmptyFile;
    var vol := new Volume(Sample(NewFile(), Blank(269), 5), EMPTY_OWNER);
    var data, ok := seq<byte>(792576, i => 7), true;
    r, ok, put := vol.FsWrite(2, data, 0);
    CountsTooMuch(vol.View(), vol.owner, data, r, put);
    size := vol.inodes[2].size;
  }

  // ---- a block lost

  lemma OneMid(v: Vol, w: Vol)
    requires FilledUp(v, w, 2, 0, FAR + 1) && forall s: Slot :: s.i == 2 ==> Ptr(v, s) == 0
    ensures |Mids(w, 2)| == 1
  {
    assert UpTo(0, FAR + 1) == 263;
    assert Mid(2, 0) in Path(2, 262);
    PathThere(w, 2, 262, Mid(2, 0));
    forall a: nat | 0 < a < PTRS_PER_BLK ensures Ptr(w, Mid(2, a)) == 0 {
      if Ptr(w, Mid(2, a)) != 0 { MidInStretch(2, a, 0, 263); }
    }
    assert Mids(w, 2) == {Ptr(w, Mid(2, 0))};
  }

  /** Truncating the file after that write, there is a free block less than before it. */
  method BlockLost() returns (r: int, after: nat)
    ensures r == 0 && after == |FreeBlocks(EmptyFile(300).blockMap)| - 1
  {
    EmptyFileIsOwned(300);
    ghost var v := EmptyFile(300);
    hide Owns, Ptr, Grows, Writable, EmptyFile, Mids, FreeBlocks, Freed;
    hide FreeInodesEmpty, FilledUp, Stops, Wrote, Backed;
    var vol;
    ghost var put;
    vol, r, put := WritePast(300);
    ghost var w, o := vol.View(), vol.owner;
    OneMid(v, w);
    r := vol.FsTruncate(2, 0);
    FillAndTruncate(v, w, vol.blockMap, EMPTY_OWNER, o, 2);
    after := vol.NumFreeBlk();
  }

  // ---- an inode lost

  /** A name of one character, another for each k up to 32. */
  function Name(k: nat): string
    requires k <= 32
  {
    [(65 + k) as char]
  }

  lemma NameIs(k: nat)
    requires k <= 32
    ensures CString(Name(k)) && Name(k) != "/" && !P.TooLong(P.Tokens(Name(k), 0))
    ensures P.Components(Name(k)) == [Name(k)]
  {
    var s := Name(k);
    assert s[0] != '/' && P.Skip(s, 0) == 0 && P.End(s, 0) == P.End(s, 1) == 1 && s[0..1] == s;
    assert P.Tokens(s, 1) == [];
    assert P.Tokens(s, 0) == [s];
    assert P.Push([], s) == [s];
    assert P.Normal([], [s]) == P.Normal([s], []);
  }

  /** The root directory with files of the first k names, of inodes 2 to k + 1. */
  function Named(k: nat): seq<N.Dirent>
    requires k <= 32
  {
    seq(32, j requires 0 <= j < 32 => if j < k then N.Dirent(true, j + 2, Name(j)) else N.NO_ENTRY)
  }

  lemma {:induction false} NotNamed(de: seq<N.Dirent>, name: string)
    requires forall j :: 0 <= j < |de| && de[j].valid ==> de[j].name != name
    ensures N.Find(de, name) == 0
  {
    if de != [] { NotNamed(de[1..], name); }
  }

  /** The next name is not there, and the first free entry is the k-th. */
  lemma NamedNext(k: nat)
    requires k <= 32
    ensures N.Find(Named(k), Name(k)) == 0 && N.FirstFree(Named(k)) == k && (N.Full(Named(k)) <==> k == 32)
    ensures k < 32 ==> Named(k)[k := N.Dirent(true, k + 2, Name(k))] == Named(k + 1)
  {
    NotNamed(Named(k), Name(k));
    assert k < 32 ==> !Named(k)[k].valid;
  }

  /** The root directory's own path is empty, so a path of one name is in it. */
  lemma InRoot(t: N.Dirs, name: string)
    requires P.Components(name) == [name] && !P.TooLong(P.Tokens(name, 0)) && 1 in t && N.Find(t[1], name) == 0
    ensures N.Inode(t, 1, name) == ENOENT && N.Parent(t, 1, name) == 1 && N.Last(P.Components(name), "") == name
  {
  }

  /** A new volume with 48 inodes. */
  lemma FreshRoot()
    ensures Dirs(Fresh(1, 8, 48, 1)) == map[1 := Named(0)]
    ensures forall i :: 0 <= i < 48 ==> Fresh(1, 8, 48, 1).inodeMap[i] == (i < 2)
  {
    var v := Fresh(1, 8, 48, 1);
    assert v.inodes[1].mode.Directory? && forall i :: 0 <= i < 48 && i != 1 ==> v.inodes[i] == Cleared();
    assert DirBlock(v, 1) == Zeros();
    forall k | 0 <= k < 32 ensures EntryAt(Zeros(), k) == N.NO_ENTRY {
    }
    assert Entries(Zeros()) == Named(0);
  }

  /** The root directory and the inode map after k files were made there. */
  predicate Made(t: N.Dirs, m: seq<bool>, k: nat) {
    k <= 32 && t == map[1 := Named(k)] && |m| == 48 && forall i :: 0 <= i < 48 ==> m[i] == (i < k + 2)
  }

  lemma MadeNext(t: N.Dirs, m: seq<bool>, k: nat)
    requires Made(t, m, k)
    ensures CString(Name(k)) && Name(k) != "/" && 1 in t && FreeInodes(m) != {}
    ensures N.Inode(t, 1, Name(k)) == ENOENT && N.Parent(t, 1, Name(k)) == 1 && (N.Full(t[1]) <==> k == 32)
  {
    NameIs(k);
    NamedNext(k);
    InRoot(t, Name(k));
    assert k + 2 in FreeInodes(m);
  }

  /** The k-th entry and inode k + 2 are taken. */
  lemma MadeMore(t: N.Dirs, m: seq<bool>, k: nat, n: nat)
    requires Made(t, m, k) && k < 32 && n in FreeInodes(m) && forall j :: j in FreeInodes(m) ==> n <= j
    ensures 1 in t && N.FirstFree(t[1]) < |t[1]|
    ensures var e := N.Dirent(true, n, N.Last(P.Components(Name(k)), ""));
      Made(t[1 := t[1][N.FirstFree(t[1]) := e]], m[n := true], k + 1)
  {
    NameIs(k);
    NamedNext(k);
    InRoot(t, Name(k));
    assert k + 2 in FreeInodes(m);
  }

  /** The volume after k files were made in the root directory of a new one. */
  ghost predicate Has(vol: Volume, k: nat)
    reads vol
  {
    vol.Valid() && FreeInodesEmpty(vol.View()) && Tree(vol.View()) && Made(Dirs(vol.View()), vol.inodeMap, k)
  }

  method OneMore(vol: Volume, k: nat) returns (r: int)
    requires k <= 32 && Has(vol, k)
    modifies vol
    ensures k < 32 ==> r == 0 && Has(vol, k + 1)
    ensures k == 32 ==> r == ENOSPC && vol.inodeMap != old(vol.inodeMap)
  {
    ghost var t, m := Dirs(vol.View()), vol.inodeMap;
    assert |m| == 48;
    MadeNext(t, m, k);
    hide Owns, Ptr, FreeInodesEmpty, Tree, Dirs, Named, Name, FreeInodes;
    hide N.Full, N.FirstFree, N.Inode, N.Parent, N.Last, P.Components, CString, N.Linked, ByteAt, Made;
    var inum;
    r, inum := Mknod(vol, 1, Name(k), "");
    if k < 32 {
      MadeMore(t, m, k, inum);
    }
  }

  /** On a new volume, after files with 32 names in its root directory, making one more
      fails, and an inode is marked for it. */
  method InodeLost() returns (r: int, same: bool)
    ensures r == ENOSPC && !same
  {
    FreshIsOwned(1, 8, 48, 1);
    FreshRoot();
    hide Owns, Ptr, FreeInodesEmpty, Tree, Dirs, Named, Fresh;
    var vol := new Volume(Fresh(1, 8, 48, 1), map[1 := Direct(1, 0)]);
    var k := 0;
    while k < 32
      invariant 0 <= k <= 32 && Has(vol, k)
    {
      hide Has;
      r := OneMore(vol, k);
      k := k + 1;
    }
    var before := vol.inodeMap;
    r := OneMore(vol, 32);
    same := vol.inodeMap == before;
  }
}
