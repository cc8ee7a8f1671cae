/** mknod, unlink and rename of pmeunier-project/fs.c by path, on a volume: its directories
    are read from their blocks, and the paths are looked up in them. */
module FsPaths {
  import opened Errno
  import opened FsModel
  import opened FsEffects
  import opened FsTruncation
  import opened FsSteps
  import opened FsDirectory
  import opened FsVolume
  import N = FsNames
  import P = FsParse

  /** The directories of a volume, as their blocks have them. */
  function Dirs(v: Vol): N.Dirs {
    map i: nat | i < |v.inodes| && v.inodes[i].mode.Directory? :: Entries(DirBlock(v, i))
  }

  /** Every directory has its block, and every entry in use an inode of the map's range. */
  ghost predicate Tree(v: Vol) {
    N.Live(Dirs(v)) && Within(Dirs(v), |v.inodeMap|) &&
    forall i: nat :: i < |v.inodes| && v.inodes[i].mode.Directory? ==> Ptr(v, Direct(i, 0)) != 0
  }

  predicate Within(t: N.Dirs, n: nat) {
    forall d, k :: d in t && 0 <= k < |t[d]| && t[d][k].valid ==> t[d][k].inode < n
  }

  // ---- the directories of a changed volume

  /** A new block for one directory. */
  lemma DirsChanged(u: Vol, w: Vol, owner: Owner, parent: nat, x: Block)
    requires Owns(u, owner) && Tree(u) && parent in Dirs(u) && |w.inodes| == |u.inodes|
    requires forall i :: 0 <= i < |u.inodes| ==> (w.inodes[i].mode.Directory? <==> u.inodes[i].mode.Directory?)
    requires forall i :: i in Dirs(u) ==> Ptr(w, Direct(i, 0)) == Ptr(u, Direct(i, 0))
    requires Ptr(u, Direct(parent, 0)) < |u.disk| && w.disk == u.disk[Ptr(u, Direct(parent, 0)) := x]
    ensures Dirs(w) == Dirs(u)[parent := Entries(x)]
    ensures forall i: nat :: i < |w.inodes| && w.inodes[i].mode.Directory? ==> Ptr(w, Direct(i, 0)) != 0
  {
    forall i | i in Dirs(u) ensures DirBlock(w, i) == if i == parent then x else DirBlock(u, i) {
      MidHeld(u, owner, Direct(i, 0));
      if i != parent { OwnsDistinct(u, owner, Direct(i, 0), Direct(parent, 0)); }
    }
  }

  /** Directories that keep their blocks keep their entries. */
  lemma DirsKept(u: Vol, w: Vol)
    requires |w.inodes| == |u.inodes| && |w.inodeMap| == |u.inodeMap|
    requires forall i :: 0 <= i < |u.inodes| ==> (w.inodes[i].mode.Directory? <==> u.inodes[i].mode.Directory?)
    requires forall d :: d in Dirs(u) ==>
      Ptr(w, Direct(d, 0)) == Ptr(u, Direct(d, 0)) && DirBlock(w, d) == DirBlock(u, d)
    ensures Dirs(w) == Dirs(u) && (Tree(u) ==> Tree(w))
  {
    hide DirBlock, Entries, Ptr;
    assert Dirs(w) == Dirs(u);
  }

  /** Writing a file changes no name. */
  lemma WritesKeepNames(u: Vol, w: Vol, owner: Owner, owner': Owner, i: nat)
    requires Owns(u, owner) && Tree(u) && i < |u.inodes| && !u.inodes[i].mode.Directory?
    requires Grows(u, w, owner', i) && OthersKeep(u, w, i, 0) && Extends(u, Resize(w, i, u.inodes[i].size), owner', i)
    ensures Dirs(w) == Dirs(u) && Tree(w)
  {
    forall d | d in Dirs(u) ensures Ptr(w, Direct(d, 0)) == Ptr(u, Direct(d, 0)) && DirBlock(w, d) == DirBlock(u, d) {
      BytesOfDir(u, w, owner, i, d);
    }
    assert forall d: nat :: d < |u.inodes| ==> (w.inodes[d].mode == u.inodes[d].mode);
    hide Grows, OthersKeep, Extends, Owns, Tree;
    DirsKept(u, w);
  }

  /** The bytes of a directory are those of its block. */
  lemma BytesOfDir(u: Vol, w: Vol, owner: Owner, i: nat, d: nat)
    requires Owns(u, owner) && OthersKeep(u, w, i, 0) && |w.disk| == |u.disk| && d != i
    requires Ptr(u, Direct(d, 0)) != 0 && Ptr(w, Direct(d, 0)) == Ptr(u, Direct(d, 0))
    ensures DirBlock(w, d) == DirBlock(u, d)
  {
    MidHeld(u, owner, Direct(d, 0));
    hide Owns, Ptr;
    forall p: nat | p < BLOCK_SIZE ensures DirBlock(w, d)[p] == DirBlock(u, d)[p] {
      assert Leaf(d, p / BLOCK_SIZE) == Direct(d, 0);
      assert ByteAt(w, d, p) == ByteAt(u, d, p);
    }
  }

  lemma {:induction false} ResolveWithin(t: N.Dirs, i: nat, q: seq<string>, n: nat)
    requires Within(t, n) && i < n
    ensures N.Resolve(t, i, q) < n
    decreases |q|
  {
    if q != [] && i in t && N.Find(t[i], q[0]) != 0 {
      FindWithin(t[i], q[0], n);
      ResolveWithin(t, N.Find(t[i], q[0]), q[1..], n);
    }
  }

  lemma {:induction false} FindWithin(de: seq<N.Dirent>, name: string, n: nat)
    requires n > 0 && forall k :: 0 <= k < |de| && de[k].valid ==> de[k].inode < n
    ensures N.Find(de, name) < n
  {
    if de != [] { FindWithin(de[1..], name, n); }
  }

  // ---- the names of a path

  lemma {:induction false} TokensOk(path: string, i: nat)
    requires i <= |path| && CString(path)
    ensures forall k :: 0 <= k < |P.Tokens(path, i)| ==> CString(P.Tokens(path, i)[k])
    decreases |path| - i
  {
    var j := P.Skip(path, i);
    if j < |path| { TokensOk(path, P.End(path, j)); }
  }

  lemma {:induction false} NormalOk(stack: seq<string>, tokens: seq<string>)
    requires forall k :: 0 <= k < |stack| ==> NameOk(stack[k])
    requires forall k :: 0 <= k < |tokens| ==> NameOk(tokens[k])
    ensures forall k :: 0 <= k < |P.Normal(stack, tokens)| ==> NameOk(P.Normal(stack, tokens)[k])
    decreases |tokens|
  {
    if tokens != [] { NormalOk(P.Push(stack, tokens[0]), tokens[1..]); }
  }

  lemma LastOk(path: string, stale: string)
    requires CString(path) && !P.TooLong(P.Tokens(path, 0)) && P.Components(path) != []
    ensures NameOk(N.Last(P.Components(path), stale))
  {
    TokensOk(path, 0);
    NormalOk([], P.Tokens(path, 0));
  }

  // ---- looking up

  predicate HasBlock(v: Vol, i: nat) {
    i < |v.inodes| && |v.inodes[i].direct| > 0 && Ptr(v, Direct(i, 0)) == v.inodes[i].direct[0]
  }

  /** What a lookup finds is in range; it is a directory if it has entries, those of its
      first block. */
  lemma Found(v: Vol, owner: Owner, root: nat, q: seq<string>)
    requires Owns(v, owner) && Tree(v) && root < |v.inodeMap|
    ensures var r := N.Resolve(Dirs(v), root, q);
      r >= 0 ==> r < |v.inodeMap| && r < |v.inodes| && (r in Dirs(v) <==> v.inodes[r].mode.Directory?)
    ensures var r := N.Resolve(Dirs(v), root, q);
      r in Dirs(v) ==> 0 < Ptr(v, Direct(r, 0)) < |v.disk| && HasBlock(v, r) && Dirs(v)[r] == Entries(DirBlock(v, r))
  {
    ResolveWithin(Dirs(v), root, q, |v.inodeMap|);
    var r := N.Resolve(Dirs(v), root, q);
    if r in Dirs(v) { MidHeld(v, owner, Direct(r, 0)); }
  }

  /** The loop of translate and translate_1 over the first n names. */
  method Walk(vol: Volume, root: nat, names: seq<string>, n: nat) returns (r: int)
    requires vol.Valid() && Tree(vol.View()) && root < |vol.inodeMap| && n <= |names|
    ensures r == N.Resolve(Dirs(vol.View()), root, names[..n])
  {
    hide Owns, Dirs, Tree, Ptr, Entries, N.Find;
    ghost var t := Dirs(vol.View());
    r := root;
    var i := 0;
    while i < n
      invariant 0 <= i <= n && 0 <= r && r == N.Resolve(t, root, names[..i])
    {
      assert names[..n][..i] == names[..i] && names[..n][..i + 1] == names[..i + 1];
      N.ResolveStep(t, root, names[..n], i);
      Found(vol.View(), vol.owner, root, names[..i]);
      if !vol.inodes[r].mode.Directory? {
        return ENOTDIR;
      }
      var next := N.FindInDir(Entries(vol.disk[vol.inodes[r].direct[0]]), names[i]);
      if next == 0 {
        return ENOENT;
      }
      r := next;
      i := i + 1;
    }
  }

  method Translate(vol: Volume, root: nat, path: string) returns (r: int)
    requires vol.Valid() && Tree(vol.View()) && root < |vol.inodeMap|
    ensures r == N.Inode(Dirs(vol.View()), root, path)
  {
    hide Owns, Dirs, Tree;
    N.NoComponents();
    if path == "/" || path == "" {
      return root;
    }
    var names, ok := P.ParseNames(path);
    if !ok {
      return ENOTDIR;
    }
    r := Walk(vol, root, names, |names|);
    assert names[..|names|] == names;
  }

  /** The buffer for the leaf name holds `stale` before, and keeps it if the path has no
      component. */
  method Translate1(vol: Volume, root: nat, path: string, stale: string) returns (r: int, leaf: string)
    requires vol.Valid() && Tree(vol.View()) && root < |vol.inodeMap|
    ensures r == N.Parent(Dirs(vol.View()), root, path)
    ensures r >= 0 ==> leaf == N.Last(P.Components(path), stale)
  {
    hide Owns, Dirs, Tree;
    N.NoComponents();
    leaf := stale;
    if path == "/" || path == "" {
      return root, stale;
    }
    var names, ok := P.ParseNames(path);
    if !ok {
      return ENOTDIR, stale;
    }
    if |names| == 0 {
      return root, stale;
    }
    r := Walk(vol, root, names, |names| - 1);
    leaf := names[|names| - 1];
  }

  // ---- mknod

  /** The new entry on disk is the only change of the directories. */
  lemma EntryMade(u: Vol, w: Vol, owner: Owner, d: nat, k: nat, n: nat, name: string)
    requires Owns(u, owner) && Tree(u) && FreeInodesEmpty(u) && d in Dirs(u) && n in FreeInodes(u.inodeMap)
    requires NameOk(name) && k < DIRENTS_PER_BLK && n < 0x1000_0000 && Ptr(u, Direct(d, 0)) < |u.disk|
    requires w.inodes == u.inodes[n := NewFile()] && |w.inodeMap| == |u.inodeMap| && forall s :: Ptr(w, s) == Ptr(u, s)
    requires w.disk == u.disk[Ptr(u, Direct(d, 0)) := StoreEntry(DirBlock(u, d), k, n, name)]
    ensures n !in Dirs(u) && Dirs(w) == Dirs(u)[d := Dirs(u)[d][k := N.Dirent(true, n, name)]]
    ensures forall i: nat :: i < |w.inodes| && w.inodes[i].mode.Directory? ==> Ptr(w, Direct(i, 0)) != 0
  {
    assert Empty(u.inodes[n]) && Ptr(u, Direct(n, 0)) == 0;
    assert n !in Dirs(u);
    hide Owns, FreeInodesEmpty, NameOk, Entries, StoreEntry;
    DirsChanged(u, w, owner, d, StoreEntry(DirBlock(u, d), k, n, name));
    StoreEntryIs(DirBlock(u, d), k, n, name);
  }

  /** It makes the new name. */
  lemma Created(u: Vol, w: Vol, owner: Owner, root: nat, d: nat, p: seq<string>, k: nat, n: nat, stale: string)
    requires Owns(u, owner) && Tree(u) && FreeInodesEmpty(u) && d in Dirs(u) && n in FreeInodes(u.inodeMap)
    requires N.Resolve(Dirs(u), root, N.Front(p)) == d && N.Resolve(Dirs(u), root, p) < 0
    requires NameOk(N.Last(p, stale)) && k < DIRENTS_PER_BLK && n < 0x1000_0000
    requires !Entries(DirBlock(u, d))[k].valid && Ptr(u, Direct(d, 0)) < |u.disk|
    requires w.inodes == u.inodes[n := NewFile()] && |w.inodeMap| == |u.inodeMap| && forall s :: Ptr(w, s) == Ptr(u, s)
    requires w.disk == u.disk[Ptr(u, Direct(d, 0)) := StoreEntry(DirBlock(u, d), k, n, N.Last(p, stale))]
    ensures Tree(w) && N.Linked(Dirs(u), Dirs(w), d, N.Last(p, stale), n) && N.Resolve(Dirs(w), root, p) == n
    ensures Dirs(w) == Dirs(u)[d := Dirs(u)[d][k := N.Dirent(true, n, N.Last(p, stale))]]
    ensures N.Resolve(Dirs(w), root, N.Front(p)) == d && N.Find(Dirs(u)[d], N.Last(p, stale)) == 0
  {
    EntryMade(u, w, owner, d, k, n, N.Last(p, stale));
    assert !Dirs(u)[d][k].valid && k < |Dirs(u)[d]|;
    hide Owns, FreeInodesEmpty, NameOk, Entries, StoreEntry, DirBlock, Ptr, N.Resolve, N.Find, N.Last, N.Front;
    N.CreatedPaths(Dirs(u), Dirs(w), root, d, p, k, n, stale);
    assert Within(Dirs(w), |w.inodeMap|);
    assert Tree(w);
    hide Dirs, Tree, N.Linked, N.Live, Within;
  }

  /** fs_mknod.  The path leads to the new, empty file, of the lowest free inode; only its
      name is new, in the first free entry, and no file has changed.  A full directory costs
      an inode. */
  method Mknod(vol: Volume, root: nat, path: string, stale: string) returns (r: int, inum: nat)
    requires vol.Valid() && FreeInodesEmpty(vol.View()) && Tree(vol.View()) && CString(path) && root < |vol.inodeMap|
    modifies vol
    ensures vol.Valid() && FreeInodesEmpty(vol.View()) && Tree(vol.View()) && |vol.inodeMap| == old(|vol.inodeMap|)
    ensures var t := old(Dirs(vol.View())); var d := N.Parent(t, root, path);
      r == if path == "/" then EINVAL
           else if N.Inode(t, root, path) >= 0 then EEXIST
           else if d < 0 then d
           else if d !in t then ENOTDIR
           else if N.Full(t[d]) || FreeInodes(old(vol.inodeMap)) == {} then ENOSPC
           else 0
    ensures r != 0 ==> Dirs(vol.View()) == old(Dirs(vol.View()))
    ensures r == 0 ==> N.Inode(Dirs(vol.View()), root, path) == inum < |vol.inodes|
    ensures r == 0 ==> inum < old(|vol.inodes|) && vol.inodes == old(vol.inodes)[inum := NewFile()]
    ensures r == 0 ==> vol.inodes[inum].mode.Regular? && vol.inodes[inum].size == 0 && Empty(vol.inodes[inum])
    ensures r == 0 ==>
      N.Linked(old(Dirs(vol.View())), Dirs(vol.View()), N.Parent(old(Dirs(vol.View())), root, path),
               N.Last(P.Components(path), stale), inum)
    ensures r == 0 ==>
      var t := old(Dirs(vol.View())); var d := N.Parent(t, root, path);
      Dirs(vol.View()) == t[d := t[d][N.FirstFree(t[d]) := N.Dirent(true, inum, N.Last(P.Components(path), stale))]]
    ensures r == 0 ==>
      var t := old(Dirs(vol.View())); var d := N.Parent(t, root, path);
      N.Parent(Dirs(vol.View()), root, path) == d && N.Find(t[d], N.Last(P.Components(path), stale)) == 0
    ensures r == 0 ==> inum in FreeInodes(old(vol.inodeMap)) && vol.inodeMap == old(vol.inodeMap)[inum := true]
    ensures r == 0 ==> forall j :: j in FreeInodes(old(vol.inodeMap)) ==> inum <= j
    ensures r == ENOSPC ==> (vol.inodeMap == old(vol.inodeMap) <==> FreeInodes(old(vol.inodeMap)) == {})
    ensures r != 0 && r != ENOSPC ==> vol.View() == old(vol.View())
    ensures r != 0 ==> vol.inodes == old(vol.inodes) && vol.disk == old(vol.disk) && vol.OnDisk() == old(vol.OnDisk())
    ensures forall j: nat, p: nat :: j !in old(Dirs(vol.View())) ==>
      ByteAt(vol.View(), j, p) == old(ByteAt(vol.View(), j, p))
    ensures vol.blockMap == old(vol.blockMap)
    ensures r == 0 ==> vol.diskBlockMap == vol.blockMap && vol.diskInodeMap == vol.inodeMap
    ensures r == 0 ==> (old(vol.InodesSynced()) ==> vol.InodesSynced())
  {
    hide Owns, ByteAt, Ptr, Dirs, Tree, FreeInodesEmpty, DirBlock, Entries, FreeInodes, StoreEntry, NameOk, CString;
    hide N.Full, N.Resolve, N.Linked, N.Find, P.Tokens, P.Normal, N.FirstFree, N.Last, N.Front, N.Live, Within;
    ghost var u, p := vol.View(), P.Components(path);
    inum := 0;
    if path == "/" {
      return EINVAL, 0;
    }
    var found := Translate(vol, root, path);
    var parent, name := Translate1(vol, root, path, stale);
    if found >= 0 {
      return EEXIST, 0;
    }
    if parent < 0 {
      N.ResolveErrors(Dirs(u), root, N.Front(p));
      return parent, 0;
    }
    MapSize(u, vol.owner);
    Found(u, vol.owner, root, N.Front(p));
    if !vol.inodes[parent].mode.Directory? {
      return ENOTDIR, 0;
    }
    N.SomeComponent(Dirs(u), root, p);
    LastOk(path, stale);
    var freed;
    r, inum, freed := vol.FsMknod(parent, name);
    if r < 0 {
      SameDirs(u, vol.View());
      return;
    }
    Created(u, vol.View(), old(vol.owner), root, parent, p, freed, inum, stale);
  }

  lemma MapSize(u: Vol, owner: Owner)
    requires Owns(u, owner)
    ensures |u.inodeMap| <= BITS_PER_BLK
  {
  }

  lemma SameDirs(u: Vol, w: Vol)
    requires u.disk == w.disk && u.inodes == w.inodes && |u.inodeMap| == |w.inodeMap|
    requires forall s :: Ptr(w, s) == Ptr(u, s)
    ensures Dirs(w) == Dirs(u) && (Tree(u) ==> Tree(w))
  {
    DirsKept(u, w);
  }

  // ---- unlink

  /** The entry gone from the disk takes the name away. */
  lemma Unlinked(u: Vol, w: Vol, owner: Owner, root: nat, d: nat, p: seq<string>, n: nat, stale: string)
    requires Owns(u, owner) && Tree(u) && d in Dirs(u) && n < |u.inodes| && n !in Dirs(u)
    requires N.Resolve(Dirs(u), root, N.Front(p)) == d && N.Resolve(Dirs(u), root, p) == n
    requires w.inodes == u.inodes[n := Cleared()] && |w.inodeMap| == |u.inodeMap|
    requires forall s: Slot :: Ptr(w, s) == if s.i == n then 0 else Ptr(u, s)
    requires Ptr(w, Direct(d, 0)) < |u.disk| && w.disk == u.disk[Ptr(w, Direct(d, 0)) := DirBlock(w, d)]
    requires Entries(DirBlock(w, d)) == N.Removed(Entries(DirBlock(u, d)), N.Last(p, stale))
    ensures Tree(w) && N.Linked(Dirs(u), Dirs(w), d, N.Last(p, stale), 0)
    ensures Dirs(w) == Dirs(u)[d := N.Removed(Dirs(u)[d], N.Last(p, stale))]
    ensures p != [] ==> N.Resolve(Dirs(w), root, p) == ENOENT
  {
    hide Owns, Entries, DirBlock, N.Resolve, N.Find, Ptr;
    assert forall i :: i in Dirs(u) ==> Ptr(w, Direct(i, 0)) == Ptr(u, Direct(i, 0));
    DirsChanged(u, w, owner, d, DirBlock(w, d));
    N.RemovedPaths(Dirs(u), Dirs(w), root, d, p, stale);
  }

  lemma TruncatedDirs(u: Vol, w: Vol, owner: Owner, i: nat)
    requires Owns(u, owner) && Tree(u) && i < |u.inodes| && i !in Dirs(u) && Truncated(u, w, i)
    ensures Dirs(w) == Dirs(u) && Tree(w) && w.inodeMap == u.inodeMap
    ensures forall j: nat, p: nat :: j != i ==> ByteAt(w, j, p) == ByteAt(u, j, p)
  {
    TruncateKeeps(u, w, owner, i);
    assert w.disk == u.disk && w.inodes == u.inodes[i := Emptied(u.inodes[i])] && w.inodeMap == u.inodeMap;
    hide Owns, Truncated, ByteAt, Freed, ClearsOnly, Ptr, Entries;
    DirsKept(u, w);
  }

  lemma GoneMeans(u: Vol, w: Vol, owner: Owner, i: nat)
    requires FileGone(u, w, owner, i)
    ensures w.inodes == u.inodes[i := Cleared()] && |w.inodeMap| == |u.inodeMap|
    ensures forall s: Slot :: Ptr(w, s) == if s.i == i then 0 else Ptr(u, s)
  {
  }

  /** fs_unlink.  The path leads nowhere, only that name is gone, the file itself is gone,
      and no other file has changed.  For a file that is not found the errors are those of fs_truncate, which
      is called first; its other error comes when the file is already emptied. */
  method Unlink(vol: Volume, root: nat, path: string, stale: string) returns (r: int)
    requires vol.Valid() && FreeInodesEmpty(vol.View()) && Tree(vol.View()) && root < |vol.inodeMap|
    modifies vol
    ensures vol.Valid() && FreeInodesEmpty(vol.View()) && Tree(vol.View()) && |vol.inodeMap| == old(|vol.inodeMap|)
    ensures var t := old(Dirs(vol.View()));
      r == if N.Inode(t, root, path) < 0 then N.Inode(t, root, path)
           else if N.Inode(t, root, path) in t then EISDIR
           else if N.Parent(t, root, path) !in t then ENOTDIR
           else 0
    ensures r != 0 ==> Dirs(vol.View()) == old(Dirs(vol.View()))
    ensures r == 0 && P.Components(path) != [] ==> N.Inode(Dirs(vol.View()), root, path) == ENOENT
    ensures r == 0 ==>
      N.Linked(old(Dirs(vol.View())), Dirs(vol.View()), N.Parent(old(Dirs(vol.View())), root, path),
               N.Last(P.Components(path), stale), 0)
    ensures r == 0 ==>
      var t := old(Dirs(vol.View())); var d := N.Parent(t, root, path);
      Dirs(vol.View()) == t[d := N.Removed(t[d], N.Last(P.Components(path), stale))]
    ensures r == 0 ==>
      FileGone(old(vol.View()), vol.View(), old(vol.owner), old(N.Inode(Dirs(vol.View()), root, path)))
    ensures r == ENOTDIR && old(N.Inode(Dirs(vol.View()), root, path)) >= 0 ==>
      var n := old(N.Inode(Dirs(vol.View()), root, path));
      n < old(|vol.inodes|) && Truncated(old(vol.View()), vol.View(), n)
    ensures r != 0 && (r != ENOTDIR || old(N.Inode(Dirs(vol.View()), root, path)) < 0) ==>
      vol.View() == old(vol.View()) && vol.OnDisk() == old(vol.OnDisk())
    ensures vol.owner == old(vol.owner)
    ensures forall j: nat, p: nat :: j !in old(Dirs(vol.View())) && j != old(N.Inode(Dirs(vol.View()), root, path)) ==>
      ByteAt(vol.View(), j, p) == old(ByteAt(vol.View(), j, p))
    ensures r == 0 ==> vol.diskBlockMap == vol.blockMap && vol.diskInodeMap == vol.inodeMap
    ensures r == 0 ==> (old(vol.InodesSynced()) ==> vol.InodesSynced())
  {
    hide Owns, ByteAt, Ptr, Dirs, Tree, FreeInodesEmpty, DirBlock, Entries, Truncated, Freed;
    hide N.Resolve, N.Linked, P.Tokens, P.Normal;
    ghost var u, p := vol.View(), P.Components(path);
    var inum := Translate(vol, root, path);
    var parent, name := Translate1(vol, root, path, stale);
    if inum < 0 {
      return inum;
    }
    Found(u, vol.owner, root, p);
    if vol.inodes[inum].mode.Directory? {
      return EISDIR;
    }
    N.ParentFound(Dirs(u), root, p);
    Found(u, vol.owner, root, N.Front(p));
    if !vol.inodes[parent].mode.Directory? {
      r := vol.FsTruncate(inum, 0);
      TruncatedDirs(u, vol.View(), vol.owner, inum);
      return ENOTDIR;
    }
    r := vol.FsUnlink(inum, parent, name);
    GoneMeans(u, vol.View(), vol.owner, inum);
    hide FileGone;
    Unlinked(u, vol.View(), vol.owner, root, parent, p, inum, stale);
  }

  // ---- rename

  /** The entry renamed on disk renames the name. */
  lemma Relabels(u: Vol, w: Vol, owner: Owner, root: nat, d: nat, p: seq<string>, q: seq<string>, stale: string)
    requires Owns(u, owner) && Tree(u) && d in Dirs(u)
    requires N.Resolve(Dirs(u), root, N.Front(p)) == d == N.Resolve(Dirs(u), root, N.Front(q))
    requires N.Resolve(Dirs(u), root, p) >= 0 > N.Resolve(Dirs(u), root, q)
    requires w.inodes == u.inodes && |w.inodeMap| == |u.inodeMap| && forall s :: Ptr(w, s) == Ptr(u, s)
    requires Ptr(w, Direct(d, 0)) < |u.disk| && w.disk == u.disk[Ptr(w, Direct(d, 0)) := DirBlock(w, d)]
    requires Entries(DirBlock(w, d)) == N.Renamed(Entries(DirBlock(u, d)), N.Last(p, stale), N.Last(q, stale))
    ensures Tree(w)
    ensures p != [] ==> forall z ::
      N.Resolve(Dirs(w), root, z) ==
      N.Resolve(Dirs(u), root, N.Before(Dirs(u), root, z, d, N.Last(p, stale), N.Last(q, stale)))
  {
    hide Owns, Entries, N.Resolve, N.Find, N.Before, Ptr;
    DirsChanged(u, w, owner, d, DirBlock(w, d));
    hide DirBlock;
    N.RenamedPaths(Dirs(u), Dirs(w), root, d, p, q, stale);
  }

  /** fs_rename.  Every path is relabelled, and no file has changed. */
  method Rename(vol: Volume, root: nat, src: string, dst: string, stale: string) returns (r: int)
    requires vol.Valid() && Tree(vol.View()) && CString(dst) && root < |vol.inodeMap|
    modifies vol
    ensures vol.Valid() && Tree(vol.View())
    ensures var t := old(Dirs(vol.View()));
      r == if N.Inode(t, root, src) < 0 then N.Inode(t, root, src)
           else if N.Inode(t, root, dst) >= 0 then EEXIST
           else if N.Parent(t, root, src) != N.Parent(t, root, dst) then EINVAL
           else if N.Parent(t, root, src) !in t then ENOTDIR
           else 0
    ensures r != 0 ==> vol.View() == old(vol.View())
    ensures vol.OnDisk() == old(vol.OnDisk())
    ensures r == 0 && P.Components(src) != [] ==> forall q ::
      N.Resolve(Dirs(vol.View()), root, q) == N.Resolve(old(Dirs(vol.View())), root,
        N.Before(old(Dirs(vol.View())), root, q, N.Parent(old(Dirs(vol.View())), root, src),
                 N.Last(P.Components(src), stale), N.Last(P.Components(dst), stale)))
    ensures vol.inodes == old(vol.inodes) && vol.blockMap == old(vol.blockMap) && vol.inodeMap == old(vol.inodeMap)
    ensures old(vol.Synced()) ==> vol.Synced()
    ensures forall j: nat, p: nat :: j !in old(Dirs(vol.View())) ==>
      ByteAt(vol.View(), j, p) == old(ByteAt(vol.View(), j, p))
  {
    hide Owns, ByteAt, Ptr, Dirs, Tree, DirBlock, Entries, NameOk, CString;
    hide N.Resolve, N.Before, P.Tokens, P.Normal;
    ghost var u, p, q := vol.View(), P.Components(src), P.Components(dst);
    var srcInode := Translate(vol, root, src);
    var dstInode := Translate(vol, root, dst);
    if srcInode < 0 {
      return srcInode;
    }
    if dstInode >= 0 {
      return EEXIST;
    }
    var parent, srcName := Translate1(vol, root, src, stale);
    var dstParent, dstName := Translate1(vol, root, dst, stale);
    if parent != dstParent {
      return EINVAL;
    }
    N.ParentFound(Dirs(u), root, p);
    if parent < 0 {
      return parent;
    }
    Found(u, vol.owner, root, N.Front(p));
    if !vol.inodes[parent].mode.Directory? {
      return ENOTDIR;
    }
    N.SomeComponent(Dirs(u), root, q);
    LastOk(dst, stale);
    vol.FsRename(parent, srcName, dstName);
    Relabels(u, vol.View(), vol.owner, root, parent, p, q, stale);
    r := 0;
  }
}
