/** Names in pmeunier-project/fs.c: directories are blocks of entries, a path is looked up
    one component at a time, and mknod, unlink and rename change entries of one
    directory. */
module FsNames {
  import opened Errno
  import opened FsParse

  datatype Dirent = Dirent(valid: bool, inode: nat, name: string)

  const NO_ENTRY := Dirent(false, 0, "")

  /** The entries of every directory, by its inode; a file's inode is not in the map. */
  type Dirs = map<nat, seq<Dirent>>

  /** Entries in use name an inode, and inode 0 is none. */
  predicate Live(t: Dirs) {
    0 !in t && forall d, k :: d in t && 0 <= k < |t[d]| && t[d][k].valid ==> t[d][k].inode > 0
  }

  // ---- looking up

  function Find(de: seq<Dirent>, name: string): nat {
    if de == [] then 0
    else if de[0].valid && de[0].name == name then de[0].inode
    else Find(de[1..], name)
  }

  /** It is the first entry in use with the name that counts. */
  lemma {:induction false} FindFirst(de: seq<Dirent>, name: string, k: nat)
    requires k < |de| && de[k].valid && de[k].name == name
    requires forall j :: 0 <= j < k ==> !(de[j].valid && de[j].name == name)
    ensures Find(de, name) == de[k].inode
  {
    if k > 0 { FindFirst(de[1..], name, k - 1); }
  }

  method FindInDir(de: seq<Dirent>, name: string) returns (r: nat)
    ensures r == Find(de, name)
  {
    var i := 0;
    while i < |de|
      invariant 0 <= i <= |de| && Find(de, name) == Find(de[i..], name)
    {
      if de[i].valid && de[i].name == name {
        return de[i].inode;
      }
      assert de[i..][1..] == de[i + 1..];
      i := i + 1;
    }
    r := 0;
  }

  /** Where a list of components leads from inode i: an inode, or an error. */
  function Resolve(t: Dirs, i: nat, q: seq<string>): int
    decreases |q|
  {
    if q == [] then i
    else if i !in t then ENOTDIR
    else if Find(t[i], q[0]) == 0 then ENOENT
    else Resolve(t, Find(t[i], q[0]), q[1..])
  }

  lemma {:induction false} ResolveErrors(t: Dirs, i: nat, q: seq<string>)
    ensures Resolve(t, i, q) < 0 ==> Resolve(t, i, q) == ENOTDIR || Resolve(t, i, q) == ENOENT
    decreases |q|
  {
    if q != [] && i in t && Find(t[i], q[0]) != 0 { ResolveErrors(t, Find(t[i], q[0]), q[1..]); }
  }

  /** The inode of a path. */
  function Inode(t: Dirs, root: nat, path: string): int {
    if TooLong(Tokens(path, 0)) then ENOTDIR else Resolve(t, root, Components(path))
  }

  /** The inode of the directory that a path is in; the root's own directory is itself. */
  function Parent(t: Dirs, root: nat, path: string): int {
    if TooLong(Tokens(path, 0)) then ENOTDIR else Resolve(t, root, Front(Components(path)))
  }

  function Front(q: seq<string>): seq<string> {
    if q == [] then [] else q[..|q| - 1]
  }

  function Last(q: seq<string>, none: string): string {
    if q == [] then none else q[|q| - 1]
  }

  lemma {:induction false} ResolveSplit(t: Dirs, i: nat, p: seq<string>, q: seq<string>)
    ensures Resolve(t, i, p + q) == if Resolve(t, i, p) < 0 then Resolve(t, i, p) else Resolve(t, Resolve(t, i, p), q)
    decreases |p|
  {
    if p == [] {
      assert p + q == q;
    } else {
      assert (p + q)[1..] == p[1..] + q;
      if i in t && Find(t[i], p[0]) != 0 { ResolveSplit(t, Find(t[i], p[0]), p[1..], q); }
    }
  }

  lemma TooLongJoin(a: seq<string>, b: seq<string>)
    ensures TooLong(a + b) <==> TooLong(a) || TooLong(b)
  {
    var all := a + b;
    if TooLong(a) {
      var k :| 0 <= k < |a| && |a[k]| > FS_FILENAME_SIZE - 1;
      assert all[k] == a[k];
    }
    if TooLong(b) {
      var k :| 0 <= k < |b| && |b[k]| > FS_FILENAME_SIZE - 1;
      assert all[|a| + k] == b[k];
    }
  }

  /** A path that goes into x and out again leads where it leads without, whether there is
      an x or not, if only the name is not too long. */
  lemma InAndOut(t: Dirs, root: nat, p: string, x: string, up: string, q: string)
    requires up == UP && x != "" && SlashFree(x) && Ordinary(x) && |x| < FS_FILENAME_SIZE
    ensures Inode(t, root, Path(p, Path(x, Path(up, q)))) == Inode(t, root, Path(p, q))
    ensures Parent(t, root, Path(p, Path(x, Path(up, q)))) == Parent(t, root, Path(p, q))
  {
    var a, b := Tokens(p, 0), Tokens(q, 0);
    ComponentsUp(p, x, up, q);
    TokensOfUp(p, x, up, q);
    TokensJoined(p, q);
    hide Tokens, Components, Resolve, Path, SlashFree;
    TooLongJoin(a, b);
    TooLongJoin(a + [x, up], b);
    TooLongJoin(a, [x, up]);
    assert !TooLong([x, up]);
    hide TooLong;
    assert Inode(t, root, Path(p, Path(x, Path(up, q)))) == Inode(t, root, Path(p, q));
    assert Parent(t, root, Path(p, Path(x, Path(up, q)))) == Parent(t, root, Path(p, q));
  }

  /** One more component: the loop of a lookup goes on, or the whole lookup ends here. */
  lemma ResolveStep(t: Dirs, root: nat, q: seq<string>, i: nat)
    requires i < |q| && Resolve(t, root, q[..i]) >= 0
    ensures var r := Resolve(t, root, q[..i]);
      if r !in t then Resolve(t, root, q) == ENOTDIR
      else if Find(t[r], q[i]) == 0 then Resolve(t, root, q) == ENOENT
      else Resolve(t, root, q[..i + 1]) == Find(t[r], q[i])
  {
    assert q[..i] + [q[i]] == q[..i + 1] && q == q[..i + 1] + q[i + 1..];
    ResolveSplit(t, root, q[..i], [q[i]]);
    ResolveSplit(t, root, q[..i + 1], q[i + 1..]);
  }

  lemma ParentFound(t: Dirs, root: nat, p: seq<string>)
    requires Resolve(t, root, p) >= 0
    ensures Resolve(t, root, Front(p)) >= 0
  {
    if p != [] {
      assert p == Front(p) + [p[|p| - 1]];
      ResolveSplit(t, root, Front(p), [p[|p| - 1]]);
    }
  }

  /** The last component of a path, once its directory is found. */
  lemma LastStep(t: Dirs, root: nat, p: seq<string>, d: nat, stale: string)
    requires p != [] && Resolve(t, root, Front(p)) == d && d in t
    ensures Last(p, stale) == Last(p, "")
    ensures var n := Find(t[d], Last(p, stale)); Resolve(t, root, p) == if n == 0 then ENOENT else n
  {
    assert p == Front(p) + [Last(p, stale)];
    ResolveSplit(t, root, Front(p), [Last(p, stale)]);
  }

  lemma SomeComponent(t: Dirs, root: nat, p: seq<string>)
    ensures Resolve(t, root, p) < 0 ==> p != []
  {
  }

  lemma NoComponents()
    ensures Tokens("", 0) == [] && Tokens("/", 0) == []
  {
  }

  // ---- changing one directory

  /** t' is t but for the entries of directory d, where `name` now leads to n, 0 for
      nowhere. */
  ghost predicate Linked(t: Dirs, t': Dirs, d: nat, name: string, n: nat) {
    t'.Keys == t.Keys && d in t && (forall e :: e in t && e != d ==> t'[e] == t[e]) &&
    forall x :: Find(t'[d], x) == if x == name then n else Find(t[d], x)
  }

  /** How many components of q come before the first that is `name` in directory d. */
  function Hit(t: Dirs, i: nat, q: seq<string>, d: nat, name: string): (k: nat)
    ensures k <= |q|
    decreases |q|
  {
    if q == [] || (i == d && q[0] == name) then 0
    else if i !in t || Find(t[i], q[0]) == 0 then |q|
    else 1 + Hit(t, Find(t[i], q[0]), q[1..], d, name)
  }

  /** After the change the paths through `name` in d lead to the new file, or nowhere;
      every other path leads where it did. */
  lemma {:induction false} LinkResolves(t: Dirs, t': Dirs, d: nat, name: string, n: nat, i: nat, q: seq<string>)
    requires Linked(t, t', d, name, n) && n !in t
    ensures var k := Hit(t, i, q, d, name);
      Resolve(t', i, q) ==
      if k == |q| then Resolve(t, i, q) else if n == 0 then ENOENT else if k == |q| - 1 then n else ENOTDIR
    decreases |q|
  {
    if q != [] && !(i == d && q[0] == name) && i in t && Find(t[i], q[0]) != 0 {
      LinkResolves(t, t', d, name, n, Find(t[i], q[0]), q[1..]);
    }
  }

  /** A path to `name` in d comes to it at its end, if that name is nothing or a file. */
  lemma {:induction false} HitLast(t: Dirs, i: nat, p: seq<string>, d: nat)
    requires p != [] && Resolve(t, i, Front(p)) == d && d in t && Find(t[d], Last(p, "")) !in t
    requires Find(t[d], Last(p, "")) == Resolve(t, i, p) || Find(t[d], Last(p, "")) == 0
    ensures Hit(t, i, p, d, Last(p, "")) == |p| - 1
    decreases |p|
  {
    if |p| > 1 {
      assert Front(p)[1..] == Front(p[1..]) && Last(p[1..], "") == Last(p, "");
      HitLast(t, Find(t[i], p[0]), p[1..], d);
    }
  }

  lemma {:induction false} HitFront(t: Dirs, i: nat, p: seq<string>, d: nat, name: string)
    requires p != [] && Hit(t, i, p, d, name) == |p| - 1
    ensures Hit(t, i, Front(p), d, name) == |Front(p)|
    decreases |p|
  {
    if |p| > 1 {
      assert Front(p)[1..] == Front(p[1..]) && Front(p)[0] == p[0];
      HitFront(t, Find(t[i], p[0]), p[1..], d, name);
    }
  }

  /** Lookups that give the same everywhere make every path lead to the same. */
  lemma {:induction false} SameFinds(t: Dirs, t': Dirs, i: nat, q: seq<string>)
    requires t'.Keys == t.Keys && forall d, x :: d in t ==> Find(t'[d], x) == Find(t[d], x)
    ensures Resolve(t', i, q) == Resolve(t, i, q)
    decreases |q|
  {
    if q != [] && i in t && Find(t[i], q[0]) != 0 { SameFinds(t, t', Find(t[i], q[0]), q[1..]); }
  }

  /** A name that was nothing, made and then removed. */
  lemma LinkedBack(t: Dirs, t': Dirs, t'': Dirs, d: nat, name: string, n: nat)
    requires Linked(t, t', d, name, n) && Linked(t', t'', d, name, 0) && Find(t[d], name) == 0
    ensures forall i: nat, q :: Resolve(t'', i, q) == Resolve(t, i, q)
  {
    forall i: nat, q ensures Resolve(t'', i, q) == Resolve(t, i, q) {
      SameFinds(t, t'', i, q);
    }
  }

  // ---- mknod

  predicate Full(de: seq<Dirent>) {
    forall k :: 0 <= k < |de| ==> de[k].valid
  }

  /** The first entry that is not in use, or their number. */
  function FirstFree(de: seq<Dirent>): (k: nat)
    ensures k <= |de| && (k < |de| ==> !de[k].valid) && forall j :: 0 <= j < k ==> de[j].valid
  {
    if de == [] || !de[0].valid then 0 else 1 + FirstFree(de[1..])
  }

  method FindFreeDir(de: seq<Dirent>) returns (r: int)
    ensures r == if Full(de) then ENOSPC else FirstFree(de)
    ensures r >= 0 ==> r < |de| && !de[r].valid
  {
    var i := 0;
    while i < |de|
      invariant 0 <= i <= |de| && forall k :: 0 <= k < i ==> de[k].valid
    {
      if !de[i].valid {
        return i;
      }
      i := i + 1;
    }
    r := ENOSPC;
    assert Full(de);
  }

  lemma {:induction false} FindAdded(de: seq<Dirent>, k: nat, n: nat, name: string, x: string)
    requires k < |de| && !de[k].valid && Find(de, name) == 0
    requires forall j :: 0 <= j < |de| && de[j].valid ==> de[j].inode > 0
    ensures Find(de[k := Dirent(true, n, name)], x) == if x == name then n else Find(de, x)
  {
    var de' := de[k := Dirent(true, n, name)];
    if k == 0 {
      assert de'[1..] == de[1..];
    } else {
      assert de'[1..] == de[1..][k - 1 := Dirent(true, n, name)];
      FindAdded(de[1..], k - 1, n, name, x);
    }
  }

  /** An entry added by mknod: the path leads to the new inode. */
  lemma CreatedPaths(t: Dirs, t': Dirs, root: nat, d: nat, p: seq<string>, k: nat, n: nat, stale: string)
    requires Live(t) && n > 0 && n !in t && d in t
    requires Resolve(t, root, Front(p)) == d && Resolve(t, root, p) < 0
    requires k < |t[d]| && !t[d][k].valid && t' == t[d := t[d][k := Dirent(true, n, Last(p, stale))]]
    ensures Live(t') && Linked(t, t', d, Last(p, stale), n) && Resolve(t', root, p) == n
    ensures Resolve(t', root, Front(p)) == d && Find(t[d], Last(p, stale)) == 0
  {
    var name := Last(p, stale);
    assert p != [];
    LastStep(t, root, p, d, stale);
    hide Resolve, Hit, Last, Front;
    assert Find(t[d], name) == 0;
    forall x ensures Find(t'[d], x) == if x == name then n else Find(t[d], x) {
      FindAdded(t[d], k, n, name, x);
    }
    HitLast(t, root, p, d);
    HitFront(t, root, p, d, name);
    LinkResolves(t, t', d, name, n, root, p);
    LinkResolves(t, t', d, name, n, root, Front(p));
  }

  // ---- unlink

  function Without(e: Dirent, name: string): Dirent {
    if e.valid && e.name == name then NO_ENTRY else e
  }

  function Removed(de: seq<Dirent>, name: string): (r: seq<Dirent>)
    ensures |r| == |de| && forall k :: 0 <= k < |de| ==> r[k] == Without(de[k], name)
  {
    if de == [] then [] else [Without(de[0], name)] + Removed(de[1..], name)
  }

  lemma {:induction false} FindRemoved(de: seq<Dirent>, name: string, x: string)
    ensures Find(Removed(de, name), x) == if x == name then 0 else Find(de, x)
  {
    if de != [] {
      assert Removed(de, name)[1..] == Removed(de[1..], name);
      FindRemoved(de[1..], name, x);
    }
  }

  /** The entry of a file removed by unlink: its path leads nowhere. */
  lemma RemovedPaths(t: Dirs, t': Dirs, root: nat, d: nat, p: seq<string>, stale: string)
    requires Live(t) && d in t && Resolve(t, root, Front(p)) == d
    requires Resolve(t, root, p) >= 0 && Resolve(t, root, p) !in t
    requires t' == t[d := Removed(t[d], Last(p, stale))]
    ensures Live(t') && Linked(t, t', d, Last(p, stale), 0)
    ensures p != [] ==> Resolve(t', root, p) == ENOENT
  {
    var name := Last(p, stale);
    forall x ensures Find(t'[d], x) == if x == name then 0 else Find(t[d], x) {
      FindRemoved(t[d], name, x);
    }
    if p != [] {
      LastStep(t, root, p, d, stale);
      hide Resolve, Hit, Last, Front, Removed;
      HitLast(t, root, p, d);
      LinkResolves(t, t', d, name, 0, root, p);
    }
  }

  // ---- rename

  function Relabelled(e: Dirent, src: string, dst: string): Dirent {
    if e.valid && e.name == src then e.(name := dst) else e
  }

  function Renamed(de: seq<Dirent>, src: string, dst: string): (r: seq<Dirent>)
    ensures |r| == |de| && forall k :: 0 <= k < |de| ==> r[k] == Relabelled(de[k], src, dst)
  {
    if de == [] then [] else [Relabelled(de[0], src, dst)] + Renamed(de[1..], src, dst)
  }

  function Swap(x: string, a: string, b: string): string {
    if x == a then b else if x == b then a else x
  }

  lemma {:induction false} FindRenamed(de: seq<Dirent>, src: string, dst: string, x: string)
    requires Find(de, dst) == 0 && src != dst
    requires forall j :: 0 <= j < |de| && de[j].valid ==> de[j].inode > 0
    ensures Find(Renamed(de, src, dst), x) == Find(de, Swap(x, src, dst))
  {
    if de != [] {
      assert Renamed(de, src, dst)[1..] == Renamed(de[1..], src, dst);
      FindRenamed(de[1..], src, dst, x);
    }
  }

  /** The path that led, before, to where q leads now that in directory d the names src
      and dst have changed places. */
  function Before(t: Dirs, i: nat, q: seq<string>, d: nat, src: string, dst: string): (p: seq<string>)
    ensures |p| == |q|
    decreases |q|
  {
    if q == [] then []
    else
      var a := if i == d then Swap(q[0], src, dst) else q[0];
      [a] + if i in t && Find(t[i], a) != 0 then Before(t, Find(t[i], a), q[1..], d, src, dst) else q[1..]
  }

  /** Renaming relabels paths, whatever the shape of the tree, and does nothing else. */
  lemma {:induction false} RenameResolves(t: Dirs, t': Dirs, d: nat, src: string, dst: string, i: nat, q: seq<string>)
    requires t'.Keys == t.Keys && d in t && forall e :: e in t && e != d ==> t'[e] == t[e]
    requires forall x :: Find(t'[d], x) == Find(t[d], Swap(x, src, dst))
    ensures Resolve(t', i, q) == Resolve(t, i, Before(t, i, q, d, src, dst))
    decreases |q|
  {
    if q != [] && i in t {
      var a := if i == d then Swap(q[0], src, dst) else q[0];
      if Find(t[i], a) != 0 { RenameResolves(t, t', d, src, dst, Find(t[i], a), q[1..]); }
    }
  }

  /** Along a path that does not come to either name in d earlier, the new name stands
      where the old one stood. */
  lemma {:induction false} BeforeLast(t: Dirs, i: nat, p: seq<string>, d: nat, src: string, dst: string)
    requires Resolve(t, i, p) == d && Hit(t, i, p, d, src) == |p| == Hit(t, i, p, d, dst)
    ensures Before(t, i, p + [dst], d, src, dst) == p + [src]
    ensures src != dst ==> Before(t, i, p + [src], d, src, dst) == p + [dst]
    decreases |p|
  {
    if p == [] {
      assert p + [dst] == [dst] && p + [src] == [src];
    } else {
      assert (p + [dst])[1..] == p[1..] + [dst] && (p + [src])[1..] == p[1..] + [src];
      BeforeLast(t, Find(t[i], p[0]), p[1..], d, src, dst);
    }
  }

  lemma RenamedLive(t: Dirs, d: nat, src: string, dst: string)
    requires Live(t) && d in t
    ensures Live(t[d := Renamed(t[d], src, dst)])
  {
  }

  /** An entry renamed: every path is relabelled. */
  lemma RenamedPaths(t: Dirs, t': Dirs, root: nat, d: nat, p: seq<string>, q: seq<string>, stale: string)
    requires Live(t) && d in t && Resolve(t, root, Front(p)) == d == Resolve(t, root, Front(q))
    requires Resolve(t, root, p) >= 0 > Resolve(t, root, q)
    requires t' == t[d := Renamed(t[d], Last(p, stale), Last(q, stale))]
    ensures Live(t')
    ensures p != [] ==> forall z ::
      Resolve(t', root, z) == Resolve(t, root, Before(t, root, z, d, Last(p, stale), Last(q, stale)))
  {
    var src, dst := Last(p, stale), Last(q, stale);
    RenamedLive(t, d, src, dst);
    assert forall j :: 0 <= j < |t[d]| && t[d][j].valid ==> t[d][j].inode > 0;
    LastStep(t, root, q, d, stale);
    if p != [] {
      LastStep(t, root, p, d, stale);
      hide Resolve, Last, Front, Find, Before, Live, Renamed;
      forall x ensures Find(t'[d], x) == Find(t[d], Swap(x, src, dst)) {
        FindRenamed(t[d], src, dst, x);
      }
      forall z ensures Resolve(t', root, z) == Resolve(t, root, Before(t, root, z, d, src, dst)) {
        RenameResolves(t, t', d, src, dst, root, z);
      }
    }
  }
}
