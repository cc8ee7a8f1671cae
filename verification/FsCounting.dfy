/** How many free blocks a write needs: one for each slot on the way to its bytes that is
    still empty.  It puts all of them if and only if there are that many. */
module FsCounting {
  import opened Octets
  import opened FsModel
  import opened FsEffects
  import opened FsSteps

  /** The empty slots on the way to blocks lo to hi - 1 of file i. */
  function Missing(v: Vol, i: nat, lo: nat, hi: nat): set<Slot> {
    set k: nat, s: Slot | lo <= k < hi && s in Path(i, k) && Ptr(v, s) == 0 :: s
  }

  /** The empty slots on the way to the n bytes from position `at` on. */
  function MissingFor(v: Vol, i: nat, at: nat, n: nat): set<Slot> {
    Missing(v, i, at / BLOCK_SIZE, UpTo(at, n))
  }

  /** A block that is there has its index blocks. */
  lemma PathThere(w: Vol, i: nat, k: nat, s: Slot)
    requires Ptr(w, Leaf(i, k)) != 0 && s in Path(i, k)
    ensures Ptr(w, s) != 0
  {
    if N_DIRECT <= k {
      PtrIsEntry(w, Leaf(i, k));
      if N_DIRECT + PTRS_PER_BLK <= k { PtrIsEntry(w, Mid(i, (k - N_DIRECT - PTRS_PER_BLK) / PTRS_PER_BLK)); }
    }
  }

  /** Every slot that filled up took a block that was free. */
  lemma AllTaken(v: Vol, w: Vol, owner: Owner, i: nat, lo: nat, hi: nat)
    requires Owns(w, owner) && Grows(v, w, owner, i) && forall k :: lo <= k < hi ==> Ptr(w, Leaf(i, k)) != 0
    ensures |Missing(v, i, lo, hi)| <= |FreeBlocks(v.blockMap)|
  {
    var f := (s: Slot) => Ptr(w, s);
    forall s | s in Missing(v, i, lo, hi) ensures f(s) in FreeBlocks(v.blockMap) && Ptr(w, s) != 0 {
      var k: nat :| lo <= k < hi && s in Path(i, k);
      hide Path, Leaf;
      PathThere(w, i, k, s);
      assert FreeIn(v, Ptr(w, s));
    }
    forall s, t | s in Missing(v, i, lo, hi) && t in Missing(v, i, lo, hi) && f(s) == f(t) ensures s == t {
      if s != t { OwnsDistinct(w, owner, s, t); }
    }
    InjectSize(Missing(v, i, lo, hi), FreeBlocks(v.blockMap), f);
  }

  /** A slot that filled up before the write stopped is one of those it needed. */
  lemma FilledWasMissing(v: Vol, w: Vol, i: nat, at: nat, n: nat, put: nat, s: Slot)
    requires Gains(v, w, i, at / BLOCK_SIZE, UpTo(at, put)) && put < n && (put == 0 || (at + put) % BLOCK_SIZE == 0)
    requires Ptr(v, s) == 0 && Ptr(w, s) != 0
    ensures s in MissingFor(v, i, at, n)
  {
    assert InStretch(s, i, at / BLOCK_SIZE, UpTo(at, put));
    var k: nat :| at / BLOCK_SIZE <= k <= UpTo(at, put) && s in Path(i, k);
    assert UpTo(at, put) == (at + put) / BLOCK_SIZE < UpTo(at, n);
  }

  /** When the write stopped, all free blocks had gone to slots that it needed, and one
      more was still empty. */
  lemma NotEnough(v: Vol, w: Vol, owner: Owner, owner': Owner, i: nat, at: nat, n: nat, put: nat)
    requires Owns(v, owner) && Owns(w, owner') && Grows(v, w, owner', i) && FilledUp(v, w, i, at, put)
    requires put < n && Stops(w, i, at, put)
    ensures |MissingFor(v, i, at, n)| > |FreeBlocks(v.blockMap)|
  {
    var last, needed := Leaf(i, (at + put) / BLOCK_SIZE), MissingFor(v, i, at, n);
    var f := (b: nat) => if b in owner' then owner'[b] else last;
    assert last in Path(i, (at + put) / BLOCK_SIZE) && (at + put) / BLOCK_SIZE < UpTo(at, n) && last in needed;
    hide MissingFor, Path, Leaf, InStretch;
    forall b | b in FreeBlocks(v.blockMap) ensures f(b) in needed - {last} && b in owner' && Ptr(w, owner'[b]) == b {
      assert b !in FreeBlocks(w.blockMap);
      assert HeldBy(w, owner', i, b);
      var s := owner'[b];
      assert Ptr(v, s) != 0 ==> Holds(v, owner, s);
      FilledWasMissing(v, w, i, at, n, put, s);
    }
    InjectSize(FreeBlocks(v.blockMap), needed - {last}, f);
  }

  /** A write puts all its bytes if and only if there was a free block for every empty slot
      on the way to them. */
  lemma CompleteIff(v: Vol, w: Vol, owner: Owner, owner': Owner, i: nat, at: nat, n: nat, put: nat)
    requires Owns(v, owner) && Owns(w, owner') && Grows(v, w, owner', i) && FilledUp(v, w, i, at, put)
    requires put <= n && (put < n ==> Stops(w, i, at, put))
    ensures put == n <==> |MissingFor(v, i, at, n)| <= |FreeBlocks(v.blockMap)|
  {
    if put == n {
      AllTaken(v, w, owner', i, at / BLOCK_SIZE, UpTo(at, n));
    } else {
      NotEnough(v, w, owner, owner', i, at, n, put);
    }
  }

  // ---- what a write counts

  lemma UpToGrows(at: nat, n: nat, m: nat)
    requires n <= m
    ensures UpTo(at, n) <= UpTo(at, m)
  {
  }

  /** How much a write puts: the most for which there were free blocks enough before it. */
  lemma PutIs(v: Vol, w: Vol, owner: Owner, owner': Owner, i: nat, at: nat, data: seq<byte>, r: int, put: nat)
    requires Owns(v, owner) && Owns(w, owner') && Grows(v, w, owner', i) && i < |v.inodes| == |w.inodes|
    requires Written(v, w, i, at, data, r, put)
    ensures forall n: nat :: n <= |data| ==> (n <= put <==> |MissingFor(v, i, at, n)| <= |FreeBlocks(v.blockMap)|)
  {
    hide Owns, Grows, Wrote, Backed, Ptr, Gains;
    forall n: nat | n <= |data| ensures n <= put <==> |MissingFor(v, i, at, n)| <= |FreeBlocks(v.blockMap)| {
      if n <= put {
        UpToGrows(at, n, put);
        hide UpTo;
        AllTaken(v, w, owner', i, at / BLOCK_SIZE, UpTo(at, n));
      } else {
        hide FilledUp, Stops, UpTo;
        NotEnough(v, w, owner, owner', i, at, n, put);
      }
    }
  }

  /** What a write that goes on past FAR counts and leaves as the size: whole pieces, one
      more than it put if the disk filled up.  It counts just the bytes it put if and only if
      there were free blocks enough for all of them. */
  lemma CountIff(v: Vol, w: Vol, owner: Owner, owner': Owner, i: nat, at: nat, data: seq<byte>, r: int, put: nat)
    requires Owns(v, owner) && Owns(w, owner') && Grows(v, w, owner', i) && i < |v.inodes| == |w.inodes|
    requires Written(v, w, i, at, data, r, put) && at + r > FAR
    ensures at + put >= FAR && r == FAR - at + FarCount(at + |data| - FAR, at + put - FAR)
    ensures w.inodes[i].size == Max(v.inodes[i].size, FAR + |data| - r)
    ensures r == put <==> |MissingFor(v, i, at, |data|)| <= |FreeBlocks(v.blockMap)|
  {
    hide Owns, Grows, FilledUp, Stops, Wrote, Backed, MissingFor, FreeBlocks;
    CompleteIff(v, w, owner, owner', i, at, |data|, put);
    FarCountMore(at + |data| - FAR, at + put - FAR);
  }

  // ---- when the block map is written

  /** The empty slots on the way to the bytes below FAR, and, for a write that goes on
      past it, the double indirect block. */
  function MapNeeds(v: Vol, i: nat, at: nat, n: nat): set<Slot> {
    if at + n <= FAR then MissingFor(v, i, at, n)
    else Missing(v, i, at / BLOCK_SIZE, N_DIRECT + PTRS_PER_BLK) + (if Ptr(v, Indir2(i)) == 0 then {Indir2(i)} else {})
  }

  /** What is missing below FAR and the double indirect block are different slots. */
  lemma MapNeedsSize(v: Vol, i: nat, at: nat, n: nat)
    requires at <= FAR < at + n
    ensures |MapNeeds(v, i, at, n)| ==
      |MissingFor(v, i, at, FAR - at)| + if Ptr(v, Indir2(i)) == 0 then 1 else 0
  {
    assert UpTo(at, FAR - at) == N_DIRECT + PTRS_PER_BLK;
    assert Indir2(i) !in MissingFor(v, i, at, FAR - at);
  }

  /** With the disk full and no double indirect block, all free blocks went below FAR. */
  lemma StoppedAtFar(v: Vol, w: Vol, owner: Owner, owner': Owner, i: nat, at: nat)
    requires Owns(v, owner) && Owns(w, owner') && Grows(v, w, owner', i) && at <= FAR
    requires FilledUp(v, w, i, at, FAR - at) && FreeBlocks(w.blockMap) == {} && Ptr(w, Indir2(i)) == 0
    ensures |FreeBlocks(v.blockMap)| <= |MissingFor(v, i, at, FAR - at)| && Ptr(v, Indir2(i)) == 0
  {
    var f := (b: nat) => if b in owner' then owner'[b] else Indir2(i);
    assert UpTo(at, FAR - at) == N_DIRECT + PTRS_PER_BLK;
    forall b | b in FreeBlocks(v.blockMap) ensures f(b) in MissingFor(v, i, at, FAR - at) && Ptr(w, f(b)) == b {
      assert b !in FreeBlocks(w.blockMap);
      assert HeldBy(w, owner', i, b);
      var s := owner'[b];
      assert Ptr(v, s) != 0 ==> Holds(v, owner, s);
      FilledBelowFar(v, w, i, at, s);
    }
    InjectSize(FreeBlocks(v.blockMap), MissingFor(v, i, at, FAR - at), f);
  }

  lemma FilledBelowFar(v: Vol, w: Vol, i: nat, at: nat, s: Slot)
    requires at <= FAR && FilledUp(v, w, i, at, FAR - at) && Ptr(w, Indir2(i)) == 0
    requires Ptr(v, s) == 0 && Ptr(w, s) != 0
    ensures s in MissingFor(v, i, at, FAR - at)
  {
    var hi := N_DIRECT + PTRS_PER_BLK;
    assert UpTo(at, FAR - at) == hi;
    assert InStretch(s, i, at / BLOCK_SIZE, hi);
    var k: nat :| at / BLOCK_SIZE <= k <= hi && s in Path(i, k) && (IsLeaf(s) ==> k < hi);
    PtrIsEntry(w, Mid(i, 0));
    assert k < hi;
  }

  /** A write that went on past FAR found blocks for all that. */
  lemma WentOn(v: Vol, w: Vol, owner: Owner, i: nat, at: nat, put: nat, n: nat)
    requires Owns(w, owner) && Grows(v, w, owner, i) && FilledUp(v, w, i, at, put)
    requires at <= FAR <= at + put && at + n > FAR && Ptr(w, Indir2(i)) != 0
    ensures |MapNeeds(v, i, at, n)| <= |FreeBlocks(v.blockMap)|
  {
    var f, hi := (s: Slot) => Ptr(w, s), N_DIRECT + PTRS_PER_BLK;
    var needs := MapNeeds(v, i, at, n);
    assert at < FAR ==> hi <= UpTo(at, put);
    forall s | s in needs ensures f(s) in FreeBlocks(v.blockMap) && Ptr(w, s) != 0 {
      if s != Indir2(i) {
        var k: nat :| at / BLOCK_SIZE <= k < hi && s in Path(i, k) && Ptr(v, s) == 0;
        hide Path, Leaf;
        PathThere(w, i, k, s);
      }
      assert FreeIn(v, Ptr(w, s));
    }
    forall s, t | s in needs && t in needs && f(s) == f(t) ensures s == t {
      if s != t { OwnsDistinct(w, owner, s, t); }
    }
    InjectSize(needs, FreeBlocks(v.blockMap), f);
  }

  /** A write stops before the map is written if and only if the free blocks did not
      suffice for the slots below FAR and, if it goes on past it, the double indirect one. */
  lemma StopsBelowIff(v: Vol, w: Vol, owner: Owner, owner': Owner, i: nat, at: nat, data: seq<byte>, r: int, put: nat)
    requires Owns(v, owner) && Owns(w, owner') && Grows(v, w, owner', i) && i < |v.inodes| == |w.inodes|
    requires Written(v, w, i, at, data, r, put) && at <= FAR
    ensures r < |data| && at + r <= FAR <==> |MapNeeds(v, i, at, |data|)| > |FreeBlocks(v.blockMap)|
    ensures r < |data| && at + r <= FAR ==> FreeBlocks(w.blockMap) == {}
  {
    PtrIndirects(w, i);
    StopsFull(w, i, at, put);
    hide Owns, Grows, FilledUp, Stops, Wrote, Backed, MissingFor, FreeBlocks, Ptr, FarCount;
    if at + |data| <= FAR {
      CompleteIff(v, w, owner, owner', i, at, |data|, put);
    } else if at + r > FAR {
      hide MapNeeds;
      WentOn(v, w, owner', i, at, put, |data|);
    } else {
      hide MapNeeds;
      StoppedBelow(v, w, owner, owner', i, at, |data|, put);
    }
  }

  lemma StoppedBelow(v: Vol, w: Vol, owner: Owner, owner': Owner, i: nat, at: nat, n: nat, put: nat)
    requires Owns(v, owner) && Owns(w, owner') && Grows(v, w, owner', i) && FilledUp(v, w, i, at, put)
    requires put < n && at + put <= FAR < at + n && Stops(w, i, at, put) && Ptr(w, Indir2(i)) == 0
    ensures |MapNeeds(v, i, at, n)| > |FreeBlocks(v.blockMap)|
  {
    MapNeedsSize(v, i, at, n);
    StopsFull(w, i, at, put);
    hide Owns, Grows, FilledUp, Stops, MissingFor, FreeBlocks, Ptr, MapNeeds;
    if at + put < FAR {
      NotEnough(v, w, owner, owner', i, at, FAR - at, put);
    } else {
      StoppedAtFar(v, w, owner, owner', i, at);
    }
  }

  lemma StopsFull(w: Vol, i: nat, at: nat, put: nat)
    ensures Stops(w, i, at, put) ==> FreeBlocks(w.blockMap) == {}
  {
  }

  // ---- a new file

  /** The blocks that n bytes of a new file take, index blocks included. */
  function Needed(n: nat): nat {
    NeededBlocks(UpTo(0, n))
  }

  function NeededBlocks(h: nat): nat {
    h + (if h > N_DIRECT then 1 else 0) + (if h > N_DIRECT + PTRS_PER_BLK then 1 else 0) + MidsFor(h)
  }

  /** The level-1 index blocks among them. */
  function MidsFor(h: nat): nat {
    if h <= N_DIRECT + PTRS_PER_BLK then 0 else (h - N_DIRECT - PTRS_PER_BLK - 1) / PTRS_PER_BLK + 1
  }

  function FirstMids(i: nat, n: nat): set<Slot> {
    set a: nat | a < n :: Mid(i, a)
  }

  lemma {:induction false} FirstMidsSize(i: nat, n: nat)
    ensures |FirstMids(i, n)| == n
  {
    if n > 0 {
      FirstMidsSize(i, n - 1);
      assert FirstMids(i, n) == FirstMids(i, n - 1) + {Mid(i, n - 1)};
      assert Mid(i, n - 1) !in FirstMids(i, n - 1);
    }
  }

  /** The index blocks on the way to blocks 0 to h - 1. */
  function IndexFirst(i: nat, h: nat): set<Slot> {
    (if h > N_DIRECT then {Indir1(i)} else {}) + (if h > N_DIRECT + PTRS_PER_BLK then {Indir2(i)} else {}) +
    FirstMids(i, MidsFor(h))
  }

  lemma IndexFirstSize(i: nat, h: nat)
    ensures |Leaves(i, 0, h) + IndexFirst(i, h)| == NeededBlocks(h)
  {
    LeavesSize(i, 0, h);
    FirstMidsSize(i, MidsFor(h));
    var one: set<Slot> := if h > N_DIRECT then {Indir1(i)} else {};
    var two: set<Slot> := if h > N_DIRECT + PTRS_PER_BLK then {Indir2(i)} else {};
    assert IndexFirst(i, h) == one + two + FirstMids(i, MidsFor(h));
    assert one !! two && one + two !! FirstMids(i, MidsFor(h));
    assert Leaves(i, 0, h) !! one + two + FirstMids(i, MidsFor(h));
  }

  lemma OnPathFirst(i: nat, h: nat, s: Slot)
    ensures (exists k: nat :: k < h && s in Path(i, k)) <==> s in Leaves(i, 0, h) + IndexFirst(i, h)
    ensures s in Leaves(i, 0, h) + IndexFirst(i, h) ==> s.i == i
  {
    if s in IndexFirst(i, h) {
      if s == Indir1(i) {
        assert s in Path(i, N_DIRECT);
      } else if s == Indir2(i) {
        assert s in Path(i, N_DIRECT + PTRS_PER_BLK);
      } else {
        assert s in Path(i, N_DIRECT + PTRS_PER_BLK + PTRS_PER_BLK * s.a);
      }
    }
    if s in Leaves(i, 0, h) {
      var k: nat :| k < h && s == Leaf(i, k);
      assert s in Path(i, k);
    }
  }

  /** A new file needs a block for each of its blocks and of its index blocks. */
  lemma NeededIs(v: Vol, i: nat, n: nat)
    requires forall s: Slot :: s.i == i ==> Ptr(v, s) == 0
    ensures |MissingFor(v, i, 0, n)| == Needed(n)
  {
    var h := UpTo(0, n);
    IndexFirstSize(i, h);
    hide Path, Leaves, IndexFirst, Ptr, UpTo, NeededBlocks;
    forall s ensures s in Missing(v, i, 0, h) <==> s in Leaves(i, 0, h) + IndexFirst(i, h) {
      OnPathFirst(i, h, s);
    }
    assert Missing(v, i, 0, h) == Leaves(i, 0, h) + IndexFirst(i, h);
  }
}
