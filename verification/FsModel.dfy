/** The inode and block layer of pmeunier-project/fs.c on values: blocks, inodes, the
    two bitmaps, and the pointers that make files of them. */
module FsModel {
  import opened Octets

  const BLOCK_SIZE := 1024
  const N_DIRECT := 6
  const PTRS_PER_BLK := 256

  /** Each of the two maps is one block of bits. */
  const BITS_PER_BLK := 8192

  /** Bytes reached through the direct pointers, and through the single indirect block. */
  const DIR_SIZE := BLOCK_SIZE * N_DIRECT
  const INDIR1_SIZE := PTRS_PER_BLK * BLOCK_SIZE

  /** The first byte that only the double indirect block reaches. */
  const FAR := DIR_SIZE + INDIR1_SIZE

  type Block = b: seq<byte> | |b| == 1024 witness seq(1024, k => 0)

  /** A block of zeros. */
  function Zeros(): (b: Block)
    ensures forall k :: 0 <= k < BLOCK_SIZE ==> b[k] == 0
  {
    seq(BLOCK_SIZE, k requires 0 <= k < BLOCK_SIZE => 0)
  }

  // ---- block numbers in an index block: 32 bits, low byte first

  function PtrAt(b: Block, k: nat): nat
    requires k < PTRS_PER_BLK
  {
    b[4 * k] as int + 0x100 * b[4 * k + 1] as int + 0x1_0000 * b[4 * k + 2] as int + 0x100_0000 * b[4 * k + 3] as int
  }

  function SetPtr(b: Block, k: nat, p: nat): Block
    requires k < PTRS_PER_BLK && p < 0x8000_0000
  {
    b[4 * k := p % 256][4 * k + 1 := p / 0x100 % 256][4 * k + 2 := p / 0x1_0000 % 256][4 * k + 3 := p / 0x100_0000]
  }

  lemma SetPtrAt(b: Block, k: nat, p: nat, j: nat)
    requires k < PTRS_PER_BLK && p < 0x8000_0000 && j < PTRS_PER_BLK
    ensures PtrAt(SetPtr(b, k, p), j) == if j == k then p else PtrAt(b, j)
  {
    if j == k {
      var q := p / 0x100;
      var r := q / 0x100;
      assert p / 0x1_0000 == r && p / 0x100_0000 == r / 0x100;
    }
  }

  // ---- the volume

  datatype Mode = Unused | Directory | Regular

  datatype Inode = Inode(mode: Mode, size: int, direct: seq<nat>, indir1: nat, indir2: nat)

  function Cleared(): Inode { Inode(Unused, 0, [0, 0, 0, 0, 0, 0], 0, 0) }

  /** The disk, the block map, the inode table and the inode map, in memory; blocks
      below `base` hold the superblock, the maps and the inodes. */
  datatype Vol = Vol(base: nat, disk: seq<Block>, blockMap: seq<bool>, inodes: seq<Inode>, inodeMap: seq<bool>)

  predicate WellFormed(v: Vol) {
    1 <= v.base <= |v.disk| == |v.blockMap| <= BITS_PER_BLK &&
    |v.inodeMap| <= |v.inodes| && |v.inodeMap| <= BITS_PER_BLK &&
    (forall i :: 0 <= i < |v.inodes| ==> |v.inodes[i].direct| == N_DIRECT) &&
    (forall b :: 0 <= b < v.base ==> v.blockMap[b])
  }

  /** Every place that can hold a block number of file i. */
  datatype Slot =
    | Direct(i: nat, k: nat)
    | Indir1(i: nat)
    | Leaf1(i: nat, k: nat)
    | Indir2(i: nat)
    | Mid(i: nat, a: nat)
    | Leaf2(i: nat, a: nat, k: nat)

  /** Entry k of the index block b, or 0 if there is no such block. */
  function Entry(v: Vol, b: nat, k: nat): nat {
    if 0 < b < |v.disk| && k < PTRS_PER_BLK then PtrAt(v.disk[b], k) else 0
  }

  /** The block number that a slot holds; 0 for none. */
  function Ptr(v: Vol, s: Slot): nat {
    if s.i >= |v.inodes| then 0 else InodePtr(v, v.inodes[s.i], s)
  }

  function InodePtr(v: Vol, n: Inode, s: Slot): nat {
    match s
    case Direct(i, k) => if k < |n.direct| then n.direct[k] else 0
    case Indir1(i) => n.indir1
    case Leaf1(i, k) => Entry(v, n.indir1, k)
    case Indir2(i) => n.indir2
    case Mid(i, a) => Entry(v, n.indir2, a)
    case Leaf2(i, a, k) => Entry(v, Entry(v, n.indir2, a), k)
  }

  type Owner = map<nat, Slot>

  /** The block in a slot is a data block, marked in the map, and this slot's alone. */
  predicate Holds(v: Vol, owner: Owner, s: Slot) {
    var b := Ptr(v, s);
    v.base <= b < |v.disk| && b < |v.blockMap| && v.blockMap[b] && b in owner && owner[b] == s
  }

  /** Block ownership: no block is in two slots, and every block in a slot is marked. */
  ghost predicate Owns(v: Vol, owner: Owner) {
    WellFormed(v) && forall s :: Ptr(v, s) != 0 ==> Holds(v, owner, s)
  }

  /** Two slots never hold the same block. */
  lemma OwnsDistinct(v: Vol, owner: Owner, s: Slot, t: Slot)
    requires Owns(v, owner) && Ptr(v, s) != 0 && s != t
    ensures Ptr(v, s) != Ptr(v, t)
  {
  }

  // ---- bytes of a file

  /** The slot of the k-th block of file i. */
  function Leaf(i: nat, k: nat): Slot {
    if k < N_DIRECT then Direct(i, k)
    else if k < N_DIRECT + PTRS_PER_BLK then Leaf1(i, k - N_DIRECT)
    else Leaf2(i, (k - N_DIRECT - PTRS_PER_BLK) / PTRS_PER_BLK, (k - N_DIRECT - PTRS_PER_BLK) % PTRS_PER_BLK)
  }

  /** Byte p of file i; a block that is not there reads as zeros. */
  function ByteAt(v: Vol, i: nat, p: nat): byte {
    var b := Ptr(v, Leaf(i, p / BLOCK_SIZE));
    if 0 < b < |v.disk| then v.disk[b][p % BLOCK_SIZE] else 0
  }

  /** The first bytes of file i. */
  function Bytes(v: Vol, i: nat, from: nat, n: nat): (r: seq<byte>)
    ensures |r| == n
  {
    seq<byte>(n, k requires 0 <= k < n => ByteAt(v, i, from + k))
  }

  // ---- primitive changes

  /** get_free_blk: the block is zeroed and marked. */
  function Alloc(v: Vol, b: nat): Vol
    requires b < |v.disk| == |v.blockMap|
  {
    Vol(v.base, v.disk[b := Zeros()], v.blockMap[b := true], v.inodes, v.inodeMap)
  }

  function SetBlock(v: Vol, b: nat, x: Block): Vol
    requires b < |v.disk|
  {
    v.(disk := v.disk[b := x])
  }

  function SetInode(v: Vol, i: nat, n: Inode): Vol
    requires i < |v.inodes|
  {
    v.(inodes := v.inodes[i := n])
  }

  /** A marked, zeroed block that no slot holds. */
  ghost predicate Loose(v: Vol, b: nat) {
    v.base <= b < |v.disk| && b < |v.blockMap| && v.blockMap[b] && v.disk[b] == Zeros() &&
    forall s :: Ptr(v, s) != b
  }

  /** Changing a block that holds no index leaves every slot as it is. */
  lemma PtrFrame(v: Vol, w: Vol, b: nat, s: Slot)
    requires v.inodes == w.inodes && |v.disk| == |w.disk|
    requires forall c :: 0 <= c < |v.disk| && c != b ==> v.disk[c] == w.disk[c]
    requires Ptr(v, Indir1(s.i)) != b && Ptr(v, Indir2(s.i)) != b
    requires s.Leaf2? ==> Ptr(v, Mid(s.i, s.a)) != b
    ensures Ptr(w, s) == Ptr(v, s)
  {
  }

  lemma UnmarkedIsLoose(v: Vol, owner: Owner, b: nat)
    requires Owns(v, owner) && b < |v.disk| && !v.blockMap[b]
    ensures forall s :: Ptr(v, s) != b
    ensures v.base <= b
  {
  }

  /** Allocating a free block changes no slot and no byte of any file. */
  lemma AllocKeeps(v: Vol, owner: Owner, b: nat)
    requires Owns(v, owner) && b < |v.disk| && !v.blockMap[b]
    ensures var w := Alloc(v, b);
      Owns(w, owner) && Loose(w, b) &&
      (forall s :: Ptr(w, s) == Ptr(v, s)) && (forall i, p :: ByteAt(w, i, p) == ByteAt(v, i, p))
  {
    var w := Alloc(v, b);
    UnmarkedIsLoose(v, owner, b);
    forall s ensures Ptr(w, s) == Ptr(v, s) { PtrFrame(v, w, b, s); }
    forall s | Ptr(w, s) != 0 ensures Holds(w, owner, s) { assert Holds(v, owner, s); }
    forall i: nat, p: nat ensures ByteAt(w, i, p) == ByteAt(v, i, p) {
      assert Ptr(v, Leaf(i, p / BLOCK_SIZE)) != b;
    }
  }

  // ---- attaching a loose block

  function WithPtr(n: Inode, s: Slot, b: nat): Inode {
    match s
    case Direct(i, k) => if k < |n.direct| then n.(direct := n.direct[k := b]) else n
    case Indir1(i) => n.(indir1 := b)
    case Indir2(i) => n.(indir2 := b)
    case _ => n
  }

  /** A zeroed index block has no entries. */
  lemma LooseHasNoEntries(v: Vol, b: nat, k: nat)
    requires Loose(v, b)
    ensures Entry(v, b, k) == 0
  {
  }

  /** Storing a loose block in an empty slot of an inode. */
  lemma AttachInode(v: Vol, owner: Owner, s: Slot, b: nat)
    requires Owns(v, owner) && Loose(v, b) && Ptr(v, s) == 0 && s.i < |v.inodes|
    requires s.Direct? || s.Indir1? || s.Indir2?
    requires s.Direct? ==> s.k < N_DIRECT
    ensures var w := SetInode(v, s.i, WithPtr(v.inodes[s.i], s, b));
      Owns(w, owner[b := s]) &&
      (forall t :: Ptr(w, t) == if t == s then b else Ptr(v, t)) &&
      (forall i, p :: ByteAt(w, i, p) == ByteAt(v, i, p))
  {
    var w := SetInode(v, s.i, WithPtr(v.inodes[s.i], s, b));
    forall t ensures Ptr(w, t) == if t == s then b else Ptr(v, t) {
      AttachInodePtr(v, s, b, t);
    }
    forall t | Ptr(w, t) != 0 ensures Holds(w, owner[b := s], t) {
      if t != s { assert Holds(v, owner, t); }
    }
    forall i: nat, p: nat ensures ByteAt(w, i, p) == ByteAt(v, i, p) {
      var t := Leaf(i, p / BLOCK_SIZE);
      assert Ptr(w, t) == if t == s then b else Ptr(v, t);
    }
  }

  lemma AttachInodePtr(v: Vol, s: Slot, b: nat, t: Slot)
    requires WellFormed(v) && Loose(v, b) && Ptr(v, s) == 0 && s.i < |v.inodes|
    requires s.Direct? || s.Indir1? || s.Indir2?
    requires s.Direct? ==> s.k < N_DIRECT
    ensures Ptr(SetInode(v, s.i, WithPtr(v.inodes[s.i], s, b)), t) == if t == s then b else Ptr(v, t)
  {
    var w := SetInode(v, s.i, WithPtr(v.inodes[s.i], s, b));
    if t.i == s.i {
      match t
      case Leaf1(i, k) => LooseHasNoEntries(v, b, k);
      case Mid(i, a) => LooseHasNoEntries(v, b, a);
      case Leaf2(i, a, k) => LooseHasNoEntries(v, b, a);
      case _ =>
    }
  }

  /** The slot of the index block in which a slot is an entry, and its number there. */
  function Parent(s: Slot): Slot
    requires s.Leaf1? || s.Mid? || s.Leaf2?
  {
    match s
    case Leaf1(i, k) => Indir1(i)
    case Mid(i, a) => Indir2(i)
    case Leaf2(i, a, k) => Mid(i, a)
  }

  function Index(s: Slot): nat
    requires s.Leaf1? || s.Mid? || s.Leaf2?
  {
    match s
    case Leaf1(i, k) => k
    case Mid(i, a) => a
    case Leaf2(i, a, k) => k
  }

  lemma PtrIsEntry(v: Vol, s: Slot)
    requires s.Leaf1? || s.Mid? || s.Leaf2?
    ensures Ptr(v, s) == Entry(v, Ptr(v, Parent(s)), Index(s))
  {
  }

  function WithEntry(v: Vol, s: Slot, b: nat): Vol
    requires s.Leaf1? || s.Mid? || s.Leaf2?
  {
    var x := Ptr(v, Parent(s));
    if 0 < x < |v.disk| && Index(s) < PTRS_PER_BLK && b < 0x8000_0000
    then SetBlock(v, x, SetPtr(v.disk[x], Index(s), b)) else v
  }

  /** Storing a loose block in an empty entry of an index block. */
  lemma AttachEntry(v: Vol, owner: Owner, s: Slot, b: nat)
    requires Owns(v, owner) && Loose(v, b) && Ptr(v, s) == 0
    requires s.Leaf1? || s.Mid? || s.Leaf2?
    requires Index(s) < PTRS_PER_BLK && Ptr(v, Parent(s)) != 0
    ensures Ptr(v, Parent(s)) < |v.disk|
    ensures var w := WithEntry(v, s, b);
      Owns(w, owner[b := s]) &&
      (forall t :: Ptr(w, t) == if t == s then b else Ptr(v, t)) &&
      (forall i, p :: ByteAt(w, i, p) == ByteAt(v, i, p))
  {
    var x := Ptr(v, Parent(s));
    assert Holds(v, owner, Parent(s));
    var w := WithEntry(v, s, b);
    forall t ensures Ptr(w, t) == if t == s then b else Ptr(v, t) {
      AttachEntryPtr(v, owner, s, b, t);
    }
    forall t | Ptr(w, t) != 0 ensures Holds(w, owner[b := s], t) {
      if t != s { assert Holds(v, owner, t); }
    }
    forall i: nat, p: nat ensures ByteAt(w, i, p) == ByteAt(v, i, p) {
      var t := Leaf(i, p / BLOCK_SIZE);
      assert Ptr(w, t) == if t == s then b else Ptr(v, t);
      if Ptr(v, t) != 0 { OwnsDistinct(v, owner, t, Parent(s)); }
    }
  }

  lemma AttachEntryPtr(v: Vol, owner: Owner, s: Slot, b: nat, t: Slot)
    requires Owns(v, owner) && Loose(v, b) && Ptr(v, s) == 0
    requires s.Leaf1? || s.Mid? || s.Leaf2?
    requires Index(s) < PTRS_PER_BLK && Ptr(v, Parent(s)) != 0
    ensures Ptr(WithEntry(v, s, b), t) == if t == s then b else Ptr(v, t)
  {
    var x := Ptr(v, Parent(s));
    assert Holds(v, owner, Parent(s));
    var w := WithEntry(v, s, b);
    if t.Leaf1? || t.Mid? {
      EntryAfter(v, owner, s, b, t);
    } else if t.Leaf2? {
      var m := Mid(t.i, t.a);
      EntryAfter(v, owner, s, b, m);
      if m == s {
        LooseHasNoEntries(v, b, t.k);
      } else {
        EntryAfter(v, owner, s, b, t);
      }
    }
  }

  /** An entry whose own index block is still the same: changed only if it is s. */
  lemma EntryAfter(v: Vol, owner: Owner, s: Slot, b: nat, t: Slot)
    requires Owns(v, owner) && Loose(v, b)
    requires (s.Leaf1? || s.Mid? || s.Leaf2?) && (t.Leaf1? || t.Mid? || t.Leaf2?)
    requires Index(s) < PTRS_PER_BLK && Ptr(v, Parent(s)) != 0 && Ptr(v, Parent(s)) < |v.disk|
    ensures var w := WithEntry(v, s, b);
      Ptr(w, Parent(t)) == Ptr(v, Parent(t)) ==> Ptr(w, t) == if t == s then b else Ptr(v, t)
  {
    var x := Ptr(v, Parent(s));
    var w := WithEntry(v, s, b);
    PtrIsEntry(v, t);
    PtrIsEntry(w, t);
    var y := Ptr(v, Parent(t));
    if y != 0 && Parent(t) != Parent(s) { OwnsDistinct(v, owner, Parent(t), Parent(s)); }
    if Parent(t) == Parent(s) && Index(t) < PTRS_PER_BLK {
      SetPtrAt(v.disk[x], Index(s), b, Index(t));
    }
  }

  // ---- writing into a data block

  predicate IsLeaf(s: Slot) { s.Direct? || s.Leaf1? || s.Leaf2? }

  /** Changing a data block changes no slot. */
  lemma DataKeepsPtrs(v: Vol, owner: Owner, s: Slot, x: Block)
    requires Owns(v, owner) && IsLeaf(s) && Ptr(v, s) != 0 && Ptr(v, s) < |v.disk|
    ensures var w := SetBlock(v, Ptr(v, s), x);
      Owns(w, owner) && forall t :: Ptr(w, t) == Ptr(v, t)
  {
    var b := Ptr(v, s);
    var w := SetBlock(v, b, x);
    forall t ensures Ptr(w, t) == Ptr(v, t) {
      OwnsDistinct(v, owner, s, Indir1(t.i));
      OwnsDistinct(v, owner, s, Indir2(t.i));
      if t.Leaf2? { OwnsDistinct(v, owner, s, Mid(t.i, t.a)); }
      PtrFrame(v, w, b, t);
    }
    forall t | Ptr(w, t) != 0 ensures Holds(w, owner, t) { assert Holds(v, owner, t); }
  }

  lemma LeafInverse(i: nat, k: nat, j: nat, l: nat)
    ensures Leaf(i, k) == Leaf(j, l) <==> i == j && k == l
    ensures IsLeaf(Leaf(i, k)) && Leaf(i, k).i == i
  {
  }

  /** Bytes placed in a block. */
  function Spliced(b: Block, at: nat, data: seq<byte>): Block
    requires at + |data| <= BLOCK_SIZE
  {
    b[..at] + data + b[at + |data|..]
  }

  /** Placing bytes in block k of file i changes those bytes of that file, and no other
      byte of any file. */
  lemma WriteBlockBytes(v: Vol, owner: Owner, i: nat, k: nat, at: nat, data: seq<byte>)
    requires Owns(v, owner) && at + |data| <= BLOCK_SIZE
    requires Ptr(v, Leaf(i, k)) != 0 && Ptr(v, Leaf(i, k)) < |v.disk|
    ensures var b := Ptr(v, Leaf(i, k)); var w := SetBlock(v, b, Spliced(v.disk[b], at, data));
      Owns(w, owner) && (forall t :: Ptr(w, t) == Ptr(v, t)) &&
      forall j: nat, p: nat :: ByteAt(w, j, p) ==
        if j == i && k * BLOCK_SIZE + at <= p < k * BLOCK_SIZE + at + |data| then data[p - k * BLOCK_SIZE - at]
        else ByteAt(v, j, p)
  {
    var s := Leaf(i, k);
    var b := Ptr(v, s);
    var w := SetBlock(v, b, Spliced(v.disk[b], at, data));
    LeafInverse(i, k, i, k);
    DataKeepsPtrs(v, owner, s, Spliced(v.disk[b], at, data));
    forall j: nat, p: nat
      ensures ByteAt(w, j, p) ==
        if j == i && k * BLOCK_SIZE + at <= p < k * BLOCK_SIZE + at + |data| then data[p - k * BLOCK_SIZE - at]
        else ByteAt(v, j, p)
    {
      var t := Leaf(j, p / BLOCK_SIZE);
      LeafInverse(i, k, j, p / BLOCK_SIZE);
      assert Ptr(w, t) == Ptr(v, t);
      if t != s && Ptr(v, t) != 0 { OwnsDistinct(v, owner, t, s); }
    }
  }
}
