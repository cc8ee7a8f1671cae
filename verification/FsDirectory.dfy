/** Directories of pmeunier-project/fs.c on disk: a block of 32 entries of 32 bytes, each a
    word with a valid bit and an inode number, and a name that ends at its first zero. */
module FsDirectory {
  import opened FsModel
  import opened FsNames
  import P = FsParse

  const DIRENT_SIZE := 32
  const DIRENTS_PER_BLK := 32

  /** What a path component can be: short, and of the characters of a C string. */
  predicate NameOk(s: string) {
    |s| < P.FS_FILENAME_SIZE && CString(s)
  }

  predicate CString(s: string) {
    forall i :: 0 <= i < |s| ==> 0 < s[i] as int < 256
  }

  // ---- reading entries

  function NameAt(b: Block, at: nat, n: nat): string
    requires at + n <= BLOCK_SIZE
    decreases n
  {
    if n == 0 || b[at] == 0 then "" else [b[at] as char] + NameAt(b, at + 1, n - 1)
  }

  function EntryAt(b: Block, k: nat): Dirent
    requires k < DIRENTS_PER_BLK
  {
    var word := PtrAt(b, 8 * k);
    Dirent(word % 2 == 1, word / 4, NameAt(b, DIRENT_SIZE * k + 4, P.FS_FILENAME_SIZE))
  }

  function Entries(b: Block): (r: seq<Dirent>)
    ensures |r| == DIRENTS_PER_BLK && forall k :: 0 <= k < DIRENTS_PER_BLK ==> r[k] == EntryAt(b, k)
  {
    seq(DIRENTS_PER_BLK, k requires 0 <= k < DIRENTS_PER_BLK => EntryAt(b, k))
  }

  lemma {:induction false} NameSame(b: Block, c: Block, at: nat, n: nat)
    requires at + n <= BLOCK_SIZE && forall i :: at <= i < at + n ==> b[i] == c[i]
    ensures NameAt(b, at, n) == NameAt(c, at, n)
    decreases n
  {
    if n > 0 { NameSame(b, c, at + 1, n - 1); }
  }

  /** An entry is made of its own 32 bytes. */
  lemma EntrySame(b: Block, c: Block, k: nat)
    requires k < DIRENTS_PER_BLK
    requires forall i :: DIRENT_SIZE * k <= i < DIRENT_SIZE * k + DIRENT_SIZE ==> b[i] == c[i]
    ensures EntryAt(b, k) == EntryAt(c, k)
  {
    NameSame(b, c, DIRENT_SIZE * k + 4, P.FS_FILENAME_SIZE);
  }

  lemma {:induction false} NameStored(b: Block, at: nat, n: nat, s: string)
    requires at + n <= BLOCK_SIZE && |s| < n && CString(s)
    requires (forall i :: 0 <= i < |s| ==> b[at + i] == s[i] as int) && b[at + |s|] == 0
    ensures NameAt(b, at, n) == s
    decreases n
  {
    if s != "" {
      assert b[at + 0] == s[0] as int;
      forall i | 0 <= i < |s[1..]| ensures b[at + 1 + i] == s[1..][i] as int {
        assert b[at + (i + 1)] == s[i + 1] as int;
      }
      NameStored(b, at + 1, n - 1, s[1..]);
      assert s == [s[0]] + s[1..];
    }
  }

  // ---- changing one entry

  /** strcpy of a name: its characters and a zero. */
  function PutName(b: Block, at: nat, s: string): (c: Block)
    requires at + |s| < BLOCK_SIZE && CString(s)
    ensures forall i :: 0 <= i < BLOCK_SIZE ==>
      c[i] == if at <= i < at + |s| then s[i - at] as int else if i == at + |s| then 0 else b[i]
  {
    seq(BLOCK_SIZE, i requires 0 <= i < BLOCK_SIZE =>
      if at <= i < at + |s| then s[i - at] as int else if i == at + |s| then 0 else b[i])
  }

  /** memset of a stretch to zero. */
  function Wiped(b: Block, at: nat, n: nat): (c: Block)
    ensures forall i :: 0 <= i < BLOCK_SIZE ==> c[i] == if at <= i < at + n then 0 else b[i]
  {
    seq(BLOCK_SIZE, i requires 0 <= i < BLOCK_SIZE => if at <= i < at + n then 0 else b[i])
  }

  /** Entry k gets a name and an inode, and is valid; the bit between stays. */
  function StoreEntry(b: Block, k: nat, n: nat, name: string): Block
    requires k < DIRENTS_PER_BLK && n < 0x1000_0000 && NameOk(name)
  {
    var c := PutName(b, DIRENT_SIZE * k + 4, name);
    SetPtr(c, 8 * k, 4 * n + PtrAt(c, 8 * k) / 2 % 2 * 2 + 1)
  }

  lemma SetPtrElsewhere(b: Block, k: nat, p: nat)
    requires k < PTRS_PER_BLK && p < 0x8000_0000
    ensures forall i :: 0 <= i < BLOCK_SIZE && !(4 * k <= i < 4 * k + 4) ==> SetPtr(b, k, p)[i] == b[i]
  {
  }

  lemma StoreEntryIs(b: Block, k: nat, n: nat, name: string)
    requires k < DIRENTS_PER_BLK && n < 0x1000_0000 && NameOk(name)
    ensures Entries(StoreEntry(b, k, n, name)) == Entries(b)[k := Dirent(true, n, name)]
  {
    var at := DIRENT_SIZE * k + 4;
    var c := PutName(b, at, name);
    var bit := PtrAt(c, 8 * k) / 2 % 2;
    var word := 4 * n + bit * 2 + 1;
    var d := StoreEntry(b, k, n, name);
    assert word / 4 == n && word % 2 == 1;
    SetPtrAt(c, 8 * k, word, 8 * k);
    SetPtrElsewhere(c, 8 * k, word);
    assert d == SetPtr(c, 8 * k, word) && |name| < P.FS_FILENAME_SIZE && CString(name);
    hide SetPtr, PtrAt, PutName, StoreEntry;
    NameStored(d, at, P.FS_FILENAME_SIZE, name);
    assert EntryAt(d, k) == Dirent(true, n, name);
    OthersSame(d, b, k);
  }

  /** Changing the bytes of entry k changes only entry k. */
  lemma OthersSame(d: Block, b: Block, k: nat)
    requires k < DIRENTS_PER_BLK
    requires forall i :: 0 <= i < BLOCK_SIZE && !(DIRENT_SIZE * k <= i < DIRENT_SIZE * k + DIRENT_SIZE) ==> d[i] == b[i]
    ensures Entries(d) == Entries(b)[k := EntryAt(d, k)]
  {
    forall j | 0 <= j < DIRENTS_PER_BLK && j != k ensures EntryAt(d, j) == EntryAt(b, j) {
      EntrySame(d, b, j);
    }
  }

  lemma ClearEntryIs(b: Block, k: nat)
    requires k < DIRENTS_PER_BLK
    ensures Entries(Wiped(b, DIRENT_SIZE * k, DIRENT_SIZE)) == Entries(b)[k := NO_ENTRY]
  {
    var d := Wiped(b, DIRENT_SIZE * k, DIRENT_SIZE);
    assert PtrAt(d, 8 * k) == 0;
    OthersSame(d, b, k);
  }

  /** The name of entry k wiped, and another put there. */
  function RenameEntry(b: Block, k: nat, name: string): Block
    requires k < DIRENTS_PER_BLK && NameOk(name)
  {
    PutName(Wiped(b, DIRENT_SIZE * k + 4, P.FS_FILENAME_SIZE), DIRENT_SIZE * k + 4, name)
  }

  lemma RenameEntryIs(b: Block, k: nat, name: string)
    requires k < DIRENTS_PER_BLK && NameOk(name)
    ensures Entries(RenameEntry(b, k, name)) == Entries(b)[k := EntryAt(b, k).(name := name)]
  {
    var d := RenameEntry(b, k, name);
    assert PtrAt(d, 8 * k) == PtrAt(b, 8 * k);
    NameStored(d, DIRENT_SIZE * k + 4, P.FS_FILENAME_SIZE, name);
    OthersSame(d, b, k);
  }

  // ---- the loops over a block of entries

  method RemoveEntries(b: Block, name: string) returns (entries: Block)
    ensures Entries(entries) == Removed(Entries(b), name)
  {
    entries := b;
    var i := 0;
    while i < DIRENTS_PER_BLK
      invariant 0 <= i <= DIRENTS_PER_BLK
      invariant forall k :: 0 <= k < i ==> Entries(entries)[k] == Without(Entries(b)[k], name)
      invariant forall k :: i <= k < DIRENTS_PER_BLK ==> Entries(entries)[k] == Entries(b)[k]
    {
      hide EntryAt;
      assert EntryAt(entries, i) == Entries(entries)[i];
      if EntryAt(entries, i).valid && EntryAt(entries, i).name == name {
        ClearEntryIs(entries, i);
        entries := Wiped(entries, DIRENT_SIZE * i, DIRENT_SIZE);
      }
      i := i + 1;
    }
  }

  method RenameEntries(b: Block, src: string, dst: string) returns (entries: Block)
    requires NameOk(dst)
    ensures Entries(entries) == Renamed(Entries(b), src, dst)
  {
    entries := b;
    var i := 0;
    while i < DIRENTS_PER_BLK
      invariant 0 <= i <= DIRENTS_PER_BLK
      invariant forall k :: 0 <= k < i ==> Entries(entries)[k] == Relabelled(Entries(b)[k], src, dst)
      invariant forall k :: i <= k < DIRENTS_PER_BLK ==> Entries(entries)[k] == Entries(b)[k]
    {
      hide EntryAt;
      assert EntryAt(entries, i) == Entries(entries)[i];
      if EntryAt(entries, i).valid && EntryAt(entries, i).name == src {
        RenameEntryIs(entries, i, dst);
        entries := RenameEntry(entries, i, dst);
      }
      i := i + 1;
    }
  }
}
