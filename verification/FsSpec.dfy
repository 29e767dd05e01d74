/**
 The operations of SimpleFS as lists of sector writes.  An operation's result code and
 its writes, in order, are a function of the disk it starts from; a crash leaves a
 prefix of the list on disk.
 */
module FsSpec {
  import opened Machine
  import opened DiskFormat
  import opened Ownership
  import opened Namespace

  // ---- the tree view of a disk

  function EmptyListing(): Listing { seq(ENTRIES, k => DirEntry(0, [])) }

  function NodeOf(fs: Fs, x: Inode): Node {
    if !x.Used() then Free
    else if x.Dir() then
      Folder(if DATA_START <= x.blocks[0] < TOTAL_SECTORS then Entries(fs.Block(x.blocks[0])) else EmptyListing())
    else File
  }

  function ViewOf(fs: Fs): View {
    seq(INODE_COUNT, i requires 0 <= i < INODE_COUNT => NodeOf(fs, fs.table[i]))
  }

  /** The superblock words a formatted disk carries. */
  predicate Formatted(s: Sector) {
    U32At(s, 0) == MAGIC && U32At(s, 4) == TOTAL_SECTORS && U32At(s, 8) == INODE_COUNT && U32At(s, 12) == DATA_START
  }

  /** What every reachable state satisfies; w names the reachable inodes and their paths. */
  ghost predicate Sound(fs: Fs, w: Paths) {
    && Owned(fs.table)
    && Tree(ViewOf(fs), w)
    && forall i :: i in w && fs.table[i].Dir() ==> fs.table[i].blocks[0] != 0
  }

  // ---- file contents

  predicate Held(x: Inode, n: nat) {
    n <= DIRECT_BLOCKS && forall j :: 0 <= j < n ==> DATA_START <= x.blocks[j] < TOTAL_SECTORS
  }

  function Concat(fs: Fs, x: Inode, n: nat): (s: seq<Byte>)
    requires Held(x, n)
    ensures |s| == 512 * n
  {
    if n == 0 then [] else Concat(fs, x, n - 1) + fs.Block(x.blocks[n - 1])
  }

  /** A file's bytes: its blocks one after the other, cut at its size. */
  function Content(fs: Fs, x: Inode): (s: seq<Byte>)
    requires Held(x, BlocksFor(x.size))
    ensures |s| == x.size
  {
    Concat(fs, x, BlocksFor(x.size))[..x.size]
  }

  /** The i-th 512-byte piece of the data, zero-filled. */
  function Chunk(data: seq<Byte>, i: nat): Sector
    requires 512 * i <= |data|
  {
    if 512 * i + 512 <= |data| then data[512 * i..512 * i + 512]
    else data[512 * i..] + seq(512 - (|data| - 512 * i), k => 0)
  }

  // ---- create and mkdir

  datatype Outcome = Outcome(code: int, es: seq<Effect>)

  function Alloc(i: nat, flags: U32): Effect {
    SetInode(i, Inode(0, flags, NoBlocks()))
  }

  /** Put an entry in the first nameless slot of a directory block. */
  function AddEntryOp(fs: Fs, blk: nat, e: DirEntry): Option<Effect>
    requires DATA_START <= blk < TOTAL_SECTORS && |e.name| < MAX_FILENAME
  {
    var s := fs.Block(blk);
    var k := EmptySlot(Entries(s), 0);
    if k == ENTRIES then None else Some(SetBlock(blk, PutSlot(s, k, EntryImage(SlotImage(s, k), e))))
  }

  /** The checks create and mkdir share. */
  predicate Refused(fs: Fs, parent: nat, name: Name)
    requires parent < INODE_COUNT
  {
    || |name| >= MAX_FILENAME || name == []
    || !fs.table[parent].Dir()
    || Lookup(ViewOf(fs), parent, name).Some?
    || FreeInode(fs.table, 0) == INODE_COUNT
  }

  /** The directory has a data block, as every reachable directory does. */
  predicate HasBlock(fs: Fs, dir: nat)
    requires dir < INODE_COUNT
  {
    fs.table[dir].Dir() ==> fs.table[dir].Used() && DATA_START <= fs.table[dir].blocks[0] < TOTAL_SECTORS
  }

  /** What both do last: name the inode, or fail when the directory is full. */
  function Named(fs: Fs, blk: nat, e: DirEntry, before: seq<Effect>): Outcome
    requires DATA_START <= blk < TOTAL_SECTORS && |e.name| < MAX_FILENAME
  {
    match AddEntryOp(fs, blk, e)
    case None => Outcome(-1, before)
    case Some(wr) => Outcome(0, before + [wr])
  }

  function CreateOp(fs: Fs, parent: nat, name: Name): Outcome
    requires parent < INODE_COUNT && HasBlock(fs, parent)
  {
    if Refused(fs, parent, name) then Outcome(-1, [])
    else
      var c := FreeInode(fs.table, 0);
      var e1 := Alloc(c, FLAG_FILE);
      Named(Do(fs, e1), fs.table[parent].blocks[0], DirEntry(c, name), [e1])
  }

  function FreshDirSector(self: U32, parent: U32): Sector {
    var z: seq<Byte> := seq(32, i => 0);
    PutSlot(PutSlot(ZeroSector(), 0, EntryImage(z, DirEntry(self, DOT))), 1, EntryImage(z, DirEntry(parent, DOTDOT)))
  }

  /** The three writes of mkdir before the new directory is named: take the inode, fill
      the block found free after that, hand the block to the inode. */
  function MkdirSetup(fs: Fs, parent: nat, c: nat): (es: seq<Effect>)
    requires c < INODE_COUNT && parent < INODE_COUNT
    ensures |es| == 3 && AllOk(es)
  {
    var b := FreeBlock(Do(fs, Alloc(c, FLAG_DIR)).table);
    [Alloc(c, FLAG_DIR), SetBlock(b, FreshDirSector(c, parent)), SetInode(c, Inode(0, FLAG_DIR, NoBlocks()[0 := b]))]
  }

  function MkdirOp(fs: Fs, parent: nat, name: Name): Outcome
    requires parent < INODE_COUNT && HasBlock(fs, parent)
  {
    if Refused(fs, parent, name) then Outcome(-1, [])
    else
      var c := FreeInode(fs.table, 0);
      var es := MkdirSetup(fs, parent, c);
      Named(DoAll(fs, es), fs.table[parent].blocks[0], DirEntry(c, name), es)
  }

  // ---- write

  /** Blocks the kernel thinks a size needs: 32-bit arithmetic. */
  function NeededBlocks(size: U32): (n: nat)
    ensures n == if size + 511 < 0x1_0000_0000 then BlocksFor(size) else 0
  {
    (size + 511) % 0x1_0000_0000 / 512
  }

  predicate BlocksOnDisk(x: Inode) {
    forall j :: 0 <= j < DIRECT_BLOCKS ==> x.blocks[j] == 0 || DATA_START <= x.blocks[j] < TOTAL_SECTORS
  }

  /** The inode once slot i has a block. */
  function WithBlock(fs: Fs, x: Inode, i: nat): (y: Inode)
    requires i < DIRECT_BLOCKS && BlocksOnDisk(x)
    ensures BlocksOnDisk(y) && y.blocks[i] != 0
  {
    if x.blocks[i] != 0 then x else x.(blocks := x.blocks[i := FreeBlock(fs.table)])
  }

  /** The inode is committed only when a block was taken. */
  function Commit(f: nat, x: Inode, i: nat, y: Inode): (es: seq<Effect>)
    requires f < INODE_COUNT && i < DIRECT_BLOCKS
    ensures AllOk(es) && |es| <= 1
  {
    if x.blocks[i] != 0 then [] else [SetInode(f, y)]
  }

  /** The updates of simplefs_write from block i on. */
  function WriteBlocks(fs: Fs, f: nat, x: Inode, data: seq<Byte>, i: nat, n: nat): (es: seq<Effect>)
    requires f < INODE_COUNT && BlocksOnDisk(x) && |data| < 0x1_0000_0000
    requires i <= n <= DIRECT_BLOCKS && 512 * n < |data| + 512
    ensures AllOk(es)
    decreases n - i
  {
    if i == n then [SetInode(f, x.(size := |data|))]
    else
      var y := WithBlock(fs, x, i);
      var es := Commit(f, x, i, y) + [SetBlock(y.blocks[i], Chunk(data, i))];
      es + WriteBlocks(DoAll(fs, es), f, y, data, i + 1, n)
  }

  /** Every name in the directory leads to an inode in use, as it does in a sound tree. */
  predicate LeadsToUsed(fs: Fs, dir: nat, name: Name)
    requires dir < INODE_COUNT
  {
    var r := Lookup(ViewOf(fs), dir, name);
    r.Some? ==> r.value < INODE_COUNT && fs.table[r.value].Used() && InodeOk(fs.table[r.value])
  }

  function WriteOp(fs: Fs, dir: nat, name: Name, data: seq<Byte>): Outcome
    requires dir < INODE_COUNT && |data| < 0x1_0000_0000 && LeadsToUsed(fs, dir, name)
  {
    match Lookup(ViewOf(fs), dir, name)
    case None => Outcome(-1, [])
    case Some(f) =>
      if NeededBlocks(|data|) > DIRECT_BLOCKS then Outcome(-1, [])
      else
        hide NeededBlocks;
        Outcome(0, WriteBlocks(fs, f, fs.table[f], data, 0, NeededBlocks(|data|)))
  }

  // ---- read

  /** The bytes simplefs_read copies out, or nothing. */
  function ReadOp(fs: Fs, dir: nat, name: Name, limit: nat): Option<seq<Byte>>
    requires dir < INODE_COUNT && LeadsToUsed(fs, dir, name)
  {
    match Lookup(ViewOf(fs), dir, name)
    case None => None
    case Some(f) =>
      var x := fs.table[f];
      if x.Dir() then None
      else
        var n := if limit > x.size then x.size else limit;
        Some(Concat(fs, x, BlocksFor(n))[..n])
  }
}
