/**
 The host tool's operations (tools/simplefs_tool.py) as lists of sector updates, and what
 they do to the tree the kernel sees.
 */
module HostSpec {
  import opened Machine
  import opened DiskFormat
  import opened Ownership
  import opened Namespace
  import opened FsSpec
  import opened Consistency
  import opened Creation
  import opened FileData

  // ---- choosing blocks

  /** The first n numbers at or after c outside u, in order: the tool's single scan. */
  function FreeRun(u: set<nat>, c: nat, n: nat): (r: seq<nat>)
    ensures |r| == n
    ensures forall k :: 0 <= k < n ==> c <= r[k] && r[k] !in u
    ensures forall j, k :: 0 <= j < k < n ==> r[j] < r[k]
    decreases n
  {
    if n == 0 then []
    else
      var b := LeastFree(u, c);
      [b] + FreeRun(u, b + 1, n - 1)
  }

  lemma FromGap(u: set<nat>, c: nat)
    ensures |From(u, LeastFree(u, c) + 1)| + (LeastFree(u, c) - c) <= |From(u, c)|
  {
    var b := LeastFree(u, c);
    var gap, rest := Range(c, b), From(u, b + 1);
    assert gap * rest == {};
    assert |gap + rest| == |gap| + |rest|;
    SubsetSize(gap + rest, From(u, c));
  }

  /** The scan never runs off the disk: pigeonhole again. */
  lemma {:induction false} FreeRunBound(u: set<nat>, c: nat, n: nat, k: nat)
    requires k < n
    ensures FreeRun(u, c, n)[k] <= c + |From(u, c)| + k
    decreases n
  {
    var b := LeastFree(u, c);
    FromGap(u, c);
    if k > 0 {
      FreeRunBound(u, b + 1, n - 1, k - 1);
    }
  }

  lemma FreeRunOnDisk(t: Table, n: nat)
    requires n <= DIRECT_BLOCKS
    ensures forall k :: 0 <= k < n ==> DATA_START <= FreeRun(UsedBlocks(t), DATA_START, n)[k] < TOTAL_SECTORS
  {
    var u := UsedBlocks(t);
    UsedBlocksBound(t);
    SubsetSize(From(u, DATA_START), u);
    forall k | 0 <= k < n
      ensures FreeRun(u, DATA_START, n)[k] < TOTAL_SECTORS
    {
      FreeRunBound(u, DATA_START, n, k);
    }
  }

  /** n kernel allocations in a row, each committed before the next search. */
  function KernelRun(u: set<nat>, n: nat): seq<nat>
    decreases n
  {
    if n == 0 then []
    else
      var b := LeastFree(u, DATA_START);
      [b] + KernelRun(u + {b}, n - 1)
  }

  /** The kernel's repeated searches and the tool's one scan choose the same blocks. */
  lemma {:induction false} SameChoice(v: set<nat>, u: set<nat>, c: nat, n: nat)
    requires DATA_START <= c && (forall b :: DATA_START <= b < c ==> b in v)
    requires forall b :: b >= c ==> (b in v <==> b in u)
    ensures KernelRun(v, n) == FreeRun(u, c, n)
    decreases n
  {
    if n > 0 {
      var b := LeastFree(u, c);
      LeastFreeUnique(v, DATA_START, b);
      SameChoice(v + {b}, u, b + 1, n - 1);
    }
  }

  // ---- put

  /** Store the chunks of data into the given blocks. */
  function StoreChunks(bs: seq<nat>, data: seq<Byte>, i: nat): (es: seq<Effect>)
    requires i <= |bs| && (|bs| > 0 ==> 512 * (|bs| - 1) < |data|)
    requires forall k :: 0 <= k < |bs| ==> DATA_START <= bs[k] < TOTAL_SECTORS
    ensures AllOk(es) && |es| == i
    decreases i
  {
    if i == 0 then [] else StoreChunks(bs, data, i - 1) + [SetBlock(bs[i - 1], Chunk(data, i - 1))]
  }

  /** The block numbers of an inode array: the given ones, then zeros. */
  function Padded(bs: seq<U32>): Blocks
    requires |bs| <= DIRECT_BLOCKS
  {
    bs + seq(DIRECT_BLOCKS - |bs|, k => 0)
  }

  /** The non-zero block numbers of an inode, in order. */
  function NonZero(bs: seq<U32>): (r: seq<U32>)
    ensures |r| <= |bs|
    ensures forall k :: 0 <= k < |r| ==> r[k] != 0
  {
    if bs == [] then [] else (if bs[0] == 0 then [] else [bs[0]]) + NonZero(bs[1..])
  }

  /** They are all of them, each as often as it is held. */
  lemma {:induction false} NonZeroKeeps(bs: seq<U32>)
    ensures multiset(NonZero(bs)) == multiset(bs)[0 := 0]
  {
    if bs != [] {
      NonZeroKeeps(bs[1..]);
      NonZeroHead(bs);
      hide NonZero;
      OneMoreCounted(multiset(bs[1..]), bs[0]);
      assert bs == [bs[0]] + bs[1..];
    }
  }

  lemma NonZeroHead(bs: seq<U32>)
    requires bs != []
    ensures NonZero(bs) == if bs[0] == 0 then NonZero(bs[1..]) else [bs[0]] + NonZero(bs[1..])
  {
    assert bs[0] == 0 ==> [] + NonZero(bs[1..]) == NonZero(bs[1..]);
  }

  lemma OneMoreCounted(m: multiset<U32>, x: U32)
    ensures (multiset{x} + m)[0 := 0] == if x == 0 then m[0 := 0] else multiset{x} + m[0 := 0]
  {
  }

  /** The blocks put_file uses for a file that already exists: its own, cut or extended. */
  function Reassigned(t: Table, f: nat, n: nat): (bs: seq<nat>)
    requires f < INODE_COUNT
    ensures |bs| == n
  {
    var cur := NonZero(t[f].blocks);
    if |cur| < n then cur + FreeRun(UsedBlocks(t), DATA_START, n - |cur|) else cur[..n]
  }

  /** The tool writes a whole 32-byte entry, zero-padded. */
  function ToolImage(e: DirEntry): (r: seq<Byte>)
    requires |e.name| < MAX_FILENAME
    ensures |r| == 32
  {
    EncodeU32(e.ino) + (e.name + seq(MAX_FILENAME - |e.name|, k => 0))
  }

  lemma DecodeToolImage(e: DirEntry)
    requires |e.name| < MAX_FILENAME && IsCName(e.name)
    ensures DecodeEntry(ToolImage(e)) == e
  {
    WordOfBytes(e.ino);
    var raw := ToolImage(e)[4..];
    assert raw == e.name + seq(MAX_FILENAME - |e.name|, k => 0);
    assert raw[..|e.name|] == e.name;
    CStringIs(raw, e.name);
  }

  /** What rm writes over an entry. */
  function ZeroImage(): (z: seq<Byte>)
    ensures |z| == 32
  {
    seq(32, k => 0)
  }

  lemma DecodeZeroImage()
    ensures DecodeEntry(ZeroImage()) == DirEntry(0, [])
  {
    hide U32At;
    var z := ZeroImage();
    ZeroWord(z, 0);
    var raw := z[4..];
    assert raw[0] == 0;
    assert CString(raw) == [];
  }

  function FileImage(bs: seq<nat>, size: nat): Inode
    requires |bs| <= DIRECT_BLOCKS && size < 0x1_0000_0000
    requires forall k :: 0 <= k < |bs| ==> bs[k] < 0x1_0000_0000
  {
    Inode(size, FLAG_FILE, Padded(bs))
  }

  predicate OnDisk(bs: seq<nat>) {
    forall k :: 0 <= k < |bs| ==> DATA_START <= bs[k] < TOTAL_SECTORS
  }

  /** Data first, then the inode. */
  function StoreFile(f: nat, bs: seq<nat>, data: seq<Byte>): (es: seq<Effect>)
    requires f < INODE_COUNT && OnDisk(bs) && |bs| == BlocksFor(|data|) <= DIRECT_BLOCKS
    ensures AllOk(es) && |es| == |bs| + 1
  {
    StoreChunks(bs, data, |bs|) + [SetInode(f, FileImage(bs, |data|))]
  }

  /** The inode of a file put under a new name. */
  function NewFileInode(t: Table, size: nat): (x: Inode)
    requires BlocksFor(size) <= DIRECT_BLOCKS
    ensures x.Used() && !x.Dir() && x.size == size
  {
    FreeRunOnDisk(t, BlocksFor(size));
    FileImage(FreeRun(UsedBlocks(t), DATA_START, BlocksFor(size)), size)
  }

  /** Naming the new file in the root directory. */
  function RootEntryOp(fs: Fs, blk: nat, e: DirEntry): Option<Effect>
    requires DATA_START <= blk < TOTAL_SECTORS && |e.name| < MAX_FILENAME
  {
    var s := fs.Block(blk);
    var k := EmptySlot(Entries(s), 0);
    if k == ENTRIES then None else Some(SetBlock(blk, PutSlot(s, k, ToolImage(e))))
  }

  /** The root directory has its block, and names in it lead to inodes in use. */
  predicate RootUsable(fs: Fs, name: Name) {
    HasBlock(fs, 0) && fs.table[0].Dir() && LeadsToUsed(fs, 0, name)
  }

  /** The set-up of a new file, before it is named. */
  function PutNewSetup(fs: Fs, data: seq<Byte>): (es: seq<Effect>)
    requires FreeInode(fs.table, 1) < INODE_COUNT && BlocksFor(|data|) <= DIRECT_BLOCKS
    ensures AllOk(es)
  {
    FreeRunOnDisk(fs.table, BlocksFor(|data|));
    StoreFile(FreeInode(fs.table, 1), FreeRun(UsedBlocks(fs.table), DATA_START, BlocksFor(|data|)), data)
  }

  /** put_file; the code is -1 where the tool raises an error. */
  function PutOp(fs: Fs, name: Name, data: seq<Byte>): Outcome
    requires RootUsable(fs, name) && OnDiskInodes(fs.table)
  {
    if |name| >= MAX_FILENAME || BlocksFor(|data|) > DIRECT_BLOCKS then Outcome(-1, [])
    else match Lookup(ViewOf(fs), 0, name)
      case Some(f) =>
        ReassignedOnDisk(fs.table, f, BlocksFor(|data|));
        Outcome(0, StoreFile(f, Reassigned(fs.table, f, BlocksFor(|data|)), data))
      case None =>
        if FreeInode(fs.table, 1) == INODE_COUNT then Outcome(-1, [])
        else
          var es := PutNewSetup(fs, data);
          match RootEntryOp(DoAll(fs, es), fs.table[0].blocks[0], DirEntry(FreeInode(fs.table, 1), name))
          case None => Outcome(-1, es)
          case Some(e) => Outcome(0, es + [e])
  }

  ghost predicate OnDiskInodes(t: Table) {
    forall i {:trigger BlocksOnDisk(t[i])} :: 0 <= i < INODE_COUNT && t[i].Used() ==> BlocksOnDisk(t[i])
  }

  lemma NonZeroFrom(bs: seq<U32>, k: nat)
    requires k < |NonZero(bs)|
    ensures NonZero(bs)[k] in bs
  {
    if bs[0] == 0 {
      NonZeroFrom(bs[1..], k);
    } else if k > 0 {
      NonZeroFrom(bs[1..], k - 1);
    }
  }

  lemma ReassignedOnDisk(t: Table, f: nat, n: nat)
    requires f < INODE_COUNT && n <= DIRECT_BLOCKS && BlocksOnDisk(t[f])
    ensures OnDisk(Reassigned(t, f, n))
  {
    hide UsedBlocks, FreeRun, NonZero;
    var cur := NonZero(t[f].blocks);
    forall k | 0 <= k < |cur|
      ensures DATA_START <= cur[k] < TOTAL_SECTORS
    {
      NonZeroFrom(t[f].blocks, k);
    }
    if |cur| < n {
      FreeRunOnDisk(t, n - |cur|);
    }
  }

  // ---- rm

  function RmOp(fs: Fs, name: Name): Outcome
    requires RootUsable(fs, name)
  {
    match Lookup(ViewOf(fs), 0, name)
    case None => Outcome(-1, [])
    case Some(f) =>
      if fs.table[f].Dir() then Outcome(-1, [])
      else
        var blk := fs.table[0].blocks[0];
        var k := FindSlot(Entries(fs.Block(blk)), name, 0);
        if k == ENTRIES then Outcome(-1, [])
        else Outcome(0, [SetInode(f, Inode(0, 0, NoBlocks())), SetBlock(blk, PutSlot(fs.Block(blk), k, ZeroImage()))])
  }
}
