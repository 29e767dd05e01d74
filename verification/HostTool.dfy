/**
 tools/simplefs_tool.py over the same array of sectors.
 */
module HostToolImpl {
  import opened Machine
  import opened DiskFormat
  import opened Ownership
  import opened Namespace
  import opened FsSpec
  import opened Consistency
  import opened Creation
  import opened FileData
  import opened KernelFs
  import opened HostSpec
  import opened HostProof
  import opened HostKernel
  import opened Runs

  /** A row of list_dir. */
  datatype Row = Row(entryIdx: nat, inodeIdx: nat, name: Name, size: nat, isDir: bool, blocks: seq<U32>)

  function RowOf(fs: Fs, l: Listing, k: nat): Row
    requires k < ENTRIES && l[k].ino < INODE_COUNT
  {
    var x := fs.table[l[k].ino];
    Row(k, l[k].ino, l[k].name, x.size, x.Dir(), NonZero(x.blocks))
  }

  /** Named entries lead to inodes of the table. */
  predicate InTable(l: Listing) {
    forall k :: 0 <= k < ENTRIES && l[k].name != [] ==> l[k].ino < INODE_COUNT
  }

  /** The rows of the first n slots: one for each that carries a name. */
  function Rows(fs: Fs, l: Listing, n: nat): seq<Row>
    requires n <= ENTRIES && InTable(l)
  {
    if n == 0 then []
    else if l[n - 1].name == [] then Rows(fs, l, n - 1)
    else Rows(fs, l, n - 1) + [RowOf(fs, l, n - 1)]
  }

  lemma RowsPrefix(fs: Fs, l: Listing, n: nat, i: nat)
    requires 0 < n <= ENTRIES && InTable(l) && i < |Rows(fs, l, n - 1)|
    ensures i < |Rows(fs, l, n)| && Rows(fs, l, n)[i] == Rows(fs, l, n - 1)[i]
  {
  }

  /** The first row with a name, as the tool searches it, is the slot the kernel's lookup
      finds. */
  lemma {:induction false} RowsFind(fs: Fs, l: Listing, n: nat, name: Name, j: nat)
    requires n <= ENTRIES && InTable(l) && name != [] && j < |Rows(fs, l, n)|
    requires Rows(fs, l, n)[j].name == name && forall i :: 0 <= i < j ==> Rows(fs, l, n)[i].name != name
    ensures var k := FindSlot(l, name, 0); k < n && Rows(fs, l, n)[j] == RowOf(fs, l, k)
    decreases n
  {
    var rows := Rows(fs, l, n - 1);
    if l[n - 1].name == [] || j < |rows| {
      forall i | 0 <= i <= j
        ensures Rows(fs, l, n)[i] == rows[i]
      {
        RowsPrefix(fs, l, n, i);
      }
      RowsFind(fs, l, n - 1, name, j);
    } else {
      forall i | 0 <= i < |rows|
        ensures rows[i].name != name
      {
        RowsPrefix(fs, l, n, i);
      }
      RowsMiss(fs, l, n - 1, name);
      assert Rows(fs, l, n)[j] == RowOf(fs, l, n - 1);
      FirstSlot(l, name, n - 1);
    }
  }

  lemma FirstSlot(l: Listing, name: Name, k: nat)
    requires k < ENTRIES && l[k].name == name && name != [] && forall i :: 0 <= i < k ==> l[i].name != name
    ensures FindSlot(l, name, 0) == k
  {
    assert l[FindSlot(l, name, 0)].name == name;
  }

  lemma NoSlot(l: Listing, name: Name)
    requires forall k :: 0 <= k < ENTRIES ==> l[k].name != name
    ensures FindSlot(l, name, 0) == ENTRIES
  {
  }

  lemma {:induction false} RowsMiss(fs: Fs, l: Listing, n: nat, name: Name)
    requires n <= ENTRIES && InTable(l) && name != [] && forall i :: 0 <= i < |Rows(fs, l, n)| ==> Rows(fs, l, n)[i].name != name
    ensures forall k :: 0 <= k < n ==> l[k].name != name
    decreases n
  {
    if n > 0 {
      var rows, prev := Rows(fs, l, n), Rows(fs, l, n - 1);
      forall i | 0 <= i < |prev|
        ensures prev[i].name != name
      {
        RowsPrefix(fs, l, n, i);
      }
      RowsMiss(fs, l, n - 1, name);
      if l[n - 1].name != [] {
        assert rows[|rows| - 1] == RowOf(fs, l, n - 1);
      }
    }
  }

  /** A row says what its slot and the inode behind it say, zeros among the blocks left out. */
  predicate RowRight(fs: Fs, l: Listing, r: Row) {
    && r.entryIdx < ENTRIES && r.name == l[r.entryIdx].name != [] && r.inodeIdx == l[r.entryIdx].ino < INODE_COUNT
    && var x := fs.table[r.inodeIdx];
      r.size == x.size && r.isDir == x.Dir() && multiset(r.blocks) == multiset(x.blocks)[0 := 0]
  }

  /** One such row for each named slot, in the order of the slots. */
  lemma {:induction false} RowsAre(fs: Fs, l: Listing, n: nat)
    requires n <= ENTRIES && InTable(l)
    ensures forall j :: 0 <= j < |Rows(fs, l, n)| ==> RowRight(fs, l, Rows(fs, l, n)[j]) && Rows(fs, l, n)[j].entryIdx < n
    ensures forall i, j :: 0 <= i < j < |Rows(fs, l, n)| ==> Rows(fs, l, n)[i].entryIdx < Rows(fs, l, n)[j].entryIdx
    decreases n
  {
    hide RowRight, RowOf;
    if n > 0 {
      RowsAre(fs, l, n - 1);
      if l[n - 1].name != [] {
        RowOfRight(fs, l, n - 1);
      }
    }
  }

  lemma RowOfRight(fs: Fs, l: Listing, k: nat)
    requires k < ENTRIES && l[k].ino < INODE_COUNT && l[k].name != []
    ensures RowRight(fs, l, RowOf(fs, l, k)) && RowOf(fs, l, k).entryIdx == k
  {
    NonZeroKeeps(fs.table[l[k].ino].blocks);
  }

  lemma {:induction false} RowsCover(fs: Fs, l: Listing, n: nat, k: nat) returns (j: nat)
    requires k < n <= ENTRIES && InTable(l) && l[k].name != []
    ensures j < |Rows(fs, l, n)| && Rows(fs, l, n)[j].entryIdx == k
    decreases n
  {
    if k < n - 1 {
      j := RowsCover(fs, l, n - 1, k);
      RowsPrefix(fs, l, n, j);
    } else {
      j := |Rows(fs, l, n - 1)|;
    }
  }

  class HostTool {
    const sectors: array<Sector>
    var totalSectors: U32
    var inodeCount: U32
    var dataBlockStart: U32
    ghost var log: seq<Write>
    ghost var paths: Paths

    ghost function Image(): Disk
      requires sectors.Length == TOTAL_SECTORS
      reads sectors
    {
      sectors[..]
    }

    ghost function State(): Fs
      requires sectors.Length == TOTAL_SECTORS
      reads sectors
    {
      Decode(sectors[..])
    }

    ghost predicate Opened()
      reads this, sectors
    {
      sectors.Length == TOTAL_SECTORS && totalSectors == TOTAL_SECTORS && inodeCount == INODE_COUNT && dataBlockStart == DATA_START
    }

    ghost predicate Valid()
      reads this, sectors
    {
      Opened() && Formatted(sectors[0]) && Sound(State(), paths)
    }

    /** Open the image of a sound file system and read its superblock. */
    constructor (disk: array<Sector>, ghost known: Paths)
      requires disk.Length == TOTAL_SECTORS && Formatted(disk[0]) && Sound(Decode(disk[..]), known)
      ensures sectors == disk && Valid() && paths == known
    {
      hide Sound, Decode;
      sectors := disk;
      totalSectors := U32At(disk[0], 4);
      inodeCount := U32At(disk[0], 8);
      dataBlockStart := U32At(disk[0], 12);
      paths := known;
    }

    method ReadSector(n: nat) returns (s: Sector)
      requires n < sectors.Length
      ensures s == sectors[n]
    {
      s := sectors[n];
    }

    method WriteSector(n: nat, s: Sector)
      requires n < sectors.Length
      modifies sectors, `log
      ensures sectors[..] == old(sectors[..])[n := s]
      ensures log == old(log) + [Write(n, s)]
    {
      sectors[n] := s;
      log := log + [Write(n, s)];
    }

    method ReadInode(i: nat) returns (x: Inode)
      requires Opened() && i < INODE_COUNT
      ensures x == State().table[i]
    {
      var buffer := ReadSector(INODE_START + i / 4);
      x := GetInode(buffer, i % 4);
    }

    method WriteInode(i: nat, x: Inode)
      requires Opened() && i < INODE_COUNT
      modifies sectors, `log
      ensures Opened() && Issued(old(Image()), old(log), [SetInode(i, x)], Image(), log)
    {
      hide PutInode, SectorWrites, Apply;
      ghost var d0, l0 := Image(), log;
      var buffer := ReadSector(INODE_START + i / 4);
      buffer := PutInode(buffer, i % 4, x);
      WriteSector(INODE_START + i / 4, buffer);
      IssuedOne(d0, l0, SetInode(i, x), Image(), log);
    }

    // ---- searches

    /** _get_all_used_blocks: add every non-zero block of every used inode. */
    method AllUsedBlocks() returns (used: set<nat>)
      requires Opened()
      ensures used == UsedBlocks(State().table)
    {
      hide GetInode, InodeAt;
      ghost var t := State().table;
      used := {};
      for idx := 0 to INODE_COUNT
        invariant forall b :: b in used <==> HeldBelow(t, idx, 0, b)
      {
        var inode := ReadInode(idx);
        if inode.Used() {
          for j := 0 to DIRECT_BLOCKS
            invariant forall b :: b in used <==> HeldBelow(t, idx, j, b)
          {
            HeldStep(t, idx, j);
            if inode.blocks[j] != 0 {
              used := used + {inode.blocks[j]};
            }
          }
        }
        HeldRow(t, idx, if inode.Used() then DIRECT_BLOCKS else 0);
      }
      HeldAll(t);
    }

    /** b is held by a slot scanned so far: an inode before idx, or one of its first j. */
    static ghost predicate HeldBelow(t: Table, idx: nat, j: nat, b: nat) {
      exists i, k :: 0 <= i < INODE_COUNT && 0 <= k < DIRECT_BLOCKS && (i < idx || (i == idx && k < j))
        && t[i].Used() && t[i].blocks[k] != 0 && t[i].blocks[k] == b
    }

    static lemma HeldStep(t: Table, idx: nat, j: nat)
      requires idx < INODE_COUNT && j < DIRECT_BLOCKS && t[idx].Used()
      ensures forall b :: HeldBelow(t, idx, j + 1, b) <==> HeldBelow(t, idx, j, b) || (t[idx].blocks[j] != 0 && b == t[idx].blocks[j])
    {
      forall b: nat
        ensures HeldBelow(t, idx, j + 1, b) <==> HeldBelow(t, idx, j, b) || (t[idx].blocks[j] != 0 && b == t[idx].blocks[j])
      {
        if HeldBelow(t, idx, j, b) {
          var i, k :| 0 <= i < INODE_COUNT && 0 <= k < DIRECT_BLOCKS && (i < idx || (i == idx && k < j))
            && t[i].Used() && t[i].blocks[k] != 0 && t[i].blocks[k] == b;
          assert i < idx || (i == idx && k < j + 1);
        }
      }
    }

    static lemma HeldRow(t: Table, idx: nat, j: nat)
      requires idx < INODE_COUNT && j == if t[idx].Used() then DIRECT_BLOCKS else 0
      ensures forall b :: HeldBelow(t, idx + 1, 0, b) <==> HeldBelow(t, idx, j, b)
    {
      forall b: nat
        ensures HeldBelow(t, idx + 1, 0, b) <==> HeldBelow(t, idx, j, b)
      {
        if HeldBelow(t, idx + 1, 0, b) {
          var i, k :| 0 <= i < INODE_COUNT && 0 <= k < DIRECT_BLOCKS && (i < idx + 1 || (i == idx + 1 && k < 0))
            && t[i].Used() && t[i].blocks[k] != 0 && t[i].blocks[k] == b;
          assert i < idx || (i == idx && k < j);
        }
        if HeldBelow(t, idx, j, b) {
          var i, k :| 0 <= i < INODE_COUNT && 0 <= k < DIRECT_BLOCKS && (i < idx || (i == idx && k < j))
            && t[i].Used() && t[i].blocks[k] != 0 && t[i].blocks[k] == b;
          assert i < idx + 1;
        }
      }
    }

    static lemma HeldAll(t: Table)
      ensures forall b :: HeldBelow(t, INODE_COUNT, 0, b) <==> b in UsedBlocks(t)
    {
    }

    /** _find_free_inode: the root is skipped; -1 stands for None. */
    method FindFreeInode() returns (r: int)
      requires Opened()
      ensures var c := FreeInode(State().table, 1); r == if c == INODE_COUNT then -1 else c
    {
      hide GetInode, InodeAt;
      ghost var t := State().table;
      var idx: nat := 1;
      while idx < INODE_COUNT
        invariant 1 <= idx <= INODE_COUNT
        invariant FreeInode(t, 1) == FreeInode(t, idx)
      {
        var inode := ReadInode(idx);
        if !inode.Used() {
          return idx;
        }
        idx := idx + 1;
      }
      return -1;
    }

    /** _find_free_blocks: one upward scan, bounded by the size of the disk; the bound is
        never what stops it. */
    method FindFreeBlocks(count: nat) returns (free: seq<nat>)
      requires Opened() && count <= DIRECT_BLOCKS
      ensures free == FreeRun(UsedBlocks(State().table), DATA_START, count)
    {
      hide FreeRun, UsedBlocks, GetInode, InodeAt, Pursuit;
      ghost var t := State().table;
      var used := AllUsedBlocks();
      free := [];
      var candidate: nat := dataBlockStart;
      PursuitStarts(used, count);
      while |free| < count && candidate < totalSectors
        invariant DATA_START <= candidate && |free| <= count && Pursuit(used, candidate, count, free)
      {
        PursuitStep(used, candidate, count, free);
        if candidate !in used {
          free := free + [candidate];
        }
        candidate := candidate + 1;
      }
      PursuitEnds(t, candidate, count, free);
    }

    /** What has been found, and what would still be found from c on, make up the whole run. */
    static ghost predicate Pursuit(u: set<nat>, c: nat, count: nat, free: seq<nat>) {
      |free| <= count && FreeRun(u, DATA_START, count) == free + FreeRun(u, c, count - |free|)
    }

    static lemma PursuitStarts(u: set<nat>, count: nat)
      ensures Pursuit(u, DATA_START, count, [])
    {
      hide FreeRun;
    }

    static lemma PursuitStep(u: set<nat>, c: nat, count: nat, free: seq<nat>)
      requires |free| < count && Pursuit(u, c, count, free)
      ensures Pursuit(u, c + 1, count, if c in u then free else free + [c])
    {
      hide FreeRun;
      var n := count - |free|;
      RunStep(u, c, n);
      assert free + ([c] + FreeRun(u, c + 1, n - 1)) == (free + [c]) + FreeRun(u, c + 1, n - 1);
    }

    static lemma RunStep(u: set<nat>, c: nat, n: nat)
      requires n > 0
      ensures c in u ==> FreeRun(u, c, n) == FreeRun(u, c + 1, n)
      ensures c !in u ==> FreeRun(u, c, n) == [c] + FreeRun(u, c + 1, n - 1)
    {
    }

    /** What is still to be found lies on the disk, so the scan did not stop short. */
    static lemma PursuitEnds(t: Table, c: nat, count: nat, free: seq<nat>)
      requires Pursuit(UsedBlocks(t), c, count, free) && count <= DIRECT_BLOCKS
      ensures if |free| == count then free == FreeRun(UsedBlocks(t), DATA_START, count) else c < TOTAL_SECTORS
    {
      hide UsedBlocks;
      var u, n := UsedBlocks(t), count - |free|;
      FreeRunOnDisk(t, count);
      if n > 0 {
        assert FreeRun(u, DATA_START, count)[|free|] == FreeRun(u, c, n)[0];
      } else {
        assert FreeRun(u, c, 0) == [];
      }
    }

    // ---- directory

    method ListRoot() returns (rows: seq<Row>)
      requires Valid()
      ensures ViewOf(State())[0].Folder? && InTable(ViewOf(State())[0].list)
      ensures rows == Rows(State(), ViewOf(State())[0].list, ENTRIES)
      ensures forall j :: 0 <= j < |rows| ==> RowRight(State(), ViewOf(State())[0].list, rows[j])
      ensures forall k :: 0 <= k < ENTRIES && ViewOf(State())[0].list[k].name != [] ==> exists j :: 0 <= j < |rows| && rows[j].entryIdx == k
    {
      hide GetEntry, GetInode, InodeAt, Sound, Tree, FindSlot, NonZero, RowRight;
      RootLive(State(), paths);
      RootListing(State());
      RootInTable(State(), paths);
      ghost var l := ViewOf(State())[0].list;
      var dirInode := ReadInode(0);
      var buf := ReadSector(dirInode.blocks[0]);
      rows := [];
      RowsAre(State(), l, ENTRIES);
      forall k | 0 <= k < ENTRIES && l[k].name != []
        ensures exists j :: 0 <= j < |Rows(State(), l, ENTRIES)| && Rows(State(), l, ENTRIES)[j].entryIdx == k
      {
        var j := RowsCover(State(), l, ENTRIES, k);
      }
      for i := 0 to ENTRIES
        invariant rows == Rows(State(), l, i)
      {
        var e := GetEntry(buf, i);
        assert Entries(buf)[i] == e;
        if e.name != [] {
          var inode := ReadInode(e.ino);
          rows := rows + [Row(i, e.ino, e.name, inode.size, inode.Dir(), NonZero(inode.blocks))];
        }
      }
    }

    static lemma RootInTable(s: Fs, w: Paths)
      requires Sound(s, w) && ViewOf(s)[0].Folder?
      ensures InTable(ViewOf(s)[0].list)
    {
      hide GetEntry, Disjoint, InodeOk;
      var l := ViewOf(s)[0].list;
      assert DirOk(l, 0, w);
      forall k | 0 <= k < ENTRIES && l[k].name != []
        ensures l[k].ino < INODE_COUNT
      {
        assert k >= 2 ==> KidOk(l[k], 0, w);
      }
    }

    /** The first row with this name, or nothing. */
    static method FindRow(rows: seq<Row>, name: Name) returns (r: int)
      ensures -1 <= r < |rows|
      ensures r >= 0 ==> rows[r].name == name && forall i :: 0 <= i < r ==> rows[i].name != name
      ensures r == -1 ==> forall i :: 0 <= i < |rows| ==> rows[i].name != name
    {
      for j := 0 to |rows|
        invariant forall i :: 0 <= i < j ==> rows[i].name != name
      {
        if rows[j].name == name {
          return j;
        }
      }
      return -1;
    }

    /** What the search of the rows found is what the kernel's lookup finds. */
    static lemma RowIsLookup(fs: Fs, rows: seq<Row>, r: int, name: Name)
      requires ViewOf(fs)[0].Folder? && InTable(ViewOf(fs)[0].list) && rows == Rows(fs, ViewOf(fs)[0].list, ENTRIES)
      requires name != [] && -1 <= r < |rows|
      requires r >= 0 ==> rows[r].name == name && forall i :: 0 <= i < r ==> rows[i].name != name
      requires r == -1 ==> forall i :: 0 <= i < |rows| ==> rows[i].name != name
      ensures r == -1 <==> Lookup(ViewOf(fs), 0, name).None?
      ensures r >= 0 ==>
        var k := FindSlot(ViewOf(fs)[0].list, name, 0);
        k < ENTRIES && Lookup(ViewOf(fs), 0, name) == Some(rows[r].inodeIdx) && rows[r].entryIdx == k && rows[r].inodeIdx < INODE_COUNT
    {
      hide ViewOf, Rows;
      var l := ViewOf(fs)[0].list;
      if r >= 0 {
        RowsFind(fs, l, ENTRIES, name, r);
      } else {
        RowsMiss(fs, l, ENTRIES, name);
        NoSlot(l, name);
      }
    }

    // ---- put

    /** Write the chunks of data to the blocks, each zero-padded to a sector. */
    method WriteData(bs: seq<nat>, data: seq<Byte>)
      requires Opened() && OnDisk(bs) && |bs| == BlocksFor(|data|)
      modifies sectors, `log
      ensures Opened() && Issued(old(Image()), old(log), StoreChunks(bs, data, |bs|), Image(), log)
    {
      hide SectorWrites, Apply, Issued, Chunk;
      ghost var d0, l0 := Image(), log;
      IssuedNothing(d0, l0);
      for i := 0 to |bs|
        invariant Issued(d0, l0, StoreChunks(bs, data, i), Image(), log)
      {
        ghost var d1, l1 := Image(), log;
        var chunk := data[512 * i..if |data| < 512 * i + 512 then |data| else 512 * i + 512];
        var padded := chunk + seq(512 - |chunk|, k => 0);
        PaddedChunk(data, i, chunk);
        WriteSector(bs[i], padded);
        IssuedOne(d1, l1, SetBlock(bs[i], padded), Image(), log);
        IssuedThen(d0, l0, StoreChunks(bs, data, i), d1, l1, [SetBlock(bs[i], padded)], Image(), log);
      }
    }

    static lemma PaddedChunk(data: seq<Byte>, i: nat, chunk: seq<Byte>)
      requires 512 * i < |data| && chunk == data[512 * i..if |data| < 512 * i + 512 then |data| else 512 * i + 512]
      ensures |chunk| <= 512 && chunk + seq(512 - |chunk|, k => 0) == Chunk(data, i)
    {
    }

    /** Write the new entry over the first nameless slot of the root directory. */
    method NameInRoot(inodeIdx: nat, name: Name) returns (slotFound: bool)
      requires Opened() && inodeIdx < INODE_COUNT && |name| < MAX_FILENAME
      requires DATA_START <= State().table[0].blocks[0] < TOTAL_SECTORS
      modifies sectors, `log
      ensures Opened()
      ensures match RootEntryOp(old(State()), old(State()).table[0].blocks[0], DirEntry(inodeIdx, name))
        case None => !slotFound && Image() == old(Image()) && log == old(log)
        case Some(e) => slotFound && Issued(old(Image()), old(log), [e], Image(), log)
    {
      hide GetEntry, GetInode, InodeAt, PutSlot, SectorWrites, Apply, Issued, ToolImage;
      ghost var d0, l0, fs := Image(), log, State();
      var rootInode := ReadInode(0);
      var dirBlock := rootInode.blocks[0];
      var buf := ReadSector(dirBlock);
      assert buf == fs.Block(dirBlock);
      ghost var l := Entries(buf);
      for i := 0 to ENTRIES
        invariant Image() == d0 && log == l0
        invariant forall k :: 0 <= k < i ==> l[k].name != []
      {
        var e := GetEntry(buf, i);
        assert l[i] == e;
        if e.name == [] {
          SimpleFs.EmptySlotIs(l, i);
          buf := PutSlot(buf, i, ToolImage(DirEntry(inodeIdx, name)));
          WriteSector(dirBlock, buf);
          IssuedOne(d0, l0, SetBlock(dirBlock, buf), Image(), log);
          return true;
        }
      }
      SimpleFs.EmptySlotIs(l, ENTRIES);
      return false;
    }

    /** The blocks for a file that already exists. */
    method ReuseBlocks(inodeIdx: nat, needed: nat) returns (bs: seq<nat>)
      requires Opened() && inodeIdx < INODE_COUNT && needed <= DIRECT_BLOCKS
      ensures bs == Reassigned(State().table, inodeIdx, needed)
    {
      hide NonZero, FreeRun, UsedBlocks, GetInode, InodeAt;
      var inode := ReadInode(inodeIdx);
      var current := NonZero(inode.blocks);
      if |current| < needed {
        var added := FindFreeBlocks(needed - |current|);
        bs := current + added;
      } else {
        bs := current[..needed];
      }
    }

    /** The body of put_file; -1 stands for a raised error. */
    method PutWrites(name: Name, data: seq<Byte>) returns (code: int)
      requires Valid() && name != [] && RootUsable(State(), name) && OnDiskInodes(State().table)
      modifies sectors, `log
      ensures Opened()
      ensures var r := PutOp(old(State()), name, data);
        code == r.code && Issued(old(Image()), old(log), r.es, Image(), log)
    {
      hide Sound, ViewOf, GetInode, InodeAt, SectorWrites, Apply, Issued, Lookup, FindSlot, FreeInode, StoreChunks, FreeRun, UsedBlocks,
           Padded, LeadsToUsed, OnDiskInodes, NonZero, Rows, RootEntryOp, Decode, Reassigned, FileImage;
      ghost var d0, l0, fs := Image(), log, State();
      IssuedNothing(d0, l0);
      if |name| >= MAX_FILENAME {
        return -1;
      }
      var needed := (|data| + SECTOR_SIZE - 1) / SECTOR_SIZE;
      if needed > DIRECT_BLOCKS {
        return -1;
      }
      var rows := ListRoot();
      var target := FindRow(rows, name);
      RowIsLookup(fs, rows, target, name);
      var inodeIdx: nat;
      var bs: seq<nat>;
      if target >= 0 {
        inodeIdx := rows[target].inodeIdx;
        FoundOnDisk(fs, name, inodeIdx, needed);
        bs := ReuseBlocks(inodeIdx, needed);
      } else {
        var free := FindFreeInode();
        if free == -1 {
          return -1;
        }
        inodeIdx := free;
        bs := FindFreeBlocks(needed);
        FreeRunOnDisk(fs.table, needed);
      }
      WriteData(bs, data);
      ghost var d1, l1 := Image(), log;
      WriteInode(inodeIdx, FileImage(bs, |data|));
      ghost var d2, l2, es := Image(), log, StoreFile(inodeIdx, bs, data);
      IssuedThen(d0, l0, StoreChunks(bs, data, |bs|), d1, l1, [SetInode(inodeIdx, FileImage(bs, |data|))], d2, l2);
      code := 0;
      if target == -1 {
        IssuedDecodes(d0, l0, es, d2, l2);
        RootKept(fs, inodeIdx, bs, data);
        var slotFound := NameInRoot(inodeIdx, name);
        if slotFound {
          IssuedThen(d0, l0, es, d2, l2, [RootEntryOp(Decode(d2), fs.table[0].blocks[0], DirEntry(inodeIdx, name)).value], Image(), log);
        } else {
          code := -1;
        }
      }
    }

    static lemma FoundOnDisk(fs: Fs, name: Name, f: nat, n: nat)
      requires RootUsable(fs, name) && OnDiskInodes(fs.table) && Lookup(ViewOf(fs), 0, name) == Some(f) && n <= DIRECT_BLOCKS
      ensures f < INODE_COUNT && OnDisk(Reassigned(fs.table, f, n))
    {
      hide ViewOf, Lookup, Reassigned;
      assert BlocksOnDisk(fs.table[f]);
      ReassignedOnDisk(fs.table, f, n);
    }

    /** Storing another file leaves the root's inode alone. */
    static lemma RootKept(fs: Fs, f: nat, bs: seq<nat>, data: seq<Byte>)
      requires 0 < f < INODE_COUNT && OnDisk(bs) && |bs| == BlocksFor(|data|) <= DIRECT_BLOCKS
      ensures DoAll(fs, StoreFile(f, bs, data)).table[0] == fs.table[0]
    {
      hide FileImage, StoreChunks;
      var es, e := StoreChunks(bs, data, |bs|), SetInode(f, FileImage(bs, |data|));
      DoAllSplit(fs, es, [e]);
      assert [e][1..] == [];
      BlocksOnly(fs, bs, data, |bs|);
    }

    static lemma {:induction false} BlocksOnly(fs: Fs, bs: seq<nat>, data: seq<Byte>, i: nat)
      requires OnDisk(bs) && i <= |bs| == BlocksFor(|data|)
      ensures DoAll(fs, StoreChunks(bs, data, i)).table == fs.table
    {
      hide Chunk;
      if i > 0 {
        var e := SetBlock(bs[i - 1], Chunk(data, i - 1));
        BlocksOnly(fs, bs, data, i - 1);
        DoAllSplit(fs, StoreChunks(bs, data, i - 1), [e]);
        assert [e][1..] == [];
      }
    }

    /** put_file.  The name is non-empty ASCII without NUL and does not belong to a
        directory; the image stays a sound file system.  RootUsable and OnDiskInodes follow
        from Valid (Runs.ToolReady). */
    method PutFile(name: Name, data: seq<Byte>) returns (code: int)
      requires Valid() && IsCName(name) && name != [] && RootUsable(State(), name) && OnDiskInodes(State().table)
      requires NotDirectory(State(), 0, name)
      modifies sectors, `log, `paths
      ensures Valid() && paths == PutPaths(old(State()), old(paths), name, data)
      ensures HasBlock(old(State()), 0)
      ensures code == 0 <==>
        |name| < 28 && |data| <= 15360 && (Lookup(ViewOf(old(State())), 0, name).Some? || CanAdd(old(State()), 0, name))
      ensures var r := PutOp(old(State()), name, data);
        code == r.code && Issued(old(Image()), old(log), r.es, Image(), log)
    {
      hide Sound, Formatted, PutOp, Issued, Decode, OnDiskInodes, RootUsable, PutPaths, NotDirectory, CanAdd, ViewOf, Lookup, HasBlock;
      PutIff(State(), paths, name, data);
      RootHasBlock(State(), name);
      ghost var d0, l0, w := Image(), log, paths;
      code := PutWrites(name, data);
      PutLeaves(d0, l0, PutOp(Decode(d0), name, data), Image(), log, w, name, data);
      paths := PutPaths(Decode(d0), w, name, data);
    }

    static lemma RootHasBlock(fs: Fs, name: Name)
      requires RootUsable(fs, name)
      ensures HasBlock(fs, 0)
    {
    }

    static ghost function PutPaths(fs: Fs, w: Paths, name: Name, data: seq<Byte>): Paths
      requires RootUsable(fs, name) && OnDiskInodes(fs.table)
    {
      if PutOp(fs, name, data).code == 0 && Lookup(ViewOf(fs), 0, name).None? then w[FreeInode(fs.table, 1) := [name]] else w
    }

    static lemma PutLeaves(d0: Disk, l0: seq<Write>, r: Outcome, d: Disk, l: seq<Write>, w: Paths, name: Name, data: seq<Byte>)
      requires Formatted(d0[0]) && Sound(Decode(d0), w) && IsCName(name) && name != []
      requires RootUsable(Decode(d0), name) && OnDiskInodes(Decode(d0).table) && NotDirectory(Decode(d0), 0, name)
      requires r == PutOp(Decode(d0), name, data) && Issued(d0, l0, r.es, d, l)
      ensures Formatted(d[0]) && Sound(Decode(d), PutPaths(Decode(d0), w, name, data))
    {
      hide Sound, SameTree, Formatted, Decode, ViewOf, Lookup, PutOp, NotDirectory, LeadsToUsed, OnDiskInodes, AddsChildOrNothing, FreeInode, Issued;
      var fs := Decode(d0);
      RootLive(fs, w);
      TargetIsFile(fs, w, 0, name);
      IssuedDecodes(d0, l0, r.es, d, l);
      var found := Lookup(ViewOf(fs), 0, name);
      assert r.es[..|r.es|] == r.es;
      if found.None? {
        PutNewCrash(fs, w, name, data);
        SimpleFs.ChildAdded(d0, l0, r, d, l, w, 0, FreeInode(fs.table, 1), name);
        assert [] + [name] == [name];
      } else if |name| < MAX_FILENAME && BlocksFor(|data|) <= DIRECT_BLOCKS {
        PutOverCrash(fs, w, name, data, found.value, |r.es|);
      } else {
        PutRefused(fs, name, data);
      }
    }

    // ---- rm

    /** Zero the 32 bytes of one entry of the root directory. */
    method ClearEntry(k: nat)
      requires Opened() && k < ENTRIES && DATA_START <= State().table[0].blocks[0] < TOTAL_SECTORS
      modifies sectors, `log
      ensures Opened()
      ensures var blk := old(State()).table[0].blocks[0];
        Issued(old(Image()), old(log), [SetBlock(blk, PutSlot(old(State()).Block(blk), k, ZeroImage()))], Image(), log)
    {
      hide PutSlot, GetInode, InodeAt, SectorWrites, Apply, ZeroImage, Issued;
      ghost var d0, l0 := Image(), log;
      var rootInode := ReadInode(0);
      var dirBlock := rootInode.blocks[0];
      var buf := ReadSector(dirBlock);
      buf := PutSlot(buf, k, ZeroImage());
      WriteSector(dirBlock, buf);
      IssuedOne(d0, l0, SetBlock(dirBlock, buf), Image(), log);
    }

    static lemma RootUntouched(fs: Fs, e: Effect)
      requires e.Ok() && e.SetInode? && e.i != 0 && DATA_START <= fs.table[0].blocks[0] < TOTAL_SECTORS
      ensures Do(fs, e).table[0] == fs.table[0] && Do(fs, e).data == fs.data
      ensures Do(fs, e).Block(fs.table[0].blocks[0]) == fs.Block(fs.table[0].blocks[0])
    {
    }

    /** The body of rm_file. */
    method RmWrites(name: Name) returns (code: int)
      requires Valid() && name != [] && RootUsable(State(), name)
      modifies sectors, `log
      ensures Opened()
      ensures var r := RmOp(old(State()), name);
        code == r.code && Issued(old(Image()), old(log), r.es, Image(), log)
    {
      hide Sound, ViewOf, GetInode, InodeAt, SectorWrites, Apply, Issued, Lookup, FindSlot, LeadsToUsed, Rows, Decode, PutSlot, Entries, ZeroImage;
      ghost var d0, l0, fs := Image(), log, State();
      IssuedNothing(d0, l0);
      var rows := ListRoot();
      var target := FindRow(rows, name);
      RowIsLookup(fs, rows, target, name);
      if target == -1 {
        return -1;
      }
      var inodeIdx := rows[target].inodeIdx;
      var inode := ReadInode(inodeIdx);
      if inode.Dir() {
        return -1;
      }
      ghost var e1 := SetInode(inodeIdx, Inode(0, 0, NoBlocks()));
      WriteInode(inodeIdx, Inode(0, 0, NoBlocks()));
      ghost var d1, l1 := Image(), log;
      IssuedOneDecodes(d0, l0, e1, d1, l1);
      RootAndBlock(fs, name, inodeIdx);
      ghost var e2 := SetBlock(fs.table[0].blocks[0], PutSlot(fs.Block(fs.table[0].blocks[0]), rows[target].entryIdx, ZeroImage()));
      RootUntouched(fs, e1);
      ClearEntry(rows[target].entryIdx);
      IssuedThen(d0, l0, [e1], d1, l1, [e2], Image(), log);
      RmIs(fs, name, inodeIdx, rows[target].entryIdx, e1, e2);
      return 0;
    }

    static lemma RmIs(fs: Fs, name: Name, f: nat, k: nat, e1: Effect, e2: Effect)
      requires RootUsable(fs, name) && Lookup(ViewOf(fs), 0, name) == Some(f) && !fs.table[f].Dir()
      requires ViewOf(fs)[0] == Folder(Entries(fs.Block(fs.table[0].blocks[0])))
      requires k == FindSlot(ViewOf(fs)[0].list, name, 0) < ENTRIES
      requires e1 == SetInode(f, Inode(0, 0, NoBlocks()))
      requires e2 == SetBlock(fs.table[0].blocks[0], PutSlot(fs.Block(fs.table[0].blocks[0]), k, ZeroImage()))
      ensures RmOp(fs, name) == Outcome(0, [e1] + [e2])
    {
      hide ViewOf, Lookup, FindSlot, PutSlot, Entries, ZeroImage, NoBlocks;
      assert [e1] + [e2] == [e1, e2];
    }

    static lemma RootAndBlock(fs: Fs, name: Name, f: nat)
      requires RootUsable(fs, name) && f < INODE_COUNT && !fs.table[f].Dir()
      ensures f != 0 && ViewOf(fs)[0] == Folder(Entries(fs.Block(fs.table[0].blocks[0])))
    {
      hide Entries, Lookup;
    }

    /** rm_file: a file goes, with its inode and its name; anything else is an error that
        writes nothing. */
    method RmFile(name: Name) returns (code: int)
      requires Valid() && name != [] && RootUsable(State(), name)
      modifies sectors, `log, `paths
      ensures Valid() && paths == RmPaths(old(State()), old(paths), name)
      ensures var f := Lookup(ViewOf(old(State())), 0, name);
        code == 0 <==> f.Some? && f.value < INODE_COUNT && !old(State()).table[f.value].Dir()
      ensures var r := RmOp(old(State()), name);
        code == r.code && Issued(old(Image()), old(log), r.es, Image(), log)
    {
      hide Sound, Formatted, RmOp, Issued, Decode, RootUsable, RmPaths, ViewOf, Lookup;
      RmIff(State(), paths, name);
      ghost var d0, l0, w := Image(), log, paths;
      code := RmWrites(name);
      RmLeaves(d0, l0, RmOp(Decode(d0), name), Image(), log, w, name);
      paths := RmPaths(Decode(d0), w, name);
    }

    static ghost function RmPaths(fs: Fs, w: Paths, name: Name): Paths
      requires RootUsable(fs, name)
    {
      var r := Lookup(ViewOf(fs), 0, name);
      if RmOp(fs, name).code == 0 && r.Some? then w - {r.value} else w
    }

    static lemma RmLeaves(d0: Disk, l0: seq<Write>, r: Outcome, d: Disk, l: seq<Write>, w: Paths, name: Name)
      requires Formatted(d0[0]) && Sound(Decode(d0), w) && RootUsable(Decode(d0), name)
      requires r == RmOp(Decode(d0), name) && Issued(d0, l0, r.es, d, l)
      ensures Formatted(d[0]) && Sound(Decode(d), RmPaths(Decode(d0), w, name))
    {
      hide Sound, SameTree, Formatted, Decode, ViewOf, Lookup, LeadsToUsed, Issued, FindSlot, RmOp, RootUsable;
      var fs := Decode(d0);
      IssuedDecodes(d0, l0, r.es, d, l);
      var found := Lookup(ViewOf(fs), 0, name);
      if found.Some? && found.value < INODE_COUNT && !fs.table[found.value].Dir() {
        TargetLive(fs, w, name);
        RmRemoves(fs, w, name, found.value);
      } else {
        RmNothing(fs, name);
      }
    }

    static lemma RmNothing(fs: Fs, name: Name)
      requires RootUsable(fs, name)
      requires var r := Lookup(ViewOf(fs), 0, name); r.None? || r.value >= INODE_COUNT || fs.table[r.value].Dir()
      ensures RmOp(fs, name) == Outcome(-1, [])
    {
      hide ViewOf, Lookup;
    }
  }
}
