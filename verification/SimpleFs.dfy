/**
 fs/simplefs.cpp over an array of sectors.  Every method that changes the disk states the
 exact list of sector writes it issued, as a function of the disk it started from.
 */
module KernelFs {
  import opened Machine
  import opened DiskFormat
  import opened Ownership
  import opened Namespace
  import opened FsSpec
  import opened Consistency
  import opened Creation
  import opened FileData

  /** d and log after issuing the sector writes of es from d0 and log0. */
  ghost predicate Issued(d0: Disk, log0: seq<Write>, es: seq<Effect>, d: Disk, log: seq<Write>) {
    AllOk(es) && d == Apply(d0, SectorWrites(d0, es)) && log == log0 + SectorWrites(d0, es)
  }

  lemma IssuedNothing(d: Disk, log: seq<Write>)
    ensures Issued(d, log, [], d, log)
  {
  }

  lemma IssuedThen(d0: Disk, l0: seq<Write>, a: seq<Effect>, d1: Disk, l1: seq<Write>, b: seq<Effect>, d2: Disk, l2: seq<Write>)
    requires Issued(d0, l0, a, d1, l1) && Issued(d1, l1, b, d2, l2)
    ensures Issued(d0, l0, a + b, d2, l2)
  {
    hide SectorWrites, Apply, Effect.Ok;
    SectorWritesSplit(d0, a, b);
    ApplySplit(d0, SectorWrites(d0, a), SectorWrites(d1, b));
  }

  lemma IssuedOne(d0: Disk, l0: seq<Write>, e: Effect, d1: Disk, l1: seq<Write>)
    requires e.Ok() && d1 == Store(d0, SectorWrite(d0, e)) && l1 == l0 + [SectorWrite(d0, e)]
    ensures Issued(d0, l0, [e], d1, l1)
  {
    hide SectorWrite;
    var w := SectorWrite(d0, e);
    assert SectorWrites(d0, [e]) == [w] + SectorWrites(Store(d0, w), [e][1..]);
    assert SectorWrites(d0, [e]) == [w];
    assert [w][1..] == [];
    assert Apply(d0, [w]) == Apply(Store(d0, w), [w][1..]);
  }

  /** The decoded state after those writes. */
  lemma IssuedDecodes(d0: Disk, l0: seq<Write>, es: seq<Effect>, d: Disk, log: seq<Write>)
    requires Issued(d0, l0, es, d, log)
    ensures Decode(d) == DoAll(Decode(d0), es) && d[0] == d0[0]
  {
    DecodePrefix(d0, es, |es|);
    assert SectorWrites(d0, es)[..|es|] == SectorWrites(d0, es) && es[..|es|] == es;
  }

  lemma IssuedOneDecodes(d0: Disk, l0: seq<Write>, e: Effect, d: Disk, log: seq<Write>)
    requires Issued(d0, l0, [e], d, log)
    ensures e.Ok() && Decode(d) == Do(Decode(d0), e) && d[0] == d0[0]
  {
    hide SectorWrites, Decode, Do;
    assert [e][0].Ok();
    IssuedDecodes(d0, l0, [e], d, log);
    assert [e][1..] == [];
  }

  lemma TableRow(d: Disk, sec: nat, k: nat)
    requires INODE_START <= sec < DATA_START && k < 4
    ensures Decode(d).table[(sec - INODE_START) * 4 + k] == GetInode(d[sec], k)
  {
    hide GetInode;
    RowIndex(sec - INODE_START, k);
    assert Decode(d).table[(sec - INODE_START) * 4 + k] == InodeAt(d, (sec - INODE_START) * 4 + k);
  }

  lemma RowIndex(s: nat, k: nat)
    requires k < 4
    ensures (s * 4 + k) / 4 == s && (s * 4 + k) % 4 == k
  {
  }

  // ---- formatting

  function SuperblockSector(): Sector {
    EncodeWords([MAGIC, TOTAL_SECTORS, INODE_COUNT, DATA_START]) + seq(496, i => 0)
  }

  function RootInode(): Inode { Inode(0, FLAG_DIR, NoBlocks()[0 := DATA_START]) }

  lemma SuperblockFormatted()
    ensures Formatted(SuperblockSector())
  {
    var ws := [MAGIC, TOTAL_SECTORS, INODE_COUNT, DATA_START];
    EncodedWordAt(ws, 0);
    EncodedWordAt(ws, 1);
    EncodedWordAt(ws, 2);
    EncodedWordAt(ws, 3);
  }

  lemma ZeroInodes(k: nat)
    requires k < 4
    ensures GetInode(ZeroSector(), k) == Inode(0, 0, NoBlocks())
  {
    ZeroDecodes(ZeroSector()[128 * k..128 * k + 128]);
  }

  lemma ZeroDecodes(b: seq<Byte>)
    requires |b| == 128 && forall i :: 0 <= i < 128 ==> b[i] == 0
    ensures DecodeInode(b) == Inode(0, 0, NoBlocks())
  {
    hide U32At;
    var x := DecodeInode(b);
    ZeroWord(b, 0);
    ZeroWord(b, 4);
    forall j | 0 <= j < DIRECT_BLOCKS
      ensures x.blocks[j] == 0
    {
      ZeroWord(b, 4 * (j + 2));
    }
    assert x.blocks == NoBlocks();
  }

  /** The table of a freshly formatted disk: the root directory and 63 free inodes. */
  lemma FormattedTable(d: Disk)
    requires d[INODE_START] == PutInode(ZeroSector(), 0, RootInode())
    requires forall sec :: INODE_START < sec < DATA_START ==> d[sec] == ZeroSector()
    ensures Inodes(d)[0] == RootInode()
    ensures forall i :: 0 < i < INODE_COUNT ==> Inodes(d)[i] == Inode(0, 0, NoBlocks())
  {
    hide GetInode, PutInode;
    GetPutInode(ZeroSector(), 0, RootInode(), 0);
    forall i | 0 < i < INODE_COUNT
      ensures InodeAt(d, i) == Inode(0, 0, NoBlocks())
    {
      ZeroInodes(i % 4);
      GetPutInode(ZeroSector(), 0, RootInode(), i % 4);
    }
  }

  lemma RootOnly(fs: Fs)
    requires fs.table[0] == RootInode() && forall i :: 0 < i < INODE_COUNT ==> fs.table[i] == Inode(0, 0, NoBlocks())
    requires FreshDir(Entries(fs.Block(DATA_START)), 0, 0)
    ensures Sound(fs, map[0 := []])
  {
    hide GetEntry;
    var w: Paths := map[0 := []];
    forall i | 0 <= i < INODE_COUNT
      ensures InodeOk(fs.table[i])
    {
    }
    assert DirOk(ViewOf(fs)[0].list, 0, w);
  }

  class SimpleFs {
    const sectors: array<Sector>
    var dataBlockStart: U32
    ghost var log: seq<Write>
    ghost var paths: Paths

    ghost function Image(): Disk
      requires sectors.Length == TOTAL_SECTORS
      reads sectors
    {
      sectors[..]
    }

    ghost function State(): Fs
      requires sectors.Length == TOTAL_SECTORS
      reads sectors
    {
      Decode(sectors[..])
    }

    ghost predicate Mounted()
      reads this, sectors
    {
      sectors.Length == TOTAL_SECTORS && dataBlockStart == DATA_START
    }

    ghost predicate Valid()
      reads this, sectors
    {
      Mounted() && Formatted(sectors[0]) && Sound(State(), paths)
    }

    method ReadSector(n: nat) returns (s: Sector)
      requires n < sectors.Length
      ensures s == sectors[n]
    {
      s := sectors[n];
    }

    method WriteSector(n: nat, s: Sector)
      requires n < sectors.Length
      modifies sectors, `log
      ensures sectors[..] == old(sectors[..])[n := s]
      ensures log == old(log) + [Write(n, s)]
    {
      sectors[n] := s;
      log := log + [Write(n, s)];
    }

    constructor (disk: array<Sector>)
      ensures sectors == disk
    {
      sectors := disk;
    }

    /** simplefs_init: mount a disk that carries the magic number, format any other.  A
        disk that carries it is trusted: it is left as it is and its data start is believed,
        so the result is sound exactly if it was. */
    method Init(ghost known: Paths)
      requires sectors.Length == TOTAL_SECTORS
      modifies this, sectors
      ensures old(U32At(sectors[0], 0) == MAGIC && U32At(sectors[0], 4) != 0) ==>
        Image() == old(Image()) && log == old(log) && paths == known && dataBlockStart == U32At(sectors[0], 12)
      ensures old(U32At(sectors[0], 0) == MAGIC && U32At(sectors[0], 4) != 0) ==>
        (Valid() <==> Formatted(sectors[0]) && Sound(State(), known))
      ensures !old(U32At(sectors[0], 0) == MAGIC && U32At(sectors[0], 4) != 0) ==>
        Valid() && paths == map[0 := []] && forall name: Name :: Kid(ViewOf(State()), 0, name) == None
      ensures old(Formatted(sectors[0])) ==> Image() == old(Image()) && log == old(log)
    {
      hide Sound, Tree, PutInode, FreshDirSector, GetInode, EncodeWords, Entries, Formatted;
      var buffer := ReadSector(0);
      FormattedStart(buffer);
      if U32At(buffer, 0) != MAGIC || U32At(buffer, 4) == 0 {
        dataBlockStart := DATA_START;
        WriteSector(0, SuperblockSector());
        for sec := INODE_START to DATA_START
          invariant dataBlockStart == DATA_START && sectors[0] == SuperblockSector()
          invariant forall k :: INODE_START <= k < sec ==> sectors[k] == ZeroSector()
        {
          WriteSector(sec, ZeroSector());
        }
        WriteSector(INODE_START, PutInode(ZeroSector(), 0, RootInode()));
        WriteSector(dataBlockStart, FreshDirSector(0, 0));
        SuperblockFormatted();
        FormattedTable(Image());
        FreshDirDecodes(0, 0);
        assert State().Block(DATA_START) == FreshDirSector(0, 0);
        RootOnly(State());
        RootEmpty(State());
        paths := map[0 := []];
      } else {
        dataBlockStart := U32At(buffer, 12);
        paths := known;
      }
    }

    static lemma FormattedStart(s: Sector)
      ensures Formatted(s) ==> U32At(s, 0) == MAGIC && U32At(s, 4) != 0 && U32At(s, 12) == DATA_START
    {
    }

    static lemma RootEmpty(fs: Fs)
      requires fs.table[0] == RootInode() && FreshDir(Entries(fs.Block(DATA_START)), 0, 0)
      ensures forall name: Name :: Kid(ViewOf(fs), 0, name) == None
    {
      hide GetEntry;
      assert ViewOf(fs)[0] == Folder(Entries(fs.Block(DATA_START)));
    }

    // ---- inodes

    method ReadInode(i: nat) returns (x: Inode)
      requires Mounted() && i < INODE_COUNT
      ensures x == State().table[i]
    {
      var buffer := ReadSector(i / 4 + INODE_START);
      x := GetInode(buffer, i % 4);
    }

    method WriteInode(i: nat, x: Inode)
      requires Mounted() && i < INODE_COUNT
      modifies sectors, `log
      ensures Mounted() && Issued(old(Image()), old(log), [SetInode(i, x)], Image(), log)
    {
      hide PutInode, SectorWrites, Apply;
      ghost var d0, l0 := Image(), log;
      var buffer := ReadSector(i / 4 + INODE_START);
      buffer := PutInode(buffer, i % 4, x);
      WriteSector(i / 4 + INODE_START, buffer);
      IssuedOne(d0, l0, SetInode(i, x), Image(), log);
    }

    /** Scan the table for the first inode not in use: its sector and place, or -1, -1. */
    method ScanForFreeInode() returns (targetSector: int, targetIndex: int)
      requires Mounted()
      ensures var c := FreeInode(State().table, 0);
        if c == INODE_COUNT then targetSector == -1
        else INODE_START <= targetSector < DATA_START && 0 <= targetIndex < 4 && c == (targetSector - INODE_START) * 4 + targetIndex
    {
      hide GetInode;
      ghost var t := State().table;
      targetSector, targetIndex := -1, -1;
      for sec := INODE_START to DATA_START
        invariant targetSector == -1
        invariant forall k :: 0 <= k < (sec - INODE_START) * 4 ==> t[k].Used()
      {
        var buffer := ReadSector(sec);
        for i := 0 to 4
          invariant targetSector == -1
          invariant forall k :: 0 <= k < (sec - INODE_START) * 4 + i ==> t[k].Used()
        {
          TableRow(Image(), sec, i);
          if !GetInode(buffer, i).Used() {
            FirstFree(t, (sec - INODE_START) * 4 + i);
            return sec, i;
          }
        }
      }
      FirstFree(t, INODE_COUNT);
    }

    /** Take the first inode not in use: clear it and set its flags. */
    method AllocateFreeInode(flags: U32) returns (r: int)
      requires Mounted()
      modifies sectors, `log
      ensures Mounted()
      ensures var c := FreeInode(old(State()).table, 0);
        if c == INODE_COUNT then r == -1 && Image() == old(Image()) && log == old(log)
        else r == c && Issued(old(Image()), old(log), [Alloc(c, flags)], Image(), log)
    {
      hide GetInode, PutInode, SectorWrites, Apply, Issued, FreeInode, InodeAt, NoBlocks;
      ghost var d0, l0 := Image(), log;
      var targetSector, targetIndex := ScanForFreeInode();
      if targetSector == -1 {
        return -1;
      }
      r := (targetSector - INODE_START) * 4 + targetIndex;
      RowIndex(targetSector - INODE_START, targetIndex);
      var buffer := ReadSector(targetSector);
      buffer := PutInode(buffer, targetIndex, Inode(0, flags, NoBlocks()));
      WriteSector(targetSector, buffer);
      IssuedOne(d0, l0, Alloc(r, flags), Image(), log);
    }

    static lemma FirstFree(t: Table, c: nat)
      requires c <= INODE_COUNT && (forall k :: 0 <= k < c ==> t[k].Used()) && (c < INODE_COUNT ==> !t[c].Used())
      ensures FreeInode(t, 0) == c
    {
      assert FreeInode(t, 0) < INODE_COUNT ==> !t[FreeInode(t, 0)].Used();
    }

    // ---- blocks

    /** Scan every slot of every used inode for the block number. */
    method IsBlockUsed(b: nat) returns (r: bool)
      requires Mounted() && b != 0
      ensures r <==> b in UsedBlocks(State().table)
    {
      hide GetInode;
      ghost var d, t := Image(), State().table;
      ghost var n := 0;
      for sec := INODE_START to DATA_START
        invariant forall i, j :: 0 <= i < (sec - INODE_START) * 4 && 0 <= j < DIRECT_BLOCKS && t[i].Used() ==> t[i].blocks[j] != b
      {
        var buffer := ReadSector(sec);
        for i := 0 to 4
          invariant forall k, j :: 0 <= k < (sec - INODE_START) * 4 + i && 0 <= j < DIRECT_BLOCKS && t[k].Used() ==> t[k].blocks[j] != b
        {
          TableRow(d, sec, i);
          var x := GetInode(buffer, i);
          if x.Used() {
            for j := 0 to DIRECT_BLOCKS
              invariant forall k :: 0 <= k < j ==> x.blocks[k] != b
            {
              if x.blocks[j] == b {
                assert t[(sec - INODE_START) * 4 + i].blocks[j] == b;
                return true;
              }
            }
          }
        }
      }
      return false;
    }

    /** The loop has no bound of its own; it ends because each probe strikes a used block
        off the finite set of those at or after the candidate. */
    method FindFreeDataBlock() returns (b: nat)
      requires Mounted()
      ensures b == FreeBlock(State().table)
    {
      var candidate: nat := dataBlockStart;
      ghost var u := UsedBlocks(State().table);
      var used := IsBlockUsed(candidate);
      while used
        invariant DATA_START <= candidate
        invariant used <==> candidate in u
        invariant LeastFree(u, DATA_START) == LeastFree(u, candidate)
        decreases From(u, candidate), used
      {
        FromShrinks(u, candidate);
        candidate := candidate + 1;
        used := IsBlockUsed(candidate);
      }
      b := candidate;
    }

    // ---- directories

    /** A reachable inode.  The last two facts follow from the first (Creation.SoundDir). */
    ghost predicate Reachable(i: nat)
      requires sectors.Length == TOTAL_SECTORS
      reads this, sectors
    {
      i in paths && i < INODE_COUNT && HasBlock(State(), i)
    }

    method AddDirEntry(dirBlock: nat, e: DirEntry) returns (r: int)
      requires Mounted() && DATA_START <= dirBlock < TOTAL_SECTORS && |e.name| < MAX_FILENAME
      modifies sectors, `log
      ensures Mounted()
      ensures match AddEntryOp(old(State()), dirBlock, e)
        case None => r == -1 && Image() == old(Image()) && log == old(log)
        case Some(f) => r == 0 && Issued(old(Image()), old(log), [f], Image(), log)
    {
      hide GetEntry, EntryImage, PutSlot, SectorWrites, Apply;
      ghost var d0, l0 := Image(), log;
      var buffer := ReadSector(dirBlock);
      ghost var l := Entries(buffer);
      for i := 0 to ENTRIES
        invariant Image() == d0 && log == l0
        invariant forall k :: 0 <= k < i ==> l[k].name != []
      {
        assert l[i] == GetEntry(buffer, i);
        if GetEntry(buffer, i).name == [] {
          EmptySlotIs(l, i);
          buffer := PutSlot(buffer, i, EntryImage(SlotImage(buffer, i), e));
          WriteSector(dirBlock, buffer);
          IssuedOne(d0, l0, SetBlock(dirBlock, buffer), Image(), log);
          return 0;
        }
      }
      EmptySlotIs(l, ENTRIES);
      return -1;
    }

    static lemma EmptySlotIs(l: Listing, k: nat)
      requires k <= ENTRIES && (forall j :: 0 <= j < k ==> l[j].name != []) && (k < ENTRIES ==> l[k].name == [])
      ensures EmptySlot(l, 0) == k
    {
      assert EmptySlot(l, 0) < ENTRIES ==> l[EmptySlot(l, 0)].name == [];
    }

    /** An unsigned word returned as an int. */
    static function Signed(i: nat): int {
      if i < 0x8000_0000 then i else i - 0x1_0000_0000
    }

    /** simplefs_lookup: the entry's inode number as a signed int, so a corrupt entry with
        all bits set would look like "not found". */
    method LookupName(dir: nat, name: Name) returns (r: int)
      requires Mounted() && dir < INODE_COUNT && HasBlock(State(), dir)
      ensures match Lookup(ViewOf(State()), dir, name)
        case None => r == -1
        case Some(i) => r == Signed(i)
    {
      hide GetEntry, GetInode;
      var inode := ReadInode(dir);
      if !inode.Dir() {
        return -1;
      }
      var buffer := ReadSector(inode.blocks[0]);
      ghost var l := Entries(buffer);
      for i := 0 to ENTRIES
        invariant forall k :: 0 <= k < i ==> l[k].name == [] || l[k].name != name
      {
        var e := GetEntry(buffer, i);
        assert l[i] == e;
        if e.name != [] && e.name == name {
          FindSlotIs(l, name, i);
          return Signed(e.ino);
        }
      }
      FindSlotIs(l, name, ENTRIES);
      return -1;
    }

    static lemma FindSlotIs(l: Listing, name: Name, k: nat)
      requires k <= ENTRIES && forall j :: 0 <= j < k ==> l[j].name == [] || l[j].name != name
      requires k < ENTRIES ==> l[k].name == name && name != []
      ensures FindSlot(l, name, 0) == k
    {
      var r := FindSlot(l, name, 0);
      assert r < ENTRIES ==> l[r].name == name && name != [];
    }

    /** The index-th entry of a directory, or nothing. */
    method GetDirEntry(dir: nat, index: int) returns (r: Option<DirEntry>)
      requires Mounted() && dir < INODE_COUNT && HasBlock(State(), dir)
      ensures r.Some? <==> 0 <= index < ENTRIES && ViewOf(State())[dir].Folder? && ViewOf(State())[dir].list[index].name != []
      ensures r.Some? ==> r.value == ViewOf(State())[dir].list[index]
    {
      hide GetEntry, GetInode;
      if index < 0 || index >= ENTRIES {
        return None;
      }
      var inode := ReadInode(dir);
      if !inode.Dir() {
        return None;
      }
      var buffer := ReadSector(inode.blocks[0]);
      var e := GetEntry(buffer, index);
      assert Entries(buffer)[index] == e;
      if e.name == [] {
        return None;
      }
      return Some(e);
    }

    // ---- create and mkdir

    /** What Create and Mkdir leave when their writes are exactly those of the
        specification: a valid file system whose tree gained the child, or not. */
    static lemma ChildAdded(d0: Disk, l0: seq<Write>, r: Outcome, d: Disk, l: seq<Write>, w: Paths, a: nat, c: nat, name: Name)
      requires Formatted(d0[0]) && Sound(Decode(d0), w) && a in w && a < INODE_COUNT
      requires AddsChildOrNothing(Decode(d0), r, w, a, c, name) && Issued(d0, l0, r.es, d, l)
      ensures Formatted(d[0]) && Sound(Decode(d), if r.code == 0 then w[c := w[a] + [name]] else w)
    {
      hide Sound, SameTree, Formatted, Decode;
      IssuedDecodes(d0, l0, r.es, d, l);
      assert r.es[..|r.es|] == r.es;
    }

    /** In a sound tree names lead to inodes of the table. */
    static lemma NameFits(s: Fs, w: Paths, dir: nat, name: Name)
      requires Sound(s, w) && dir in w
      ensures dir < INODE_COUNT && Lookup(ViewOf(s), dir, name) != Some(0xFFFF_FFFF)
    {
      hide Sound, ViewOf, Lookup;
      SoundLeads(s, w, dir, name);
    }

    method Create(parent: nat, name: Name) returns (code: int)
      requires Valid() && Reachable(parent) && IsCName(name)
      modifies sectors, `log, `paths
      ensures Valid()
      ensures code == 0 <==> CanAdd(old(State()), parent, name)
      ensures var r := CreateOp(old(State()), parent, name);
        && code == r.code
        && Issued(old(Image()), old(log), r.es, Image(), log)
        && paths == if r.code == 0 then old(paths)[FreeInode(old(State()).table, 0) := old(paths)[parent] + [name]] else old(paths)
    {
      hide Sound, Formatted, AddsChildOrNothing, CreateOp, FreeInode, Issued, Decode, HasBlock, ViewOf, Lookup, CanAdd;
      ghost var d0, l0, w, c := Image(), log, paths, FreeInode(State().table, 0);
      CreateCrash(State(), paths, parent, name);
      CreateIff(State(), paths, parent, name);
      NameFits(State(), paths, parent, name);
      code := CreateWrites(parent, name);
      ChildAdded(d0, l0, CreateOp(Decode(d0), parent, name), Image(), log, w, parent, c, name);
      paths := if code == 0 then w[c := w[parent] + [name]] else w;
    }

    /** The body of simplefs_create. */
    method CreateWrites(parent: nat, name: Name) returns (code: int)
      requires Mounted() && parent < INODE_COUNT && HasBlock(State(), parent)
      requires Lookup(ViewOf(State()), parent, name) != Some(0xFFFF_FFFF)
      modifies sectors, `log
      ensures Mounted()
      ensures var r := CreateOp(old(State()), parent, name);
        code == r.code && Issued(old(Image()), old(log), r.es, Image(), log)
    {
      hide Entries, ViewOf, FreeInode, SectorWrites, Apply, GetInode, InodeAt, Lookup, EmptySlot, PutSlot, EntryImage, Issued;
      ghost var d0, l0 := Image(), log;
      IssuedNothing(d0, l0);
      if |name| >= MAX_FILENAME || |name| == 0 {
        return -1;
      }
      var parentInode := ReadInode(parent);
      if !parentInode.Dir() {
        return -1;
      }
      var parentBlock := parentInode.blocks[0];
      var found := LookupName(parent, name);
      if found != -1 {
        return -1;
      }
      var target := AllocateFreeInode(FLAG_FILE);
      if target == -1 {
        return -1;
      }
      ghost var d1, l1 := Image(), log;
      IssuedOneDecodes(d0, l0, Alloc(target, FLAG_FILE), d1, l1);
      code := AddDirEntry(parentBlock, DirEntry(target, name));
      if code == 0 {
        IssuedThen(d0, l0, [Alloc(target, FLAG_FILE)], d1, l1,
                   [AddEntryOp(Decode(d1), parentBlock, DirEntry(target, name)).value], Image(), log);
      }
    }

    method Mkdir(parent: nat, name: Name) returns (code: int)
      requires Valid() && Reachable(parent) && IsCName(name)
      modifies sectors, `log, `paths
      ensures Valid()
      ensures code == 0 <==> CanAdd(old(State()), parent, name)
      ensures var r := MkdirOp(old(State()), parent, name);
        && code == r.code
        && Issued(old(Image()), old(log), r.es, Image(), log)
        && paths == if r.code == 0 then old(paths)[FreeInode(old(State()).table, 0) := old(paths)[parent] + [name]] else old(paths)
    {
      hide Sound, Formatted, AddsChildOrNothing, MkdirOp, FreeInode, Issued, Decode, HasBlock, ViewOf, Lookup, CanAdd;
      ghost var d0, l0, w, c := Image(), log, paths, FreeInode(State().table, 0);
      MkdirCrash(State(), paths, parent, name);
      MkdirIff(State(), paths, parent, name);
      NameFits(State(), paths, parent, name);
      code := MkdirWrites(parent, name);
      ChildAdded(d0, l0, MkdirOp(Decode(d0), parent, name), Image(), log, w, parent, c, name);
      paths := if code == 0 then w[c := w[parent] + [name]] else w;
    }

    /** The body of simplefs_mkdir. */
    method MkdirWrites(parent: nat, name: Name) returns (code: int)
      requires Mounted() && parent < INODE_COUNT && HasBlock(State(), parent)
      requires Lookup(ViewOf(State()), parent, name) != Some(0xFFFF_FFFF)
      modifies sectors, `log
      ensures Mounted()
      ensures var r := MkdirOp(old(State()), parent, name);
        code == r.code && Issued(old(Image()), old(log), r.es, Image(), log)
    {
      hide Entries, ViewOf, FreeInode, SectorWrites, Apply, GetInode, InodeAt, Lookup, EmptySlot, PutSlot, EntryImage, Issued,
           FreshDirSector, FreeBlock, MkdirSetup, NoBlocks;
      ghost var d0, l0 := Image(), log;
      IssuedNothing(d0, l0);
      if |name| >= MAX_FILENAME || |name| == 0 {
        return -1;
      }
      var parentInode := ReadInode(parent);
      if !parentInode.Dir() {
        return -1;
      }
      var parentBlock := parentInode.blocks[0];
      var found := LookupName(parent, name);
      if found != -1 {
        return -1;
      }
      var target := AllocateFreeInode(FLAG_DIR);
      if target == -1 {
        return -1;
      }
      ghost var d1, l1 := Image(), log;
      BuildDirectory(d0, l0, parent, target);
      ghost var d2, l2, setup := Image(), log, MkdirSetup(Decode(d0), parent, target);
      IssuedDecodes(d0, l0, setup, d2, l2);
      code := AddDirEntry(parentBlock, DirEntry(target, name));
      if code == 0 {
        IssuedThen(d0, l0, setup, d2, l2, [AddEntryOp(Decode(d2), parentBlock, DirEntry(target, name)).value], Image(), log);
      }
    }

    /** The middle of simplefs_mkdir: find a block, write "." and ".." to it, and hand it to
        the inode just taken. */
    method BuildDirectory(ghost d0: Disk, ghost l0: seq<Write>, parent: nat, target: nat)
      requires Mounted() && parent < INODE_COUNT && target < INODE_COUNT
      requires Issued(d0, l0, [Alloc(target, FLAG_DIR)], Image(), log)
      modifies sectors, `log
      ensures Mounted() && Issued(d0, l0, MkdirSetup(Decode(d0), parent, target), Image(), log)
    {
      hide SectorWrites, Apply, Issued, FreshDirSector, FreeBlock, UsedBlocks, PutInode, InodeAt;
      ghost var d1, l1, e1 := Image(), log, Alloc(target, FLAG_DIR);
      IssuedOneDecodes(d0, l0, e1, d1, l1);
      var block := FindFreeDataBlock();
      WriteSector(block, FreshDirSector(target, parent));
      ghost var d2, l2, e2 := Image(), log, SetBlock(block, FreshDirSector(target, parent));
      IssuedOne(d1, l1, e2, d2, l2);
      IssuedOneDecodes(d1, l1, e2, d2, l2);
      IssuedThen(d0, l0, [e1], d1, l1, [e2], d2, l2);
      var inode := ReadInode(target);
      inode := inode.(blocks := inode.blocks[0 := block]);
      WriteInode(target, inode);
      IssuedThen(d0, l0, [e1] + [e2], d2, l2, [SetInode(target, inode)], Image(), log);
      assert [e1] + [e2] + [SetInode(target, inode)] == MkdirSetup(Decode(d0), parent, target);
    }

    // ---- write and read

    /** simplefs_write: data is the caller's buffer, its length the size argument. */
    method WriteFile(parent: nat, name: Name, data: seq<Byte>) returns (code: int)
      requires Mounted() && parent < INODE_COUNT && HasBlock(State(), parent) && LeadsToUsed(State(), parent, name)
      requires |data| < 0x1_0000_0000
      modifies sectors, `log
      ensures Mounted()
      ensures var r := WriteOp(old(State()), parent, name, data);
        code == r.code && Issued(old(Image()), old(log), r.es, Image(), log)
    {
      hide ViewOf, SectorWrites, Apply, GetInode, InodeAt, Lookup, Issued, Chunk, WithBlock, WriteBlocks, Commit, NeededBlocks;
      ghost var d0, l0, fs := Image(), log, State();
      IssuedNothing(d0, l0);
      var fileIdx := LookupName(parent, name);
      if fileIdx == -1 {
        return -1;
      }
      var neededBlocks := NeededBlocks(|data|);
      if neededBlocks > DIRECT_BLOCKS {
        return -1;
      }
      var fileInode := ReadInode(fileIdx);
      ghost var all := WriteBlocks(fs, fileIdx, fileInode, data, 0, neededBlocks);
      ghost var done: seq<Effect> := [];
      assert [] + all == all;
      for i := 0 to neededBlocks
        invariant Mounted() && BlocksOnDisk(fileInode)
        invariant Issued(d0, l0, done, Image(), log)
        invariant all == done + WriteBlocks(State(), fileIdx, fileInode, data, i, neededBlocks)
      {
        ghost var d1, l1, x := Image(), log, fileInode;
        fileInode := WriteBlock(fileIdx, fileInode, data, i);
        ghost var es := Commit(fileIdx, x, i, fileInode) + [SetBlock(fileInode.blocks[i], Chunk(data, i))];
        IssuedDecodes(d1, l1, es, Image(), log);
        WriteBlocksStep(Decode(d1), fileIdx, x, data, i, neededBlocks);
        IssuedThen(d0, l0, done, d1, l1, es, Image(), log);
        assert done + (es + WriteBlocks(State(), fileIdx, fileInode, data, i + 1, neededBlocks))
            == (done + es) + WriteBlocks(State(), fileIdx, fileInode, data, i + 1, neededBlocks);
        done := done + es;
      }
      ghost var d1, l1 := Image(), log;
      WriteBlocksEnd(Decode(d1), fileIdx, fileInode, data, neededBlocks);
      fileInode := fileInode.(size := |data|);
      WriteInode(fileIdx, fileInode);
      IssuedThen(d0, l0, done, d1, l1, [SetInode(fileIdx, fileInode)], Image(), log);
      return 0;
    }

    static lemma WriteBlocksStep(m: Fs, f: nat, x: Inode, data: seq<Byte>, i: nat, n: nat)
      requires f < INODE_COUNT && BlocksOnDisk(x) && |data| < 0x1_0000_0000
      requires i < n <= DIRECT_BLOCKS && 512 * n < |data| + 512
      ensures var y := WithBlock(m, x, i);
        var es := Commit(f, x, i, y) + [SetBlock(y.blocks[i], Chunk(data, i))];
        AllOk(es) && WriteBlocks(m, f, x, data, i, n) == es + WriteBlocks(DoAll(m, es), f, y, data, i + 1, n)
    {
      hide Chunk, WithBlock, Commit, DoAll;
    }

    static lemma WriteBlocksEnd(m: Fs, f: nat, x: Inode, data: seq<Byte>, n: nat)
      requires f < INODE_COUNT && BlocksOnDisk(x) && |data| < 0x1_0000_0000 && n <= DIRECT_BLOCKS && 512 * n < |data| + 512
      ensures WriteBlocks(m, f, x, data, n, n) == [SetInode(f, x.(size := |data|))]
    {
    }

    /** One round of the write loop: allocate the slot's block if it has none, then store
        the chunk, zero-filled. */
    method WriteBlock(fileIdx: nat, inode: Inode, data: seq<Byte>, i: nat) returns (y: Inode)
      requires Mounted() && fileIdx < INODE_COUNT && BlocksOnDisk(inode) && i < DIRECT_BLOCKS && 512 * i < |data|
      modifies sectors, `log
      ensures Mounted() && y == WithBlock(old(State()), inode, i)
      ensures Issued(old(Image()), old(log), Commit(fileIdx, inode, i, y) + [SetBlock(y.blocks[i], Chunk(data, i))], Image(), log)
    {
      hide SectorWrites, Apply, Issued, FreeBlock, InodeAt, Chunk;
      ghost var d0, l0 := Image(), log;
      IssuedNothing(d0, l0);
      y := inode;
      if y.blocks[i] == 0 {
        var block := FindFreeDataBlock();
        y := y.(blocks := y.blocks[i := block]);
        WriteInode(fileIdx, y);
      }
      ghost var d1, l1, es := Image(), log, Commit(fileIdx, inode, i, y);
      var chunk := if |data| - i * 512 > 512 then 512 else |data| - i * 512;
      var buffer := data[i * 512..i * 512 + chunk] + seq(512 - chunk, k => 0);
      assert buffer == Chunk(data, i) by {
        ChunkIs(data, i, buffer, chunk);
      }
      WriteSector(y.blocks[i], buffer);
      IssuedOne(d1, l1, SetBlock(y.blocks[i], buffer), Image(), log);
      IssuedThen(d0, l0, es, d1, l1, [SetBlock(y.blocks[i], buffer)], Image(), log);
    }

    static lemma ChunkIs(data: seq<Byte>, i: nat, buffer: seq<Byte>, chunk: nat)
      requires 512 * i < |data| && chunk == (if |data| - i * 512 > 512 then 512 else |data| - i * 512)
      requires buffer == data[i * 512..i * 512 + chunk] + seq(512 - chunk, k => 0)
      ensures buffer == Chunk(data, i)
    {
    }

    static lemma ConcatStep(fs: Fs, x: Inode, i: nat, n: nat, buffer: Sector)
      requires Held(x, i + 1) && 512 * i < n && buffer == fs.Block(x.blocks[i])
      ensures Concat(fs, x, i)[..Least(512 * i, n)] + buffer[..Least(512, n - 512 * i)] == Concat(fs, x, i + 1)[..Least(512 * (i + 1), n)]
    {
    }

    static lemma NothingYet(fs: Fs, x: Inode)
      ensures Concat(fs, x, 0) == []
    {
    }

    /** simplefs_read: the bytes copied out, or nothing when it returns -1. */
    method ReadFile(parent: nat, name: Name, limit: nat) returns (r: Option<seq<Byte>>)
      requires Mounted() && parent < INODE_COUNT && HasBlock(State(), parent) && LeadsToUsed(State(), parent, name)
      ensures r == ReadOp(State(), parent, name, limit)
    {
      hide ViewOf, GetInode, InodeAt, Lookup, FindSlot, Concat;
      var fileIdx := LookupName(parent, name);
      if fileIdx == -1 {
        return None;
      }
      var fileInode := ReadInode(fileIdx);
      if fileInode.Dir() {
        return None;
      }
      assert InodeOk(fileInode);
      var bytesToRead := if limit > fileInode.size then fileInode.size else limit;
      var neededBlocks := (bytesToRead + 511) / 512;
      var buf: seq<Byte> := [];
      NothingYet(State(), fileInode);
      for i := 0 to neededBlocks
        invariant buf == Concat(State(), fileInode, i)[..Least(512 * i, bytesToRead)]
      {
        var chunk := if bytesToRead - 512 * i > 512 then 512 else bytesToRead - 512 * i;
        var buffer := ReadSector(fileInode.blocks[i]);
        ConcatStep(State(), fileInode, i, bytesToRead, buffer);
        buf := buf + buffer[..chunk];
      }
      return Some(buf);
    }
  }
}
