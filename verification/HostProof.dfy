/**
 What the host tool's updates leave: the same invariants, the same crash behaviour for
 put, and files the kernel reads back.
 */
module HostProof {
  import opened Machine
  import opened DiskFormat
  import opened Ownership
  import opened Namespace
  import opened FsSpec
  import opened Consistency
  import opened Creation
  import opened FileData
  import opened HostSpec

  predicate DistinctBlocks(bs: seq<nat>) {
    forall j, k :: 0 <= j < k < |bs| ==> bs[j] != bs[k]
  }

  // ---- a new file

  /** Storing data into free blocks is invisible, chunk after chunk. */
  lemma {:induction false} ChunksIntoFree(fs: Fs, w: Paths, bs: seq<nat>, data: seq<Byte>, i: nat)
    requires Sound(fs, w) && OnDisk(bs) && i <= |bs| && (|bs| > 0 ==> 512 * (|bs| - 1) < |data|) && DistinctBlocks(bs)
    requires forall k :: 0 <= k < |bs| ==> bs[k] !in UsedBlocks(fs.table)
    ensures Filled(fs, w, StoreChunks(bs, data, i), bs, data, i)
    decreases i
  {
    hide Sound, Filled, Chunk, UsedBlocks;
    if i == 0 {
      NoneFilled(fs, w, bs, data);
    } else {
      ChunksIntoFree(fs, w, bs, data, i - 1);
      OneFilled(fs, w, StoreChunks(bs, data, i - 1), bs, data, i);
    }
  }

  /** The old tree stands after each of these writes, and at the end the first i blocks hold
      the data. */
  ghost predicate Filled(fs: Fs, w: Paths, es: seq<Effect>, bs: seq<nat>, data: seq<Byte>, i: nat)
    requires OnDisk(bs) && i <= |bs| && (|bs| > 0 ==> 512 * (|bs| - 1) < |data|)
  {
    && PrefixesOld(fs, es, w) && DoAll(fs, es).table == fs.table
    && forall k :: 0 <= k < i ==> DoAll(fs, es).Block(bs[k]) == Chunk(data, k)
  }

  lemma NoneFilled(fs: Fs, w: Paths, bs: seq<nat>, data: seq<Byte>)
    requires Sound(fs, w) && OnDisk(bs) && (|bs| > 0 ==> 512 * (|bs| - 1) < |data|)
    ensures Filled(fs, w, [], bs, data, 0)
  {
    hide Sound, StillOld, PrefixesOld, Chunk;
    RootLive(fs, w);
    NothingWritten(fs, w, 0, 0, []);
  }

  lemma OneFilled(fs: Fs, w: Paths, es: seq<Effect>, bs: seq<nat>, data: seq<Byte>, i: nat)
    requires Sound(fs, w) && OnDisk(bs) && 0 < i <= |bs| && 512 * (|bs| - 1) < |data| && DistinctBlocks(bs)
    requires Filled(fs, w, es, bs, data, i - 1) && bs[i - 1] !in UsedBlocks(fs.table)
    ensures Filled(fs, w, es + [SetBlock(bs[i - 1], Chunk(data, i - 1))], bs, data, i)
  {
    hide Sound, StillOld, PrefixesOld, Chunk, UsedBlocks, DoAll;
    PrefixLast(fs, es, w);
    var e := SetBlock(bs[i - 1], Chunk(data, i - 1));
    var m := DoAll(fs, es);
    OrphanStep(m, w, e);
    StillOldTrans(fs, m, Do(m, e), w);
    PrefixesSnoc(fs, es, e, w);
  }

  lemma RootLive(fs: Fs, w: Paths)
    requires Sound(fs, w)
    ensures 0 in w && w[0] == [] && fs.table[0].Used() && fs.table[0].Dir() && fs.table[0].blocks[0] == DATA_START
    ensures ViewOf(fs)[0].Folder?
  {
    hide Entries, Disjoint;
  }

  lemma OrphanStep(m: Fs, w: Paths, e: Effect)
    requires Sound(m, w) && e.SetBlock? && e.Ok() && e.b !in UsedBlocks(m.table)
    ensures StillOld(m, Do(m, e), w)
  {
    OrphanBlock(m, w, e.b, e.s);
  }

  /** A file inode over given distinct blocks, each free or already this inode's. */
  lemma FileImageOwned(t: Table, f: nat, bs: seq<nat>, size: nat)
    requires Owned(t) && 0 < f < INODE_COUNT && OnDisk(bs) && |bs| == BlocksFor(size) <= DIRECT_BLOCKS && DistinctBlocks(bs)
    requires forall k :: 0 <= k < |bs| ==> bs[k] !in UsedBlocks(t) || (t[f].Used() && bs[k] in t[f].blocks)
    ensures Owned(t[f := FileImage(bs, size)])
  {
    hide UsedBlocks, Disjoint;
    var x := FileImage(bs, size);
    assert InodeOk(t[f]);
    forall j | 0 <= j < DIRECT_BLOCKS
      ensures x.blocks[j] == if j < |bs| then bs[j] else 0
    {
    }
    OwnedUpdateSet(t, f, x);
  }

  /** OwnedUpdate when an inode may reuse its own blocks in any order. */
  lemma OwnedUpdateSet(t: Table, i: nat, x: Inode)
    requires Owned(t) && 0 < i < INODE_COUNT && InodeOk(x) && x.Used()
    requires forall j :: 0 <= j < DIRECT_BLOCKS && x.blocks[j] != 0 ==>
      x.blocks[j] !in UsedBlocks(t) || (t[i].Used() && x.blocks[j] in t[i].blocks)
    requires forall j, l :: 0 <= j < l < DIRECT_BLOCKS && x.blocks[j] != 0 ==> x.blocks[j] != x.blocks[l]
    ensures Owned(t[i := x])
  {
    var t' := t[i := x];
    forall a: nat, j: nat, b: nat, l: nat | Slot(a, j) && Slot(b, l)
      ensures Apart(t', a, j, b, l)
    {
      assert Apart(t, a, j, b, l);
      if a == i && b != i && x.blocks[j] in t[i].blocks {
        var k :| 0 <= k < DIRECT_BLOCKS && t[i].blocks[k] == x.blocks[j];
        assert Apart(t, i, k, b, l);
      }
      if b == i && a != i && x.blocks[l] in t[i].blocks {
        var k :| 0 <= k < DIRECT_BLOCKS && t[i].blocks[k] == x.blocks[l];
        assert Apart(t, a, j, i, k);
      }
      assert t[a].Used() && t[a].blocks[j] != 0 ==> t[a].blocks[j] in UsedBlocks(t);
      assert t[b].Used() && t[b].blocks[l] != 0 ==> t[b].blocks[l] in UsedBlocks(t);
    }
    forall a | 0 <= a < INODE_COUNT
      ensures InodeOk(t'[a])
    {
      assert a != i ==> InodeOk(t[a]);
    }
  }

  lemma SameFreeInode(t: Table)
    requires t[0].Used()
    ensures FreeInode(t, 1) == FreeInode(t, 0)
  {
  }

  /** The blocks a new file gets. */
  lemma RunFacts(t: Table, n: nat)
    requires n <= DIRECT_BLOCKS
    ensures var bs := FreeRun(UsedBlocks(t), DATA_START, n);
      OnDisk(bs) && DistinctBlocks(bs) && (forall k :: 0 <= k < n ==> bs[k] !in UsedBlocks(t))
  {
    hide UsedBlocks;
    FreeRunOnDisk(t, n);
  }

  lemma StoredContent(m: Fs, x: Inode, bs: seq<nat>, data: seq<Byte>)
    requires OnDisk(bs) && |bs| == BlocksFor(|data|) <= DIRECT_BLOCKS && x == FileImage(bs, |data|)
    requires forall k :: 0 <= k < |bs| ==> m.Block(bs[k]) == Chunk(data, k)
    ensures Held(x, BlocksFor(x.size)) && Content(m, x) == data
  {
    hide Chunk;
    forall k | 0 <= k < |bs|
      ensures x.blocks[k] == bs[k]
    {
    }
    ConcatIsData(m, x, data, |bs|);
    assert data[..|data|] == data;
  }

  ghost predicate HasContent(m: Fs, c: nat, data: seq<Byte>)
    requires c < INODE_COUNT
  {
    Held(m.table[c], BlocksFor(m.table[c].size)) && Content(m, m.table[c]) == data
  }

  /** put_file for a new name, up to the directory entry: wherever it is cut short the tree
      is the old one, and the inode it prepared holds the data. */
  lemma PutNewPrepares(fs: Fs, w: Paths, data: seq<Byte>)
    requires Sound(fs, w) && BlocksFor(|data|) <= DIRECT_BLOCKS && FreeInode(fs.table, 1) < INODE_COUNT
    ensures var c := FreeInode(fs.table, 1);
      var es := PutNewSetup(fs, data);
      var m := DoAll(fs, es);
      && PrefixesOld(fs, es, w) && ReadyChild(m, w, 0, c)
      && m.table == fs.table[c := NewFileInode(fs.table, |data|)]
      && HasContent(m, c, data)
  {
    hide Sound, StillOld, PrefixesOld, Chunk, UsedBlocks, FreeInode, FreeRun, HasContent, ReadyChild, FileImage, StoreChunks;
    var c := FreeInode(fs.table, 1);
    var n := BlocksFor(|data|);
    var bs := FreeRun(UsedBlocks(fs.table), DATA_START, n);
    RunFacts(fs.table, n);
    RootLive(fs, w);
    SameFreeInode(fs.table);
    FreshInode(fs, w);
    ChunksIntoFree(fs, w, bs, data, n);
    InodeForChunks(fs, w, c, bs, data, StoreChunks(bs, data, n));
  }

  /** The inode write of put_file, once the data is stored. */
  lemma InodeForChunks(fs: Fs, w: Paths, c: nat, bs: seq<nat>, data: seq<Byte>, es: seq<Effect>)
    requires AllOk(es) && PrefixesOld(fs, es, w) && DoAll(fs, es).table == fs.table && 0 < c < INODE_COUNT && c !in w
    requires OnDisk(bs) && |bs| == BlocksFor(|data|) <= DIRECT_BLOCKS && DistinctBlocks(bs)
    requires forall k :: 0 <= k < |bs| ==> bs[k] !in UsedBlocks(fs.table)
    requires forall k :: 0 <= k < |bs| ==> DoAll(fs, es).Block(bs[k]) == Chunk(data, k)
    ensures var x := FileImage(bs, |data|);
      var m := DoAll(fs, es + [SetInode(c, x)]);
      PrefixesOld(fs, es + [SetInode(c, x)], w) && ReadyChild(m, w, 0, c) && m.table == fs.table[c := x] && HasContent(m, c, data)
  {
    hide Sound, StillOld, PrefixesOld, Chunk, UsedBlocks, ReadyChild, Padded;
    var x := FileImage(bs, |data|);
    var e := SetInode(c, x);
    var m := DoAll(fs, es);
    PrefixLast(fs, es, w);
    SoundOwned(m, w);
    FileImageOwned(m.table, c, bs, |data|);
    OrphanInodeStep(m, w, c, x);
    StillOldTrans(fs, m, Do(m, e), w);
    PrefixesSnoc(fs, es, e, w);
    StoredContent(Do(m, e), x, bs, data);
    ReadyFile(Do(m, e), w, 0, c);
  }

  lemma SoundOwned(fs: Fs, w: Paths)
    requires Sound(fs, w)
    ensures Owned(fs.table)
  {
  }

  lemma OrphanInodeStep(m: Fs, w: Paths, c: nat, x: Inode)
    requires Sound(m, w) && c !in w && c < INODE_COUNT && Owned(m.table[c := x])
    ensures StillOld(m, Do(m, SetInode(c, x)), w)
  {
    OrphanInode(m, w, c, x);
  }

  lemma ReadyFile(m: Fs, w: Paths, a: nat, c: nat)
    requires c < INODE_COUNT && c !in w && m.table[c].Used() && !m.table[c].Dir()
    ensures ReadyChild(m, w, a, c)
  {
  }

  // ---- naming it

  /** The tool's zero-padded entry, seen through the listing. */
  lemma RootEntryShape(fs: Fs, blk: nat, de: DirEntry, e: Effect)
    requires DATA_START <= blk < TOTAL_SECTORS && 0 < |de.name| < MAX_FILENAME && IsCName(de.name)
    requires RootEntryOp(fs, blk, de) == Some(e)
    ensures e.SetBlock? && e.b == blk && e.Ok()
    ensures var k := EmptySlot(Entries(fs.Block(blk)), 0);
      k < ENTRIES && Entries(e.s) == Entries(fs.Block(blk))[k := de]
  {
    var s := fs.Block(blk);
    var k := EmptySlot(Entries(s), 0);
    EntriesPutSlot(s, k, ToolImage(de));
    DecodeToolImage(de);
  }

  /** The entry write on a state that still holds the old tree. */
  lemma RootNaming(fs: Fs, m: Fs, w: Paths, c: nat, name: Name, e: Effect)
    requires Sound(fs, w) && StillOld(fs, m, w) && c < INODE_COUNT && ReadyChild(m, w, 0, c)
    requires 0 < |name| < MAX_FILENAME && IsCName(name) && Lookup(ViewOf(fs), 0, name) == None
    requires 0 in w && DATA_START <= fs.table[0].blocks[0] < TOTAL_SECTORS
    requires RootEntryOp(m, fs.table[0].blocks[0], DirEntry(c, name)) == Some(e)
    ensures e.Ok() && Grown(fs, Do(m, e), w, 0, c, name)
    ensures Do(m, e).table == m.table && SameNode(m, Do(m, e), c)
  {
    hide GetEntry, PutSlot, ToolImage, Disjoint, InodeOk, FindSlot;
    SameListing(fs, m, w, 0);
    SoundDir(m, w, 0);
    RootLive(fs, w);
    NotDots(ViewOf(fs), w, 0, name);
    RootEntryShape(m, fs.table[0].blocks[0], DirEntry(c, name), e);
    var k := EmptySlot(ViewOf(m)[0].list, 0);
    NamingIsAddedChild(m, w, 0, c, name, e.s, k);
    OwnBlockSame(m, 0, 0, e.s, c);
    assert SameTree(fs, m, w - {0});
    SameTreeTrans(fs, m, Do(m, e), w - {0});
  }

  /** Wherever put_file of a new name is cut short, the disk holds the old tree; complete,
      it holds the old tree plus one file with exactly the data. */
  lemma PutNewCrash(fs: Fs, w: Paths, name: Name, data: seq<Byte>)
    requires Sound(fs, w) && IsCName(name) && name != [] && RootUsable(fs, name) && OnDiskInodes(fs.table)
    requires Lookup(ViewOf(fs), 0, name) == None
    ensures 0 in w && AddsChildOrNothing(fs, PutOp(fs, name, data), w, 0, FreeInode(fs.table, 1), name)
    ensures PutOp(fs, name, data).code == 0 ==>
      FreeInode(fs.table, 1) < INODE_COUNT && HasContent(DoAll(fs, PutOp(fs, name, data).es), FreeInode(fs.table, 1), data)
    ensures PutOp(fs, name, data).code == 0 && BlocksFor(|data|) <= DIRECT_BLOCKS ==>
      DoAll(fs, PutOp(fs, name, data).es).table == fs.table[FreeInode(fs.table, 1) := NewFileInode(fs.table, |data|)]
  {
    hide Sound, StillOld, Grown, PrefixesOld, ViewOf, FreeInode, PutNewSetup, HasContent, NewFileInode, ReadyChild,
         AddsChildOrNothing, OnDiskInodes, Lookup, LeadsToUsed, RootEntryOp;
    RootLive(fs, w);
    NothingWritten(fs, w, 0, FreeInode(fs.table, 1), name);
    if |name| < MAX_FILENAME && BlocksFor(|data|) <= DIRECT_BLOCKS && FreeInode(fs.table, 1) != INODE_COUNT {
      var c := FreeInode(fs.table, 1);
      var es := PutNewSetup(fs, data);
      var m := DoAll(fs, es);
      PutNewPrepares(fs, w, data);
      PrefixLast(fs, es, w);
      var r := RootEntryOp(m, fs.table[0].blocks[0], DirEntry(c, name));
      if r.Some? {
        RootNaming(fs, m, w, c, name, r.value);
        DoAllSplit(fs, es, [r.value]);
        PrefixesGrow(fs, w, 0, c, name, es, r.value);
        ContentStays(m, w, Do(m, r.value), c, data);
      } else {
        PrefixesOnly(fs, w, 0, c, name, es);
      }
    }
  }

  lemma PrefixesGrow(fs: Fs, w: Paths, a: nat, c: nat, name: Name, es: seq<Effect>, e: Effect)
    requires PrefixesOld(fs, es, w) && e.Ok() && a in w && a < INODE_COUNT && Grown(fs, Do(DoAll(fs, es), e), w, a, c, name)
    ensures AddsChildOrNothing(fs, Outcome(0, es + [e]), w, a, c, name)
    ensures DoAll(fs, es + [e]) == Do(DoAll(fs, es), e)
  {
    hide StillOld, Grown;
    DoAllSplit(fs, es, [e]);
    forall k | 0 <= k <= |es|
      ensures StillOld(fs, DoAll(fs, (es + [e])[..k]), w)
    {
      assert (es + [e])[..k] == es[..k];
    }
  }

  lemma PrefixesOnly(fs: Fs, w: Paths, a: nat, c: nat, name: Name, es: seq<Effect>)
    requires PrefixesOld(fs, es, w) && a in w && a < INODE_COUNT
    ensures AddsChildOrNothing(fs, Outcome(-1, es), w, a, c, name)
  {
    hide StillOld, Grown;
  }

  lemma ContentStays(m: Fs, w: Paths, m': Fs, c: nat, data: seq<Byte>)
    requires Sound(m, w) && c < INODE_COUNT && SameNode(m, m', c) && HasContent(m, c, data) && m.table[c].Used() && !m.table[c].Dir()
    ensures HasContent(m', c, data)
  {
    hide Tree, Disjoint;
    SameNodeView(m, m', c);
  }

  // ---- overwriting an existing file

  /** Each block is the file's own or free. */
  ghost predicate OwnOrFree(t: Table, f: nat, bs: seq<nat>)
    requires f < INODE_COUNT
  {
    forall k :: 0 <= k < |bs| ==> bs[k] !in UsedBlocks(t) || bs[k] in t[f].blocks
  }

  lemma OwnOrFreeStep(m: Fs, w: Paths, f: nat, b: nat, s: Sector)
    requires Sound(m, w) && LiveFile(m, w, f) && DATA_START <= b < TOTAL_SECTORS
    requires b !in UsedBlocks(m.table) || b in m.table[f].blocks
    ensures Sound(Do(m, SetBlock(b, s)), w) && SameTree(m, Do(m, SetBlock(b, s)), w - {f})
  {
    hide UsedBlocks, Tree, Disjoint, SameNode;
    if b in m.table[f].blocks {
      var j :| 0 <= j < DIRECT_BLOCKS && m.table[f].blocks[j] == b;
      FileBlock(m, w, f, j, s);
    } else {
      OrphanBlock(m, w, b, s);
    }
  }

  /** Storing the data changes nothing outside the file. */
  lemma {:induction false} ChunksOver(fs: Fs, w: Paths, f: nat, bs: seq<nat>, data: seq<Byte>, i: nat)
    requires Sound(fs, w) && LiveFile(fs, w, f) && OnDisk(bs) && i <= |bs| && (|bs| > 0 ==> 512 * (|bs| - 1) < |data|)
    requires DistinctBlocks(bs) && OwnOrFree(fs.table, f, bs)
    ensures var m := DoAll(fs, StoreChunks(bs, data, i));
      && Sound(m, w) && SameTree(fs, m, w - {f}) && m.table == fs.table
      && (forall k :: 0 <= k < i ==> m.Block(bs[k]) == Chunk(data, k))
      && (forall b :: DATA_START <= b < TOTAL_SECTORS && b !in bs[..i] ==> m.Block(b) == fs.Block(b))
    decreases i
  {
    hide Sound, Chunk, UsedBlocks, SameNode, SameTree;
    if i == 0 {
      SameTreeRefl(fs, w - {f});
    } else {
      ChunksOver(fs, w, f, bs, data, i - 1);
      var es := StoreChunks(bs, data, i - 1);
      var e := SetBlock(bs[i - 1], Chunk(data, i - 1));
      var m := DoAll(fs, es);
      DoAllSplit(fs, es, [e]);
      assert [e][1..] == [];
      OwnOrFreeStep(m, w, f, bs[i - 1], Chunk(data, i - 1));
      SameTreeTrans(fs, m, Do(m, e), w - {f});
      assert bs[..i] == bs[..i - 1] + [bs[i - 1]];
    }
  }

  /** In a sound file the blocks are a prefix of the slots, so dropping zeros is cutting. */
  lemma {:induction false} NonZeroIsPrefix(bs: seq<U32>)
    requires forall j :: 0 < j < |bs| && bs[j] != 0 ==> bs[j - 1] != 0
    ensures var c := NonZero(bs); c == bs[..|c|] && forall j :: |c| <= j < |bs| ==> bs[j] == 0
  {
    if bs != [] {
      if bs[0] == 0 {
        AllZero(bs);
      } else {
        forall j | 0 < j < |bs[1..]| && bs[1..][j] != 0
          ensures bs[1..][j - 1] != 0
        {
          assert bs[j + 1] != 0;
        }
        NonZeroIsPrefix(bs[1..]);
        var c := NonZero(bs[1..]);
        assert [bs[0]] + bs[1..][..|c|] == bs[..|c| + 1];
        forall j | |c| + 1 <= j < |bs|
          ensures bs[j] == 0
        {
          assert bs[1..][j - 1] == bs[j];
        }
      }
    }
  }

  lemma {:induction false} AllZero(bs: seq<U32>)
    requires forall j :: 0 < j < |bs| && bs[j] != 0 ==> bs[j - 1] != 0
    requires bs != [] ==> bs[0] == 0
    ensures NonZero(bs) == [] && forall j :: 0 <= j < |bs| ==> bs[j] == 0
  {
    if |bs| > 1 {
      assert bs[1] == 0;
      forall j | 0 < j < |bs[1..]| && bs[1..][j] != 0
        ensures bs[1..][j - 1] != 0
      {
        assert bs[j + 1] != 0;
      }
      AllZero(bs[1..]);
      forall j | 0 <= j < |bs|
        ensures bs[j] == 0
      {
        assert j > 0 ==> bs[1..][j - 1] == bs[j];
      }
    } else if |bs| == 1 {
      assert bs[1..] == [];
    }
  }

  /** Slot j of the new list: the block slot j had, or one that was free. */
  lemma ReassignedAt(t: Table, f: nat, n: nat, j: nat)
    requires Owned(t) && f < INODE_COUNT && t[f].Used() && !t[f].Dir() && j < n <= DIRECT_BLOCKS
    ensures var p := |NonZero(t[f].blocks)|;
      && p <= DIRECT_BLOCKS && (forall k :: 0 <= k < DIRECT_BLOCKS ==> (t[f].blocks[k] != 0 <==> k < p))
      && Reassigned(t, f, n)[j] == if j < p then t[f].blocks[j] else FreeRun(UsedBlocks(t), DATA_START, n - p)[j - p]
  {
    hide UsedBlocks, FreeRun, Disjoint, InodeOk, NonZero;
    FileBlocks(t[f]);
  }

  lemma FileBlocks(x: Inode)
    requires InodeOk(x) && x.Used() && !x.Dir()
    ensures var p := |NonZero(x.blocks)|;
      && p <= DIRECT_BLOCKS && NonZero(x.blocks) == x.blocks[..p]
      && forall k :: 0 <= k < DIRECT_BLOCKS ==> (x.blocks[k] != 0 <==> k < p)
  {
    hide NonZero;
    NonZeroIsPrefix(x.blocks);
  }

  /** The blocks of an overwritten file: the ones it had, in their slots, then free ones. */
  lemma ReassignedFacts(t: Table, f: nat, n: nat)
    requires Owned(t) && f < INODE_COUNT && t[f].Used() && !t[f].Dir() && n <= DIRECT_BLOCKS
    ensures var bs := Reassigned(t, f, n);
      && OnDisk(bs) && DistinctBlocks(bs) && OwnOrFree(t, f, bs)
      && (forall j :: 0 <= j < n && t[f].blocks[j] != 0 ==> bs[j] == t[f].blocks[j])
      && (forall j, k :: 0 <= j < n && 0 <= k < DIRECT_BLOCKS && t[f].blocks[k] != 0 && bs[j] == t[f].blocks[k] ==> j == k)
  {
    hide UsedBlocks, Reassigned, NonZero, FreeRun, InodeOk;
    var bs, p := Reassigned(t, f, n), |NonZero(t[f].blocks)|;
    OwnedBlocksOnDisk(t, f);
    ReassignedOnDisk(t, f, n);
    var run := if p < n then FreeRun(UsedBlocks(t), DATA_START, n - p) else FreeRun(UsedBlocks(t), DATA_START, 0);
    RunDistinct(UsedBlocks(t), run, DATA_START, if p < n then n - p else 0);
    forall j | 0 <= j < n
      ensures bs[j] == if j < p then t[f].blocks[j] else run[j - p]
      ensures j < p ==> t[f].blocks[j] != 0
      ensures j >= p ==> t[f].blocks[j] == 0
    {
      ReassignedAt(t, f, n, j);
    }
    forall j, k | 0 <= j < n && 0 <= k < DIRECT_BLOCKS && t[f].blocks[k] != 0 && bs[j] == t[f].blocks[k]
      ensures j == k
    {
      InUsed(t, f, k);
      assert Apart(t, f, k, f, j);
    }
    forall j, k | 0 <= j < k < n
      ensures bs[j] != bs[k]
    {
      assert j < p ==> bs[j] == t[f].blocks[j];
    }
  }

  lemma RunDistinct(u: set<nat>, run: seq<nat>, c: nat, n: nat)
    requires run == FreeRun(u, c, n)
    ensures |run| == n && DistinctBlocks(run) && forall k :: 0 <= k < n ==> run[k] !in u
  {
  }

  lemma OwnedBlocksOnDisk(t: Table, f: nat)
    requires Owned(t) && f < INODE_COUNT && t[f].Used()
    ensures BlocksOnDisk(t[f])
  {
    assert InodeOk(t[f]);
  }

  lemma InUsed(t: Table, f: nat, j: nat)
    requires f < INODE_COUNT && j < DIRECT_BLOCKS && t[f].Used()
    ensures t[f].blocks[j] == 0 || t[f].blocks[j] in UsedBlocks(t)
  {
  }

  lemma {:induction false} ChunksPrefix(bs: seq<nat>, data: seq<Byte>, i: nat, k: nat)
    requires k <= i <= |bs| && (|bs| > 0 ==> 512 * (|bs| - 1) < |data|) && OnDisk(bs)
    ensures StoreChunks(bs, data, i)[..k] == StoreChunks(bs, data, k)
    decreases i
  {
    hide Chunk;
    if k < i {
      ChunksPrefix(bs, data, i - 1, k);
      assert StoreChunks(bs, data, i)[..k] == StoreChunks(bs, data, i - 1)[..k];
    } else {
      assert StoreChunks(bs, data, i)[..i] == StoreChunks(bs, data, i);
    }
  }

  /** Overwriting with put_file: wherever it is cut short the file keeps its inode, each of
      its blocks old or new; complete, it holds exactly the data.  Nothing else changes:
      the same promise as the kernel's write. */
  lemma PutOverCrash(fs: Fs, w: Paths, name: Name, data: seq<Byte>, f: nat, k: nat)
    requires Sound(fs, w) && RootUsable(fs, name) && OnDiskInodes(fs.table) && |name| < MAX_FILENAME
    requires Lookup(ViewOf(fs), 0, name) == Some(f) && LiveFile(fs, w, f) && BlocksFor(|data|) <= DIRECT_BLOCKS
    requires k <= |PutOp(fs, name, data).es|
    ensures var r := PutOp(fs, name, data);
      && r.code == 0 && AllOk(r.es) && BlocksOnDisk(fs.table[f])
      && if k < |r.es| then Torn(fs, DoAll(fs, r.es[..k]), w, f, data) else Written(fs, DoAll(fs, r.es[..k]), w, f, data)
  {
    hide Sound, ViewOf, Lookup, LeadsToUsed, OnDiskInodes, Torn, Written, Reassigned, StoreChunks, FileImage, UsedBlocks, SameTree, Chunk;
    var n := BlocksFor(|data|);
    var bs := Reassigned(fs.table, f, n);
    SoundOwned(fs, w);
    OwnedBlocksOnDisk(fs.table, f);
    ReassignedFacts(fs.table, f, n);
    var es := StoreChunks(bs, data, n);
    var e := SetInode(f, FileImage(bs, |data|));
    if k <= n {
      assert (es + [e])[..k] == es[..k];
      ChunksPrefix(bs, data, n, k);
      ChunksOver(fs, w, f, bs, data, k);
      OverTorn(fs, DoAll(fs, es[..k]), w, f, bs, data, k);
    } else {
      assert (es + [e])[..k] == es + [e];
      ChunksOver(fs, w, f, bs, data, n);
      DoAllSplit(fs, es, [e]);
      assert [e][1..] == [];
      OverWritten(fs, DoAll(fs, es), w, f, bs, data);
    }
  }

  lemma OverTorn(fs: Fs, m: Fs, w: Paths, f: nat, bs: seq<nat>, data: seq<Byte>, i: nat)
    requires f < INODE_COUNT && BlocksOnDisk(fs.table[f]) && OnDisk(bs) && i <= |bs| == BlocksFor(|data|) <= DIRECT_BLOCKS
    requires Sound(m, w) && SameTree(fs, m, w - {f}) && m.table == fs.table
    requires forall k :: 0 <= k < i ==> m.Block(bs[k]) == Chunk(data, k)
    requires forall b :: DATA_START <= b < TOTAL_SECTORS && b !in bs[..i] ==> m.Block(b) == fs.Block(b)
    requires forall j :: 0 <= j < |bs| && fs.table[f].blocks[j] != 0 ==> bs[j] == fs.table[f].blocks[j]
    requires forall j, k :: 0 <= j < |bs| && 0 <= k < DIRECT_BLOCKS && fs.table[f].blocks[k] != 0 && bs[j] == fs.table[f].blocks[k] ==> j == k
    ensures Torn(fs, m, w, f, data)
  {
    hide Sound, SameTree, Chunk;
    var x0 := fs.table[f];
    forall j | 0 <= j < DIRECT_BLOCKS && x0.blocks[j] != 0
      ensures m.Block(x0.blocks[j]) == fs.Block(x0.blocks[j]) || (512 * j < |data| && m.Block(x0.blocks[j]) == Chunk(data, j))
    {
      if x0.blocks[j] in bs[..i] {
        var k :| 0 <= k < i && bs[..i][k] == x0.blocks[j];
        assert bs[k] == x0.blocks[j];
      }
    }
  }

  lemma OverWritten(fs: Fs, m: Fs, w: Paths, f: nat, bs: seq<nat>, data: seq<Byte>)
    requires Sound(m, w) && LiveFile(m, w, f) && SameTree(fs, m, w - {f}) && m.table == fs.table
    requires OnDisk(bs) && |bs| == BlocksFor(|data|) <= DIRECT_BLOCKS && DistinctBlocks(bs) && OwnOrFree(fs.table, f, bs)
    requires forall k :: 0 <= k < |bs| ==> m.Block(bs[k]) == Chunk(data, k)
    ensures Written(fs, Do(m, SetInode(f, FileImage(bs, |data|))), w, f, data)
  {
    hide Tree, Disjoint, UsedBlocks, SameNode, Chunk, Padded, ViewOf;
    var x := FileImage(bs, |data|);
    var m' := Do(m, SetInode(f, x));
    FlagsOf(m, w, f);
    FileImageOwned(m.table, f, bs, |data|);
    FileInode(m, w, f, x);
    SameTreeTrans(fs, m, m', w - {f});
    StoredContent(m', x, bs, data);
  }

  lemma FlagsOf(m: Fs, w: Paths, f: nat)
    requires Sound(m, w) && LiveFile(m, w, f)
    ensures f != 0 && m.table[f].flags == FLAG_FILE
  {
    hide Tree, Disjoint, ViewOf;
    assert InodeOk(m.table[f]);
  }
}
