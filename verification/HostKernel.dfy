/**
 Kernel and host tool on one disk: removal, put then rm, the same placement of files, and
 runs that mix both.
 */
module HostKernel {
  import opened Machine
  import opened DiskFormat
  import opened Ownership
  import opened Namespace
  import opened FsSpec
  import opened Consistency
  import opened Creation
  import opened FileData
  import opened HostSpec
  import opened HostProof

  // ---- rm

  lemma FreedOwned(t: Table, f: nat)
    requires Owned(t) && 0 < f < INODE_COUNT
    ensures Owned(t[f := Inode(0, 0, NoBlocks())])
  {
    hide UsedBlocks;
    OwnedUpdate(t, f, Inode(0, 0, NoBlocks()));
  }

  /** The slot of a reachable name is past "." and "..", and leads where lookup says. */
  lemma SlotOfName(v: View, w: Paths, a: nat, name: Name, f: nat)
    requires Tree(v, w) && a in w && v[a].Folder? && f in w && f < INODE_COUNT
    requires Lookup(v, a, name) == Some(f) && !v[f].Folder?
    ensures var k := FindSlot(v[a].list, name, 0); 2 <= k < ENTRIES && v[a].list[k].name == name && v[a].list[k].ino == f
    ensures name != [] && w[f] == w[a] + [name]
  {
    var k := FindSlot(v[a].list, name, 0);
    assert DirOk(v[a].list, a, w);
    ParentIsDir(v, w, a);
    assert k >= 2;
    assert KidOk(v[a].list[k], a, w);
  }

  /** fs with file f, named by slot k of the root, gone. */
  ghost predicate Removed(fs: Fs, m: Fs, w: Paths, f: nat, k: nat)
    requires f < INODE_COUNT && k < ENTRIES && ViewOf(fs)[0].Folder?
  {
    && Sound(m, w - {f}) && SameTree(fs, m, w - {0, f})
    && m.table == fs.table[f := Inode(0, 0, NoBlocks())]
    && ViewOf(m)[0] == Folder(ViewOf(fs)[0].list[k := DirEntry(0, [])])
  }

  /** rm of a reachable file: exactly that file leaves the tree, its inode and blocks become
      free, everything else is as it was. */
  lemma RmRemoves(fs: Fs, w: Paths, name: Name, f: nat)
    requires Sound(fs, w) && RootUsable(fs, name) && Lookup(ViewOf(fs), 0, name) == Some(f) && LiveFile(fs, w, f)
    ensures 0 in w && ViewOf(fs)[0].Folder? && w[f] == [name]
    ensures var r, k := RmOp(fs, name), FindSlot(ViewOf(fs)[0].list, name, 0);
      r.code == 0 && AllOk(r.es) && k < ENTRIES && Removed(fs, DoAll(fs, r.es), w, f, k)
  {
    hide PutSlot, Sound, Tree, FindSlot, Removed, RmOp, Entries, LeadsToUsed, Lookup, DecodeEntry, ZeroImage;
    RootLive(fs, w);
    LiveView(fs, w, f);
    var v := ViewOf(fs);
    SlotOfName(v, w, 0, name, f);
    var k := FindSlot(v[0].list, name, 0);
    var s := PutSlot(fs.Block(DATA_START), k, ZeroImage());
    RmShape(fs, name, f);
    assert v[0].list == Entries(fs.Block(DATA_START));
    EntriesPutSlot(fs.Block(DATA_START), k, ZeroImage());
    DecodeZeroImage();
    RmSound(fs, w, f, k, s);
    assert [] + [name] == [name];
  }

  lemma RmShape(fs: Fs, name: Name, f: nat)
    requires RootUsable(fs, name) && fs.table[0].blocks[0] == DATA_START && Lookup(ViewOf(fs), 0, name) == Some(f)
    requires f < INODE_COUNT && !fs.table[f].Dir()
    ensures ViewOf(fs)[0] == Folder(Entries(fs.Block(DATA_START)))
    ensures var k := FindSlot(Entries(fs.Block(DATA_START)), name, 0);
      k < ENTRIES &&
      var e1, e2 := SetInode(f, Inode(0, 0, NoBlocks())), SetBlock(DATA_START, PutSlot(fs.Block(DATA_START), k, ZeroImage()));
      RmOp(fs, name) == Outcome(0, [e1, e2]) && DoAll(fs, [e1, e2]) == Do(Do(fs, e1), e2)
  {
    hide GetEntry, PutSlot, FindSlot;
    var k := FindSlot(Entries(fs.Block(DATA_START)), name, 0);
    var e1, e2 := SetInode(f, Inode(0, 0, NoBlocks())), SetBlock(DATA_START, PutSlot(fs.Block(DATA_START), k, ZeroImage()));
    DoTwo(fs, e1, e2);
  }

  lemma LiveView(fs: Fs, w: Paths, f: nat)
    requires Sound(fs, w) && LiveFile(fs, w, f)
    ensures ViewOf(fs)[f] == File && f != 0 && Tree(ViewOf(fs), w)
  {
    hide Tree;
  }

  lemma RmSound(fs: Fs, w: Paths, f: nat, k: nat, s: Sector)
    requires Sound(fs, w) && LiveFile(fs, w, f) && f != 0 && 2 <= k < ENTRIES && ViewOf(fs)[0].Folder? && fs.table[0].blocks[0] == DATA_START
    requires 0 in w && ViewOf(fs)[0].list[k].name != [] && ViewOf(fs)[0].list[k].ino == f
    requires Entries(s) == ViewOf(fs)[0].list[k := DirEntry(0, [])]
    ensures Removed(fs, Do(Do(fs, SetInode(f, Inode(0, 0, NoBlocks()))), SetBlock(DATA_START, s)), w, f, k)
  {
    hide GetEntry, Disjoint, InodeOk, UsedBlocks, SameNode;
    var m := Do(Do(fs, SetInode(f, Inode(0, 0, NoBlocks()))), SetBlock(DATA_START, s));
    FreedOwned(fs.table, f);
    RmOthers(fs, m, w, f, s);
    RmTree(ViewOf(fs), ViewOf(m), w, k, f);
  }

  lemma RmOthers(fs: Fs, m: Fs, w: Paths, f: nat, s: Sector)
    requires Sound(fs, w) && 0 < f < INODE_COUNT && fs.table[0].blocks[0] == DATA_START && 0 in w
    requires m == Do(Do(fs, SetInode(f, Inode(0, 0, NoBlocks()))), SetBlock(DATA_START, s))
    ensures SameTree(fs, m, w - {0, f})
    ensures forall i :: i in w && i != 0 && i != f && i < INODE_COUNT ==> ViewOf(m)[i] == ViewOf(fs)[i]
    ensures ViewOf(m)[0] == Folder(Entries(s))
  {
    hide Entries, Disjoint;
    forall i | i in w && i != 0 && i != f
      ensures i < INODE_COUNT && SameNode(fs, m, i) && ViewOf(m)[i] == ViewOf(fs)[i]
    {
      OwnBlockSame(fs, 0, 0, s, i);
      SameNodeView(fs, m, i);
    }
  }

  lemma RmTree(v: View, v': View, w: Paths, k: nat, f: nat)
    requires Tree(v, w) && 0 in w && v[0].Folder? && 2 <= k < ENTRIES && v[0].list[k].name != [] && v[0].list[k].ino == f
    requires f in w && f < INODE_COUNT && v[f] == File
    requires forall i :: i in w && i != 0 && i != f && i < INODE_COUNT ==> v'[i] == v[i]
    requires v'[0] == Folder(v[0].list[k := DirEntry(0, [])])
    ensures Tree(v', w - {f})
  {
    TreeRemove(v, v', w, 0, k, f);
  }

  // ---- put then rm

  /** Listings agree on every slot that carries a name. */
  predicate SameNamed(l: Listing, l': Listing) {
    forall k :: 0 <= k < ENTRIES ==> l'[k].name == l[k].name && (l[k].name != [] ==> l'[k] == l[k])
  }

  /** The root listing after a put of a new name. */
  lemma PutNewListing(fs: Fs, w: Paths, name: Name, data: seq<Byte>)
    requires Sound(fs, w) && IsCName(name) && name != [] && RootUsable(fs, name) && OnDiskInodes(fs.table)
    requires Lookup(ViewOf(fs), 0, name) == None && PutOp(fs, name, data).code == 0
    ensures AllOk(PutOp(fs, name, data).es) && ViewOf(fs)[0].Folder?
    ensures var k := EmptySlot(ViewOf(fs)[0].list, 0);
      k < ENTRIES && FreeInode(fs.table, 1) < INODE_COUNT &&
      ViewOf(DoAll(fs, PutOp(fs, name, data).es))[0] == Folder(ViewOf(fs)[0].list[k := DirEntry(FreeInode(fs.table, 1), name)])
  {
    hide Sound, StillOld, PrefixesOld, FreeInode, PutNewSetup, HasContent, NewFileInode, ReadyChild, ViewOf,
         OnDiskInodes, Lookup, LeadsToUsed, RootEntryOp, EmptySlot, Entries, DecodeEntry;
    RootLive(fs, w);
    var c := FreeInode(fs.table, 1);
    var es := PutNewSetup(fs, data);
    var m := DoAll(fs, es);
    PutNewPrepares(fs, w, data);
    PrefixLast(fs, es, w);
    var r := RootEntryOp(m, fs.table[0].blocks[0], DirEntry(c, name));
    RootEntryShape(m, DATA_START, DirEntry(c, name), r.value);
    DoAllSplit(fs, es, [r.value]);
    PrefixesGrowLast(fs, es, r.value);
    SameListing(fs, m, w, 0);
    RootLive(m, w);
    RootListing(m);
    RootListing(Do(m, r.value));
  }

  lemma PrefixesGrowLast(fs: Fs, es: seq<Effect>, e: Effect)
    requires AllOk(es) && e.Ok()
    ensures AllOk(es + [e]) && DoAll(fs, es + [e]) == Do(DoAll(fs, es), e)
  {
    DoAllSplit(fs, es, [e]);
    var last := [e];
    assert last[1..] == [];
  }

  lemma RootListing(m: Fs)
    requires m.table[0].Used() && m.table[0].Dir() && m.table[0].blocks[0] == DATA_START
    ensures ViewOf(m)[0] == Folder(Entries(m.Block(DATA_START)))
  {
  }

  lemma FreeInodeUnused(t: Table)
    requires t[0].Used() && FreeInode(t, 1) < INODE_COUNT
    ensures !t[FreeInode(t, 1)].Used() && FreeInode(t, 1) != 0
  {
  }

  lemma Succeeded(fs: Fs, r: Outcome, w: Paths, a: nat, c: nat, name: Name)
    requires a in w && a < INODE_COUNT && AddsChildOrNothing(fs, r, w, a, c, name) && r.code == 0
    ensures AllOk(r.es) && c !in w && c < INODE_COUNT && Sound(DoAll(fs, r.es), w[c := w[a] + [name]])
  {
    hide Sound, SameTree;
  }

  lemma PutAccepted(fs: Fs, name: Name, data: seq<Byte>)
    requires RootUsable(fs, name) && OnDiskInodes(fs.table) && PutOp(fs, name, data).code == 0
    ensures |name| < MAX_FILENAME && BlocksFor(|data|) <= DIRECT_BLOCKS
    ensures Lookup(ViewOf(fs), 0, name) == None ==> FreeInode(fs.table, 1) < INODE_COUNT
  {
  }

  /** A recorded child of the root is what the kernel's lookup returns for its name. */
  lemma ChildFound(m: Fs, u: Paths, c: nat, name: Name)
    requires Sound(m, u) && c in u && u[c] == [name] && c < INODE_COUNT && name != DOT && name != DOTDOT
    ensures RootUsable(m, name) && Lookup(ViewOf(m), 0, name) == Some(c)
  {
    hide Entries, Disjoint;
    RootLive(m, u);
    ResolveStep(ViewOf(m), u, 0, name, c);
    assert [] + [name] == [name];
    SoundLeads(m, u, 0, name);
  }

  lemma FoundSlot(l: Listing, name: Name, k: nat, c: U32)
    requires name != [] && FindSlot(l, name, 0) == ENTRIES && k < ENTRIES
    ensures FindSlot(l[k := DirEntry(c, name)], name, 0) == k
  {
    assert forall j :: 0 <= j < ENTRIES ==> l[j].name != name;
    assert l[k := DirEntry(c, name)][k].name == name;
  }

  lemma RemovedRestores(fs: Fs, m: Fs, n: Fs, w: Paths, c: nat, name: Name, k: nat)
    requires c < INODE_COUNT && !fs.table[c].Used() && c !in w && k < ENTRIES
    requires ViewOf(fs)[0].Folder? && ViewOf(fs)[0].list[k].name == []
    requires ViewOf(m)[0] == Folder(ViewOf(fs)[0].list[k := DirEntry(c, name)])
    requires 0 in w && Removed(m, n, w[c := w[0] + [name]], c, k)
    requires n.table == fs.table[c := Inode(0, 0, NoBlocks())]
    ensures Sound(n, w)
    ensures forall i :: 0 <= i < INODE_COUNT ==> n.table[i].Used() == fs.table[i].Used()
    ensures forall i :: 0 <= i < INODE_COUNT && fs.table[i].Used() ==> n.table[i] == fs.table[i]
    ensures UsedBlocks(n.table) == UsedBlocks(fs.table)
    ensures ViewOf(n)[0].Folder? && SameNamed(ViewOf(fs)[0].list, ViewOf(n)[0].list)
  {
    hide Sound, ViewOf, SameTree;
    assert w[c := w[0] + [name]] - {c} == w;
    SameUsedBlocks(fs.table, n.table);
    var l, l' := ViewOf(fs)[0].list, ViewOf(n)[0].list;
    assert l' == l[k := DirEntry(c, name)][k := DirEntry(0, [])];
  }

  lemma SameUsedBlocks(t: Table, t': Table)
    requires forall i :: 0 <= i < INODE_COUNT ==> t'[i].Used() == t[i].Used()
    requires forall i :: 0 <= i < INODE_COUNT && t[i].Used() ==> t'[i] == t[i]
    ensures UsedBlocks(t') == UsedBlocks(t)
  {
    forall b | b in UsedBlocks(t)
      ensures b in UsedBlocks(t')
    {
      var i, j :| 0 <= i < INODE_COUNT && 0 <= j < DIRECT_BLOCKS && t[i].Used() && t[i].blocks[j] != 0 && t[i].blocks[j] == b;
      assert t'[i].blocks[j] == b;
    }
    forall b | b in UsedBlocks(t')
      ensures b in UsedBlocks(t)
    {
      var i, j :| 0 <= i < INODE_COUNT && 0 <= j < DIRECT_BLOCKS && t'[i].Used() && t'[i].blocks[j] != 0 && t'[i].blocks[j] == b;
      assert t[i].blocks[j] == b;
    }
  }

  /** The disk after a put of a new name. */
  lemma PutNewResult(fs: Fs, w: Paths, name: Name, data: seq<Byte>)
    requires Sound(fs, w) && IsCName(name) && name != [] && RootUsable(fs, name) && OnDiskInodes(fs.table)
    requires Lookup(ViewOf(fs), 0, name) == None && PutOp(fs, name, data).code == 0
    ensures var c := FreeInode(fs.table, 1);
      var r := PutOp(fs, name, data);
      && AllOk(r.es) && 0 in w && w[0] == [] && c !in w && c < INODE_COUNT && !fs.table[c].Used()
      && Sound(DoAll(fs, r.es), w[c := [name]]) && LiveFile(DoAll(fs, r.es), w[c := [name]], c)
      && HasContent(DoAll(fs, r.es), c, data) && BlocksFor(|data|) <= DIRECT_BLOCKS
      && DoAll(fs, r.es).table == fs.table[c := NewFileInode(fs.table, |data|)]
      && RootUsable(DoAll(fs, r.es), name) && Lookup(ViewOf(DoAll(fs, r.es)), 0, name) == Some(c)
  {
    hide Sound, FreeInode, HasContent, NewFileInode, ViewOf, OnDiskInodes, Lookup, LeadsToUsed, AddsChildOrNothing, PutOp, HasBlock;
    PutAccepted(fs, name, data);
    PutNewCrash(fs, w, name, data);
    RootLive(fs, w);
    FreeInodeUnused(fs.table);
    var c := FreeInode(fs.table, 1);
    Succeeded(fs, PutOp(fs, name, data), w, 0, c, name);
    assert [] + [name] == [name];
    NotDotsView(fs, w, name);
    ChildFound(DoAll(fs, PutOp(fs, name, data).es), w[c := [name]], c, name);
  }

  lemma NotDotsView(fs: Fs, w: Paths, name: Name)
    requires Sound(fs, w) && 0 in w && ViewOf(fs)[0].Folder? && Lookup(ViewOf(fs), 0, name) == None
    ensures name != DOT && name != DOTDOT
  {
    NotDots(ViewOf(fs), w, 0, name);
  }

  lemma TargetLive(fs: Fs, w: Paths, name: Name)
    requires Sound(fs, w) && RootUsable(fs, name)
    requires var r := Lookup(ViewOf(fs), 0, name); r.Some? && !fs.table[r.value].Dir()
    ensures LiveFile(fs, w, Lookup(ViewOf(fs), 0, name).value)
  {
    hide ViewOf, Lookup, Sound;
    RootLive(fs, w);
    SoundLeads(fs, w, 0, name);
  }

  lemma PutNewReadBack(fs: Fs, w: Paths, name: Name, data: seq<Byte>, limit: nat)
    requires Sound(fs, w) && IsCName(name) && name != [] && RootUsable(fs, name) && OnDiskInodes(fs.table)
    requires Lookup(ViewOf(fs), 0, name) == None && PutOp(fs, name, data).code == 0
    ensures var r := PutOp(fs, name, data);
      AllOk(r.es) && LeadsToUsed(DoAll(fs, r.es), 0, name)
      && ReadOp(DoAll(fs, r.es), 0, name, limit) == Some(data[..Least(limit, |data|)])
  {
    hide Sound, FreeInode, NewFileInode, ViewOf, OnDiskInodes, Lookup, PutOp, ReadOp, LeadsToUsed;
    PutNewResult(fs, w, name, data);
    var c := FreeInode(fs.table, 1);
    var m := DoAll(fs, PutOp(fs, name, data).es);
    ReadIsPrefix(m, w[c := [name]], 0, name, limit, c);
  }

  lemma PutOverReadBack(fs: Fs, w: Paths, name: Name, data: seq<Byte>, limit: nat, f: nat)
    requires Sound(fs, w) && RootUsable(fs, name) && OnDiskInodes(fs.table)
    requires Lookup(ViewOf(fs), 0, name) == Some(f) && LiveFile(fs, w, f) && PutOp(fs, name, data).code == 0
    ensures var r := PutOp(fs, name, data);
      AllOk(r.es) && LeadsToUsed(DoAll(fs, r.es), 0, name)
      && ReadOp(DoAll(fs, r.es), 0, name, limit) == Some(data[..Least(limit, |data|)])
  {
    hide Sound, ViewOf, OnDiskInodes, Lookup, PutOp, ReadOp, LeadsToUsed, SameTree, HasBlock;
    var r := PutOp(fs, name, data);
    PutAccepted(fs, name, data);
    PutOverCrash(fs, w, name, data, f, |r.es|);
    assert r.es[..|r.es|] == r.es;
    var m := DoAll(fs, r.es);
    RootLive(fs, w);
    SameTreeView(fs, m, w, f);
    SameLookup(fs, m, name);
    SoundLeads(m, w, 0, name);
    ReadIsPrefix(m, w, 0, name, limit, f);
  }

  lemma SameLookup(fs: Fs, m: Fs, name: Name)
    requires ViewOf(m)[0] == ViewOf(fs)[0]
    ensures Lookup(ViewOf(m), 0, name) == Lookup(ViewOf(fs), 0, name)
  {
    hide ViewOf;
  }

  /** A file put by the tool, under a new name or over an existing file, is read back byte
      for byte by the kernel. */
  lemma PutReadBack(fs: Fs, w: Paths, name: Name, data: seq<Byte>, limit: nat)
    requires Sound(fs, w) && IsCName(name) && name != [] && RootUsable(fs, name) && OnDiskInodes(fs.table)
    requires var f := Lookup(ViewOf(fs), 0, name); f.Some? ==> !fs.table[f.value].Dir()
    requires PutOp(fs, name, data).code == 0
    ensures var r := PutOp(fs, name, data);
      AllOk(r.es) && LeadsToUsed(DoAll(fs, r.es), 0, name)
      && ReadOp(DoAll(fs, r.es), 0, name, limit) == Some(data[..Least(limit, |data|)])
  {
    hide Sound, ViewOf, OnDiskInodes, Lookup, PutOp, ReadOp, LeadsToUsed, HasBlock;
    var f := Lookup(ViewOf(fs), 0, name);
    if f.Some? {
      TargetLive(fs, w, name);
      PutOverReadBack(fs, w, name, data, limit, f.value);
    } else {
      PutNewReadBack(fs, w, name, data, limit);
    }
  }

  /** Putting a new file and removing it again restores the used inodes, the used blocks and
      the root listing. */
  lemma PutThenRm(fs: Fs, w: Paths, name: Name, data: seq<Byte>)
    requires Sound(fs, w) && IsCName(name) && name != [] && RootUsable(fs, name) && OnDiskInodes(fs.table)
    requires Lookup(ViewOf(fs), 0, name) == None && PutOp(fs, name, data).code == 0
    ensures AllOk(PutOp(fs, name, data).es) && RootUsable(DoAll(fs, PutOp(fs, name, data).es), name)
    ensures var m := DoAll(fs, PutOp(fs, name, data).es);
      RmOp(m, name).code == 0 && AllOk(RmOp(m, name).es) && Restored(fs, DoAll(m, RmOp(m, name).es), w)
  {
    hide Sound, FreeInode, NewFileInode, ViewOf, OnDiskInodes, Lookup, LeadsToUsed, EmptySlot, FindSlot, Entries,
         DecodeEntry, PutOp, RmOp, UsedBlocks, SameNamed, RootUsable, HasContent, LiveFile;
    PutNewResult(fs, w, name, data);
    PutNewListing(fs, w, name, data);
    var c := FreeInode(fs.table, 1);
    var m := DoAll(fs, PutOp(fs, name, data).es);
    RmRemoves(m, w[c := [name]], name, c);
    var k := EmptySlot(ViewOf(fs)[0].list, 0);
    NotInListing(ViewOf(fs), name);
    FoundSlot(ViewOf(fs)[0].list, name, k, c);
    assert w[0] + [name] == [name];
    RemovedRestores(fs, m, DoAll(m, RmOp(m, name).es), w, c, name, k);
  }

  lemma NotInListing(v: View, name: Name)
    requires v[0].Folder? && Lookup(v, 0, name) == None
    ensures FindSlot(v[0].list, name, 0) == ENTRIES
    ensures EmptySlot(v[0].list, 0) < ENTRIES ==> v[0].list[EmptySlot(v[0].list, 0)].name == []
  {
  }

  /** Same used inodes, same blocks in use, same named entries in the root. */
  ghost predicate Restored(fs: Fs, n: Fs, w: Paths) {
    && Sound(n, w)
    && (forall i :: 0 <= i < INODE_COUNT ==> n.table[i].Used() == fs.table[i].Used())
    && (forall i :: 0 <= i < INODE_COUNT && fs.table[i].Used() ==> n.table[i] == fs.table[i])
    && UsedBlocks(n.table) == UsedBlocks(fs.table)
    && ViewOf(fs)[0].Folder? && ViewOf(n)[0].Folder? && SameNamed(ViewOf(fs)[0].list, ViewOf(n)[0].list)
  }

  // ---- kernel and tool place files alike

  /** Table t is t0 with file f resized and its slots i.. to n holding the blocks that n - i
      searches in a row find. */
  ghost predicate Placed(t0: Table, t: Table, f: nat, size: nat, i: nat, n: nat)
    requires f < INODE_COUNT && i <= n <= DIRECT_BLOCKS
  {
    var run := KernelRun(UsedBlocks(t0), n - i);
    && t == t0[f := t[f]] && t[f].size == size && t[f].flags == t0[f].flags && |run| == n - i
    && forall j :: 0 <= j < DIRECT_BLOCKS ==>
         t[f].blocks[j] == if j < i then t0[f].blocks[j] else if j < n then run[j - i] else 0
  }

  lemma PlacedStep(t0: Table, t: Table, f: nat, size: nat, i: nat, n: nat)
    requires f < INODE_COUNT && i < n <= DIRECT_BLOCKS && t0[f].Used() && t0[f].blocks[i] == 0
    requires Placed(t0[f := t0[f].(blocks := t0[f].blocks[i := FreeBlock(t0)])], t, f, size, i + 1, n)
    ensures Placed(t0, t, f, size, i, n)
  {
    hide UsedBlocks;
    UsedBlocksGain(t0, f, i, FreeBlock(t0));
    var run := KernelRun(UsedBlocks(t0), n - i);
    var rest := KernelRun(UsedBlocks(t0) + {FreeBlock(t0)}, n - i - 1);
    assert run == [FreeBlock(t0)] + rest;
  }

  /** The blocks a kernel write gives to the empty slots of a file. */
  lemma {:induction false} WriteTable(m: Fs, f: nat, x: Inode, data: seq<Byte>, i: nat, n: nat)
    requires f < INODE_COUNT && x == m.table[f] && x.Used() && BlocksOnDisk(x) && |data| < 0x1_0000_0000
    requires i <= n <= DIRECT_BLOCKS && 512 * n < |data| + 512
    requires forall j :: i <= j < DIRECT_BLOCKS ==> x.blocks[j] == 0
    ensures Placed(m.table, DoAll(m, WriteBlocks(m, f, x, data, i, n)).table, f, |data|, i, n)
    decreases n - i
  {
    hide UsedBlocks, Chunk, Placed, FreeBlock;
    var es := WriteBlocks(m, f, x, data, i, n);
    if i == n {
      WriteTableEnd(m, f, x, data, n);
    } else {
      var b := FreeBlock(m.table);
      BlockInRange(m.table);
      var y := x.(blocks := x.blocks[i := b]);
      var e1, e2 := SetInode(f, y), SetBlock(b, Chunk(data, i));
      var m2 := Do(Do(m, e1), e2);
      assert Commit(f, x, i, y) + [e2] == [e1, e2];
      DoTwo(m, e1, e2);
      var rest := WriteBlocks(m2, f, y, data, i + 1, n);
      assert es == [e1, e2] + rest;
      DoAllSplit(m, [e1, e2], rest);
      WriteTable(m2, f, y, data, i + 1, n);
      PlacedStep(m.table, DoAll(m, es).table, f, |data|, i, n);
    }
  }

  lemma BlockInRange(t: Table)
    ensures DATA_START <= FreeBlock(t) < TOTAL_SECTORS
  {
  }

  lemma WriteTableEnd(m: Fs, f: nat, x: Inode, data: seq<Byte>, n: nat)
    requires f < INODE_COUNT && x == m.table[f] && x.Used() && BlocksOnDisk(x) && |data| < 0x1_0000_0000
    requires n <= DIRECT_BLOCKS && 512 * n < |data| + 512 && forall j :: n <= j < DIRECT_BLOCKS ==> x.blocks[j] == 0
    ensures Placed(m.table, DoAll(m, WriteBlocks(m, f, x, data, n, n)).table, f, |data|, n, n)
  {
    hide UsedBlocks;
    var last := [SetInode(f, x.(size := |data|))];
    assert last[1..] == [];
  }

  /** For a new name the kernel's create and the tool's put succeed on the same disks, but for
      files of more than 30 blocks, which only put turns down that early. */
  lemma SameAcceptance(fs: Fs, w: Paths, name: Name, data: seq<Byte>)
    requires Sound(fs, w) && name != [] && RootUsable(fs, name) && OnDiskInodes(fs.table) && Lookup(ViewOf(fs), 0, name) == None
    ensures PutOp(fs, name, data).code == 0 <==> CreateOp(fs, 0, name).code == 0 && BlocksFor(|data|) <= DIRECT_BLOCKS
    ensures BlocksFor(|data|) <= DIRECT_BLOCKS ==> PutOp(fs, name, data).code == CreateOp(fs, 0, name).code
  {
    hide Sound, StillOld, PrefixesOld, FreeInode, PutNewSetup, HasContent, NewFileInode, ReadyChild, ViewOf,
         OnDiskInodes, Lookup, LeadsToUsed, EmptySlot, Entries;
    RootLive(fs, w);
    SameFreeInode(fs.table);
    if FreeInode(fs.table, 0) < INODE_COUNT && BlocksFor(|data|) <= DIRECT_BLOCKS {
      PutNewPrepares(fs, w, data);
      PrefixLast(fs, PutNewSetup(fs, data), w);
      RoomStays(fs, DoAll(fs, PutNewSetup(fs, data)), w, 0);
    }
    if FreeInode(fs.table, 0) < INODE_COUNT {
      AfterAlloc(fs, w, FLAG_FILE);
      RoomStays(fs, Do(fs, Alloc(FreeInode(fs.table, 0), FLAG_FILE)), w, 0);
    }
  }

  /** put succeeds exactly for names under 28 bytes and at most 15360 bytes of data, when the
      name is there or can be added. */
  lemma PutIff(fs: Fs, w: Paths, name: Name, data: seq<Byte>)
    requires Sound(fs, w) && name != [] && RootUsable(fs, name) && OnDiskInodes(fs.table)
    ensures PutOp(fs, name, data).code == 0 <==>
      |name| < 28 && |data| <= 15360 && (Lookup(ViewOf(fs), 0, name).Some? || CanAdd(fs, 0, name))
  {
    hide Sound, OnDiskInodes, LeadsToUsed, Lookup, ViewOf, CreateOp, HasBlock, PutNewSetup, CanAdd;
    if Lookup(ViewOf(fs), 0, name).None? {
      hide PutOp;
      RootLive(fs, w);
      SameAcceptance(fs, w, name, data);
      CreateIff(fs, w, 0, name);
      ShortName(fs, 0, name);
    }
  }

  lemma ShortName(fs: Fs, a: nat, name: Name)
    requires a < INODE_COUNT && HasBlock(fs, a)
    ensures CanAdd(fs, a, name) ==> |name| < 28
  {
  }

  /** rm succeeds exactly for the name of a file. */
  lemma RmIff(fs: Fs, w: Paths, name: Name)
    requires Sound(fs, w) && RootUsable(fs, name)
    ensures var r := Lookup(ViewOf(fs), 0, name);
      RmOp(fs, name).code == 0 <==> r.Some? && r.value < INODE_COUNT && !fs.table[r.value].Dir()
    ensures RmOp(fs, name).code != 0 ==> RmOp(fs, name).es == []
  {
    hide Sound, ViewOf, FindSlot, Entries, PutSlot;
    RootLive(fs, w);
    RootListing(fs);
  }

  /** A new file written by the kernel (create, then write) and the same file put by the
      tool get the same inode number, size and blocks: the two inode tables are equal, and
      both hold the data. */
  lemma SamePlacement(fs: Fs, w: Paths, name: Name, data: seq<Byte>)
    requires Sound(fs, w) && IsCName(name) && name != [] && RootUsable(fs, name) && OnDiskInodes(fs.table)
    requires Lookup(ViewOf(fs), 0, name) == None && PutOp(fs, name, data).code == 0
    ensures CreateOp(fs, 0, name).code == 0
    ensures AllOk(PutOp(fs, name, data).es) && AllOk(CreateOp(fs, 0, name).es)
    ensures var k1 := DoAll(fs, CreateOp(fs, 0, name).es);
      LeadsToUsed(k1, 0, name) &&
      var k2 := WriteOp(k1, 0, name, data);
      k2.code == 0 && AllOk(k2.es) && DoAll(k1, k2.es).table == DoAll(fs, PutOp(fs, name, data).es).table
  {
    hide Sound, FreeInode, NewFileInode, ViewOf, OnDiskInodes, Lookup, LeadsToUsed, PutOp, CreateOp, HasContent, HasBlock,
         UsedBlocks, AddsChildOrNothing, WriteBlocks, Placed;
    var c := FreeInode(fs.table, 1);
    var n := BlocksFor(|data|);
    RootLive(fs, w);
    SameFreeInode(fs.table);
    PutNewResult(fs, w, name, data);
    SameAcceptance(fs, w, name, data);
    CreateCrash(fs, w, 0, name);
    var r := CreateOp(fs, 0, name);
    Succeeded(fs, r, w, 0, c, name);
    CreatedTable(fs, name);
    var k1 := DoAll(fs, r.es);
    assert [] + [name] == [name];
    NotDotsView(fs, w, name);
    ChildFound(k1, w[c := [name]], c, name);
    EmptyFileFits(k1, c);
    WriteOpIs(k1, name, data, c);
    WriteTable(k1, c, k1.table[c], data, 0, n);
    SameUsedAfterAlloc(fs.table, c);
    PlacedIsRun(fs.table, k1.table, DoAll(k1, WriteOp(k1, 0, name, data).es).table, c, |data|);
  }

  lemma CreatedTable(fs: Fs, name: Name)
    requires HasBlock(fs, 0) && CreateOp(fs, 0, name).code == 0 && AllOk(CreateOp(fs, 0, name).es)
    ensures FreeInode(fs.table, 0) < INODE_COUNT
    ensures DoAll(fs, CreateOp(fs, 0, name).es).table == fs.table[FreeInode(fs.table, 0) := Inode(0, FLAG_FILE, NoBlocks())]
  {
    hide FreeInode, ViewOf, Lookup, PutSlot, EntryImage, EmptySlot, Entries;
    var es := CreateOp(fs, 0, name).es;
    assert es == [es[0], es[1]];
    DoTwo(fs, es[0], es[1]);
  }

  lemma EmptyFileFits(m: Fs, c: nat)
    requires c < INODE_COUNT && m.table[c] == Inode(0, FLAG_FILE, NoBlocks())
    ensures BlocksOnDisk(m.table[c]) && m.table[c].Used() && forall j :: 0 <= j < DIRECT_BLOCKS ==> m.table[c].blocks[j] == 0
  {
  }

  lemma WriteOpIs(m: Fs, name: Name, data: seq<Byte>, c: nat)
    requires LeadsToUsed(m, 0, name) && Lookup(ViewOf(m), 0, name) == Some(c) && c < INODE_COUNT
    requires BlocksFor(|data|) <= DIRECT_BLOCKS && BlocksOnDisk(m.table[c])
    ensures WriteOp(m, 0, name, data) == Outcome(0, WriteBlocks(m, c, m.table[c], data, 0, BlocksFor(|data|)))
  {
    hide ViewOf, Lookup, WriteBlocks;
  }

  lemma SameUsedAfterAlloc(t: Table, c: nat)
    requires c < INODE_COUNT && !t[c].Used()
    ensures UsedBlocks(t[c := Inode(0, FLAG_FILE, NoBlocks())]) == UsedBlocks(t)
  {
    var t' := t[c := Inode(0, FLAG_FILE, NoBlocks())];
    forall b | b in UsedBlocks(t)
      ensures b in UsedBlocks(t')
    {
      var i, j :| 0 <= i < INODE_COUNT && 0 <= j < DIRECT_BLOCKS && t[i].Used() && t[i].blocks[j] != 0 && t[i].blocks[j] == b;
      assert t'[i].blocks[j] == b;
    }
    forall b | b in UsedBlocks(t')
      ensures b in UsedBlocks(t)
    {
      var i, j :| 0 <= i < INODE_COUNT && 0 <= j < DIRECT_BLOCKS && t'[i].Used() && t'[i].blocks[j] != 0 && t'[i].blocks[j] == b;
      assert t[i].blocks[j] == b;
    }
  }

  lemma PlacedIsRun(t: Table, t1: Table, t2: Table, c: nat, size: nat)
    requires c < INODE_COUNT && BlocksFor(size) <= DIRECT_BLOCKS && t1 == t[c := Inode(0, FLAG_FILE, NoBlocks())]
    requires UsedBlocks(t1) == UsedBlocks(t) && Placed(t1, t2, c, size, 0, BlocksFor(size))
    ensures t2 == t[c := NewFileInode(t, size)]
  {
    hide UsedBlocks, FreeRun;
    var n := BlocksFor(size);
    SameChoice(UsedBlocks(t), UsedBlocks(t), DATA_START, n);
    FreeRunOnDisk(t, n);
    var x := NewFileInode(t, size);
    forall j | 0 <= j < DIRECT_BLOCKS
      ensures t2[c].blocks[j] == x.blocks[j]
    {
    }
    assert t2[c].blocks == x.blocks;
  }
}
