/**
 create and mkdir: what every prefix of their writes leaves, and that the last write
 alone adds the one named child.
 */
module Creation {
  import opened Machine
  import opened DiskFormat
  import opened Ownership
  import opened Namespace
  import opened FsSpec
  import opened Consistency

  /** Facts about a sound state that most proofs need, without its quantified parts. */
  lemma SoundDir(fs: Fs, w: Paths, a: nat)
    requires Sound(fs, w) && a in w
    ensures a < INODE_COUNT && fs.table[a].Used() && HasBlock(fs, a)
    ensures ViewOf(fs)[a].Folder? <==> fs.table[a].Dir()
  {
    assert InodeOk(fs.table[a]);
  }

  lemma FreshInode(fs: Fs, w: Paths)
    requires Sound(fs, w) && FreeInode(fs.table, 0) < INODE_COUNT
    ensures FreeInode(fs.table, 0) !in w && FreeInode(fs.table, 0) != 0
    ensures !fs.table[FreeInode(fs.table, 0)].Used()
  {
  }

  /** Clearing a free inode and marking it used takes no block. */
  lemma AllocOwned(t: Table, c: nat, flags: U32)
    requires Owned(t) && 0 < c < INODE_COUNT && !t[c].Used() && (flags == FLAG_FILE || flags == FLAG_DIR)
    ensures Owned(t[c := Inode(0, flags, NoBlocks())])
  {
    OwnedUpdate(t, c, Inode(0, flags, NoBlocks()));
  }

  /** Before the last write: the old tree, whatever happened to unreachable inodes. */
  ghost predicate StillOld(fs: Fs, m: Fs, w: Paths) {
    Sound(m, w) && SameTree(fs, m, w)
  }

  /** After it: the old tree plus one child; every other node is what it was. */
  ghost predicate Grown(fs: Fs, m: Fs, w: Paths, a: nat, c: nat, name: Name)
    requires a in w && a < INODE_COUNT
  {
    && c !in w && c < INODE_COUNT
    && Sound(m, w[c := w[a] + [name]])
    && SameTree(fs, m, w - {a})
    && m.table[a] == fs.table[a]
  }

  lemma AfterAlloc(fs: Fs, w: Paths, flags: U32)
    requires Sound(fs, w) && FreeInode(fs.table, 0) < INODE_COUNT && (flags == FLAG_FILE || flags == FLAG_DIR)
    ensures StillOld(fs, Do(fs, Alloc(FreeInode(fs.table, 0), flags)), w)
  {
    var c := FreeInode(fs.table, 0);
    FreshInode(fs, w);
    AllocOwned(fs.table, c, flags);
    OrphanInode(fs, w, c, Inode(0, flags, NoBlocks()));
  }

  lemma SameListing(fs: Fs, m: Fs, w: Paths, a: nat)
    requires Sound(fs, w) && StillOld(fs, m, w) && a in w
    ensures a < INODE_COUNT && m.table[a] == fs.table[a] && ViewOf(m)[a] == ViewOf(fs)[a]
  {
    assert SameNode(fs, m, a);
    SameNodeView(fs, m, a);
  }

  /** The naming write on a state that still holds the old tree. */
  lemma NamingGrows(fs: Fs, m: Fs, w: Paths, a: nat, c: nat, name: Name, e: Effect)
    requires Sound(fs, w) && StillOld(fs, m, w) && a in w && c < INODE_COUNT && ReadyChild(m, w, a, c)
    requires fs.table[a].Dir() && HasBlock(fs, a)
    requires 0 < |name| < MAX_FILENAME && IsCName(name) && Lookup(ViewOf(fs), a, name) == None
    requires AddEntryOp(m, fs.table[a].blocks[0], DirEntry(c, name)) == Some(e)
    ensures e.Ok() && Grown(fs, Do(m, e), w, a, c, name)
    ensures ViewOf(Do(m, e))[c] == ViewOf(m)[c] && Do(m, e).table == m.table
  {
    SameListing(fs, m, w, a);
    SoundDir(fs, w, a);
    NotDots(ViewOf(fs), w, a, name);
    NamingAddsChild(m, w, a, c, name, e);
    assert SameTree(fs, m, w - {a});
    SameTreeTrans(fs, m, Do(m, e), w - {a});
  }

  /** A name the directory does not hold is neither "." nor "..". */
  lemma NotDots(v: View, w: Paths, a: nat, name: Name)
    requires Tree(v, w) && a in w && v[a].Folder? && Lookup(v, a, name) == None
    ensures name != DOT && name != DOTDOT
  {
    assert DirOk(v[a].list, a, w);
  }

  /** The last step of create and mkdir: either nothing more is written, or one write
      completes the new tree. */
  lemma NamedStep(fs: Fs, m: Fs, w: Paths, a: nat, c: nat, name: Name, before: seq<Effect>)
    requires Sound(fs, w) && StillOld(fs, m, w) && a in w && c < INODE_COUNT && ReadyChild(m, w, a, c)
    requires a < INODE_COUNT && fs.table[a].Dir() && HasBlock(fs, a) && AllOk(before)
    requires 0 < |name| < MAX_FILENAME && IsCName(name) && Lookup(ViewOf(fs), a, name) == None
    ensures var r := Named(m, fs.table[a].blocks[0], DirEntry(c, name), before);
      && AllOk(r.es)
      && (r.code == -1 ==> r.es == before)
      && (r.code != -1 ==> r.code == 0 && |r.es| == |before| + 1 && r.es[..|before|] == before
                           && Grown(fs, Do(m, r.es[|before|]), w, a, c, name)
                           && Do(m, r.es[|before|]).table == m.table
                           && ViewOf(Do(m, r.es[|before|]))[c] == ViewOf(m)[c])
  {
    hide Sound, StillOld, Grown, ViewOf, PutSlot, EntryImage, ReadyChild, EmptySlot;
    var add := AddEntryOp(m, fs.table[a].blocks[0], DirEntry(c, name));
    if add.Some? {
      NamingGrows(fs, m, w, a, c, name, add.value);
    }
  }

  // ---- create

  /** Result and writes of an operation that adds one child to a sound state: every proper
      prefix of the writes leaves the old tree, all of them on success the new one. */
  ghost predicate AddsChildOrNothing(fs: Fs, r: Outcome, w: Paths, a: nat, c: nat, name: Name)
    requires a in w && a < INODE_COUNT
  {
    && AllOk(r.es)
    && (r.code == 0 || r.code == -1)
    && (forall k :: 0 <= k <= |r.es| && (r.code == -1 || k < |r.es|) ==> StillOld(fs, DoAll(fs, r.es[..k]), w))
    && (r.code == 0 ==> Grown(fs, DoAll(fs, r.es), w, a, c, name))
  }

  ghost predicate PrefixesOld(fs: Fs, es: seq<Effect>, w: Paths) {
    AllOk(es) && forall k :: 0 <= k <= |es| ==> StillOld(fs, DoAll(fs, es[..k]), w)
  }

  lemma PrefixLast(fs: Fs, es: seq<Effect>, w: Paths)
    requires PrefixesOld(fs, es, w)
    ensures AllOk(es) && StillOld(fs, DoAll(fs, es), w) && Sound(DoAll(fs, es), w)
  {
    hide Sound, SameTree;
    assert es[..|es|] == es;
  }

  lemma PrefixesSnoc(fs: Fs, es: seq<Effect>, e: Effect, w: Paths)
    requires PrefixesOld(fs, es, w) && e.Ok() && StillOld(fs, Do(DoAll(fs, es), e), w)
    ensures PrefixesOld(fs, es + [e], w) && DoAll(fs, es + [e]) == Do(DoAll(fs, es), e)
  {
    hide StillOld;
    DoAllSplit(fs, es, [e]);
    forall k | 0 <= k <= |es| + 1
      ensures StillOld(fs, DoAll(fs, (es + [e])[..k]), w)
    {
      assert (es + [e])[..k] == if k <= |es| then es[..k] else es + [e];
    }
  }

  /** Writes that keep the old tree, followed by the naming step. */
  lemma Completes(fs: Fs, w: Paths, a: nat, c: nat, name: Name, before: seq<Effect>)
    requires Sound(fs, w) && PrefixesOld(fs, before, w) && a in w && c < INODE_COUNT
    requires fs.table[a].Dir() && HasBlock(fs, a) && ReadyChild(DoAll(fs, before), w, a, c)
    requires 0 < |name| < MAX_FILENAME && IsCName(name) && Lookup(ViewOf(fs), a, name) == None
    ensures var r := Named(DoAll(fs, before), fs.table[a].blocks[0], DirEntry(c, name), before);
      && a < INODE_COUNT && AddsChildOrNothing(fs, r, w, a, c, name)
      && (r.code == 0 ==> DoAll(fs, r.es).table == DoAll(fs, before).table
                          && ViewOf(DoAll(fs, r.es))[c] == ViewOf(DoAll(fs, before))[c])
  {
    hide Sound, StillOld, Grown, ViewOf, ReadyChild, AddEntryOp, Lookup, HasBlock;
    SoundDir(fs, w, a);
    var m := DoAll(fs, before);
    var r := Named(m, fs.table[a].blocks[0], DirEntry(c, name), before);
    assert before[..|before|] == before;
    NamedStep(fs, m, w, a, c, name, before);
    forall k | 0 <= k <= |before|
      ensures StillOld(fs, DoAll(fs, r.es[..k]), w)
    {
      assert r.es[..k] == before[..k];
    }
    if r.code == 0 {
      assert r.es == before + [r.es[|before|]];
      DoAllSplit(fs, before, [r.es[|before|]]);
    }
  }

  lemma NothingWritten(fs: Fs, w: Paths, a: nat, c: nat, name: Name)
    requires Sound(fs, w) && a in w && a < INODE_COUNT
    ensures PrefixesOld(fs, [], w) && AddsChildOrNothing(fs, Outcome(-1, []), w, a, c, name)
  {
    hide Sound, SameNode;
    assert SameTree(fs, fs, w) by {
      forall i | i in w && i < INODE_COUNT
        ensures SameNode(fs, fs, i)
      {
        SameNodeRefl(fs, i);
      }
    }
  }

  lemma SameNodeRefl(fs: Fs, i: nat)
    requires i < INODE_COUNT
    ensures SameNode(fs, fs, i)
  {
  }

  /** Wherever a create is cut short, the disk holds the old tree; complete, it holds the
      old tree plus one empty file, or (on -1) still the old tree. */
  lemma CreateCrash(fs: Fs, w: Paths, a: nat, name: Name)
    requires Sound(fs, w) && a in w && IsCName(name)
    ensures a < INODE_COUNT && HasBlock(fs, a)
    ensures AddsChildOrNothing(fs, CreateOp(fs, a, name), w, a, FreeInode(fs.table, 0), name)
    ensures CreateOp(fs, a, name).code == 0 ==>
      DoAll(fs, CreateOp(fs, a, name).es).table[FreeInode(fs.table, 0)] == Inode(0, FLAG_FILE, NoBlocks())
  {
    hide Sound, StillOld, Grown, ViewOf, AddsChildOrNothing, Lookup, HasBlock, PrefixesOld;
    SoundDir(fs, w, a);
    var c := FreeInode(fs.table, 0);
    NothingWritten(fs, w, a, c, name);
    if !Refused(fs, a, name) {
      var e1 := Alloc(c, FLAG_FILE);
      AfterAlloc(fs, w, FLAG_FILE);
      FreshInode(fs, w);
      PrefixesSnoc(fs, [], e1, w);
      assert [] + [e1] == [e1];
      Completes(fs, w, a, c, name, [e1]);
    }
  }

  // ---- mkdir

  lemma StillOldTrans(fs: Fs, m: Fs, n: Fs, w: Paths)
    requires StillOld(fs, m, w) && StillOld(m, n, w)
    ensures StillOld(fs, n, w)
  {
    SameTreeTrans(fs, m, n, w);
  }

  /** The block mkdir fills holds "." for itself, ".." for its parent, nothing else. */
  lemma FreshDirDecodes(self: U32, parent: U32)
    ensures FreshDir(Entries(FreshDirSector(self, parent)), self, parent)
  {
    hide DecodeEntry, EntryImage, PutSlot, SlotImage;
    var z: seq<Byte> := seq(32, i => 0);
    var e0, e1 := DirEntry(self, DOT), DirEntry(parent, DOTDOT);
    var s0 := PutSlot(ZeroSector(), 0, EntryImage(z, e0));
    EntriesPutSlot(ZeroSector(), 0, EntryImage(z, e0));
    EntriesPutSlot(s0, 1, EntryImage(z, e1));
    DecodeEntryImage(z, e0);
    DecodeEntryImage(z, e1);
    ZeroSlots();
  }

  lemma ZeroSlots()
    ensures forall k :: 0 <= k < ENTRIES ==> Entries(ZeroSector())[k].name == []
  {
    forall k | 0 <= k < ENTRIES
      ensures Entries(ZeroSector())[k].name == []
    {
      assert SlotImage(ZeroSector(), k)[4..][0] == 0;
    }
  }

  /** Writing the new directory's block: it was free, so nothing reachable changes. */
  lemma MkdirBlockStep(m: Fs, w: Paths, s: Sector)
    requires Sound(m, w)
    ensures StillOld(m, Do(m, SetBlock(FreeBlock(m.table), s)), w)
  {
    OrphanBlock(m, w, FreeBlock(m.table), s);
  }

  /** Handing it to the new inode: still unreachable. */
  lemma MkdirInodeStep(m: Fs, w: Paths, c: nat, b: nat)
    requires Sound(m, w) && 0 < c < INODE_COUNT && c !in w
    requires m.table[c] == Inode(0, FLAG_DIR, NoBlocks()) && b == FreeBlock(m.table)
    ensures StillOld(m, Do(m, SetInode(c, Inode(0, FLAG_DIR, NoBlocks()[0 := b]))), w)
  {
    hide UsedBlocks, Tree, Disjoint;
    var x := Inode(0, FLAG_DIR, NoBlocks()[0 := b]);
    OwnedUpdate(m.table, c, x);
    OrphanInode(m, w, c, x);
  }

  lemma MkdirPrefixes(fs: Fs, w: Paths, a: nat)
    requires Sound(fs, w) && a in w && a < INODE_COUNT && FreeInode(fs.table, 0) < INODE_COUNT
    ensures var es := MkdirSetup(fs, a, FreeInode(fs.table, 0));
      PrefixesOld(fs, es, w) && ReadyChild(DoAll(fs, es), w, a, FreeInode(fs.table, 0))
  {
    hide Sound, StillOld, ViewOf, PrefixesOld, FreshDirSector, Entries, FreshDir;
    var c := FreeInode(fs.table, 0);
    var es := MkdirSetup(fs, a, c);
    var m1 := Do(fs, es[0]);
    var b := FreeBlock(m1.table);
    var m2, m3 := Do(m1, es[1]), Do(Do(m1, es[1]), es[2]);
    AfterAlloc(fs, w, FLAG_DIR);
    FreshInode(fs, w);
    StillOldSound(fs, m1, w);
    MkdirBlockStep(m1, w, FreshDirSector(c, a));
    StillOldSound(m1, m2, w);
    MkdirInodeStep(m2, w, c, b);
    StillOldTrans(fs, m1, m2, w);
    StillOldTrans(fs, m2, m3, w);
    NothingWritten(fs, w, a, c, []);
    ThreePrefixes(fs, es[0], es[1], es[2], w);
    assert es == [es[0], es[1], es[2]];
    FreshDirDecodes(c, a);
    NewDirView(m3, c, b, FreshDirSector(c, a));
  }

  lemma ThreePrefixes(fs: Fs, e0: Effect, e1: Effect, e2: Effect, w: Paths)
    requires PrefixesOld(fs, [], w) && e0.Ok() && e1.Ok() && e2.Ok()
    requires StillOld(fs, Do(fs, e0), w) && StillOld(fs, Do(Do(fs, e0), e1), w) && StillOld(fs, Do(Do(Do(fs, e0), e1), e2), w)
    ensures PrefixesOld(fs, [e0, e1, e2], w) && DoAll(fs, [e0, e1, e2]) == Do(Do(Do(fs, e0), e1), e2)
  {
    hide StillOld, PrefixesOld, Do;
    PrefixesSnoc(fs, [], e0, w);
    assert [] + [e0] == [e0];
    PrefixesSnoc(fs, [e0], e1, w);
    assert [e0] + [e1] == [e0, e1];
    PrefixesSnoc(fs, [e0, e1], e2, w);
    assert [e0, e1] + [e2] == [e0, e1, e2];
  }

  lemma StillOldSound(fs: Fs, m: Fs, w: Paths)
    requires StillOld(fs, m, w)
    ensures Sound(m, w)
  {
  }

  lemma NewDirView(m: Fs, c: nat, b: nat, s: Sector)
    requires c < INODE_COUNT && DATA_START <= b < TOTAL_SECTORS && m.Block(b) == s
    requires m.table[c] == Inode(0, FLAG_DIR, NoBlocks()[0 := b])
    ensures ViewOf(m)[c] == Folder(Entries(s))
  {
  }

  /** Wherever a mkdir is cut short, the disk holds the old tree; complete, it holds the
      old tree plus one empty directory, or (on -1) still the old tree. */
  lemma MkdirCrash(fs: Fs, w: Paths, a: nat, name: Name)
    requires Sound(fs, w) && a in w && IsCName(name)
    ensures a < INODE_COUNT && HasBlock(fs, a)
    ensures AddsChildOrNothing(fs, MkdirOp(fs, a, name), w, a, FreeInode(fs.table, 0), name)
    ensures var r, c := MkdirOp(fs, a, name), FreeInode(fs.table, 0);
      r.code == 0 ==> ViewOf(DoAll(fs, r.es))[c].Folder? && FreshDir(ViewOf(DoAll(fs, r.es))[c].list, c, a)
                      && DoAll(fs, r.es).table[c].size == 0
  {
    hide Sound, StillOld, Grown, ViewOf, AddsChildOrNothing, Lookup, HasBlock, PrefixesOld, MkdirSetup, FreshDir, Named;
    SoundDir(fs, w, a);
    var c := FreeInode(fs.table, 0);
    NothingWritten(fs, w, a, c, name);
    if !Refused(fs, a, name) {
      var es := MkdirSetup(fs, a, c);
      MkdirPrefixes(fs, w, a);
      MkdirSetupMakesDir(fs, a, c);
      Completes(fs, w, a, c, name, es);
    }
  }

  lemma MkdirSetupMakesDir(fs: Fs, a: nat, c: nat)
    requires c < INODE_COUNT && a < INODE_COUNT
    ensures var x := DoAll(fs, MkdirSetup(fs, a, c)).table[c]; x.Dir() && x.size == 0
  {
    var es := MkdirSetup(fs, a, c);
    assert es == [es[0], es[1]] + [es[2]];
    DoAllSplit(fs, [es[0], es[1]], [es[2]]);
  }

  // ---- when they succeed

  /** Some slot of the listing carries the name. */
  predicate Names(l: Listing, name: Name) {
    exists k :: 0 <= k < 16 && l[k].name == name
  }

  /** What create and mkdir need: a name of 1 to 27 bytes that the directory does not hold,
      an unused inode, and a nameless slot. */
  predicate CanAdd(fs: Fs, a: nat, name: Name)
    requires a < INODE_COUNT && HasBlock(fs, a)
  {
    && 0 < |name| < 28 && fs.table[a].Dir()
    && var l := Entries(fs.Block(fs.table[a].blocks[0]));
      !Names(l, name) && Names(l, []) && exists i :: 0 <= i < 64 && !fs.table[i].Used()
  }

  lemma NamesSlot(l: Listing, name: Name)
    ensures name != [] ==> (Names(l, name) <==> FindSlot(l, name, 0) < ENTRIES)
    ensures Names(l, []) <==> EmptySlot(l, 0) < ENTRIES
  {
    var j, k := FindSlot(l, name, 0), EmptySlot(l, 0);
    assert j < ENTRIES ==> l[j].name == name;
    assert k < ENTRIES ==> l[k].name == [];
  }

  lemma DirView(fs: Fs, a: nat)
    requires a < INODE_COUNT && HasBlock(fs, a) && fs.table[a].Dir()
    ensures ViewOf(fs)[a] == Folder(Entries(fs.Block(fs.table[a].blocks[0])))
  {
  }

  /** The checks and the search for an inode, without them. */
  lemma RefusedIff(fs: Fs, a: nat, name: Name)
    requires a < INODE_COUNT && HasBlock(fs, a) && fs.table[a].Dir()
    ensures Refused(fs, a, name) <==>
      !(0 < |name| < 28 && !Names(Entries(fs.Block(fs.table[a].blocks[0])), name) && exists i :: 0 <= i < 64 && !fs.table[i].Used())
  {
    hide Entries, ViewOf, FindSlot;
    DirView(fs, a);
    NamesSlot(Entries(fs.Block(fs.table[a].blocks[0])), name);
    var i := FreeInode(fs.table, 0);
    assert i < INODE_COUNT ==> !fs.table[i].Used();
  }

  /** While the old tree stands a directory lists what it listed. */
  lemma RoomStays(fs: Fs, m: Fs, w: Paths, a: nat)
    requires Sound(fs, w) && StillOld(fs, m, w) && a in w && a < INODE_COUNT && HasBlock(fs, a) && fs.table[a].Dir()
    ensures HasBlock(m, a) && Entries(m.Block(fs.table[a].blocks[0])) == Entries(fs.Block(fs.table[a].blocks[0]))
  {
    hide Sound, StillOld, ViewOf, Entries;
    SameListing(fs, m, w, a);
    DirView(fs, a);
    DirView(m, a);
  }

  /** create succeeds exactly when all it needs is there. */
  lemma CreateIff(fs: Fs, w: Paths, a: nat, name: Name)
    requires Sound(fs, w) && a in w
    ensures a < INODE_COUNT && HasBlock(fs, a) && (CreateOp(fs, a, name).code == 0 <==> CanAdd(fs, a, name))
  {
    hide Sound, StillOld, ViewOf, Entries, Lookup, HasBlock, Refused, EmptySlot, Names;
    SoundDir(fs, w, a);
    if !fs.table[a].Dir() {
      NotADir(fs, a, name);
    } else {
      RefusedIff(fs, a, name);
      if !Refused(fs, a, name) {
        FreeThere(fs, a, name);
        AfterAlloc(fs, w, FLAG_FILE);
        RoomStays(fs, Do(fs, Alloc(FreeInode(fs.table, 0), FLAG_FILE)), w, a);
        BlockThere(fs, a);
        NamesSlot(Entries(fs.Block(fs.table[a].blocks[0])), name);
      }
    }
  }

  lemma NotADir(fs: Fs, a: nat, name: Name)
    requires a < INODE_COUNT && !fs.table[a].Dir()
    ensures Refused(fs, a, name)
  {
  }

  lemma FreeThere(fs: Fs, a: nat, name: Name)
    requires a < INODE_COUNT && !Refused(fs, a, name)
    ensures FreeInode(fs.table, 0) < INODE_COUNT && |name| < MAX_FILENAME && fs.table[a].Dir()
  {
  }

  lemma BlockThere(fs: Fs, a: nat)
    requires a < INODE_COUNT && HasBlock(fs, a) && fs.table[a].Dir()
    ensures DATA_START <= fs.table[a].blocks[0] < TOTAL_SECTORS
  {
  }

  /** So does mkdir: a block for it can always be found. */
  lemma MkdirIff(fs: Fs, w: Paths, a: nat, name: Name)
    requires Sound(fs, w) && a in w
    ensures a < INODE_COUNT && HasBlock(fs, a) && (MkdirOp(fs, a, name).code == 0 <==> CanAdd(fs, a, name))
  {
    hide Sound, StillOld, ViewOf, Entries, Lookup, HasBlock, Refused, EmptySlot, Names, MkdirSetup, PrefixesOld, ReadyChild;
    SoundDir(fs, w, a);
    if !fs.table[a].Dir() {
      NotADir(fs, a, name);
    } else {
      RefusedIff(fs, a, name);
      if !Refused(fs, a, name) {
        FreeThere(fs, a, name);
        MkdirPrefixes(fs, w, a);
        var es := MkdirSetup(fs, a, FreeInode(fs.table, 0));
        PrefixLast(fs, es, w);
        RoomStays(fs, DoAll(fs, es), w, a);
        BlockThere(fs, a);
        NamesSlot(Entries(fs.Block(fs.table[a].blocks[0])), name);
      }
    }
  }

  // ---- the same, said of paths

  /** The old tree resolves every path as before. */
  lemma StillOldPaths(fs: Fs, m: Fs, w: Paths, p: Path)
    requires Sound(fs, w) && StillOld(fs, m, w)
    ensures Resolve(ViewOf(m), p) == Resolve(ViewOf(fs), p)
  {
    hide SameNode;
    SameResolution(ViewOf(fs), w, ViewOf(m), w, p);
  }

  /** Two sound trees that record the same inode for a path resolve it alike. */
  lemma SameResolution(v: View, w: Paths, v': View, w': Paths, p: Path)
    requires Tree(v, w) && Tree(v', w')
    requires forall i :: (i in w && w[i] == p) <==> (i in w' && w'[i] == p)
    ensures Resolve(v', p) == Resolve(v, p)
  {
    if Resolve(v, p).Some? {
      ResolveIff(v, w, p, Resolve(v, p).value);
      ResolveIff(v', w', p, Resolve(v, p).value);
    } else if Resolve(v', p).Some? {
      ResolveIff(v, w, p, Resolve(v', p).value);
      ResolveIff(v', w', p, Resolve(v', p).value);
    }
  }

  /** The grown tree resolves the one new path to the new inode and every other path as
      before. */
  lemma GrownPaths(fs: Fs, m: Fs, w: Paths, a: nat, c: nat, name: Name, p: Path)
    requires Sound(fs, w) && a in w && a < INODE_COUNT && Grown(fs, m, w, a, c, name)
    ensures Resolve(ViewOf(m), p) == if p == w[a] + [name] then Some(c) else Resolve(ViewOf(fs), p)
  {
    hide SameNode;
    var u := w[c := w[a] + [name]];
    if p == w[a] + [name] {
      ResolveIff(ViewOf(m), u, p, c);
    } else {
      SameResolution(ViewOf(fs), w, ViewOf(m), u, p);
    }
  }
}
