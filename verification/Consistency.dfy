/**
 What updates leave unchanged, and what naming or erasing a child does to a sound state.
 */
module Consistency {
  import opened Machine
  import opened DiskFormat
  import opened Ownership
  import opened Namespace
  import opened FsSpec

  /** Inode i and the blocks it owns are the same in both states. */
  ghost predicate SameNode(fs: Fs, fs': Fs, i: nat)
    requires i < INODE_COUNT
  {
    && fs'.table[i] == fs.table[i]
    && forall j :: 0 <= j < DIRECT_BLOCKS && DATA_START <= fs.table[i].blocks[j] < TOTAL_SECTORS ==>
         fs'.Block(fs.table[i].blocks[j]) == fs.Block(fs.table[i].blocks[j])
  }

  /** Every inode of w, its listing or its bytes, is the same in both states. */
  ghost predicate SameTree(fs: Fs, fs': Fs, w: Paths) {
    forall i :: i in w && i < INODE_COUNT ==> SameNode(fs, fs', i)
  }

  lemma SameConcat(fs: Fs, fs': Fs, x: Inode, n: nat)
    requires Held(x, n) && forall j :: 0 <= j < n ==> fs'.Block(x.blocks[j]) == fs.Block(x.blocks[j])
    ensures Concat(fs', x, n) == Concat(fs, x, n)
  {
  }

  lemma OwnedHeld(fs: Fs, i: nat)
    requires Owned(fs.table) && i < INODE_COUNT && fs.table[i].Used()
    ensures if fs.table[i].Dir() then HasBlock(fs, i) || fs.table[i].blocks[0] == 0
            else Held(fs.table[i], BlocksFor(fs.table[i].size))
  {
    assert InodeOk(fs.table[i]);
  }

  lemma SameNodeView(fs: Fs, fs': Fs, i: nat)
    requires Owned(fs.table) && i < INODE_COUNT && SameNode(fs, fs', i)
    ensures ViewOf(fs')[i] == ViewOf(fs)[i]
    ensures ViewOf(fs)[i].File? ==> Held(fs.table[i], BlocksFor(fs.table[i].size)) && Content(fs', fs'.table[i]) == Content(fs, fs.table[i])
  {
    var x := fs.table[i];
    if x.Used() && !x.Dir() {
      OwnedHeld(fs, i);
      SameConcat(fs, fs', x, BlocksFor(x.size));
    }
  }

  lemma SameTreeTrans(a: Fs, b: Fs, c: Fs, w: Paths)
    requires SameTree(a, b, w) && SameTree(b, c, w)
    ensures SameTree(a, c, w)
  {
    forall i | i in w && i < INODE_COUNT
      ensures SameNode(a, c, i)
    {
      assert SameNode(a, b, i) && SameNode(b, c, i);
    }
  }

  lemma SoundFrame(fs: Fs, fs': Fs, w: Paths)
    requires Sound(fs, w) && SameTree(fs, fs', w) && Owned(fs'.table)
    ensures Sound(fs', w)
  {
    forall i | i in w
      ensures ViewOf(fs')[i] == ViewOf(fs)[i]
    {
      SameNodeView(fs, fs', i);
    }
    TreeFrame(ViewOf(fs), ViewOf(fs'), w);
  }

  /** Rewriting an unreachable inode is invisible. */
  lemma OrphanInode(fs: Fs, w: Paths, i: nat, x: Inode)
    requires Sound(fs, w) && i !in w && i < INODE_COUNT && Owned(fs.table[i := x])
    ensures Sound(Do(fs, SetInode(i, x)), w) && SameTree(fs, Do(fs, SetInode(i, x)), w)
  {
    SoundFrame(fs, Do(fs, SetInode(i, x)), w);
  }

  /** A block no used inode names can be rewritten without touching any inode's blocks. */
  lemma FreeBlockSame(fs: Fs, b: nat, s: Sector, i: nat)
    requires DATA_START <= b < TOTAL_SECTORS && i < INODE_COUNT && fs.table[i].Used() && b !in UsedBlocks(fs.table)
    ensures SameNode(fs, Do(fs, SetBlock(b, s)), i)
  {
    forall j | 0 <= j < DIRECT_BLOCKS
      ensures fs.table[i].blocks[j] != b
    {
      assert fs.table[i].blocks[j] == 0 || fs.table[i].blocks[j] in UsedBlocks(fs.table);
    }
  }

  /** Rewriting a free data block is invisible. */
  lemma OrphanBlock(fs: Fs, w: Paths, b: nat, s: Sector)
    requires Sound(fs, w) && DATA_START <= b < TOTAL_SECTORS && b !in UsedBlocks(fs.table)
    ensures Sound(Do(fs, SetBlock(b, s)), w) && SameTree(fs, Do(fs, SetBlock(b, s)), w)
  {
    forall i | i in w && i < INODE_COUNT
      ensures SameNode(fs, Do(fs, SetBlock(b, s)), i)
    {
      FreeBlockSame(fs, b, s, i);
    }
    SoundFrame(fs, Do(fs, SetBlock(b, s)), w);
  }

  /** Rewriting one inode's block leaves every other inode's blocks alone. */
  lemma OwnBlockSame(fs: Fs, f: nat, j: nat, s: Sector, i: nat)
    requires Owned(fs.table) && f < INODE_COUNT && j < DIRECT_BLOCKS && fs.table[f].Used()
    requires DATA_START <= fs.table[f].blocks[j] < TOTAL_SECTORS
    requires i < INODE_COUNT && i != f && fs.table[i].Used()
    ensures SameNode(fs, Do(fs, SetBlock(fs.table[f].blocks[j], s)), i)
  {
    forall l | 0 <= l < DIRECT_BLOCKS
      ensures fs.table[i].blocks[l] != fs.table[f].blocks[j]
    {
      assert Apart(fs.table, f, j, i, l);
    }
  }

  // ---- naming an inode

  /** c is a fresh child ready to be named: a file, or a directory whose block holds just
      "." and "..". */
  ghost predicate ReadyChild(fs: Fs, w: Paths, a: nat, c: nat)
    requires c < INODE_COUNT
  {
    && c !in w && fs.table[c].Used()
    && (fs.table[c].Dir() ==> fs.table[c].blocks[0] != 0 && ViewOf(fs)[c].Folder? && FreshDir(ViewOf(fs)[c].list, c, a))
  }

  /** What changes when a reachable directory gains a child: its listing, nothing else. */
  ghost predicate GainedChild(fs: Fs, fs': Fs, w: Paths, a: nat, c: nat, name: Name)
    requires a < INODE_COUNT && c < INODE_COUNT && a in w
  {
    && Sound(fs', w[c := w[a] + [name]])
    && fs'.table == fs.table
    && SameTree(fs, fs', w - {a})
    && ViewOf(fs')[c] == ViewOf(fs)[c]
  }

  /** The store add_dir_entry makes, seen through the listing. */
  lemma AddEntryShape(fs: Fs, blk: nat, de: DirEntry, e: Effect)
    requires DATA_START <= blk < TOTAL_SECTORS && 0 < |de.name| < MAX_FILENAME && IsCName(de.name)
    requires AddEntryOp(fs, blk, de) == Some(e)
    ensures e.SetBlock? && e.b == blk
    ensures var k := EmptySlot(Entries(fs.Block(blk)), 0);
      k < ENTRIES && Entries(e.s) == Entries(fs.Block(blk))[k := de]
  {
    var s := fs.Block(blk);
    var k := EmptySlot(Entries(s), 0);
    EntriesPutSlot(s, k, EntryImage(SlotImage(s, k), de));
    DecodeEntryImage(SlotImage(s, k), de);
  }

  /** Rewriting the first block of a leaves every other used inode as it was. */
  lemma OthersSame(fs: Fs, a: nat, s: Sector)
    requires Owned(fs.table) && a < INODE_COUNT && fs.table[a].Used()
    requires DATA_START <= fs.table[a].blocks[0] < TOTAL_SECTORS
    ensures var fs' := Do(fs, SetBlock(fs.table[a].blocks[0], s));
      forall i :: 0 <= i < INODE_COUNT && i != a && fs.table[i].Used() ==> SameNode(fs, fs', i) && ViewOf(fs')[i] == ViewOf(fs)[i]
  {
    var fs' := Do(fs, SetBlock(fs.table[a].blocks[0], s));
    forall i | 0 <= i < INODE_COUNT && i != a && fs.table[i].Used()
      ensures SameNode(fs, fs', i) && ViewOf(fs')[i] == ViewOf(fs)[i]
    {
      OwnBlockSame(fs, a, 0, s, i);
      SameNodeView(fs, fs', i);
    }
  }

  lemma NamingKeepsTree(v: View, v': View, w: Paths, a: nat, c: nat, name: Name, k: nat)
    requires Tree(v, w) && a in w && v[a].Folder? && c < INODE_COUNT && c !in w
    requires forall i :: 0 <= i < INODE_COUNT && i != a && v[i] != Free ==> v'[i] == v[i]
    requires v[c] != Free && (v[c].Folder? ==> FreshDir(v[c].list, c, a))
    requires ProperName(name) && Lookup(v, a, name) == None
    requires k < ENTRIES && v[a].list[k].name == []
    requires v'[a] == Folder(v[a].list[k := DirEntry(c, name)])
    ensures Tree(v', w[c := w[a] + [name]])
  {
    TreeAdd(v, v', w, a, k, c, name);
  }

  lemma NamingIsAddedChild(fs: Fs, w: Paths, a: nat, c: nat, name: Name, s: Sector, k: nat)
    requires a < INODE_COUNT && fs.table[a].Used() && forall i :: i in w ==> i < INODE_COUNT && fs.table[i].Used()
    requires Sound(fs, w) && a in w && fs.table[a].Dir() && HasBlock(fs, a) && c < INODE_COUNT && ReadyChild(fs, w, a, c)
    requires ProperName(name) && Lookup(ViewOf(fs), a, name) == None
    requires k < ENTRIES && ViewOf(fs)[a].list[k].name == []
    requires Entries(s) == ViewOf(fs)[a].list[k := DirEntry(c, name)]
    ensures GainedChild(fs, Do(fs, SetBlock(fs.table[a].blocks[0], s)), w, a, c, name)
  {
    hide GetEntry, Tree, Disjoint, InodeOk, EmptySlot, FindSlot, UsedBlocks, Lookup;
    var fs' := Do(fs, SetBlock(fs.table[a].blocks[0], s));
    OthersSame(fs, a, s);
    var v, v' := ViewOf(fs), ViewOf(fs');
    assert v'[a] == Folder(Entries(s));
    assert v[c] != Free;
    NamingKeepsTree(v, v', w, a, c, name, k);
  }

  lemma NamingAddsChild(fs: Fs, w: Paths, a: nat, c: nat, name: Name, e: Effect)
    requires Sound(fs, w) && a in w && fs.table[a].Dir() && HasBlock(fs, a) && c < INODE_COUNT && ReadyChild(fs, w, a, c)
    requires ProperName(name) && Lookup(ViewOf(fs), a, name) == None
    requires AddEntryOp(fs, fs.table[a].blocks[0], DirEntry(c, name)) == Some(e)
    ensures e.Ok() && GainedChild(fs, Do(fs, e), w, a, c, name)
  {
    hide GetEntry, GainedChild, PutSlot, EntryImage, Disjoint, InodeOk;
    AddEntryShape(fs, fs.table[a].blocks[0], DirEntry(c, name), e);
    NamingIsAddedChild(fs, w, a, c, name, e.s, EmptySlot(ViewOf(fs)[a].list, 0));
  }
}
