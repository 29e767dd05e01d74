/**
 simplefs_write and simplefs_read: what every prefix of a write leaves, and that a
 completed write reads back.
 */
module FileData {
  import opened Machine
  import opened DiskFormat
  import opened Ownership
  import opened Namespace
  import opened FsSpec
  import opened Consistency
  import opened Creation

  ghost predicate LiveFile(fs: Fs, w: Paths, f: nat) {
    f in w && f < INODE_COUNT && fs.table[f].Used() && !fs.table[f].Dir()
  }

  // ---- one update at a time

  /** Replacing a file's inode by another file inode keeps the tree. */
  lemma FileInode(m: Fs, w: Paths, f: nat, y: Inode)
    requires Sound(m, w) && LiveFile(m, w, f) && y.Used() && !y.Dir() && Owned(m.table[f := y])
    ensures Sound(Do(m, SetInode(f, y)), w) && SameTree(m, Do(m, SetInode(f, y)), w - {f})
  {
    hide Entries, Disjoint, UsedBlocks, InodeOk;
    var m' := Do(m, SetInode(f, y));
    forall i | i in w
      ensures ViewOf(m')[i] == ViewOf(m)[i]
    {
    }
    TreeFrame(ViewOf(m), ViewOf(m'), w);
  }

  /** Replacing one of a file's own blocks keeps the tree and every other file. */
  lemma FileBlock(m: Fs, w: Paths, f: nat, j: nat, s: Sector)
    requires Sound(m, w) && LiveFile(m, w, f) && j < DIRECT_BLOCKS && m.table[f].blocks[j] != 0
    ensures DATA_START <= m.table[f].blocks[j] < TOTAL_SECTORS
    ensures var m' := Do(m, SetBlock(m.table[f].blocks[j], s)); Sound(m', w) && SameTree(m, m', w - {f})
    ensures var m' := Do(m, SetBlock(m.table[f].blocks[j], s));
      forall l :: 0 <= l < DIRECT_BLOCKS && l != j && DATA_START <= m.table[f].blocks[l] < TOTAL_SECTORS ==>
        m'.Block(m.table[f].blocks[l]) == m.Block(m.table[f].blocks[l])
  {
    assert InodeOk(m.table[f]);
    var m' := Do(m, SetBlock(m.table[f].blocks[j], s));
    forall i | i in w
      ensures ViewOf(m')[i] == ViewOf(m)[i]
      ensures i != f ==> SameNode(m, m', i)
    {
      if i != f {
        OwnBlockSame(m, f, j, s, i);
        SameNodeView(m, m', i);
      }
    }
    TreeFrame(ViewOf(m), ViewOf(m'), w);
    forall l | 0 <= l < DIRECT_BLOCKS && l != j && m.table[f].blocks[l] != 0
      ensures m.table[f].blocks[l] != m.table[f].blocks[j]
    {
      assert Apart(m.table, f, l, f, j);
    }
  }

  /** Taking the free block for the first empty slot keeps ownership. */
  lemma GrabOwned(m: Fs, w: Paths, f: nat, i: nat)
    requires Sound(m, w) && LiveFile(m, w, f) && i < DIRECT_BLOCKS && m.table[f].blocks[i] == 0
    requires forall j :: 0 <= j < i ==> m.table[f].blocks[j] != 0
    ensures BlocksOnDisk(m.table[f]) && Owned(m.table[f := WithBlock(m, m.table[f], i)])
  {
    var t, x := m.table, m.table[f];
    assert InodeOk(x);
    var y := WithBlock(m, x, i);
    forall j, l | 0 <= j < l < DIRECT_BLOCKS && y.blocks[j] != 0
      ensures y.blocks[j] != y.blocks[l]
    {
      assert Apart(t, f, j, f, l);
      assert x.blocks[j] == 0 || x.blocks[j] in UsedBlocks(t);
      assert x.blocks[l] == 0 || x.blocks[l] in UsedBlocks(t);
    }
    assert InodeOk(y);
    assert f != 0;
    OwnedUpdate(t, f, y);
  }

  // ---- the state between two rounds of the write loop

  /** The first i blocks hold the new data, the rest of the file and every other inode are
      as before. */
  ghost predicate Partial(fs: Fs, m: Fs, w: Paths, f: nat, data: seq<Byte>, i: nat)
    requires f < INODE_COUNT && i <= DIRECT_BLOCKS && 512 * i < |data| + 512
  {
    var x0, x := fs.table[f], m.table[f];
    && Sound(m, w) && LiveFile(m, w, f) && SameTree(fs, m, w - {f})
    && x.flags == x0.flags && x.size == x0.size && BlocksOnDisk(x)
    && (forall j :: 0 <= j < i ==> x.blocks[j] != 0 && m.Block(x.blocks[j]) == Chunk(data, j))
    && (forall j :: 0 <= j < i && x0.blocks[j] != 0 ==> x.blocks[j] == x0.blocks[j])
    && (forall j :: i <= j < DIRECT_BLOCKS ==> x.blocks[j] == x0.blocks[j])
    && (forall j :: i <= j < DIRECT_BLOCKS && x.blocks[j] != 0 ==> m.Block(x.blocks[j]) == fs.Block(x.blocks[j]))
  }

  /** What a write cut short leaves: only file f differs, its old blocks each hold old or
      new data, its size is still the old one. */
  ghost predicate Torn(fs: Fs, m: Fs, w: Paths, f: nat, data: seq<Byte>)
    requires f < INODE_COUNT && BlocksOnDisk(fs.table[f])
  {
    var x0, x := fs.table[f], m.table[f];
    && Sound(m, w) && SameTree(fs, m, w - {f})
    && x.flags == x0.flags && x.size == x0.size
    && (forall j :: 0 <= j < DIRECT_BLOCKS && x0.blocks[j] != 0 ==>
          x.blocks[j] == x0.blocks[j]
          && (m.Block(x.blocks[j]) == fs.Block(x.blocks[j]) || (512 * j < |data| && m.Block(x.blocks[j]) == Chunk(data, j))))
    && (forall j :: 0 <= j < DIRECT_BLOCKS && x0.blocks[j] == 0 && x.blocks[j] != 0 ==> 512 * j < |data|)
  }

  /** The completed write: file f holds exactly the data, everything else is as before. */
  ghost predicate Written(fs: Fs, m: Fs, w: Paths, f: nat, data: seq<Byte>)
    requires f < INODE_COUNT
  {
    var x := m.table[f];
    && Sound(m, w) && SameTree(fs, m, w - {f})
    && x.flags == fs.table[f].flags && x.size == |data|
    && Held(x, BlocksFor(x.size)) && Content(m, x) == data
  }

  lemma PartialTorn(fs: Fs, m: Fs, w: Paths, f: nat, data: seq<Byte>, i: nat)
    requires f < INODE_COUNT && i <= DIRECT_BLOCKS && 512 * i < |data| + 512 && BlocksOnDisk(fs.table[f])
    requires Partial(fs, m, w, f, data, i)
    ensures Torn(fs, m, w, f, data)
  {
    hide Sound, SameTree, Chunk;
  }

  /** Round i, first half: make sure slot i has a block. */
  lemma GrabRound(fs: Fs, m: Fs, w: Paths, f: nat, data: seq<Byte>, i: nat)
    requires f < INODE_COUNT && i < DIRECT_BLOCKS && 512 * i < |data| && BlocksOnDisk(fs.table[f])
    requires Partial(fs, m, w, f, data, i)
    ensures var x := m.table[f];
      var y := WithBlock(m, x, i);
      var m1 := DoAll(m, Commit(f, x, i, y));
      Sound(m1, w) && LiveFile(m1, w, f) && SameTree(fs, m1, w - {f}) && m1.table[f] == y && m1.data == m.data
      && (Commit(f, x, i, y) != [] ==> m1 == Do(m, Commit(f, x, i, y)[0]))
  {
    hide SameNode, Chunk, Tree, ViewOf;
    var x := m.table[f];
    var y := WithBlock(m, x, i);
    if x.blocks[i] == 0 {
      GrabOwned(m, w, f, i);
      FileInode(m, w, f, y);
      SameTreeTrans(fs, m, Do(m, SetInode(f, y)), w - {f});
      assert Commit(f, x, i, y)[1..] == [];
    }
  }

  /** After the first half, before the data: a torn write. */
  lemma GrabTorn(fs: Fs, m: Fs, w: Paths, f: nat, data: seq<Byte>, i: nat)
    requires f < INODE_COUNT && i < DIRECT_BLOCKS && 512 * i < |data| && BlocksOnDisk(fs.table[f])
    requires Partial(fs, m, w, f, data, i)
    ensures Torn(fs, DoAll(m, Commit(f, m.table[f], i, WithBlock(m, m.table[f], i))), w, f, data)
  {
    hide Sound, SameTree, Chunk, FreeBlock, DoAll, Commit;
    GrabRound(fs, m, w, f, data, i);
  }

  /** Round i, second half: the data goes in. */
  lemma DataRound(fs: Fs, m: Fs, w: Paths, f: nat, data: seq<Byte>, i: nat)
    requires f < INODE_COUNT && i < DIRECT_BLOCKS && 512 * i < |data| && BlocksOnDisk(fs.table[f])
    requires Partial(fs, m, w, f, data, i)
    ensures var x := m.table[f];
      var y := WithBlock(m, x, i);
      var m1 := DoAll(m, Commit(f, x, i, y));
      var m2 := Do(m1, SetBlock(y.blocks[i], Chunk(data, i)));
      Partial(fs, m2, w, f, data, i + 1) && m2.table[f] == y
  {
    hide SameNode, SameTree, Sound, Chunk, DoAll, Commit;
    var x := m.table[f];
    var y := WithBlock(m, x, i);
    var m1 := DoAll(m, Commit(f, x, i, y));
    var m2 := Do(m1, SetBlock(y.blocks[i], Chunk(data, i)));
    GrabRound(fs, m, w, f, data, i);
    FileBlock(m1, w, f, i, Chunk(data, i));
    SameTreeTrans(fs, m1, m2, w - {f});
  }

  // ---- the last update

  lemma ChunkPart(data: seq<Byte>, i: nat)
    requires 512 * i <= |data|
    ensures Chunk(data, i)[..Least(512, |data| - 512 * i)] == data[512 * i..Least(512 * i + 512, |data|)]
  {
  }

  /** Laying the chunks end to end and cutting at the length gives the data back. */
  lemma {:induction false} ConcatIsData(m: Fs, x: Inode, data: seq<Byte>, n: nat)
    requires Held(x, n) && (n > 0 ==> 512 * (n - 1) < |data|)
    requires forall j :: 0 <= j < n ==> 512 * j <= |data| && m.Block(x.blocks[j]) == Chunk(data, j)
    ensures Concat(m, x, n)[..Least(512 * n, |data|)] == data[..Least(512 * n, |data|)]
    decreases n
  {
    hide Chunk;
    if n > 0 {
      ConcatIsData(m, x, data, n - 1);
      var c, d := Concat(m, x, n - 1), Chunk(data, n - 1);
      var k, r := Least(512 * n, |data|), Least(512, |data| - 512 * (n - 1));
      assert c[..512 * (n - 1)] == c;
      ChunkPart(data, n - 1);
      assert (c + d)[..k] == c + d[..r];
      assert data[..k] == data[..512 * (n - 1)] + data[512 * (n - 1)..k];
    }
  }

  lemma Finish(fs: Fs, m: Fs, w: Paths, f: nat, data: seq<Byte>)
    requires f < INODE_COUNT && BlocksFor(|data|) <= DIRECT_BLOCKS
    requires Partial(fs, m, w, f, data, BlocksFor(|data|))
    ensures Written(fs, Do(m, SetInode(f, m.table[f].(size := |data|))), w, f, data)
  {
    hide SameNode, Tree, ViewOf;
    var x := m.table[f];
    var y := x.(size := |data|);
    var n := BlocksFor(|data|);
    FinishOwned(m, w, f, |data|);
    FileInode(m, w, f, y);
    var m' := Do(m, SetInode(f, y));
    SameTreeTrans(fs, m, m', w - {f});
    ConcatIsData(m', y, data, n);
    assert data[..|data|] == data;
  }

  lemma FinishOwned(m: Fs, w: Paths, f: nat, size: nat)
    requires Sound(m, w) && LiveFile(m, w, f) && BlocksFor(size) <= DIRECT_BLOCKS
    requires forall j :: 0 <= j < BlocksFor(size) ==> m.table[f].blocks[j] != 0
    ensures Owned(m.table[f := m.table[f].(size := size)])
  {
    hide UsedBlocks, Tree;
    var t, x := m.table, m.table[f];
    assert InodeOk(x);
    forall j, l | 0 <= j < l < DIRECT_BLOCKS && x.blocks[j] != 0
      ensures x.blocks[j] != x.blocks[l]
    {
      assert Apart(t, f, j, f, l);
    }
    assert f != 0;
    OwnedUpdate(t, f, x.(size := size));
  }

  // ---- every prefix of the whole write

  /** Every proper prefix of the remaining updates is a torn write, all of them a complete
      one. */
  lemma {:induction false} WriteFrom(fs: Fs, m: Fs, w: Paths, f: nat, data: seq<Byte>, i: nat, k: nat)
    requires f < INODE_COUNT && BlocksOnDisk(fs.table[f]) && i <= BlocksFor(|data|) <= DIRECT_BLOCKS
    requires Partial(fs, m, w, f, data, i)
    requires BlocksOnDisk(m.table[f]) && k <= |WriteBlocks(m, f, m.table[f], data, i, BlocksFor(|data|))|
    ensures var es := WriteBlocks(m, f, m.table[f], data, i, BlocksFor(|data|));
      if k < |es| then Torn(fs, DoAll(m, es[..k]), w, f, data) else Written(fs, DoAll(m, es[..k]), w, f, data)
    decreases BlocksFor(|data|) - i
  {
    hide Partial, Torn, Written, Chunk, WithBlock, Do, FreeBlock, Commit;
    var x := m.table[f];
    var n := BlocksFor(|data|);
    var es := WriteBlocks(m, f, x, data, i, n);
    PartialTorn(fs, m, w, f, data, i);
    if i == n {
      Finish(fs, m, w, f, data);
      assert es[..1][1..] == [];
    } else {
      var y := WithBlock(m, x, i);
      var c := Commit(f, x, i, y);
      var e := SetBlock(y.blocks[i], Chunk(data, i));
      var m1 := DoAll(m, c);
      GrabTorn(fs, m, w, f, data, i);
      DataRound(fs, m, w, f, data, i);
      DoAllSplit(m, c, [e]);
      var rest := WriteBlocks(DoAll(m, c + [e]), f, y, data, i + 1, n);
      assert es == (c + [e]) + rest;
      if k <= |c| {
        assert es[..k] == c[..k];
        assert k == 0 || c[..k] == c;
      } else {
        assert es[..k] == (c + [e]) + rest[..k - |c| - 1];
        DoAllSplit(m, c + [e], rest[..k - |c| - 1]);
        WriteFrom(fs, DoAll(m, c + [e]), w, f, data, i + 1, k - |c| - 1);
      }
    }
  }

  // ---- simplefs_write as a whole

  /** Names in a reachable directory lead to reachable inodes. */
  lemma SoundLeads(fs: Fs, w: Paths, dir: nat, name: Name)
    requires Sound(fs, w) && dir in w
    ensures dir < INODE_COUNT && LeadsToUsed(fs, dir, name)
    ensures var r := Lookup(ViewOf(fs), dir, name); r.Some? ==> r.value in w
  {
    hide GetEntry, Disjoint;
    var v := ViewOf(fs);
    if v[dir].Folder? {
      var k := FindSlot(v[dir].list, name, 0);
      assert DirOk(v[dir].list, dir, w);
      if 2 <= k < ENTRIES {
        assert KidOk(v[dir].list[k], dir, w);
      }
      if k < ENTRIES {
        assert v[dir].list[k].ino in w;
        assert InodeOk(fs.table[v[dir].list[k].ino]);
      }
    }
  }

  lemma SameTreeRefl(fs: Fs, w: Paths)
    ensures SameTree(fs, fs, w)
  {
    forall i | i in w && i < INODE_COUNT
      ensures SameNode(fs, fs, i)
    {
      SameNodeRefl(fs, i);
    }
  }

  lemma PartialStart(fs: Fs, w: Paths, f: nat, data: seq<Byte>)
    requires Sound(fs, w) && LiveFile(fs, w, f)
    ensures Partial(fs, fs, w, f, data, 0) && BlocksOnDisk(fs.table[f])
  {
    SameTreeRefl(fs, w - {f});
    assert InodeOk(fs.table[f]);
  }

  /** Wherever a write to a file is cut short, every other file and every directory is
      untouched, the file keeps its size and each of its blocks holds old or new data;
      complete, the file holds exactly the data. */
  lemma WriteCrash(fs: Fs, w: Paths, dir: nat, name: Name, data: seq<Byte>, f: nat, k: nat)
    requires Sound(fs, w) && dir in w && dir < INODE_COUNT && LiveFile(fs, w, f)
    requires Lookup(ViewOf(fs), dir, name) == Some(f) && LeadsToUsed(fs, dir, name)
    requires |data| <= DIRECT_BLOCKS * SECTOR_SIZE
    requires k <= |WriteOp(fs, dir, name, data).es|
    ensures var r := WriteOp(fs, dir, name, data);
      && r.code == 0 && AllOk(r.es) && BlocksOnDisk(fs.table[f])
      && if k < |r.es| then Torn(fs, DoAll(fs, r.es[..k]), w, f, data) else Written(fs, DoAll(fs, r.es[..k]), w, f, data)
  {
    hide Sound, Partial, Torn, Written, ViewOf, Lookup, NeededBlocks, WriteBlocks;
    PartialStart(fs, w, f, data);
    WriteFrom(fs, fs, w, f, data, 0, k);
  }

  /** The size is computed in 32 bits: a write that reports success stored the data exactly
      when size + 511 did not wrap; when it wraps the kernel stores nothing but the size. */
  lemma WriteStoredIff(fs: Fs, w: Paths, dir: nat, name: Name, data: seq<Byte>, f: nat)
    requires Sound(fs, w) && dir in w && dir < INODE_COUNT && LiveFile(fs, w, f)
    requires Lookup(ViewOf(fs), dir, name) == Some(f) && LeadsToUsed(fs, dir, name) && |data| < 0x1_0000_0000
    ensures var r := WriteOp(fs, dir, name, data);
      && AllOk(r.es)
      && (r.code == 0 || r.code == -1)
      && (r.code == 0 <==> |data| <= 15360 || |data| + 511 >= 0x1_0000_0000)
      && (r.code != 0 ==> r.es == [])
      && (r.code == 0 ==> (Written(fs, DoAll(fs, r.es), w, f, data) <==> |data| + 511 < 0x1_0000_0000))
      && (|data| + 511 >= 0x1_0000_0000 ==> DoAll(fs, r.es) == fs.(table := fs.table[f := fs.table[f].(size := |data|)]))
  {
    hide Sound, ViewOf, Lookup, Written, NeededBlocks;
    var r := WriteOp(fs, dir, name, data);
    if |data| <= 15360 {
      WriteCrash(fs, w, dir, name, data, f, |r.es|);
      assert r.es[..|r.es|] == r.es;
    } else if |data| + 511 >= 0x1_0000_0000 {
      assert r.es == [SetInode(f, fs.table[f].(size := |data|))];
      assert r.es[1..] == [];
      TooLong(fs, DoAll(fs, r.es), w, f, data);
    }
  }

  lemma TooLong(fs: Fs, m: Fs, w: Paths, f: nat, data: seq<Byte>)
    requires f < INODE_COUNT && |data| > 15360
    ensures !Written(fs, m, w, f, data)
  {
    hide Sound;
  }

  // ---- which blocks a file gets

  /** Inode f of table u is that of table t resized: slots i to n that were empty hold blocks
      free in t, every other slot what it held, and no other inode changed. */
  ghost predicate Extended(t: Table, u: Table, f: nat, size: nat, i: nat, n: nat)
    requires f < INODE_COUNT
  {
    && u == t[f := u[f]] && u[f].size == size && u[f].flags == t[f].flags
    && forall j {:trigger u[f].blocks[j]} :: 0 <= j < DIRECT_BLOCKS ==>
         if i <= j < n && t[f].blocks[j] == 0 then u[f].blocks[j] != 0 && u[f].blocks[j] !in UsedBlocks(t) else u[f].blocks[j] == t[f].blocks[j]
  }

  lemma {:induction false} WriteExtends(m: Fs, f: nat, x: Inode, data: seq<Byte>, i: nat, n: nat)
    requires f < INODE_COUNT && x == m.table[f] && x.Used() && BlocksOnDisk(x) && |data| < 0x1_0000_0000
    requires i <= n <= DIRECT_BLOCKS && 512 * n < |data| + 512
    ensures Extended(m.table, DoAll(m, WriteBlocks(m, f, x, data, i, n)).table, f, |data|, i, n)
    decreases n - i
  {
    hide UsedBlocks, Chunk, Extended, FreeBlock;
    var es := WriteBlocks(m, f, x, data, i, n);
    if i == n {
      assert es[1..] == [];
      ExtendedNone(m.table, f, |data|, i);
    } else {
      var y := WithBlock(m, x, i);
      var c := Commit(f, x, i, y);
      var first := c + [SetBlock(y.blocks[i], Chunk(data, i))];
      var m2 := DoAll(m, first);
      DoAllSplit(m, c, [SetBlock(y.blocks[i], Chunk(data, i))]);
      DoAllSplit(m, first, WriteBlocks(m2, f, y, data, i + 1, n));
      CommitTable(m, f, x, i, y, Chunk(data, i));
      WriteExtends(m2, f, y, data, i + 1, n);
      ExtendedStep(m, DoAll(m, es).table, f, |data|, i, n);
    }
  }

  lemma ExtendedNone(t: Table, f: nat, size: U32, i: nat)
    requires f < INODE_COUNT
    ensures Extended(t, t[f := t[f].(size := size)], f, size, i, i)
  {
  }

  lemma CommitTable(m: Fs, f: nat, x: Inode, i: nat, y: Inode, s: Sector)
    requires f < INODE_COUNT && x == m.table[f] && BlocksOnDisk(x) && i < DIRECT_BLOCKS && y == WithBlock(m, x, i)
    ensures DoAll(m, Commit(f, x, i, y) + [SetBlock(y.blocks[i], s)]).table == m.table[f := y]
  {
    hide FreeBlock;
    var e := SetBlock(y.blocks[i], s);
    var es := Commit(f, x, i, y) + [e];
    if x.blocks[i] != 0 {
      assert es[1..] == [] && m.table == m.table[f := y];
    } else {
      assert es == [SetInode(f, y), e];
      DoTwo(m, SetInode(f, y), e);
    }
  }

  lemma ExtendedStep(m: Fs, u: Table, f: nat, size: nat, i: nat, n: nat)
    requires f < INODE_COUNT && i < n <= DIRECT_BLOCKS && m.table[f].Used() && BlocksOnDisk(m.table[f])
    requires Extended(m.table[f := WithBlock(m, m.table[f], i)], u, f, size, i + 1, n)
    ensures Extended(m.table, u, f, size, i, n)
  {
    hide UsedBlocks;
    var t := m.table;
    assert t[f := t[f]] == t && t[f := WithBlock(m, t[f], i)][f := u[f]] == t[f := u[f]];
    if t[f].blocks[i] == 0 {
      UsedBlocksGain(t, f, i, FreeBlock(t));
    }
  }

  /** A write keeps every block the file has, also when it gets shorter, and takes free ones
      for exactly the empty slots it fills. */
  lemma WriteKeepsBlocks(fs: Fs, w: Paths, dir: nat, name: Name, data: seq<Byte>, f: nat)
    requires Sound(fs, w) && dir in w && dir < INODE_COUNT && LiveFile(fs, w, f)
    requires Lookup(ViewOf(fs), dir, name) == Some(f) && LeadsToUsed(fs, dir, name) && |data| <= 15360
    ensures var r := WriteOp(fs, dir, name, data);
      AllOk(r.es) && Extended(fs.table, DoAll(fs, r.es).table, f, |data|, 0, BlocksFor(|data|))
  {
    hide Sound, ViewOf, Lookup, WriteBlocks, Extended;
    PartialStart(fs, w, f, data);
    WriteExtends(fs, f, fs.table[f], data, 0, BlocksFor(|data|));
  }

  // ---- reading back

  lemma {:induction false} ConcatAt(fs: Fs, x: Inode, n: nat, b: nat)
    requires Held(x, n) && b < 512 * n
    ensures Concat(fs, x, n)[b] == fs.Block(x.blocks[b / 512])[b % 512]
    decreases n
  {
    if b < 512 * (n - 1) {
      ConcatAt(fs, x, n - 1, b);
    }
  }

  /** Reading fewer blocks gives a prefix of reading more. */
  lemma ConcatPrefix(fs: Fs, x: Inode, a: nat, n: nat)
    requires a <= n && Held(x, n)
    ensures Concat(fs, x, n)[..512 * a] == Concat(fs, x, a)
  {
    forall b | 0 <= b < 512 * a
      ensures Concat(fs, x, n)[b] == Concat(fs, x, a)[b]
    {
      ConcatAt(fs, x, n, b);
      ConcatAt(fs, x, a, b);
    }
  }

  /** A read returns the first min(limit, size) bytes of the file. */
  lemma ReadIsPrefix(fs: Fs, w: Paths, dir: nat, name: Name, limit: nat, f: nat)
    requires Sound(fs, w) && dir in w && dir < INODE_COUNT && LeadsToUsed(fs, dir, name)
    requires Lookup(ViewOf(fs), dir, name) == Some(f) && LiveFile(fs, w, f)
    ensures Held(fs.table[f], BlocksFor(fs.table[f].size))
    ensures ReadOp(fs, dir, name, limit) == Some(Content(fs, fs.table[f])[..Least(limit, fs.table[f].size)])
  {
    hide ViewOf, Lookup, Tree, Disjoint;
    var x := fs.table[f];
    assert InodeOk(x);
    var n := Least(limit, x.size);
    ConcatPrefix(fs, x, BlocksFor(n), BlocksFor(x.size));
    assert Content(fs, x)[..n] == Concat(fs, x, BlocksFor(x.size))[..512 * BlocksFor(n)][..n];
  }

  /** A read answers exactly for names of files, a write is accepted exactly for names the
      directory holds and sizes that fit or wrap; refused, it writes nothing. */
  lemma ReadWriteIff(fs: Fs, dir: nat, name: Name, data: seq<Byte>, limit: nat)
    requires dir < INODE_COUNT && LeadsToUsed(fs, dir, name) && |data| < 0x1_0000_0000
    ensures var f := Lookup(ViewOf(fs), dir, name);
      && (ReadOp(fs, dir, name, limit).Some? <==> f.Some? && !fs.table[f.value].Dir())
      && (WriteOp(fs, dir, name, data).code == 0 <==> f.Some? && (|data| <= 15360 || |data| + 511 >= 0x1_0000_0000))
      && (WriteOp(fs, dir, name, data).code != 0 ==> WriteOp(fs, dir, name, data) == Outcome(-1, []))
  {
    hide ViewOf, Lookup, WriteBlocks, Concat;
  }

  /** The view of the tree is the same before and after a write, complete or torn. */
  lemma SameTreeView(fs: Fs, m: Fs, w: Paths, f: nat)
    requires Sound(fs, w) && Sound(m, w) && LiveFile(fs, w, f) && SameTree(fs, m, w - {f})
    requires m.table[f].flags == fs.table[f].flags
    ensures forall i :: i in w ==> ViewOf(m)[i] == ViewOf(fs)[i]
  {
    forall i | i in w
      ensures ViewOf(m)[i] == ViewOf(fs)[i]
    {
      if i != f {
        assert SameNode(fs, m, i);
        SameNodeView(fs, m, i);
      }
    }
  }

  /** Write then read: the same name gives back exactly the data, cut at the limit. */
  lemma WriteReadRoundTrip(fs: Fs, w: Paths, dir: nat, name: Name, data: seq<Byte>, f: nat, limit: nat)
    requires Sound(fs, w) && dir in w && dir < INODE_COUNT && LiveFile(fs, w, f)
    requires Lookup(ViewOf(fs), dir, name) == Some(f) && LeadsToUsed(fs, dir, name)
    requires |data| <= DIRECT_BLOCKS * SECTOR_SIZE
    ensures var r := WriteOp(fs, dir, name, data);
      && r.code == 0 && AllOk(r.es)
      && LeadsToUsed(DoAll(fs, r.es), dir, name)
      && ReadOp(DoAll(fs, r.es), dir, name, limit) == Some(data[..Least(limit, |data|)])
  {
    hide Tree, Disjoint, SameNode, InodeOk, FindSlot;
    var r := WriteOp(fs, dir, name, data);
    WriteCrash(fs, w, dir, name, data, f, |r.es|);
    assert r.es[..|r.es|] == r.es;
    var m := DoAll(fs, r.es);
    SameTreeView(fs, m, w, f);
    SoundLeads(m, w, dir, name);
    ReadIsPrefix(m, w, dir, name, limit, f);
  }

  /** Frame: whatever else a write touches on disk, every other file reads the same, and
      every directory lists the same. */
  lemma OtherReadsUnchanged(fs: Fs, m: Fs, w: Paths, f: nat, dir: nat, name: Name, limit: nat)
    requires Sound(fs, w) && Sound(m, w) && LiveFile(fs, w, f) && SameTree(fs, m, w - {f})
    requires m.table[f].flags == fs.table[f].flags
    requires dir in w && Lookup(ViewOf(fs), dir, name) != Some(f)
    ensures dir < INODE_COUNT && LeadsToUsed(fs, dir, name) && LeadsToUsed(m, dir, name)
    ensures ViewOf(m)[dir] == ViewOf(fs)[dir]
    ensures ReadOp(m, dir, name, limit) == ReadOp(fs, dir, name, limit)
  {
    hide Tree, Disjoint, SameNode, InodeOk, FindSlot, ViewOf;
    SameTreeView(fs, m, w, f);
    SoundLeads(fs, w, dir, name);
    SoundLeads(m, w, dir, name);
    var r := Lookup(ViewOf(fs), dir, name);
    if r.Some? {
      OtherFileSame(fs, m, w, f, r.value);
      if !fs.table[r.value].Dir() {
        ReadIsPrefix(fs, w, dir, name, limit, r.value);
        ReadIsPrefix(m, w, dir, name, limit, r.value);
      }
    }
  }

  lemma OtherFileSame(fs: Fs, m: Fs, w: Paths, f: nat, g: nat)
    requires Sound(fs, w) && SameTree(fs, m, w - {f}) && g in w && g != f
    ensures g < INODE_COUNT && fs.table[g].Used() && m.table[g] == fs.table[g]
    ensures !fs.table[g].Dir() ==> Held(fs.table[g], BlocksFor(fs.table[g].size)) && Content(m, m.table[g]) == Content(fs, fs.table[g])
  {
    assert SameNode(fs, m, g);
    SameNodeView(fs, m, g);
  }

  /** A torn file has its old length, and each byte is the old one or the one the write
      was storing there. */
  lemma TornContent(fs: Fs, m: Fs, w: Paths, f: nat, data: seq<Byte>, b: nat)
    requires Sound(fs, w) && LiveFile(fs, w, f) && BlocksOnDisk(fs.table[f]) && Torn(fs, m, w, f, data)
    requires b < fs.table[f].size
    ensures Held(fs.table[f], BlocksFor(fs.table[f].size)) && Held(m.table[f], BlocksFor(m.table[f].size))
    ensures m.table[f].size == fs.table[f].size
    ensures var now := Content(m, m.table[f])[b];
      now == Content(fs, fs.table[f])[b] || now == if b < |data| then data[b] else 0
  {
    hide Tree, Disjoint, SameTree, ViewOf;
    var x0, x := fs.table[f], m.table[f];
    assert InodeOk(x0);
    var n := BlocksFor(x0.size);
    ConcatAt(fs, x0, n, b);
    ConcatAt(m, x, n, b);
    var j := b / 512;
    assert x.blocks[j] == x0.blocks[j];
    if m.Block(x.blocks[j]) != fs.Block(x.blocks[j]) {
      ChunkAt(data, j, b % 512);
    }
  }

  lemma ChunkAt(data: seq<Byte>, i: nat, b: nat)
    requires 512 * i <= |data| && b < 512
    ensures Chunk(data, i)[b] == if 512 * i + b < |data| then data[512 * i + b] else 0
  {
  }
}
