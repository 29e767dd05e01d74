/**
 Runs of the whole file system: kernel calls and offline tool calls in any order, each
 possibly cut short by a crash.
 */
module Runs {
  import opened Machine
  import opened DiskFormat
  import opened Ownership
  import opened Namespace
  import opened FsSpec
  import opened Consistency
  import opened Creation
  import opened FileData
  import opened HostSpec
  import opened HostProof
  import opened HostKernel

  datatype Op =
    | Create(dir: Path, name: Name)
    | Mkdir(dir: Path, name: Name)
    | WriteTo(dir: Path, name: Name, data: seq<Byte>)
    | Put(name: Name, data: seq<Byte>)
    | Remove(name: Name)

  /** fs' is what fs becomes when some prefix of the updates reaches the disk. */
  ghost predicate AfterPrefix(fs: Fs, es: seq<Effect>, fs': Fs) {
    AllOk(es) && exists k :: 0 <= k <= |es| && fs' == DoAll(fs, es[..k])
  }

  /** One operation, complete or (all but rm) cut short anywhere.  Directories are named by
      path; writes and puts never aim at a directory. */
  ghost predicate Step(fs: Fs, op: Op, fs': Fs) {
    match op
    case Create(dir, name) =>
      var a := Resolve(ViewOf(fs), dir);
      IsCName(name) && a.Some? && a.value < INODE_COUNT && HasBlock(fs, a.value) && AfterPrefix(fs, CreateOp(fs, a.value, name).es, fs')
    case Mkdir(dir, name) =>
      var a := Resolve(ViewOf(fs), dir);
      IsCName(name) && a.Some? && a.value < INODE_COUNT && HasBlock(fs, a.value) && AfterPrefix(fs, MkdirOp(fs, a.value, name).es, fs')
    case WriteTo(dir, name, data) =>
      var a := Resolve(ViewOf(fs), dir);
      a.Some? && a.value < INODE_COUNT && LeadsToUsed(fs, a.value, name) && NotDirectory(fs, a.value, name)
      && |data| + 511 < 0x1_0000_0000 && AfterPrefix(fs, WriteOp(fs, a.value, name, data).es, fs')
    case Put(name, data) =>
      IsCName(name) && name != [] && RootUsable(fs, name) && OnDiskInodes(fs.table) && NotDirectory(fs, 0, name)
      && AfterPrefix(fs, PutOp(fs, name, data).es, fs')
    case Remove(name) =>
      RootUsable(fs, name) && AllOk(RmOp(fs, name).es) && fs' == DoAll(fs, RmOp(fs, name).es)
  }

  predicate NotDirectory(fs: Fs, a: nat, name: Name)
    requires a < INODE_COUNT && LeadsToUsed(fs, a, name)
  {
    var r := Lookup(ViewOf(fs), a, name);
    r.Some? ==> !fs.table[r.value].Dir()
  }

  /** Cutting an operation that adds a child leaves a sound state. */
  lemma AddPrefixSound(fs: Fs, r: Outcome, w: Paths, a: nat, c: nat, name: Name, fs': Fs) returns (w': Paths)
    requires a in w && a < INODE_COUNT && AddsChildOrNothing(fs, r, w, a, c, name) && AfterPrefix(fs, r.es, fs')
    ensures Sound(fs', w')
  {
    hide Sound, SameTree;
    var k :| 0 <= k <= |r.es| && fs' == DoAll(fs, r.es[..k]);
    if r.code == -1 || k < |r.es| {
      w' := w;
    } else {
      assert r.es[..k] == r.es;
      w' := w[c := w[a] + [name]];
    }
  }

  lemma ResolvedIsLive(fs: Fs, w: Paths, p: Path, a: nat)
    requires Sound(fs, w) && Resolve(ViewOf(fs), p) == Some(a)
    ensures a in w
  {
    hide ViewOf;
    ResolveIff(ViewOf(fs), w, p, a);
  }

  lemma TargetIsFile(fs: Fs, w: Paths, a: nat, name: Name)
    requires Sound(fs, w) && a in w && a < INODE_COUNT && LeadsToUsed(fs, a, name) && NotDirectory(fs, a, name)
    ensures var r := Lookup(ViewOf(fs), a, name); r.Some? ==> LiveFile(fs, w, r.value)
  {
    hide Sound, ViewOf, Lookup;
    SoundLeads(fs, w, a, name);
  }

  lemma WriteStepSound(fs: Fs, w: Paths, a: nat, name: Name, data: seq<Byte>, fs': Fs)
    requires Sound(fs, w) && a in w && a < INODE_COUNT && LeadsToUsed(fs, a, name) && NotDirectory(fs, a, name)
    requires |data| + 511 < 0x1_0000_0000 && AfterPrefix(fs, WriteOp(fs, a, name, data).es, fs')
    ensures Sound(fs', w)
  {
    hide Sound, ViewOf, Lookup, WriteOp, SameTree, NotDirectory, LeadsToUsed;
    TargetIsFile(fs, w, a, name);
    var es := WriteOp(fs, a, name, data).es;
    var k :| 0 <= k <= |es| && fs' == DoAll(fs, es[..k]);
    var r := Lookup(ViewOf(fs), a, name);
    if r.Some? && |data| <= DIRECT_BLOCKS * SECTOR_SIZE {
      WriteCrash(fs, w, a, name, data, r.value, k);
    } else {
      WriteRefused(fs, w, a, name, data);
    }
  }

  lemma WriteRefused(fs: Fs, w: Paths, a: nat, name: Name, data: seq<Byte>)
    requires Sound(fs, w) && a in w && a < INODE_COUNT && LeadsToUsed(fs, a, name) && |data| + 511 < 0x1_0000_0000
    requires Lookup(ViewOf(fs), a, name) == None || |data| > DIRECT_BLOCKS * SECTOR_SIZE
    ensures WriteOp(fs, a, name, data).es == []
  {
    hide Sound, ViewOf, Lookup;
  }

  lemma PutStepSound(fs: Fs, w: Paths, name: Name, data: seq<Byte>, fs': Fs) returns (w': Paths)
    requires Sound(fs, w) && IsCName(name) && name != [] && RootUsable(fs, name) && OnDiskInodes(fs.table) && NotDirectory(fs, 0, name)
    requires AfterPrefix(fs, PutOp(fs, name, data).es, fs')
    ensures Sound(fs', w')
  {
    hide Sound, ViewOf, Lookup, PutOp, SameTree, NotDirectory, LeadsToUsed, OnDiskInodes, AddsChildOrNothing;
    RootLive(fs, w);
    TargetIsFile(fs, w, 0, name);
    var es := PutOp(fs, name, data).es;
    var r := Lookup(ViewOf(fs), 0, name);
    if r.None? {
      PutNewCrash(fs, w, name, data);
      w' := AddPrefixSound(fs, PutOp(fs, name, data), w, 0, FreeInode(fs.table, 1), name, fs');
    } else if |name| < MAX_FILENAME && BlocksFor(|data|) <= DIRECT_BLOCKS {
      var k :| 0 <= k <= |es| && fs' == DoAll(fs, es[..k]);
      PutOverCrash(fs, w, name, data, r.value, k);
      w' := w;
    } else {
      PutRefused(fs, name, data);
      w' := w;
    }
  }

  lemma PutRefused(fs: Fs, name: Name, data: seq<Byte>)
    requires RootUsable(fs, name) && OnDiskInodes(fs.table) && (|name| >= MAX_FILENAME || BlocksFor(|data|) > DIRECT_BLOCKS)
    ensures PutOp(fs, name, data).es == []
  {
  }

  lemma RemoveStepSound(fs: Fs, w: Paths, name: Name) returns (w': Paths)
    requires Sound(fs, w) && RootUsable(fs, name) && AllOk(RmOp(fs, name).es)
    ensures Sound(DoAll(fs, RmOp(fs, name).es), w')
  {
    hide Sound, ViewOf, SameTree, NotDirectory, FindSlot, RmOp;
    RootLive(fs, w);
    var r := Lookup(ViewOf(fs), 0, name);
    if r.Some? && !fs.table[r.value].Dir() {
      TargetLive(fs, w, name);
      RmRemoves(fs, w, name, r.value);
      w' := w - {r.value};
    } else {
      RmRefused(fs, name);
      w' := w;
    }
  }

  lemma RmRefused(fs: Fs, name: Name)
    requires RootUsable(fs, name)
    requires var r := Lookup(ViewOf(fs), 0, name); r.None? || fs.table[r.value].Dir()
    ensures RmOp(fs, name).es == []
  {
    hide ViewOf, Lookup;
  }

  /** In a sound state put and rm are always applicable: the root has its block, its names
      lead to inodes in use, and inodes hold blocks of the disk. */
  lemma ToolReady(fs: Fs, w: Paths, name: Name)
    requires Sound(fs, w)
    ensures RootUsable(fs, name) && OnDiskInodes(fs.table)
  {
    hide Tree, Disjoint, ViewOf, Lookup;
    RootLive(fs, w);
    SoundLeads(fs, w, 0, name);
    SoundDir(fs, w, 0);
    forall i | 0 <= i < INODE_COUNT && fs.table[i].Used()
      ensures BlocksOnDisk(fs.table[i])
    {
      OwnedBlocksOnDisk(fs.table, i);
    }
  }

  /** Every operation, complete or cut short, leads from a sound state to a sound state. */
  lemma StepSound(fs: Fs, w: Paths, op: Op, fs': Fs) returns (w': Paths)
    requires Sound(fs, w) && Step(fs, op, fs')
    ensures Sound(fs', w')
  {
    hide Sound, ViewOf, AfterPrefix, CreateOp, MkdirOp, WriteOp, PutOp, RmOp, HasBlock, LeadsToUsed, NotDirectory, RootUsable,
         OnDiskInodes, AddsChildOrNothing, FreeInode, Resolve;
    match op
    case Create(dir, name) =>
      var a := Resolve(ViewOf(fs), dir).value;
      ResolvedIsLive(fs, w, dir, a);
      CreateCrash(fs, w, a, name);
      w' := AddPrefixSound(fs, CreateOp(fs, a, name), w, a, FreeInode(fs.table, 0), name, fs');
    case Mkdir(dir, name) =>
      var a := Resolve(ViewOf(fs), dir).value;
      ResolvedIsLive(fs, w, dir, a);
      MkdirCrash(fs, w, a, name);
      w' := AddPrefixSound(fs, MkdirOp(fs, a, name), w, a, FreeInode(fs.table, 0), name, fs');
    case WriteTo(dir, name, data) =>
      var a := Resolve(ViewOf(fs), dir).value;
      ResolvedIsLive(fs, w, dir, a);
      WriteStepSound(fs, w, a, name, data, fs');
      w' := w;
    case Put(name, data) =>
      w' := PutStepSound(fs, w, name, data, fs');
    case Remove(name) =>
      w' := RemoveStepSound(fs, w, name);
  }

  /** A run: states and the operations between them. */
  ghost predicate IsRun(states: seq<Fs>, ops: seq<Op>) {
    |states| == |ops| + 1 && forall k :: 0 <= k < |ops| ==> Step(states[k], ops[k], states[k + 1])
  }

  /** Block ownership and the tree survive every run, whatever its mix of kernel and tool
      operations and wherever crashes fall. */
  lemma {:induction false} RunsStaySound(states: seq<Fs>, ops: seq<Op>, w: Paths) returns (w': Paths)
    requires IsRun(states, ops) && Sound(states[0], w)
    ensures Sound(states[|ops|], w')
    decreases |ops|
  {
    hide Sound, Step;
    if ops == [] {
      w' := w;
    } else {
      var n := |ops| - 1;
      var u := RunsStaySound(states[..n + 1], ops[..n], w);
      w' := StepSound(states[n], u, ops[n], states[n + 1]);
    }
  }
}
