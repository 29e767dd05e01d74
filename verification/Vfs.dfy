/**
 fs/vfs.cpp: nodes, path resolution and path printing over a mounted SimpleFS.
 */
module VfsLayer {
  import opened Machine
  import opened DiskFormat
  import opened Ownership
  import opened Namespace
  import opened FsSpec
  import opened Consistency
  import opened Creation
  import opened FileData
  import opened PathSpec
  import opened KernelFs

  const TOKEN_SIZE := 256

  /** Every component fits the resolver's token buffer with its NUL. */
  predicate ShortTokens(ts: Path) {
    forall k :: 0 <= k < |ts| ==> |ts[k]| < TOKEN_SIZE
  }

  // ---- facts about scanning one byte at a time

  lemma TokensAfterSlash(tok: seq<Byte>, rest: seq<Byte>)
    requires SlashFreeName(tok) && rest != [] && rest[0] == SLASH
    ensures Tokens(tok + rest) == (if tok == [] then [] else [tok]) + Tokens(rest[1..])
  {
    assert tok + rest == tok + [SLASH] + rest[1..];
    TokensConcat(tok, rest[1..]);
    TokensPlain(tok);
  }

  lemma {:induction false} FirstToken(tok: seq<Byte>, rest: seq<Byte>)
    requires SlashFreeName(tok) && tok != []
    ensures Tokens(tok + rest) != [] && |Tokens(tok + rest)[0]| >= |tok|
    decreases |rest|
  {
    if rest == [] {
      assert tok + rest == tok;
      TokensPlain(tok);
    } else if rest[0] == SLASH {
      TokensAfterSlash(tok, rest);
    } else {
      FirstToken(tok + [rest[0]], rest[1..]);
      assert tok + [rest[0]] + rest[1..] == tok + rest;
    }
  }

  lemma SkipSlash(rest: seq<Byte>)
    requires rest != [] && rest[0] == SLASH
    ensures Tokens(rest[1..]) == Tokens(rest)
  {
    assert [] + rest == rest;
    TokensAfterSlash([], rest);
    assert [] + Tokens(rest[1..]) == Tokens(rest[1..]);
  }

  /** What the scanner keeps: walking on from cur through the pending token and the rest of
      the path gives the answer. */
  ghost predicate Scanned(fs: Fs, cur: VfsNode, tok: seq<Byte>, rest: seq<Byte>, answer: Option<VfsNode>) {
    SlashFreeName(tok) && ShortTokens(Tokens(tok + rest)) && Walk(fs, cur, Tokens(tok + rest)) == answer
  }

  lemma ScanStart(fs: Fs, cur: VfsNode, rest: seq<Byte>)
    requires ShortTokens(Tokens(rest))
    ensures Scanned(fs, cur, [], rest, Walk(fs, cur, Tokens(rest)))
  {
    assert [] + rest == rest;
  }

  /** At a '/' the pending token, if any, is looked up. */
  lemma ScanSlash(fs: Fs, cur: VfsNode, tok: seq<Byte>, rest: seq<Byte>, answer: Option<VfsNode>)
    requires Scanned(fs, cur, tok, rest, answer) && rest != [] && rest[0] == SLASH
    ensures tok == [] ==> Scanned(fs, cur, [], rest[1..], answer)
    ensures tok != [] ==> match LookupNode(fs, cur, tok)
                          case None => answer == None
                          case Some(m) => Scanned(fs, m, [], rest[1..], answer)
  {
    hide LookupNode, Tokens;
    TokensAfterSlash(tok, rest);
    var ts := Tokens(rest[1..]);
    assert [] + rest[1..] == rest[1..];
    if tok == [] {
      assert [] + ts == ts;
    } else {
      var all := [tok] + ts;
      assert all[1..] == ts;
      forall k | 0 <= k < |ts|
        ensures ts[k] == all[k + 1]
      {
      }
    }
  }

  /** Any other byte joins the token, which still fits. */
  lemma ScanByte(fs: Fs, cur: VfsNode, tok: seq<Byte>, rest: seq<Byte>, answer: Option<VfsNode>)
    requires Scanned(fs, cur, tok, rest, answer) && rest != [] && rest[0] != SLASH
    ensures |tok| + 1 < TOKEN_SIZE && Scanned(fs, cur, tok + [rest[0]], rest[1..], answer)
  {
    hide Tokens;
    assert tok + [rest[0]] + rest[1..] == tok + rest;
    FirstToken(tok + [rest[0]], rest[1..]);
  }

  /** At the end the pending token, if any, is looked up. */
  lemma ScanEnd(fs: Fs, cur: VfsNode, tok: seq<Byte>, answer: Option<VfsNode>)
    requires Scanned(fs, cur, tok, [], answer)
    ensures answer == if tok == [] then Some(cur) else LookupNode(fs, cur, tok)
  {
    hide LookupNode, Tokens;
    assert tok + [] == tok;
    TokensPlain(tok);
    var ts: Path := if tok == [] then [] else [tok];
    assert Walk(fs, cur, ts) == answer;
    if tok != [] {
      assert ts[1..] == [];
      var m := LookupNode(fs, cur, tok);
      assert m.Some? ==> Walk(fs, m.value, []) == Some(m.value);
    }
  }

  // ---- what a printed path is good for

  /** Names on disk end at their first NUL, so a path holds none. */
  lemma {:induction false} NamesNoNul(fs: Fs, w: Paths, i: nat)
    requires Sound(fs, w) && i in w
    ensures forall k :: 0 <= k < |w[i]| ==> IsCName(w[i][k])
    decreases |w[i]|
  {
    hide Owned, GetEntry, Disjoint;
    if i != 0 {
      var v := ViewOf(fs);
      assert Listed(v, i, w);
      var a, k :| 0 <= a < INODE_COUNT && 2 <= k < ENTRIES && ListedIn(v, a, k, i, w);
      NamesNoNul(fs, w, a);
      ListedCName(fs, a, k);
    }
  }

  lemma ListedCName(fs: Fs, a: nat, k: nat)
    requires a < INODE_COUNT && k < ENTRIES && ViewOf(fs)[a].Folder?
    ensures IsCName(ViewOf(fs)[a].list[k].name)
  {
    hide U32At, SlotImage, CString;
    var x := fs.table[a];
    if DATA_START <= x.blocks[0] < TOTAL_SECTORS {
      assert ViewOf(fs)[a].list[k] == GetEntry(fs.Block(x.blocks[0]), k);
    }
  }

  lemma {:induction false} SuffixNoNul(p: Path)
    requires forall k :: 0 <= k < |p| ==> IsCName(p[k])
    ensures IsCName(Suffix(p))
    decreases |p|
  {
    if p != [] {
      SuffixNoNul(Front(p));
    }
  }

  /** Whatever vfs_get_path prints for a reachable directory, the C string in the buffer
      resolves to that directory, from any current directory, exactly when the names on the
      way are slash-free. */
  lemma PrintedResolves(fs: Fs, w: Paths, root: VfsNode, cwd: VfsNode, n: VfsNode, bufSize: nat, before: seq<Byte>, buf: seq<Byte>)
    requires Sound(fs, w) && NodeOk(fs, w, n) && root.inode == 0 && root.isDir && NodeOk(fs, w, root)
    requires Vfs.Printed(w[n.inode], n, bufSize, 0, before, buf)
    ensures CString(buf) == Render(w[n.inode])
    ensures var r := ResolvePath(fs, root, cwd, CString(buf));
      && (r.Some? && r.value.inode == n.inode <==> SlashFree(w[n.inode]))
      && (SlashFree(w[n.inode]) ==> r.value.isDir == n.isDir)
  {
    hide Sound, ResolvePath, Suffix, HasBlock;
    NamesNoNul(fs, w, n.inode);
    SuffixNoNul(w[n.inode]);
    CStringIs(buf, Render(w[n.inode]));
    PrintThenResolve(fs, w, root, cwd, n.inode);
  }

  // ---- facts about climbing one level

  /** In the directory ".." names, the entries with this inode number are its own name
      only. */
  lemma ParentEntry(fs: Fs, w: Paths, i: nat, k: nat)
    requires Sound(fs, w) && i in w && i < INODE_COUNT && i != 0 && ViewOf(fs)[i].Folder? && k < ENTRIES
    ensures var p := ViewOf(fs)[i].list[1].ino;
      p in w && p < INODE_COUNT && ViewOf(fs)[p].Folder? && w[i] != [] && w[p] == Front(w[i])
      && (ViewOf(fs)[p].list[k].name != [] && ViewOf(fs)[p].list[k].ino == i ==> ViewOf(fs)[p].list[k].name == Last(w[i]))
  {
    hide ViewOf, Owned;
    var v := ViewOf(fs);
    ParentIsDir(v, w, i);
    var p := v[i].list[1].ino;
    assert DirOk(v[p].list, p, w);
    if k >= 2 && v[p].list[k].name != [] && v[p].list[k].ino == i {
      assert KidOk(v[p].list[k], p, w);
      Snoc(w[p], v[p].list[k].name, [], []);
    }
  }

  /** Some entry of that directory has this inode number. */
  lemma ParentHasEntry(fs: Fs, w: Paths, i: nat)
    requires Sound(fs, w) && i in w && i < INODE_COUNT && i != 0 && ViewOf(fs)[i].Folder?
    ensures var p := ViewOf(fs)[i].list[1].ino;
      p < INODE_COUNT && ViewOf(fs)[p].Folder? &&
      exists k :: 0 <= k < ENTRIES && ViewOf(fs)[p].list[k].name != [] && ViewOf(fs)[p].list[k].ino == i
  {
    hide GetEntry, Disjoint, InodeOk;
    var v := ViewOf(fs);
    ParentIsDir(v, w, i);
    var l := v[v[i].list[1].ino].list;
    var k := FindSlot(l, Last(w[i]), 0);
    assert l[k].name != [] && l[k].ino == i;
  }

  /** ".." of a reachable directory. */
  lemma UpNode(fs: Fs, w: Paths, n: VfsNode)
    requires Sound(fs, w) && NodeOk(fs, w, n) && n.isDir
    ensures ViewOf(fs)[n.inode].Folder?
    ensures var up := LookupNode(fs, n, DOTDOT);
      up.Some? && up.value.inode == ViewOf(fs)[n.inode].list[1].ino && up.value.isDir && NodeOk(fs, w, up.value)
  {
    hide GetEntry, Disjoint, InodeOk;
    var v := ViewOf(fs);
    assert DirOk(v[n.inode].list, n.inode, w);
    UniqueSlot(v[n.inode].list, n.inode, w, 1);
    ParentIsDir(v, w, n.inode);
    LookupNodeOk(fs, w, n, DOTDOT);
  }

  lemma SuffixPrepend(n: Name, p: Path)
    ensures Suffix([n] + p) == [SLASH] + n + Suffix(p)
  {
    SuffixConcat([n], p);
    var one: Path := [n];
    assert Front(one) == [] && Last(one) == n;
    assert Suffix(one) == Suffix(Front(one)) + [SLASH] + Last(one);
    assert [] + [SLASH] + n == [SLASH] + n;
  }

  class Vfs {
    const fs: SimpleFs
    var root: VfsNode
    var cwd: VfsNode

    ghost function State(): Fs
      requires fs.sectors.Length == TOTAL_SECTORS
      reads fs.sectors
    {
      fs.State()
    }

    ghost predicate Node(n: VfsNode)
      requires fs.sectors.Length == TOTAL_SECTORS
      reads fs, fs.sectors
    {
      NodeOk(State(), fs.paths, n)
    }

    /** A file's node as look-ups deliver it (PathSpec.FileAt). */
    ghost predicate File(n: VfsNode)
      requires fs.sectors.Length == TOTAL_SECTORS
      reads fs, fs.sectors
    {
      FileAt(State(), fs.paths, n)
    }

    ghost predicate Valid()
      reads this, fs, fs.sectors
    {
      fs.Valid() && root.inode == 0 && root.isDir && Node(root) && cwd.isDir && Node(cwd)
    }

    /** vfs_init after the mount, and the boot task's current directory. */
    constructor (mounted: SimpleFs)
      requires mounted.Valid()
      ensures Valid() && fs == mounted && cwd == root == VfsNode([SLASH], true, State().table[0].size, 0, 0)
    {
      hide Sound, NodeOk, Decode, Formatted, InodeAt, GetInode;
      fs := mounted;
      var inode := mounted.ReadInode(0);
      var node := VfsNode([SLASH], true, inode.size, 0, 0);
      root := node;
      cwd := node;
      new;
      RootOk(State(), fs.paths, node);
    }

    static lemma RootOk(s: Fs, w: Paths, n: VfsNode)
      requires Sound(s, w) && n.inode == 0 && n.isDir
      ensures NodeOk(s, w, n)
    {
      hide Disjoint, Entries;
      SoundDir(s, w, 0);
    }

    // ---- single nodes

    method Lookup(dir: VfsNode, name: Name) returns (r: Option<VfsNode>)
      requires Valid() && Node(dir)
      ensures r == LookupNode(State(), dir, name)
      ensures r.Some? <==> dir.isDir && (name == DOT || Namespace.Lookup(ViewOf(State()), dir.inode, name).Some?)
      ensures r.Some? && name == DOT ==> r.value == dir
      ensures r.Some? && name != DOT ==> r.value.name == name && r.value.parent == dir.inode
      ensures r.Some? && name != DOT ==> Namespace.Lookup(ViewOf(State()), dir.inode, name) == Some(r.value.inode)
      ensures r.Some? ==> Node(r.value) && (!r.value.isDir ==> File(r.value))
    {
      hide Sound, ViewOf, Namespace.Lookup, GetInode, InodeAt, HasBlock;
      LookupGivesFile(State(), fs.paths, dir, name);
      LookupNodeIs(State(), fs.paths, dir, name);
      LookupNodeOk(State(), fs.paths, dir, name);
      SoundLeads(State(), fs.paths, dir.inode, name);
      if !dir.isDir {
        return None;
      }
      if name == DOT {
        return Some(dir);
      }
      var target := fs.LookupName(dir.inode, name);
      if target < 0 {
        return None;
      }
      var inode := fs.ReadInode(target);
      r := Some(VfsNode(name, inode.Dir(), inode.size, target, dir.inode));
    }

    /** The index-th entry of a directory as a node. */
    method ReadDir(dir: VfsNode, index: int) returns (r: Option<VfsNode>)
      requires Valid() && Node(dir)
      ensures r.Some? <==> dir.isDir && 0 <= index < ENTRIES
                           && ViewOf(State())[dir.inode].Folder? && ViewOf(State())[dir.inode].list[index].name != []
      ensures r.Some? ==> var e := ViewOf(State())[dir.inode].list[index];
        e.ino < INODE_COUNT && r.value.name == e.name && r.value.inode == e.ino && r.value.parent == dir.inode
        && r.value.size == State().table[e.ino].size && Node(r.value) && (!r.value.isDir ==> File(r.value))
    {
      hide Sound, GetInode, InodeAt, GetEntry;
      if !dir.isDir {
        return None;
      }
      var e := fs.GetDirEntry(dir.inode, index);
      if e.None? {
        return None;
      }
      EntryLive(State(), fs.paths, dir.inode, index);
      EntryFound(State(), fs.paths, dir.inode, index);
      var inode := fs.ReadInode(e.value.ino);
      r := Some(VfsNode(e.value.name, inode.Dir(), inode.size, e.value.ino, dir.inode));
    }

    static lemma EntryLive(s: Fs, w: Paths, i: nat, k: nat)
      requires Sound(s, w) && i in w && i < INODE_COUNT && k < ENTRIES && ViewOf(s)[i].Folder? && ViewOf(s)[i].list[k].name != []
      ensures var c := ViewOf(s)[i].list[k].ino; c in w && c < INODE_COUNT && HasBlock(s, c)
    {
      hide GetEntry, Disjoint;
      assert DirOk(ViewOf(s)[i].list, i, w);
      assert k >= 2 ==> KidOk(ViewOf(s)[i].list[k], i, w);
      SoundDir(s, w, ViewOf(s)[i].list[k].ino);
    }

    /** A name is listed once, so looking it up finds the same entry. */
    static lemma EntryFound(s: Fs, w: Paths, i: nat, k: nat)
      requires Sound(s, w) && i in w && i < INODE_COUNT && k < ENTRIES && ViewOf(s)[i].Folder? && ViewOf(s)[i].list[k].name != []
      ensures Namespace.Lookup(ViewOf(s), i, ViewOf(s)[i].list[k].name) == Some(ViewOf(s)[i].list[k].ino)
    {
      hide GetEntry, Disjoint;
      assert DirOk(ViewOf(s)[i].list, i, w);
      UniqueSlot(ViewOf(s)[i].list, i, w, k);
    }

    // ---- creating, writing, reading

    /** After an operation that keeps or grows the tree, nodes obtained before it are still
        nodes of the tree. */
    static lemma NodeSurvives(s: Fs, m: Fs, w: Paths, u: Paths, n: VfsNode)
      requires NodeOk(s, w, n) && n.inode in u && Sound(m, u) && n.inode < INODE_COUNT
      requires m.table[n.inode].flags == s.table[n.inode].flags
      ensures NodeOk(m, u, n)
    {
      hide ViewOf, Disjoint;
      SoundDir(m, u, n.inode);
    }

    static lemma GrownFlags(s: Fs, r: Outcome, w: Paths, a: nat, c: nat, name: Name, i: nat)
      requires a in w && a < INODE_COUNT && AddsChildOrNothing(s, r, w, a, c, name) && i in w && i < INODE_COUNT
      ensures DoAll(s, r.es).table[i] == s.table[i]
      ensures r.code == 0 ==> c !in w
    {
      hide Sound;
      assert r.es[..|r.es|] == r.es;
      var m := DoAll(s, r.es);
      if r.code == 0 {
        assert i != a ==> SameNode(s, m, i);
      } else {
        assert SameNode(s, m, i);
      }
    }

    /** vfs_create and vfs_mkdir look the name up first, "." included; whatever they find,
        the layer below would have refused too. */
    static lemma FoundIsRefused(s: Fs, w: Paths, n: VfsNode, name: Name)
      requires Sound(s, w) && NodeOk(s, w, n) && LookupNode(s, n, name).Some?
      ensures n.inode < INODE_COUNT && HasBlock(s, n.inode)
      ensures CreateOp(s, n.inode, name) == Outcome(-1, []) && MkdirOp(s, n.inode, name) == Outcome(-1, []) && !CanAdd(s, n.inode, name)
    {
      hide GetEntry, Disjoint, InodeOk, CanAdd, HasBlock;
      CreateIff(s, w, n.inode, name);
      if name == DOT {
        assert DirOk(ViewOf(s)[n.inode].list, n.inode, w);
        UniqueSlot(ViewOf(s)[n.inode].list, n.inode, w, 0);
      }
    }

    /** What a look-up of a child just added finds. */
    static lemma AddedIsFound(m: Fs, u: Paths, parent: VfsNode, c: nat, name: Name)
      requires Sound(m, u) && NodeOk(m, u, parent) && c in u && u[c] == u[parent.inode] + [name]
      ensures c < INODE_COUNT && LookupNode(m, parent, name) == Some(NodeAt(m, name, c, parent.inode))
    {
      hide Owned, GetEntry, HasBlock, FindSlot;
      Namespace.ResolveStep(ViewOf(m), u, parent.inode, name, c);
    }

    /** The new inode's kind, and that its path is its parent's and the name. */
    static lemma CreateMade(d0: Disk, l0: seq<Write>, s: Fs, d: Disk, l: seq<Write>, w: Paths, a: nat, name: Name)
      requires s == Decode(d0) && Sound(s, w) && a in w && a < INODE_COUNT && HasBlock(s, a) && IsCName(name)
      requires Issued(d0, l0, CreateOp(s, a, name).es, d, l) && CreateOp(s, a, name).code == 0
      ensures var c := FreeInode(s.table, 0); c < INODE_COUNT && c != a && !Decode(d).table[c].Dir() && Decode(d).table[c].size == 0
    {
      hide Sound, Decode, CreateOp, FreeInode, Issued, HasBlock;
      CreateCrash(s, w, a, name);
      IssuedDecodes(d0, l0, CreateOp(s, a, name).es, d, l);
      NewIsOther(s, CreateOp(s, a, name), w, a, FreeInode(s.table, 0), name);
    }

    static lemma MkdirMade(d0: Disk, l0: seq<Write>, s: Fs, d: Disk, l: seq<Write>, w: Paths, a: nat, name: Name)
      requires s == Decode(d0) && Sound(s, w) && a in w && a < INODE_COUNT && HasBlock(s, a) && IsCName(name)
      requires Issued(d0, l0, MkdirOp(s, a, name).es, d, l) && MkdirOp(s, a, name).code == 0
      ensures var c := FreeInode(s.table, 0); c < INODE_COUNT && c != a && Decode(d).table[c].Dir() && Decode(d).table[c].size == 0
    {
      hide Sound, Decode, MkdirOp, FreeInode, Issued, HasBlock, Entries;
      MkdirCrash(s, w, a, name);
      IssuedDecodes(d0, l0, MkdirOp(s, a, name).es, d, l);
      NewIsOther(s, MkdirOp(s, a, name), w, a, FreeInode(s.table, 0), name);
    }

    static lemma NewIsOther(s: Fs, r: Outcome, w: Paths, a: nat, c: nat, name: Name)
      requires a in w && a < INODE_COUNT && AddsChildOrNothing(s, r, w, a, c, name) && r.code == 0
      ensures c < INODE_COUNT && c != a
    {
      hide Sound, SameTree;
    }

    /** vfs_create; the out-node is looked up when it is wanted and the call succeeds. */
    method Create(parent: VfsNode, name: Name, wanted: bool) returns (code: int, outNode: Option<VfsNode>)
      requires Valid() && Node(parent) && IsCName(name)
      modifies fs.sectors, fs`log, fs`paths
      ensures Valid()
      ensures code == 0 <==> CanAdd(old(State()), parent.inode, name)
      ensures var r := CreateOp(old(State()), parent.inode, name);
        && code == r.code
        && Issued(old(fs.Image()), old(fs.log), r.es, fs.Image(), fs.log)
        && fs.paths == if r.code == 0 then old(fs.paths)[FreeInode(old(State()).table, 0) := old(fs.paths)[parent.inode] + [name]]
                       else old(fs.paths)
      ensures outNode.Some? <==> code == 0 && wanted
      ensures outNode.Some? ==> var c := FreeInode(old(State()).table, 0);
        c < INODE_COUNT && outNode.value == VfsNode(name, false, 0, c, parent.inode) && File(outNode.value)
    {
      hide Sound, ViewOf, LookupNode, AddsChildOrNothing, Formatted, FreeInode, Issued, Decode, CanAdd, HasBlock, CreateOp;
      ghost var d0, l0, s, w, c := fs.Image(), fs.log, State(), fs.paths, FreeInode(State().table, 0);
      IssuedNothing(d0, l0);
      var dummy := Lookup(parent, name);
      if dummy.Some? {
        FoundIsRefused(s, w, parent, name);
        return -1, None;
      }
      CreateIff(s, w, parent.inode, name);
      CreateCrash(s, w, parent.inode, name);
      code := fs.Create(parent.inode, name);
      KeepsNodes(d0, l0, CreateOp(s, parent.inode, name), fs.Image(), fs.log, w, parent.inode, c, name, root);
      KeepsNodes(d0, l0, CreateOp(s, parent.inode, name), fs.Image(), fs.log, w, parent.inode, c, name, cwd);
      KeepsNodes(d0, l0, CreateOp(s, parent.inode, name), fs.Image(), fs.log, w, parent.inode, c, name, parent);
      outNode := None;
      if code == 0 && wanted {
        CreateMade(d0, l0, s, fs.Image(), fs.log, w, parent.inode, name);
        AddedIsFound(State(), fs.paths, parent, c, name);
        outNode := Lookup(parent, name);
      }
    }

    method Mkdir(parent: VfsNode, name: Name, wanted: bool) returns (code: int, outNode: Option<VfsNode>)
      requires Valid() && Node(parent) && IsCName(name)
      modifies fs.sectors, fs`log, fs`paths
      ensures Valid()
      ensures code == 0 <==> CanAdd(old(State()), parent.inode, name)
      ensures var r := MkdirOp(old(State()), parent.inode, name);
        && code == r.code
        && Issued(old(fs.Image()), old(fs.log), r.es, fs.Image(), fs.log)
        && fs.paths == if r.code == 0 then old(fs.paths)[FreeInode(old(State()).table, 0) := old(fs.paths)[parent.inode] + [name]]
                       else old(fs.paths)
      ensures outNode.Some? <==> code == 0 && wanted
      ensures outNode.Some? ==> var c := FreeInode(old(State()).table, 0);
        c < INODE_COUNT && outNode.value == VfsNode(name, true, 0, c, parent.inode) && Node(outNode.value)
    {
      hide Sound, ViewOf, LookupNode, AddsChildOrNothing, Formatted, FreeInode, Issued, Decode, CanAdd, HasBlock, MkdirOp;
      ghost var d0, l0, s, w, c := fs.Image(), fs.log, State(), fs.paths, FreeInode(State().table, 0);
      IssuedNothing(d0, l0);
      var dummy := Lookup(parent, name);
      if dummy.Some? {
        FoundIsRefused(s, w, parent, name);
        return -1, None;
      }
      MkdirIff(s, w, parent.inode, name);
      MkdirCrash(s, w, parent.inode, name);
      code := fs.Mkdir(parent.inode, name);
      KeepsNodes(d0, l0, MkdirOp(s, parent.inode, name), fs.Image(), fs.log, w, parent.inode, c, name, root);
      KeepsNodes(d0, l0, MkdirOp(s, parent.inode, name), fs.Image(), fs.log, w, parent.inode, c, name, cwd);
      KeepsNodes(d0, l0, MkdirOp(s, parent.inode, name), fs.Image(), fs.log, w, parent.inode, c, name, parent);
      outNode := None;
      if code == 0 && wanted {
        MkdirMade(d0, l0, s, fs.Image(), fs.log, w, parent.inode, name);
        AddedIsFound(State(), fs.paths, parent, c, name);
        outNode := Lookup(parent, name);
      }
    }

    static lemma KeepsNodes(d0: Disk, l0: seq<Write>, r: Outcome, d: Disk, l: seq<Write>, w: Paths, a: nat, c: nat, name: Name, n: VfsNode)
      requires Formatted(d0[0]) && Sound(Decode(d0), w) && a in w && a < INODE_COUNT
      requires AddsChildOrNothing(Decode(d0), r, w, a, c, name) && Issued(d0, l0, r.es, d, l) && NodeOk(Decode(d0), w, n)
      ensures NodeOk(Decode(d), if r.code == 0 then w[c := w[a] + [name]] else w, n)
    {
      hide Sound, Decode, AddsChildOrNothing, Formatted, HasBlock;
      SimpleFs.ChildAdded(d0, l0, r, d, l, w, a, c, name);
      NodeInRange(Decode(d0), w, n);
      GrownFlags(Decode(d0), r, w, a, c, name, n.inode);
      IssuedDecodes(d0, l0, r.es, d, l);
      AllOkOf(Decode(d0), r, w, a, c, name);
      NodeSurvives(Decode(d0), Decode(d), w, if r.code == 0 then w[c := w[a] + [name]] else w, n);
    }

    static lemma NodeInRange(s: Fs, w: Paths, n: VfsNode)
      requires NodeOk(s, w, n)
      ensures n.inode in w && n.inode < INODE_COUNT
    {
    }

    static lemma AllOkOf(s: Fs, r: Outcome, w: Paths, a: nat, c: nat, name: Name)
      requires a in w && a < INODE_COUNT && AddsChildOrNothing(s, r, w, a, c, name)
      ensures AllOk(r.es)
    {
    }

    /** vfs_write: directories are refused; a file gets exactly the data and every other
        file and directory stays as it was; more than thirty blocks are refused.  The
        32-bit block count must not wrap (FileData.WriteStoredIff says what happens when it
        does). */
    method Write(file: VfsNode, data: seq<Byte>) returns (code: int, file': VfsNode)
      requires Valid() && (file.isDir || NamedFile(State(), fs.paths, file))
      requires |data| + 511 < 0x1_0000_0000
      modifies fs.sectors, fs`log
      ensures Valid()
      ensures file.isDir || |data| > DIRECT_BLOCKS * SECTOR_SIZE ==> code == -1 && file' == file && fs.Image() == old(fs.Image()) && fs.log == old(fs.log)
      ensures !file.isDir && |data| <= DIRECT_BLOCKS * SECTOR_SIZE ==>
        code == 0 && file' == file.(size := |data|) && File(file')
        && Written(old(State()), State(), fs.paths, file.inode, data)
    {
      hide Sound, ViewOf, Namespace.Lookup, Formatted, Issued, Decode, Written, WriteOp, LeadsToUsed, NeededBlocks, SameTree;
      file' := file;
      if file.isDir {
        return -1, file;
      }
      ghost var d0, l0, s, w := fs.Image(), fs.log, State(), fs.paths;
      SoundLeads(s, w, file.parent, file.name);
      FileLive(s, w, file);
      code := fs.WriteFile(file.parent, file.name, data);
      WriteStoredIff(s, w, file.parent, file.name, data, file.inode);
      ghost var es := WriteOp(s, file.parent, file.name, data).es;
      IssuedDecodes(d0, l0, es, fs.Image(), fs.log);
      if code < 0 {
        IssuedNone(d0, l0, fs.Image(), fs.log);
        return -1, file;
      }
      WrittenKeeps(s, State(), w, file.inode, data, root);
      WrittenKeeps(s, State(), w, file.inode, data, cwd);
      WrittenNode(s, State(), w, file, data);
      file' := file.(size := |data|);
    }

    /** The node written through is still the file's, with the new size. */
    static lemma WrittenNode(s: Fs, m: Fs, w: Paths, n: VfsNode, data: seq<Byte>)
      requires Sound(s, w) && NamedFile(s, w, n) && n.inode < INODE_COUNT && Written(s, m, w, n.inode, data)
      ensures FileAt(m, w, n.(size := |data|))
    {
      hide ViewOf, Disjoint, Tree, Namespace.Lookup, SameTree;
      FileLive(s, w, n);
      SameTreeView(s, m, w, n.inode);
      SameLookup(ViewOf(s), ViewOf(m), n.parent, n.name);
      NodeSurvives(s, m, w, w, n);
      SoundDir(m, w, n.parent);
    }

    static lemma IssuedNone(d0: Disk, l0: seq<Write>, d: Disk, l: seq<Write>)
      requires Issued(d0, l0, [], d, l)
      ensures d == d0 && l == l0
    {
    }

    static lemma WrittenKeeps(s: Fs, m: Fs, w: Paths, f: nat, data: seq<Byte>, n: VfsNode)
      requires f < INODE_COUNT && Written(s, m, w, f, data) && NodeOk(s, w, n)
      ensures Sound(m, w) && NodeOk(m, w, n)
    {
      hide ViewOf, Disjoint, Tree;
      if n.inode != f {
        assert SameNode(s, m, n.inode);
      }
      NodeSurvives(s, m, w, w, n);
    }

    /** r is the first min(limit, size) bytes of file f. */
    static ghost predicate FirstBytes(s: Fs, f: nat, limit: nat, r: Option<seq<Byte>>) {
      f < INODE_COUNT && Held(s.table[f], BlocksFor(s.table[f].size))
      && r == Some(Content(s, s.table[f])[..Least(limit, s.table[f].size)])
    }

    /** vfs_read: directories are refused; a file gives its first bytes. */
    method Read(file: VfsNode, limit: nat) returns (r: Option<seq<Byte>>)
      requires Valid() && (file.isDir || NamedFile(State(), fs.paths, file))
      ensures if file.isDir then r == None else FirstBytes(State(), file.inode, limit, r)
    {
      hide Sound, ViewOf, Namespace.Lookup, Formatted, Decode, ReadOp, LeadsToUsed;
      if file.isDir {
        return None;
      }
      SoundLeads(State(), fs.paths, file.parent, file.name);
      FileLive(State(), fs.paths, file);
      ReadIsPrefix(State(), fs.paths, file.parent, file.name, limit, file.inode);
      r := fs.ReadFile(file.parent, file.name, limit);
    }

    // ---- paths

    method ResolveStep(cur: VfsNode, token: Name) returns (r: Option<VfsNode>)
      requires Valid() && Node(cur)
      ensures r == LookupNode(State(), cur, token)
      ensures r.Some? ==> Node(r.value)
    {
      r := Lookup(cur, token);
    }

    /** The character scanner answers what splitting at '/' and walking the components
        answers. */
    method Resolve(path: seq<Byte>) returns (r: Option<VfsNode>)
      requires Valid() && ShortTokens(Tokens(path))
      ensures r == ResolvePath(State(), root, cwd, path)
      ensures r.Some? ==> Node(r.value) && (!r.value.isDir ==> File(r.value))
    {
      hide Valid, Node, LookupNode, Tokens, Scanned;
      StartNodes();
      ResolvedFile(path);
      ghost var answer := ResolvePath(State(), root, cwd, path);
      if path == [] {
        ScanStart(State(), cwd, path);
        ScanEnd(State(), cwd, [], answer);
        return Some(cwd);
      }
      var cur := cwd;
      var i := 0;
      if path[0] == SLASH {
        cur := root;
        while i < |path| && path[i] == SLASH
          invariant 0 <= i <= |path|
          invariant Tokens(path[i..]) == Tokens(path)
        {
          SkipSlash(path[i..]);
          assert path[i..][1..] == path[i + 1..];
          i := i + 1;
        }
      }
      ScanStart(State(), cur, path[i..]);
      r := ScanRest(path, i, cur, answer);
    }

    /** The token loop of vfs_resolve_path, from index i on. */
    method ScanRest(path: seq<Byte>, from: nat, start: VfsNode, ghost answer: Option<VfsNode>) returns (r: Option<VfsNode>)
      requires Valid() && Node(start) && from <= |path| && Scanned(State(), start, [], path[from..], answer)
      ensures r == answer
      ensures r.Some? ==> Node(r.value)
    {
      hide Valid, Node, LookupNode, Tokens, Scanned;
      StartNodes();
      ghost var s := State();
      var cur, i := start, from;
      var token := new Byte[TOKEN_SIZE];
      var n := 0;
      while i < |path|
        invariant 0 <= i <= |path| && 0 <= n < TOKEN_SIZE && Node(cur)
        invariant Scanned(s, cur, token[..n], path[i..], answer)
      {
        assert path[i..][1..] == path[i + 1..];
        if path[i] == SLASH {
          ScanSlash(s, cur, token[..n], path[i..], answer);
          if n > 0 {
            token[n] := 0;
            var next := ResolveStep(cur, token[..n]);
            if next.None? {
              return None;
            }
            cur := next.value;
            n := 0;
          }
        } else {
          ScanByte(s, cur, token[..n], path[i..], answer);
          ghost var before := token[..n];
          token[n] := path[i];
          n := n + 1;
          assert token[..n] == before + [path[i]];
        }
        i := i + 1;
      }
      assert path[i..] == [];
      ScanEnd(s, cur, token[..n], answer);
      if n > 0 {
        token[n] := 0;
        var next := ResolveStep(cur, token[..n]);
        if next.None? {
          return None;
        }
        cur := next.value;
      }
      return Some(cur);
    }

    /** Change the current directory; on -1 nothing changes. */
    method Cd(path: seq<Byte>) returns (code: int)
      requires Valid() && ShortTokens(Tokens(path))
      modifies `cwd
      ensures Valid()
      ensures var r := ResolvePath(State(), root, old(cwd), path);
        if r.Some? && r.value.isDir then code == 0 && cwd == r.value else code == -1 && cwd == old(cwd)
    {
      hide Sound, ResolvePath, Tokens;
      var target := Resolve(path);
      if target.None? || !target.value.isDir {
        return -1;
      }
      cwd := target.value;
      return 0;
    }

    // ---- printing a path

    static function Pushed(s: seq<Byte>, idx: nat, name: Name): (r: seq<Byte>)
      requires |name| <= idx < |s|
      ensures |r| == |s|
    {
      s[..idx - |name|] + ([SLASH] + name) + s[idx + 1..]
    }

    /** Put "/" and a name in front of what the buffer already holds behind idx: the memcpy
        of the name, then the store of the slash. */
    static method PushFront(buf: array<Byte>, idx: nat, name: Name)
      requires |name| <= idx < buf.Length
      modifies buf
      ensures buf[..] == Pushed(old(buf[..]), idx, name)
    {
      hide Overlaid;
      ghost var before := buf[..];
      var at := idx - |name| + 1;
      OverlaidEnds(before, at, name);
      for k := 0 to |name|
        invariant buf[..] == Overlaid(before, at, name, k)
      {
        OverlaidStep(before, at, name, k);
        buf[at + k] := name[k];
      }
      OverlaidPushed(before, idx, name);
      buf[idx - |name|] := SLASH;
    }

    /** The buffer once k bytes of the name have been stored. */
    static function Overlaid(s: seq<Byte>, at: nat, name: Name, k: nat): seq<Byte>
      requires k <= |name| && at + k <= |s|
    {
      s[..at] + name[..k] + s[at + k..]
    }

    static lemma OverlaidStep(s: seq<Byte>, at: nat, name: Name, k: nat)
      requires k < |name| && at + k < |s|
      ensures |Overlaid(s, at, name, k)| == |s|
      ensures Overlaid(s, at, name, k + 1) == Overlaid(s, at, name, k)[at + k := name[k]]
    {
    }

    static lemma OverlaidEnds(s: seq<Byte>, at: nat, name: Name)
      requires at + |name| <= |s|
      ensures Overlaid(s, at, name, 0) == s
    {
    }

    static lemma OverlaidPushed(s: seq<Byte>, idx: nat, name: Name)
      requires |name| <= idx < |s|
      ensures var t := Overlaid(s, idx - |name| + 1, name, |name|);
        |t| == |s| && t[idx - |name| := SLASH] == Pushed(s, idx, name)
    {
    }

    /** memcpy towards the front of the same buffer: the ranges overlap, and copying
        upwards is what makes that safe. */
    static method ShiftDown(buf: array<Byte>, from: nat, count: nat)
      requires from + count <= buf.Length
      modifies buf
      ensures buf[..] == old(buf[from..from + count]) + old(buf[count..])
    {
      hide Shifted;
      ghost var before := buf[..];
      ShiftedEnds(before, from, count);
      for k := 0 to count
        invariant buf[..] == Shifted(before, from, k)
      {
        ShiftedStep(before, from, k);
        buf[k] := buf[from + k];
      }
    }

    /** The buffer once k bytes have been copied down. */
    static function Shifted(s: seq<Byte>, from: nat, k: nat): seq<Byte>
      requires from + k <= |s|
    {
      s[from..from + k] + s[k..]
    }

    static lemma ShiftedStep(s: seq<Byte>, from: nat, k: nat)
      requires from + k < |s|
      ensures |Shifted(s, from, k)| == |s| && Shifted(s, from, k)[from + k] == s[from + k]
      ensures Shifted(s, from, k + 1) == Shifted(s, from, k)[k := s[from + k]]
    {
    }

    static lemma ShiftedEnds(s: seq<Byte>, from: nat, k: nat)
      requires from + k <= |s|
      ensures Shifted(s, from, 0) == s && Shifted(s, from, k) == s[from..from + k] + s[k..]
    {
    }

    /** The name under which the parent lists a directory: the entry scan of vfs_get_path. */
    method NamedInParent(cur: VfsNode, parent: VfsNode) returns (r: VfsNode)
      requires Valid() && Node(cur) && cur.inode in fs.paths && Node(parent) && parent.inode in fs.paths && cur.isDir && cur.inode != 0
      requires Some(parent) == LookupNode(State(), cur, DOTDOT)
      ensures r.inode == cur.inode
      ensures fs.paths[cur.inode] != [] && r.name == Last(fs.paths[cur.inode])
      ensures parent.isDir && fs.paths[parent.inode] == Front(fs.paths[cur.inode])
    {
      hide Sound, LookupNode, ViewOf;
      ghost var w := fs.paths;
      UpNode(State(), w, cur);
      ParentEntry(State(), w, cur.inode, 0);
      ParentHasEntry(State(), w, cur.inode);
      ghost var l := ViewOf(State())[parent.inode].list;
      var i := 0;
      while i < ENTRIES
        invariant 0 <= i <= ENTRIES
        invariant forall k :: 0 <= k < i && l[k].name != [] ==> l[k].ino != cur.inode
      {
        ParentEntry(State(), w, cur.inode, i);
        var temp := ReadDir(parent, i);
        if temp.Some? && cur.inode == temp.value.inode {
          return temp.value;
        }
        i := i + 1;
      }
      assert false;
      r := cur;
    }

    /** The answer and the buffer for a node at path p.  Nothing beyond the stated size
        changes, except for the root and a size of one. */
    static predicate Printed(p: Path, n: VfsNode, bufSize: nat, code: int, before: seq<Byte>, buf: seq<Byte>) {
      var r := Render(p);
      && |buf| == |before| && bufSize <= |buf|
      && (code == 0 || code == -1)
      && (code == 0 <==> bufSize > 0 && (n.inode == 0 || (n.isDir && |r| + 2 <= bufSize)))
      && (code == 0 ==> |r| < |buf| && buf[..|r|] == r && buf[|r|] == 0)
      && (if n.inode == 0 && bufSize == 1 then buf[2..] == before[2..] else buf[bufSize..] == before[bufSize..])
    }

    /** Beyond the stated size a byte is stored in one case only: for the root and a size of
        one, the NUL at index 1. */
    static lemma Overrun(p: Path, n: VfsNode, bufSize: nat, code: int, before: seq<Byte>, buf: seq<Byte>, k: nat)
      requires Printed(p, n, bufSize, code, before, buf) && bufSize <= k < |buf| && (n.inode == 0 ==> p == [])
      ensures buf[k] == if n.inode == 0 && bufSize == 1 && k == 1 then 0 else before[k]
    {
      if n.inode == 0 && bufSize == 1 {
        assert k >= 2 ==> buf[2..][k - 2] == before[2..][k - 2];
      } else {
        assert buf[bufSize..][k - bufSize] == before[bufSize..][k - bufSize];
      }
    }

    lemma RootEmptyPath()
      requires Valid()
      ensures 0 in fs.paths && fs.paths[0] == []
    {
      RootPath(State(), fs.paths);
    }

    /** vfs_get_path writes into a buffer of which it is told the size.  It succeeds for the
        root, and for another directory exactly when the printed path leaves two bytes
        free; it stays inside the stated size except for the root and a size of one, where
        it stores the two bytes "/" and NUL. */
    method GetPath(node: VfsNode, buf: array<Byte>, bufSize: nat, ghost p: Path) returns (code: int)
      requires Valid() && Node(node) && node.inode in fs.paths && fs.paths[node.inode] == p
      requires buf as object != fs.sectors && bufSize <= buf.Length && bufSize <= 0x8000_0000
      requires node.inode == 0 && bufSize == 1 ==> buf.Length >= 2
      modifies buf
      ensures Printed(p, node, bufSize, code, old(buf[..]), buf[..])
    {
      hide Sound, HasBlock, Suffix, Filled;
      ghost var w, before := fs.paths, buf[..];
      RootEmptyPath();
      if bufSize == 0 {
        return -1;
      }
      if node.inode == 0 {
        buf[0], buf[1] := SLASH, 0;
        return 0;
      }
      NonRootPath(State(), w, node.inode);
      hide Printed;
      var idx := Climb(node, buf, bufSize, p, State(), w);
      if idx < 0 {
        NotPrinted(p, node, bufSize, before, buf[..]);
        return -1;
      }
      ghost var filled := buf[..];
      FilledRange(p, idx, bufSize, before, filled);
      ShiftDown(buf, idx + 1, bufSize - idx - 1);
      FilledPrinted(p, node, idx, bufSize, before, filled, buf[..]);
      code := 0;
    }

    /** One level up: the parent, and this directory under the name its parent gives it. */
    method StepUp(cur: VfsNode, ghost s: Fs, ghost w: Paths) returns (found: bool, named: VfsNode, parent: VfsNode)
      requires Standing(s, w) && NodeOk(s, w, cur) && cur.inode != 0
      ensures found <==> cur.isDir
      ensures w[cur.inode] != []
      ensures found ==> named.inode == cur.inode && named.name == Last(w[cur.inode])
      ensures found ==> NodeOk(s, w, parent) && parent.isDir && w[parent.inode] == Front(w[cur.inode])
    {
      hide Sound, LookupNode, HasBlock;
      NonRootPath(s, w, cur.inode);
      var up := Lookup(cur, DOTDOT);
      UpIffDir(s, w, cur);
      if up.None? {
        return false, cur, cur;
      }
      named := NamedInParent(cur, up.value);
      return true, named, up.value;
    }

    lemma StartNodes()
      requires Valid()
      ensures fs.sectors.Length == TOTAL_SECTORS && Node(root) && Node(cwd)
    {
    }

    lemma ResolvedFile(path: seq<Byte>)
      requires Valid()
      ensures var r := ResolvePath(State(), root, cwd, path); r.Some? && !r.value.isDir ==> File(r.value)
    {
      hide Sound, Walk, Tokens, FileAt, NodeOk, HasBlock;
      WalkGivesFile(State(), fs.paths, if path != [] && path[0] == SLASH then root else cwd, Tokens(path));
    }

    /** s and w are the state and its paths, given names so that filling the buffer plainly
        does not change them. */
    ghost predicate Standing(s: Fs, w: Paths)
      reads this, fs, fs.sectors
    {
      Valid() && State() == s && fs.paths == w
    }

    /** The upward walk: fill the buffer from its end, one name per level.  It ends because
        each level's path is shorter. */
    method Climb(node: VfsNode, buf: array<Byte>, bufSize: nat, ghost p: Path, ghost s: Fs, ghost w: Paths) returns (idx: int)
      requires Standing(s, w) && NodeOk(s, w, node) && w[node.inode] == p && node.inode != 0 && p != []
      requires 0 in w && w[0] == []
      requires buf as object != fs.sectors && 0 < bufSize <= buf.Length
      modifies buf
      ensures idx >= 0 <==> node.isDir && |Suffix(p)| + 2 <= bufSize
      ensures if idx >= 0 then Filled(p, [], p, idx, bufSize, old(buf[..]), buf[..]) else Behind(bufSize, old(buf[..]), buf[..])
    {
      hide Standing, HasBlock, Filled, Suffix, Behind;
      ghost var before := buf[..];
      var cur := node;
      idx := bufSize - 1;
      buf[idx] := 0;
      idx := idx - 1;
      ghost var rest: Path := [];
      FilledStart(p, bufSize, before, buf[..]);
      while cur.inode != 0
        invariant Standing(s, w) && NodeOk(s, w, cur) && (rest != [] ==> node.isDir) && cur.isDir == node.isDir
        invariant -1 <= idx < bufSize - 1 && Filled(p, w[cur.inode], rest, idx, bufSize, before, buf[..])
        decreases |w[cur.inode]|
      {
        ghost var here := w[cur.inode];
        var ok;
        ok, cur, idx := ClimbStep(cur, buf, idx, bufSize, p, rest, s, w, before);
        if !ok {
          return -1;
        }
        rest := [Last(here)] + rest;
      }
      FilledEnd(p, rest, idx, bufSize, before, buf[..]);
    }

    /** One level of the walk, or failure: no parent, or no room. */
    method ClimbStep(cur: VfsNode, buf: array<Byte>, idx: int, bufSize: nat, ghost p: Path, ghost rest: Path, ghost s: Fs, ghost w: Paths,
                     ghost before: seq<Byte>)
      returns (ok: bool, next: VfsNode, at: int)
      requires Standing(s, w) && NodeOk(s, w, cur) && cur.inode != 0
      requires buf as object != fs.sectors && -1 <= idx < bufSize - 1 && bufSize <= buf.Length
      requires Filled(p, w[cur.inode], rest, idx, bufSize, before, buf[..])
      modifies buf
      ensures w[cur.inode] != []
      ensures !ok ==> (!cur.isDir || |Suffix(p)| + 2 > bufSize) && Behind(bufSize, before, buf[..])
      ensures ok ==> cur.isDir && NodeOk(s, w, next) && next.isDir && w[next.inode] == Front(w[cur.inode]) && 0 <= at < bufSize - 1
      ensures ok ==> Filled(p, w[next.inode], [Last(w[cur.inode])] + rest, at, bufSize, before, buf[..])
    {
      hide Standing, HasBlock, Filled, Suffix, Pushed, Behind;
      var found, named, parent := StepUp(cur, s, w);
      ok, next, at := false, cur, idx;
      ghost var q, now := w[cur.inode], buf[..];
      FilledBehind(p, q, rest, idx, bufSize, before, now);
      if !found {
        return;
      }
      var nameLen := |named.name|;
      if idx < nameLen {
        return;
      }
      PushFront(buf, idx, named.name);
      PushedBehind(idx, bufSize, before, now, named.name);
      at := idx - nameLen - 1;
      if at < 0 {
        return;
      }
      FilledStep(p, q, rest, idx, bufSize, before, now);
      ok, next := true, parent;
    }

    /** Everything from the end of the stated size on is as it was. */
    static predicate Behind(bufSize: nat, before: seq<Byte>, now: seq<Byte>) {
      |now| == |before| && bufSize <= |now| && now[bufSize..] == before[bufSize..]
    }

    /** The buffer after climbing from p to q: the names below q, printed, then NUL. */
    static predicate Filled(p: Path, q: Path, rest: Path, idx: int, bufSize: nat, before: seq<Byte>, now: seq<Byte>) {
      && q + rest == p && -1 <= idx && idx + 2 + |Suffix(rest)| == bufSize && (rest != [] ==> idx >= 0)
      && Behind(bufSize, before, now) && now[idx + 1..bufSize] == Suffix(rest) + [0]
    }

    static lemma FilledStart(p: Path, bufSize: nat, before: seq<Byte>, now: seq<Byte>)
      requires 0 < bufSize <= |before| && now == before[bufSize - 1 := 0]
      ensures Filled(p, p, [], bufSize - 2, bufSize, before, now)
    {
      assert p + [] == p;
      assert now[bufSize - 1..bufSize] == [] + [0];
    }

    static lemma FilledStep(p: Path, q: Path, rest: Path, idx: int, bufSize: nat, before: seq<Byte>, now: seq<Byte>)
      requires q != [] && Filled(p, q, rest, idx, bufSize, before, now) && idx > |Last(q)|
      ensures idx < |now| && Filled(p, Front(q), [Last(q)] + rest, idx - |Last(q)| - 1, bufSize, before, Pushed(now, idx, Last(q)))
    {
      hide Suffix;
      var n := Last(q);
      var now' := Pushed(now, idx, n);
      SuffixPrepend(n, rest);
      Reassemble(q, rest);
      assert now'[idx - |n|..bufSize] == ([SLASH] + n) + now[idx + 1..bufSize];
      Assoc([SLASH] + n, Suffix(rest), [0]);
      assert now'[bufSize..] == now[bufSize..];
    }

    static lemma PushedBehind(idx: nat, bufSize: nat, before: seq<Byte>, now: seq<Byte>, n: Name)
      requires |n| <= idx < bufSize && Behind(bufSize, before, now)
      ensures Behind(bufSize, before, Pushed(now, idx, n))
    {
      assert Pushed(now, idx, n)[bufSize..] == now[bufSize..];
    }

    static lemma FilledBehind(p: Path, q: Path, rest: Path, idx: int, bufSize: nat, before: seq<Byte>, now: seq<Byte>)
      requires q != [] && Filled(p, q, rest, idx, bufSize, before, now)
      ensures idx <= |Last(q)| ==> |Suffix(p)| + 2 > bufSize
      ensures Behind(bufSize, before, now)
    {
      SuffixLength(q, rest);
    }

    static lemma FilledEnd(p: Path, rest: Path, idx: int, bufSize: nat, before: seq<Byte>, now: seq<Byte>)
      requires Filled(p, [], rest, idx, bufSize, before, now) && p != []
      ensures idx >= 0 && rest == p && |Suffix(p)| + 2 <= bufSize && Filled(p, [], p, idx, bufSize, before, now)
    {
      assert [] + rest == rest;
    }

    static lemma FilledRange(p: Path, idx: int, bufSize: nat, before: seq<Byte>, now: seq<Byte>)
      requires Filled(p, [], p, idx, bufSize, before, now)
      ensures idx + 1 <= bufSize <= |now|
    {
    }

    /** Shifting the printed path to the front of the buffer. */
    static lemma FilledPrinted(p: Path, n: VfsNode, idx: nat, bufSize: nat, before: seq<Byte>, now: seq<Byte>, buf: seq<Byte>)
      requires n.inode != 0 && p != [] && n.isDir && |Suffix(p)| + 2 <= bufSize
      requires Filled(p, [], p, idx, bufSize, before, now) && idx + 1 <= bufSize <= |now|
      requires buf == now[idx + 1..bufSize] + now[bufSize - idx - 1..]
      ensures Printed(p, n, bufSize, 0, before, buf)
    {
      hide Suffix;
      var r := Suffix(p);
      assert now[idx + 1..bufSize] == r + [0];
      assert buf[..|r|] == r && buf[|r|] == 0;
      assert buf[bufSize..] == now[bufSize..];
    }

    static lemma NotPrinted(p: Path, n: VfsNode, bufSize: nat, before: seq<Byte>, buf: seq<Byte>)
      requires n.inode != 0 && p != [] && !(n.isDir && |Suffix(p)| + 2 <= bufSize) && Behind(bufSize, before, buf)
      ensures Printed(p, n, bufSize, -1, before, buf)
    {
    }

    static lemma UpIffDir(s: Fs, w: Paths, n: VfsNode)
      requires Sound(s, w) && NodeOk(s, w, n)
      ensures LookupNode(s, n, DOTDOT).Some? <==> n.isDir
    {
      if n.isDir {
        UpNode(s, w, n);
      }
    }

    static lemma Reassemble(q: Path, rest: Path)
      requires q != []
      ensures Front(q) + ([Last(q)] + rest) == q + rest
    {
    }

    static lemma RootPath(s: Fs, w: Paths)
      requires Sound(s, w)
      ensures 0 in w && w[0] == []
    {
    }

    static lemma NonRootPath(s: Fs, w: Paths, i: nat)
      requires Sound(s, w) && i in w && i != 0
      ensures w[i] != []
    {
    }

    static lemma SuffixLength(q: Path, rest: Path)
      ensures |Suffix(q + rest)| == |Suffix(q)| + |Suffix(rest)|
      ensures q != [] ==> |Suffix(q)| >= 1 + |Last(q)|
    {
      SuffixConcat(q, rest);
    }
  }
}
