/**
 Paths as byte strings: splitting, printing, and resolving them node by node.
 */
module PathSpec {
  import opened Machine
  import opened DiskFormat
  import opened Ownership
  import opened Namespace
  import opened FsSpec
  import opened Consistency
  import opened Creation
  import opened FileData

  const SLASH: Byte := 47

  // ---- splitting and joining

  /** Cut at every '/'; neighbouring slashes leave empty pieces. */
  function Split(s: seq<Byte>): (ts: Path)
    ensures ts != []
  {
    if s == [] then [[]]
    else
      var r := Split(s[1..]);
      if s[0] == SLASH then [[]] + r else [[s[0]] + r[0]] + r[1..]
  }

  function Join(ts: Path): seq<Byte>
    requires ts != []
  {
    if |ts| == 1 then ts[0] else ts[0] + [SLASH] + Join(ts[1..])
  }

  predicate SlashFreeName(n: seq<Byte>) {
    SLASH !in n
  }

  predicate SlashFree(p: Path) {
    forall k :: 0 <= k < |p| ==> SlashFreeName(p[k])
  }

  /** Split and Join are inverse to each other. */
  lemma {:induction false} SplitJoin(s: seq<Byte>)
    ensures Join(Split(s)) == s && SlashFree(Split(s))
  {
    if s != [] {
      SplitJoin(s[1..]);
      var r := Split(s[1..]);
      if s[0] == SLASH {
        assert ([[]] + r)[1..] == r;
        assert [] + [SLASH] + Join(r) == s;
      } else {
        var t := [[s[0]] + r[0]] + r[1..];
        assert SlashFreeName(r[0]);
        assert t[1..] == r[1..];
        if |r| > 1 {
          assert Join(t) == [s[0]] + (r[0] + [SLASH] + Join(r[1..]));
        }
        assert Join(t) == [s[0]] + Join(r);
        forall k | 0 <= k < |t|
          ensures SlashFreeName(t[k])
        {
          assert k > 0 ==> t[k] == r[k];
        }
      }
    }
  }

  function DropEmpty(ts: Path): (r: Path)
    ensures forall k :: 0 <= k < |r| ==> r[k] != []
    ensures SlashFree(ts) ==> SlashFree(r)
  {
    if ts == [] then [] else (if ts[0] == [] then [] else [ts[0]]) + DropEmpty(ts[1..])
  }

  lemma Assoc<T>(a: seq<T>, b: seq<T>, c: seq<T>)
    ensures a + (b + c) == (a + b) + c
  {
  }

  /** The components of a path. */
  function Tokens(s: seq<Byte>): Path {
    DropEmpty(Split(s))
  }

  lemma {:induction false} DropEmptyConcat(a: Path, b: Path)
    ensures DropEmpty(a + b) == DropEmpty(a) + DropEmpty(b)
  {
    if a == [] {
      assert a + b == b;
    } else {
      var h: Path := if a[0] == [] then [] else [a[0]];
      DropEmptyConcat(a[1..], b);
      assert (a + b)[1..] == a[1..] + b && (a + b)[0] == a[0];
      Assoc(h, DropEmpty(a[1..]), DropEmpty(b));
    }
  }

  /** Splitting at a chosen '/' is splitting both sides. */
  lemma {:induction false} SplitConcat(a: seq<Byte>, b: seq<Byte>)
    ensures Split(a + [SLASH] + b) == Split(a) + Split(b)
  {
    var s := a + [SLASH] + b;
    var q := Split(b);
    if a == [] {
      assert s[1..] == b && s[0] == SLASH;
    } else {
      var r := Split(a[1..]);
      SplitConcat(a[1..], b);
      assert s[1..] == a[1..] + [SLASH] + b && s[0] == a[0];
      if a[0] == SLASH {
        Assoc([[]], r, q);
      } else {
        SplitJoinHead(a[0], r, q);
      }
    }
  }

  lemma SplitJoinHead(c: Byte, r: Path, q: Path)
    requires r != []
    ensures [[c] + (r + q)[0]] + (r + q)[1..] == ([[c] + r[0]] + r[1..]) + q
  {
    assert (r + q)[1..] == r[1..] + q;
  }

  lemma TokensConcat(a: seq<Byte>, b: seq<Byte>)
    ensures Tokens(a + [SLASH] + b) == Tokens(a) + Tokens(b)
  {
    SplitConcat(a, b);
    DropEmptyConcat(Split(a), Split(b));
  }

  lemma {:induction false} SplitPlain(n: seq<Byte>)
    requires SlashFreeName(n)
    ensures Split(n) == [n]
  {
    if n != [] {
      assert n[0] in n;
      forall x | x in n[1..]
        ensures x in n
      {
      }
      SplitPlain(n[1..]);
      assert [n[0]] + n[1..] == n;
    }
  }

  lemma TokensPlain(n: seq<Byte>)
    requires SlashFreeName(n)
    ensures Tokens(n) == if n == [] then [] else [n]
  {
    SplitPlain(n);
    var ts: Path := [n];
    var h: Path := if n == [] then [] else [n];
    assert ts[1..] == [] && DropEmpty(ts[1..]) == [];
    assert DropEmpty(ts) == h + DropEmpty(ts[1..]);
  }

  // ---- printing

  /** Every component preceded by '/'. */
  function Suffix(p: Path): seq<Byte> {
    if p == [] then [] else Suffix(Front(p)) + [SLASH] + Last(p)
  }

  /** What vfs_get_path prints for the directory at p. */
  function Render(p: Path): seq<Byte> {
    if p == [] then [SLASH] else Suffix(p)
  }

  lemma {:induction false} SuffixConcat(p: Path, q: Path)
    ensures Suffix(p + q) == Suffix(p) + Suffix(q)
    decreases |q|
  {
    if q == [] {
      assert p + q == p;
    } else {
      assert Front(p + q) == p + Front(q) && Last(p + q) == Last(q);
      SuffixConcat(p, Front(q));
      Assoc(Suffix(p), Suffix(Front(q)), [SLASH]);
      Assoc(Suffix(p), Suffix(Front(q)) + [SLASH], Last(q));
    }
  }

  lemma {:induction false} SuffixJoin(p: Path)
    requires p != []
    ensures Suffix(p) == [SLASH] + Join(p)
    decreases |p|
  {
    var one: Path := [p[0]];
    assert Front(one) == [] && Suffix(one) == Suffix(Front(one)) + [SLASH] + Last(one);
    if |p| > 1 {
      assert p == one + p[1..];
      SuffixConcat(one, p[1..]);
      SuffixJoin(p[1..]);
    }
  }

  /** Printed, a path is '/' and then its components with '/' between them. */
  lemma RenderJoin(p: Path)
    ensures Render(p) == [SLASH] + if p == [] then [] else Join(p)
  {
    if p != [] {
      SuffixJoin(p);
    }
  }

  predicate NonEmptyNames(p: Path) {
    forall k :: 0 <= k < |p| ==> p[k] != []
  }

  lemma {:induction false} TokensOfSuffix(p: Path)
    requires NonEmptyNames(p) && SlashFree(p)
    ensures Tokens(Suffix(p)) == p
    decreases |p|
  {
    if p == [] {
      TokensPlain([]);
    } else {
      TokensOfSuffix(Front(p));
      TokensConcat(Suffix(Front(p)), Last(p));
      TokensPlain(Last(p));
      assert Front(p) + [Last(p)] == p;
    }
  }

  /** Printing a path and splitting it again gives the path back exactly when no component
      contains a '/'. */
  lemma PrintSplitIff(p: Path)
    requires NonEmptyNames(p)
    ensures Tokens(Render(p)) == p <==> SlashFree(p)
  {
    SplitJoin(Render(p));
    if SlashFree(p) {
      if p == [] {
        assert [SLASH] == [] + [SLASH] + [];
        TokensConcat([], []);
        TokensPlain([]);
      } else {
        TokensOfSuffix(p);
      }
    }
  }

  // ---- nodes and resolution

  datatype VfsNode = VfsNode(name: Name, isDir: bool, size: nat, inode: nat, parent: nat)

  /** A node obtained from the mounted tree. */
  ghost predicate NodeOk(fs: Fs, w: Paths, n: VfsNode) {
    n.inode in w && n.inode < INODE_COUNT && HasBlock(fs, n.inode) && n.isDir == fs.table[n.inode].Dir()
  }

  function NodeAt(fs: Fs, name: Name, i: nat, parent: nat): VfsNode
    requires i < INODE_COUNT
  {
    VfsNode(name, fs.table[i].Dir(), fs.table[i].size, i, parent)
  }

  /** vfs_lookup. */
  function LookupNode(fs: Fs, n: VfsNode, name: Name): Option<VfsNode> {
    if !n.isDir || n.inode >= INODE_COUNT then None
    else if name == DOT then Some(n)
    else match Lookup(ViewOf(fs), n.inode, name)
      case None => None
      case Some(i) => if i < INODE_COUNT then Some(NodeAt(fs, name, i, n.inode)) else None
  }

  /** Look up the components one after the other. */
  function Walk(fs: Fs, n: VfsNode, ts: Path): Option<VfsNode>
    decreases |ts|
  {
    if ts == [] then Some(n)
    else match LookupNode(fs, n, ts[0])
      case None => None
      case Some(m) => Walk(fs, m, ts[1..])
  }

  /** What vfs_resolve_path answers. */
  function ResolvePath(fs: Fs, root: VfsNode, cwd: VfsNode, path: seq<Byte>): Option<VfsNode> {
    Walk(fs, if path != [] && path[0] == SLASH then root else cwd, Tokens(path))
  }

  lemma LookupNodeOk(fs: Fs, w: Paths, n: VfsNode, name: Name)
    requires Sound(fs, w) && NodeOk(fs, w, n)
    ensures var r := LookupNode(fs, n, name); r.Some? ==> NodeOk(fs, w, r.value)
  {
    hide Sound, ViewOf, Lookup;
    SoundLeads(fs, w, n.inode, name);
    var r := Lookup(ViewOf(fs), n.inode, name);
    if r.Some? {
      SoundDir(fs, w, r.value);
    }
  }

  /** A look-up finds what the directory lists under the name, and notes where. */
  lemma LookupNodeIs(fs: Fs, w: Paths, n: VfsNode, name: Name)
    requires Sound(fs, w) && NodeOk(fs, w, n)
    ensures n.inode < INODE_COUNT
    ensures LookupNode(fs, n, name).Some? <==> n.isDir && (name == DOT || Lookup(ViewOf(fs), n.inode, name).Some?)
    ensures n.isDir && name == DOT ==> LookupNode(fs, n, name) == Some(n)
    ensures n.isDir && name != DOT && Lookup(ViewOf(fs), n.inode, name).Some? ==>
      var i := Lookup(ViewOf(fs), n.inode, name).value;
      i < INODE_COUNT && LookupNode(fs, n, name) == Some(VfsNode(name, fs.table[i].Dir(), fs.table[i].size, i, n.inode))
  {
    hide Sound, ViewOf, Lookup;
    SoundLeads(fs, w, n.inode, name);
  }

  /** A file's node: its directory lists it under its name, and its size is right.  Writes
      and reads of the file go by directory and name. */
  ghost predicate FileAt(fs: Fs, w: Paths, n: VfsNode) {
    NamedFile(fs, w, n) && n.size == fs.table[n.inode].size
  }

  /** The same, but for the size, which a node keeps when another one is written through. */
  ghost predicate NamedFile(fs: Fs, w: Paths, n: VfsNode) {
    && NodeOk(fs, w, n) && !n.isDir && n.parent in w && n.parent < INODE_COUNT && HasBlock(fs, n.parent)
    && Lookup(ViewOf(fs), n.parent, n.name) == Some(n.inode)
  }

  lemma LookupGivesFile(fs: Fs, w: Paths, n: VfsNode, name: Name)
    requires Sound(fs, w) && NodeOk(fs, w, n)
    ensures var r := LookupNode(fs, n, name); r.Some? && !r.value.isDir ==> FileAt(fs, w, r.value)
  {
    hide Sound, ViewOf, Lookup, LookupNode, HasBlock;
    LookupNodeIs(fs, w, n, name);
    LookupNodeOk(fs, w, n, name);
  }

  /** What a path resolves to is a directory or a file's node of that kind. */
  lemma {:induction false} WalkGivesFile(fs: Fs, w: Paths, n: VfsNode, ts: Path)
    requires Sound(fs, w) && NodeOk(fs, w, n) && n.isDir
    ensures var r := Walk(fs, n, ts); r.Some? ==> NodeOk(fs, w, r.value) && (!r.value.isDir ==> FileAt(fs, w, r.value))
    decreases |ts|
  {
    hide Sound, LookupNode, FileAt, NodeOk;
    if ts != [] {
      var r := LookupNode(fs, n, ts[0]);
      LookupNodeOk(fs, w, n, ts[0]);
      LookupGivesFile(fs, w, n, ts[0]);
      if r.Some? {
        if r.value.isDir {
          WalkGivesFile(fs, w, r.value, ts[1..]);
        } else {
          FileIsLast(fs, r.value, ts[1..]);
        }
      }
    }
  }

  lemma FileIsLast(fs: Fs, n: VfsNode, ts: Path)
    requires !n.isDir
    ensures Walk(fs, n, ts) == if ts == [] then Some(n) else None
  {
  }

  // ---- paths across a write

  /** What a node becomes when file f gets this size. */
  function Resized(r: Option<VfsNode>, f: nat, size: nat): Option<VfsNode> {
    if r.Some? && !r.value.isDir && r.value.inode == f then Some(r.value.(size := size)) else r
  }

  lemma LookupAfterWrite(fs: Fs, m: Fs, w: Paths, f: nat, data: seq<Byte>, n: VfsNode, name: Name)
    requires Sound(fs, w) && LiveFile(fs, w, f) && Written(fs, m, w, f, data) && NodeOk(fs, w, n) && n.isDir
    ensures LookupNode(m, n, name) == Resized(LookupNode(fs, n, name), f, |data|)
  {
    hide ViewOf, Lookup, Sound, SameNode;
    SameTreeView(fs, m, w, f);
    SoundLeads(fs, w, n.inode, name);
    SoundLeads(m, w, n.inode, name);
    SameRows(fs, m, w, f, n.inode);
    var r := Lookup(ViewOf(fs), n.inode, name);
    assert Lookup(ViewOf(m), n.inode, name) == r by { SameLookup(ViewOf(fs), ViewOf(m), n.inode, name); }
    if r.Some? {
      SameRows(fs, m, w, f, r.value);
    }
  }

  lemma SameLookup(v: View, v': View, i: nat, name: Name)
    requires i < INODE_COUNT && v'[i] == v[i]
    ensures Lookup(v', i, name) == Lookup(v, i, name)
  {
  }

  lemma SameRows(fs: Fs, m: Fs, w: Paths, f: nat, i: nat)
    requires f < INODE_COUNT && SameTree(fs, m, w - {f}) && i in w && i < INODE_COUNT
    ensures i != f ==> m.table[i] == fs.table[i]
  {
    assert i != f ==> SameNode(fs, m, i);
  }

  lemma {:induction false} WalkAfterWrite(fs: Fs, m: Fs, w: Paths, f: nat, data: seq<Byte>, n: VfsNode, ts: Path)
    requires Sound(fs, w) && LiveFile(fs, w, f) && Written(fs, m, w, f, data) && NodeOk(fs, w, n) && n.isDir
    ensures Walk(m, n, ts) == Resized(Walk(fs, n, ts), f, |data|)
    decreases |ts|
  {
    hide Sound, LookupNode, NodeOk, Written, LiveFile;
    if ts != [] {
      LookupAfterWrite(fs, m, w, f, data, n, ts[0]);
      LookupNodeOk(fs, w, n, ts[0]);
      var r := LookupNode(fs, n, ts[0]);
      if r.Some? {
        if r.value.isDir {
          WalkAfterWrite(fs, m, w, f, data, r.value, ts[1..]);
        } else {
          FileIsLast(fs, r.value, ts[1..]);
          FileIsLast(m, LookupNode(m, n, ts[0]).value, ts[1..]);
        }
      }
    }
  }

  /** From path to bytes: whatever file a path leads to, writing through the node found and
      resolving the path again gives that node with the new size, and reading through it
      gives the data back; every other path leads where it led. */
  lemma ResolveWriteRead(fs: Fs, w: Paths, root: VfsNode, cwd: VfsNode, path: seq<Byte>, data: seq<Byte>, limit: nat, other: seq<Byte>)
    requires Sound(fs, w) && NodeOk(fs, w, root) && root.isDir && NodeOk(fs, w, cwd) && cwd.isDir
    requires ResolvePath(fs, root, cwd, path).Some? && !ResolvePath(fs, root, cwd, path).value.isDir && |data| <= 15360
    ensures var n := ResolvePath(fs, root, cwd, path).value;
      n.inode < INODE_COUNT && n.parent < INODE_COUNT && LeadsToUsed(fs, n.parent, n.name) &&
      var r := WriteOp(fs, n.parent, n.name, data);
      r.code == 0 && AllOk(r.es) &&
      var m := DoAll(fs, r.es);
      && Written(fs, m, w, n.inode, data)
      && ResolvePath(m, root, cwd, path) == Some(n.(size := |data|))
      && LeadsToUsed(m, n.parent, n.name) && ReadOp(m, n.parent, n.name, limit) == Some(data[..Least(limit, |data|)])
      && ResolvePath(m, root, cwd, other) == Resized(ResolvePath(fs, root, cwd, other), n.inode, |data|)
  {
    hide Sound, Written, WriteOp, ReadOp, LeadsToUsed, Tokens, Walk, Lookup, ViewOf;
    var n := ResolvePath(fs, root, cwd, path).value;
    WalkGivesFile(fs, w, if path != [] && path[0] == SLASH then root else cwd, Tokens(path));
    SoundDir(fs, w, n.inode);
    SoundLeads(fs, w, n.parent, n.name);
    FileLive(fs, w, n);
    WriteStoredIff(fs, w, n.parent, n.name, data, n.inode);
    WriteReadRoundTrip(fs, w, n.parent, n.name, data, n.inode, limit);
    var m := DoAll(fs, WriteOp(fs, n.parent, n.name, data).es);
    WalkAfterWrite(fs, m, w, n.inode, data, if path != [] && path[0] == SLASH then root else cwd, Tokens(path));
    WalkAfterWrite(fs, m, w, n.inode, data, if other != [] && other[0] == SLASH then root else cwd, Tokens(other));
  }

  lemma FileLive(fs: Fs, w: Paths, n: VfsNode)
    requires Sound(fs, w) && NodeOk(fs, w, n) && !n.isDir
    ensures LiveFile(fs, w, n.inode)
  {
    hide Sound;
    SoundDir(fs, w, n.inode);
  }

  lemma {:induction false} WalkConcat(fs: Fs, n: VfsNode, a: Path, b: Path)
    ensures Walk(fs, n, a + b) == match Walk(fs, n, a) case None => None case Some(m) => Walk(fs, m, b)
    decreases |a|
  {
    hide LookupNode;
    if a == [] {
      assert a + b == b;
    } else {
      assert (a + b)[1..] == a[1..] + b;
      var m := LookupNode(fs, n, a[0]);
      if m.Some? {
        WalkConcat(fs, m.value, a[1..], b);
      }
    }
  }

  /** Resolving a + "/" + b is resolving b from wherever a leads; when b does not itself
      start with '/', that is resolving b with that node as current directory.  Only the
      empty a is different: "/" + b starts at the root. */
  lemma ResolveConcat(fs: Fs, root: VfsNode, cwd: VfsNode, a: seq<Byte>, b: seq<Byte>)
    ensures a != [] ==>
      (ResolvePath(fs, root, cwd, a + [SLASH] + b) ==
       match ResolvePath(fs, root, cwd, a) case None => None case Some(n) => Walk(fs, n, Tokens(b)))
    ensures a != [] && ResolvePath(fs, root, cwd, a).Some? && (b == [] || b[0] != SLASH) ==>
      ResolvePath(fs, root, cwd, a + [SLASH] + b) == ResolvePath(fs, root, ResolvePath(fs, root, cwd, a).value, b)
    ensures a == [] ==> ResolvePath(fs, root, cwd, a + [SLASH] + b) == Walk(fs, root, Tokens(b))
  {
    hide LookupNode;
    TokensConcat(a, b);
    if a != [] {
      assert (a + [SLASH] + b)[0] == a[0];
      WalkConcat(fs, if a[0] == SLASH then root else cwd, Tokens(a), Tokens(b));
    } else {
      TokensPlain([]);
      assert [] + Tokens(b) == Tokens(b);
    }
  }

  // ---- "." and ".."

  /** Same inode, same kind: all that later steps depend on. */
  predicate SameTarget(n: VfsNode, m: VfsNode) {
    n.inode == m.inode && n.isDir == m.isDir
  }

  predicate SameAnswer(r: Option<VfsNode>, s: Option<VfsNode>) {
    (r.None? && s.None?) || (r.Some? && s.Some? && SameTarget(r.value, s.value))
  }

  lemma {:induction false} WalkSame(fs: Fs, n: VfsNode, m: VfsNode, ts: Path)
    requires SameTarget(n, m)
    ensures SameAnswer(Walk(fs, n, ts), Walk(fs, m, ts))
    decreases |ts|
  {
    hide Lookup, ViewOf;
    if ts != [] {
      var r, s := LookupNode(fs, n, ts[0]), LookupNode(fs, m, ts[0]);
      if r.Some? {
        WalkSame(fs, r.value, s.value, ts[1..]);
      }
    }
  }

  /** A "." taken at a directory can be removed anywhere in a path. */
  lemma RemoveDot(fs: Fs, n: VfsNode, a: Path, b: Path)
    requires Walk(fs, n, a).Some? && Walk(fs, n, a).value.isDir && Walk(fs, n, a).value.inode < INODE_COUNT
    ensures Walk(fs, n, a + [DOT] + b) == Walk(fs, n, a + b)
  {
    hide Lookup, ViewOf;
    var d := Walk(fs, n, a).value;
    assert a + [DOT] + b == a + ([DOT] + b);
    WalkConcat(fs, n, a, [DOT] + b);
    WalkConcat(fs, n, a, b);
    assert ([DOT] + b)[1..] == b;
  }

  /** ".." leads back from a child directory to the directory it was found in. */
  lemma UpFromChild(fs: Fs, w: Paths, d: VfsNode, x: Name)
    requires Sound(fs, w) && NodeOk(fs, w, d) && x != DOT && x != DOTDOT
    requires LookupNode(fs, d, x).Some? && LookupNode(fs, d, x).value.isDir
    ensures var up := LookupNode(fs, LookupNode(fs, d, x).value, DOTDOT);
      up.Some? && SameTarget(up.value, d)
  {
    hide GetEntry, Disjoint, InodeOk;
    var c := LookupNode(fs, d, x).value;
    var v := ViewOf(fs);
    ResolveStep(v, w, d.inode, x, c.inode);
    Snoc(w[d.inode], x, [], []);
    ParentIsDir(v, w, c.inode);
    assert DirOk(v[c.inode].list, c.inode, w);
    UniqueSlot(v[c.inode].list, c.inode, w, 1);
    assert v[c.inode].list[1].ino == d.inode;
  }

  /** An "x/.." pair, x an existing child directory, can be removed anywhere in a path. */
  lemma RemoveDotDot(fs: Fs, w: Paths, n: VfsNode, a: Path, x: Name, b: Path)
    requires Sound(fs, w) && Walk(fs, n, a).Some? && NodeOk(fs, w, Walk(fs, n, a).value) && x != DOT && x != DOTDOT
    requires LookupNode(fs, Walk(fs, n, a).value, x).Some? && LookupNode(fs, Walk(fs, n, a).value, x).value.isDir
    ensures SameAnswer(Walk(fs, n, a + [x, DOTDOT] + b), Walk(fs, n, a + b))
  {
    hide Sound, LookupNode;
    var d := Walk(fs, n, a).value;
    var c := LookupNode(fs, d, x).value;
    UpFromChild(fs, w, d, x);
    var t := [x, DOTDOT] + b;
    assert a + [x, DOTDOT] + b == a + t;
    WalkConcat(fs, n, a, t);
    WalkConcat(fs, n, a, b);
    assert t[1..] == [DOTDOT] + b && t[1..][1..] == b;
    assert Walk(fs, d, t) == Walk(fs, c, t[1..]);
    WalkSame(fs, LookupNode(fs, c, DOTDOT).value, d, b);
  }

  // ---- printer and parser

  lemma WalkDown(fs: Fs, w: Paths, root: VfsNode, p: Path, i: nat)
    requires Sound(fs, w) && root.inode == 0 && root.isDir && i in w && w[i] == p
    ensures Walk(fs, root, p).Some? && Walk(fs, root, p).value.inode == i
    ensures NodeOk(fs, w, Walk(fs, root, p).value)
    decreases |p|
  {
    hide Disjoint, InodeOk, GetEntry, FindSlot;
    var v := ViewOf(fs);
    SoundDir(fs, w, i);
    if i == 0 {
    } else {
      assert Listed(v, i, w);
      var a, k :| 0 <= a < INODE_COUNT && 2 <= k < ENTRIES && ListedIn(v, a, k, i, w);
      var n := v[a].list[k].name;
      Snoc(w[a], n, [], []);
      WalkDown(fs, w, root, w[a], a);
      ResolveStep(v, w, a, n, i);
      WalkConcat(fs, root, w[a], [n]);
      WalkLast(fs, Walk(fs, root, w[a]).value, n, i);
    }
  }

  lemma WalkLast(fs: Fs, d: VfsNode, n: Name, i: nat)
    requires d.isDir && d.inode < INODE_COUNT && i < INODE_COUNT && Kid(ViewOf(fs), d.inode, n) == Some(i)
    ensures Walk(fs, d, [n]) == Some(NodeAt(fs, n, i, d.inode))
  {
    hide ViewOf, Lookup;
    var ts: Path := [n];
    assert ts[1..] == [];
  }

  lemma NamesNonEmpty(v: View, w: Paths, i: nat)
    requires Tree(v, w) && i in w
    ensures NonEmptyNames(w[i])
    decreases |w[i]|
  {
    if i != 0 {
      assert Listed(v, i, w);
      var a, k :| 0 <= a < INODE_COUNT && 2 <= k < ENTRIES && ListedIn(v, a, k, i, w);
      NamesNonEmpty(v, w, a);
    }
  }

  /** One look-up by a slash-free name keeps to inodes whose recorded path is slash-free. */
  lemma LookupPlain(fs: Fs, w: Paths, n: VfsNode, name: Name)
    requires Sound(fs, w) && NodeOk(fs, w, n) && SlashFree(w[n.inode]) && SlashFreeName(name)
    ensures var r := LookupNode(fs, n, name); r.Some? ==> NodeOk(fs, w, r.value) && SlashFree(w[r.value.inode])
  {
    hide GetEntry, Disjoint, InodeOk, HasBlock;
    LookupNodeOk(fs, w, n, name);
    var v := ViewOf(fs);
    var r := Lookup(v, n.inode, name);
    if n.isDir && name != DOT && r.Some? {
      var k := FindSlot(v[n.inode].list, name, 0);
      assert DirOk(v[n.inode].list, n.inode, w);
      assert k >= 2 ==> KidOk(v[n.inode].list[k], n.inode, w);
    }
  }

  lemma {:induction false} WalkPlain(fs: Fs, w: Paths, n: VfsNode, ts: Path)
    requires Sound(fs, w) && NodeOk(fs, w, n) && SlashFree(w[n.inode]) && SlashFree(ts)
    ensures var r := Walk(fs, n, ts); r.Some? ==> NodeOk(fs, w, r.value) && SlashFree(w[r.value.inode])
    decreases |ts|
  {
    hide Sound, LookupNode, SlashFreeName, HasBlock;
    if ts != [] {
      LookupPlain(fs, w, n, ts[0]);
      var r := LookupNode(fs, n, ts[0]);
      if r.Some? {
        WalkPlain(fs, w, r.value, ts[1..]);
      }
    }
  }

  lemma {:induction false} DropEmptyPlain(ts: Path)
    requires SlashFree(ts)
    ensures SlashFree(DropEmpty(ts))
  {
    hide SlashFreeName;
    if ts != [] {
      DropEmptyPlain(ts[1..]);
    }
  }

  lemma RootPathEmpty(fs: Fs, w: Paths)
    requires Sound(fs, w)
    ensures 0 in w && w[0] == []
  {
  }

  /** The printed path of a reachable node resolves, from any current directory, to that
      node's inode exactly when no name on the way contains a '/'. */
  lemma PrintThenResolve(fs: Fs, w: Paths, root: VfsNode, cwd: VfsNode, i: nat)
    requires Sound(fs, w) && root.inode == 0 && root.isDir && NodeOk(fs, w, root) && i in w
    ensures var r := ResolvePath(fs, root, cwd, Render(w[i]));
      && (r.Some? && r.value.inode == i <==> SlashFree(w[i]))
      && (SlashFree(w[i]) ==> i < INODE_COUNT && r.value.isDir == fs.table[i].Dir())
  {
    hide Sound, LookupNode, HasBlock, SlashFreeName;
    RenderStartsWithSlash(w[i]);
    if SlashFree(w[i]) {
      NamesOf(fs, w, i);
      PrintSplitIff(w[i]);
      WalkDown(fs, w, root, w[i], i);
    } else {
      RootPathEmpty(fs, w);
      SplitJoin(Render(w[i]));
      DropEmptyPlain(Split(Render(w[i])));
      WalkPlain(fs, w, root, Tokens(Render(w[i])));
    }
  }

  lemma NamesOf(fs: Fs, w: Paths, i: nat)
    requires Sound(fs, w) && i in w
    ensures NonEmptyNames(w[i])
  {
    hide Tree, Owned, ViewOf;
    NamesNonEmpty(ViewOf(fs), w, i);
  }

  lemma {:induction false} RenderStartsWithSlash(p: Path)
    ensures Render(p) != [] && Render(p)[0] == SLASH
    decreases |p|
  {
    if p != [] {
      assert Suffix(p) == Suffix(Front(p)) + [SLASH] + Last(p);
      if Front(p) != [] {
        RenderStartsWithSlash(Front(p));
      } else {
        assert Suffix(Front(p)) == [];
      }
    }
  }
}
