/**
 The directory tree.  A directory is one block of sixteen entries, "." first and ".."
 second.  The tree reachable from the root is read off the disk as the set of paths that
 resolve; the invariant carries a map from each reachable inode to its one path.
 */
module Namespace {
  import opened Machine
  import opened DiskFormat
  import opened Ownership

  type Path = seq<Name>

  const DOT: Name := [46]
  const DOTDOT: Name := [46, 46]

  function Front(p: Path): Path
    requires p != []
  {
    p[..|p| - 1]
  }

  function Last(p: Path): Name
    requires p != []
  {
    p[|p| - 1]
  }

  // ---- lookup in one directory

  /** The first slot at or after k holding name, or 16. */
  function FindSlot(l: Listing, name: Name, k: nat): (r: nat)
    requires k <= ENTRIES
    ensures k <= r <= ENTRIES
    ensures r < ENTRIES ==> l[r].name == name && name != []
    ensures forall j :: k <= j < r ==> l[j].name == [] || l[j].name != name
    decreases ENTRIES - k
  {
    if k == ENTRIES || (l[k].name != [] && l[k].name == name) then k else FindSlot(l, name, k + 1)
  }

  /** The first slot at or after k without a name, or 16. */
  function EmptySlot(l: Listing, k: nat): (r: nat)
    requires k <= ENTRIES
    ensures k <= r <= ENTRIES
    ensures r < ENTRIES ==> l[r].name == []
    ensures forall j :: k <= j < r ==> l[j].name != []
    decreases ENTRIES - k
  {
    if k == ENTRIES || l[k].name == [] then k else EmptySlot(l, k + 1)
  }

  /** What the tree needs to know of one inode. */
  datatype Node = Free | File | Folder(list: Listing)

  type View = v: seq<Node> | |v| == INODE_COUNT witness seq(INODE_COUNT, i => Free)

  function Lookup(v: View, i: nat, name: Name): Option<nat>
    requires i < INODE_COUNT
  {
    if !v[i].Folder? then None
    else
      var k := FindSlot(v[i].list, name, 0);
      if k < ENTRIES then Some(v[i].list[k].ino) else None
  }

  predicate ProperName(name: Name) {
    0 < |name| < MAX_FILENAME && IsCName(name) && name != DOT && name != DOTDOT
  }

  // ---- the tree as the paths that resolve

  function Kid(v: View, i: nat, name: Name): Option<nat>
    requires i < INODE_COUNT
  {
    if name == DOT || name == DOTDOT then None else Lookup(v, i, name)
  }

  /** Follow child names down from the root. */
  function Resolve(v: View, p: Path): Option<nat>
    decreases |p|
  {
    if p == [] then Some(0)
    else match Resolve(v, Front(p))
      case None => None
      case Some(i) => if i < INODE_COUNT then Kid(v, i, Last(p)) else None
  }

  // ---- the tree invariant

  /** w gives every reachable inode its path. */
  type Paths = map<nat, Path>

  ghost predicate DirOk(l: Listing, i: nat, w: Paths)
    requires i in w && i < INODE_COUNT
  {
    && l[0] == DirEntry(i, DOT)
    && l[1].name == DOTDOT
    && l[1].ino in w && w[l[1].ino] == (if w[i] == [] then [] else Front(w[i]))
    && (forall j, k :: 0 <= j < k < ENTRIES && l[j].name != [] ==> l[j].name != l[k].name)
    && (forall k {:trigger KidOk(l[k], i, w)} :: 2 <= k < ENTRIES && l[k].name != [] ==> KidOk(l[k], i, w))
  }

  ghost predicate KidOk(e: DirEntry, i: nat, w: Paths)
    requires i in w
  {
    |e.name| < MAX_FILENAME && e.ino in w && e.ino != 0 && w[e.ino] == w[i] + [e.name]
  }

  ghost predicate ListedIn(v: View, p: nat, k: nat, c: nat, w: Paths)
    requires p < INODE_COUNT && k < ENTRIES && c in w
  {
    && p in w && v[p].Folder? && v[p].list[k].ino == c
    && v[p].list[k].name != [] && w[c] == w[p] + [v[p].list[k].name]
  }

  ghost predicate Listed(v: View, c: nat, w: Paths)
    requires c in w
  {
    exists p, k :: 0 <= p < INODE_COUNT && 2 <= k < ENTRIES && ListedIn(v, p, k, c, w)
  }

  ghost predicate Tree(v: View, w: Paths) {
    && 0 in w && w[0] == [] && v[0].Folder?
    && (forall i :: i in w ==> i < INODE_COUNT && v[i] != Free)
    && (forall i, j :: i in w && j in w && w[i] == w[j] ==> i == j)
    && (forall i {:trigger DirOk(v[i].list, i, w)} :: i in w && v[i].Folder? ==> DirOk(v[i].list, i, w))
    && (forall c {:trigger Listed(v, c, w)} :: c in w && c != 0 ==> Listed(v, c, w))
  }

  lemma Snoc(p: Path, n: Name, q: Path, m: Name)
    ensures Front(p + [n]) == p && Last(p + [n]) == n
    ensures p + [n] == q + [m] <==> p == q && n == m
  {
    assert (p + [n])[..|p|] == p;
    if p + [n] == q + [m] {
      assert q == (q + [m])[..|q|];
      assert (q + [m])[|q|] == m;
    }
  }

  lemma UniqueSlot(l: Listing, i: nat, w: Paths, k: nat)
    requires i in w && i < INODE_COUNT && DirOk(l, i, w) && k < ENTRIES && l[k].name != []
    ensures FindSlot(l, l[k].name, 0) == k
  {
    var r := FindSlot(l, l[k].name, 0);
    assert r <= k;
    assert l[r].name == l[k].name;
  }

  /** One step down: a name leads from directory a to i exactly when i's path extends a's. */
  lemma ResolveStep(v: View, w: Paths, a: nat, n: Name, i: nat)
    requires Tree(v, w) && a in w
    ensures Kid(v, a, n) == Some(i) <==> i in w && w[i] == w[a] + [n]
  {
    if Kid(v, a, n) == Some(i) {
      assert DirOk(v[a].list, a, w);
      assert KidOk(v[a].list[FindSlot(v[a].list, n, 0)], a, w);
    }
    if i in w && w[i] == w[a] + [n] {
      assert Listed(v, i, w);
      var b, k :| 0 <= b < INODE_COUNT && 2 <= k < ENTRIES && ListedIn(v, b, k, i, w);
      Snoc(w[a], n, w[b], v[b].list[k].name);
      assert DirOk(v[a].list, a, w);
      UniqueSlot(v[a].list, a, w, k);
    }
  }

  /** In a sound tree the paths that resolve are exactly the recorded ones, each to its
      own inode: no inode has two paths, so the reachable graph is a tree. */
  lemma {:induction false} ResolveIff(v: View, w: Paths, p: Path, i: nat)
    requires Tree(v, w)
    ensures Resolve(v, p) == Some(i) <==> i in w && w[i] == p
    decreases |p|
  {
    if p != [] {
      var q, n := Front(p), Last(p);
      assert p == q + [n];
      if i in w && w[i] == p {
        assert Listed(v, i, w);
        var a, k :| 0 <= a < INODE_COUNT && 2 <= k < ENTRIES && ListedIn(v, a, k, i, w);
        Snoc(q, n, w[a], v[a].list[k].name);
        ResolveIff(v, w, q, a);
        ResolveStep(v, w, a, n, i);
      } else if Resolve(v, q).Some? {
        ResolveIff(v, w, q, Resolve(v, q).value);
        ResolveStep(v, w, Resolve(v, q).value, n, i);
      }
    } else {
      assert i in w && w[i] == w[0] ==> i == 0;
    }
  }

  /** The recorded paths are a function of the view. */
  lemma PathsUnique(v: View, w: Paths, u: Paths)
    requires Tree(v, w) && Tree(v, u)
    ensures w == u
  {
    forall i | i in w
      ensures i in u && u[i] == w[i]
    {
      ResolveIff(v, w, w[i], i);
      ResolveIff(v, u, w[i], i);
    }
    forall i | i in u
      ensures i in w
    {
      ResolveIff(v, u, u[i], i);
      ResolveIff(v, w, u[i], i);
    }
  }

  /** The tree depends on reachable inodes only. */
  lemma TreeFrame(v: View, v': View, w: Paths)
    requires Tree(v, w)
    requires forall i :: i in w ==> v'[i] == v[i]
    ensures Tree(v', w)
  {
    forall i | i in w && v'[i].Folder?
      ensures DirOk(v'[i].list, i, w)
    {
      assert DirOk(v[i].list, i, w);
    }
    forall c | c in w && c != 0
      ensures Listed(v', c, w)
    {
      assert Listed(v, c, w);
      var p, k :| 0 <= p < INODE_COUNT && 2 <= k < ENTRIES && ListedIn(v, p, k, c, w);
      assert ListedIn(v', p, k, c, w);
    }
  }

  // ---- adding and removing one entry

  /** The listing mkdir writes into a new directory's block. */
  predicate FreshDir(l: Listing, self: nat, parent: nat) {
    && l[0].ino == self && l[0].name == DOT && l[1].ino == parent && l[1].name == DOTDOT
    && forall k :: 2 <= k < ENTRIES ==> l[k].name == []
  }

  ghost predicate AddedChild(v: View, v': View, w: Paths, a: nat, k: nat, c: nat, name: Name) {
    && a in w && a < INODE_COUNT && v[a].Folder? && k < ENTRIES && v[a].list[k].name == []
    && ProperName(name) && FindSlot(v[a].list, name, 0) == ENTRIES
    && c !in w && c < INODE_COUNT
    && (forall i :: i in w && i != a && i < INODE_COUNT ==> v'[i] == v[i])
    && v'[a] == Folder(v[a].list[k := DirEntry(c, name)])
    && v'[c] != Free && (v'[c].Folder? ==> FreshDir(v'[c].list, c, a))
  }

  lemma NewPathIsNew(v: View, w: Paths, a: nat, name: Name)
    requires Tree(v, w) && a in w && v[a].Folder?
    requires name != [] && FindSlot(v[a].list, name, 0) == ENTRIES
    ensures forall i :: i in w ==> w[i] != w[a] + [name]
  {
    forall i | i in w
      ensures w[i] != w[a] + [name]
    {
      if i != 0 {
        assert Listed(v, i, w);
        var p, k :| 0 <= p < INODE_COUNT && 2 <= k < ENTRIES && ListedIn(v, p, k, i, w);
        Snoc(w[a], name, w[p], v[p].list[k].name);
      }
    }
  }

  /** Recording one more path keeps a sound listing sound. */
  lemma DirOkGrows(l: Listing, i: nat, w: Paths, c: nat, p: Path)
    requires i in w && i < INODE_COUNT && DirOk(l, i, w) && c !in w
    ensures DirOk(l, i, w[c := p])
  {
    forall m | 2 <= m < ENTRIES && l[m].name != []
      ensures KidOk(l[m], i, w[c := p])
    {
      assert KidOk(l[m], i, w);
    }
  }

  lemma AddedListing(v: View, w: Paths, a: nat, k: nat, c: nat, name: Name)
    requires Tree(v, w) && a in w && a < INODE_COUNT && v[a].Folder? && 2 <= k < ENTRIES && v[a].list[k].name == []
    requires ProperName(name) && FindSlot(v[a].list, name, 0) == ENTRIES
    requires 0 < c < INODE_COUNT && c !in w
    ensures DirOk(v[a].list[k := DirEntry(c, name)], a, w[c := w[a] + [name]])
  {
    var u := w[c := w[a] + [name]];
    var l, l' := v[a].list, v[a].list[k := DirEntry(c, name)];
    assert DirOk(l, a, w);
    forall m | 2 <= m < ENTRIES && l'[m].name != []
      ensures KidOk(l'[m], a, u)
    {
      assert m != k ==> KidOk(l[m], a, w);
    }
  }

  lemma AddedDirOk(v: View, v': View, w: Paths, a: nat, k: nat, c: nat, name: Name, i: nat)
    requires Tree(v, w) && AddedChild(v, v', w, a, k, c, name) && k >= 2
    requires i in w[c := w[a] + [name]] && v'[i].Folder?
    ensures DirOk(v'[i].list, i, w[c := w[a] + [name]])
  {
    if i == a {
      AddedListing(v, w, a, k, c, name);
    } else if i == c {
      Snoc(w[a], name, [], []);
    } else {
      assert DirOk(v[i].list, i, w);
      DirOkGrows(v[i].list, i, w, c, w[a] + [name]);
    }
  }

  lemma AddedListed(v: View, v': View, w: Paths, a: nat, k: nat, c: nat, name: Name, b: nat)
    requires Tree(v, w) && AddedChild(v, v', w, a, k, c, name) && k >= 2
    requires b in w[c := w[a] + [name]] && b != 0
    ensures Listed(v', b, w[c := w[a] + [name]])
  {
    var u := w[c := w[a] + [name]];
    if b == c {
      assert ListedIn(v', a, k, c, u);
    } else {
      assert Listed(v, b, w);
      var p, m :| 0 <= p < INODE_COUNT && 2 <= m < ENTRIES && ListedIn(v, p, m, b, w);
      assert ListedIn(v', p, m, b, u);
    }
  }

  lemma AddedPaths(v: View, v': View, w: Paths, a: nat, k: nat, c: nat, name: Name)
    requires Tree(v, w) && AddedChild(v, v', w, a, k, c, name)
    requires forall i :: i in w ==> w[i] != w[a] + [name]
    ensures var u := w[c := w[a] + [name]];
      && 0 in u && u[0] == [] && v'[0].Folder?
      && (forall i :: i in u ==> i < INODE_COUNT && v'[i] != Free)
      && (forall i, j :: i in u && j in u && u[i] == u[j] ==> i == j)
  {
  }

  /** Naming a fresh inode in an empty slot of a reachable directory extends the tree by
      exactly that child. */
  lemma TreeAdd(v: View, v': View, w: Paths, a: nat, k: nat, c: nat, name: Name)
    requires Tree(v, w) && AddedChild(v, v', w, a, k, c, name)
    ensures Tree(v', w[c := w[a] + [name]])
  {
    var u := w[c := w[a] + [name]];
    NewPathIsNew(v, w, a, name);
    assert k >= 2 by {
      assert DirOk(v[a].list, a, w);
    }
    forall i | i in u && v'[i].Folder?
      ensures DirOk(v'[i].list, i, u)
    {
      AddedDirOk(v, v', w, a, k, c, name, i);
    }
    forall b | b in u && b != 0
      ensures Listed(v', b, u)
    {
      AddedListed(v, v', w, a, k, c, name, b);
    }
    AddedPaths(v, v', w, a, k, c, name);
  }

  ghost predicate RemovedChild(v: View, v': View, w: Paths, a: nat, k: nat, c: nat) {
    && a in w && a < INODE_COUNT && v[a].Folder? && 2 <= k < ENTRIES && v[a].list[k].name != [] && v[a].list[k].ino == c
    && c in w && c < INODE_COUNT && v[c] == File
    && (forall i :: i in w && i != a && i != c && i < INODE_COUNT ==> v'[i] == v[i])
    && v'[a] == Folder(v[a].list[k := DirEntry(0, [])])
  }

  /** Nothing but slot k of its parent names a reachable inode. */
  lemma OneListing(v: View, w: Paths, a: nat, k: nat, i: nat, m: nat)
    requires Tree(v, w) && a in w && i in w && v[a].Folder? && v[i].Folder?
    requires 2 <= k < ENTRIES && 2 <= m < ENTRIES && v[a].list[k].name != [] && v[i].list[m].name != []
    requires v[a].list[k].ino == v[i].list[m].ino
    ensures a == i && k == m
  {
    assert DirOk(v[a].list, a, w) && DirOk(v[i].list, i, w);
    assert KidOk(v[a].list[k], a, w) && KidOk(v[i].list[m], i, w);
    Snoc(w[a], v[a].list[k].name, w[i], v[i].list[m].name);
  }

  /** ".." of a reachable directory is the reachable directory that lists it. */
  lemma ParentIsDir(v: View, w: Paths, i: nat)
    requires Tree(v, w) && i in w && v[i].Folder?
    ensures v[i].list[1].ino in w && v[v[i].list[1].ino].Folder?
    ensures i != 0 ==> w[i] != [] && w[v[i].list[1].ino] == Front(w[i]) && Kid(v, v[i].list[1].ino, Last(w[i])) == Some(i)
  {
    assert DirOk(v[i].list, i, w);
    if i != 0 {
      assert Listed(v, i, w);
      var p, k :| 0 <= p < INODE_COUNT && 2 <= k < ENTRIES && ListedIn(v, p, k, i, w);
      Snoc(w[p], v[p].list[k].name, [], []);
      assert w[v[i].list[1].ino] == w[p];
      ResolveStep(v, w, p, Last(w[i]), i);
    } else {
      assert w[v[0].list[1].ino] == w[0];
    }
  }

  lemma RemovedDirOk(v: View, v': View, w: Paths, a: nat, k: nat, c: nat, i: nat)
    requires Tree(v, w) && RemovedChild(v, v', w, a, k, c) && i in w - {c} && v'[i].Folder?
    ensures DirOk(v'[i].list, i, w - {c})
  {
    assert DirOk(v[i].list, i, w);
    ParentIsDir(v, w, i);
    forall m | 2 <= m < ENTRIES && v'[i].list[m].name != []
      ensures KidOk(v'[i].list[m], i, w - {c})
    {
      assert KidOk(v[i].list[m], i, w);
      if v[i].list[m].ino == c {
        OneListing(v, w, a, k, i, m);
      }
    }
  }

  /** Erasing the entry of a plain file takes exactly that child out of the tree. */
  lemma TreeRemove(v: View, v': View, w: Paths, a: nat, k: nat, c: nat)
    requires Tree(v, w) && RemovedChild(v, v', w, a, k, c)
    ensures Tree(v', w - {c})
  {
    forall i | i in w - {c} && v'[i].Folder?
      ensures DirOk(v'[i].list, i, w - {c})
    {
      RemovedDirOk(v, v', w, a, k, c, i);
    }
    forall b | b in w - {c} && b != 0
      ensures Listed(v', b, w - {c})
    {
      assert Listed(v, b, w);
      var p, m :| 0 <= p < INODE_COUNT && 2 <= m < ENTRIES && ListedIn(v, p, m, b, w);
      assert ListedIn(v', p, m, b, w - {c});
    }
  }
}
