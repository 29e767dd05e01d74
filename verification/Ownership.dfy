/**
 Who owns which data block.  SimpleFS keeps no free list: a block is free when no used
 inode names it, and every search rescans the whole table.
 */
module Ownership {
  import opened Machine
  import opened DiskFormat

  const LAST_BLOCK := DATA_START + INODE_COUNT * DIRECT_BLOCKS

  /** Every non-zero block number held by a used inode. */
  function UsedBlocks(t: Table): set<nat> {
    set i, j | 0 <= i < INODE_COUNT && 0 <= j < DIRECT_BLOCKS && t[i].Used() && t[i].blocks[j] != 0 :: t[i].blocks[j]
  }

  function From(u: set<nat>, c: nat): (r: set<nat>) {
    set b | b in u && c <= b
  }

  lemma FromShrinks(u: set<nat>, c: nat)
    requires c in u
    ensures From(u, c + 1) < From(u, c)
  {
    assert c in From(u, c) && c !in From(u, c + 1);
  }

  /** The first number at or after c outside u: what `for (; used(c); c++);` stops at. */
  function LeastFree(u: set<nat>, c: nat): (r: nat)
    ensures c <= r && r !in u
    ensures forall b :: c <= b < r ==> b in u
    decreases From(u, c)
  {
    if c in u then FromShrinks(u, c); LeastFree(u, c + 1) else c
  }

  lemma LeastFreeUnique(u: set<nat>, c: nat, r: nat)
    requires c <= r && r !in u && forall b :: c <= b < r ==> b in u
    ensures r == LeastFree(u, c)
  {
    assert c <= LeastFree(u, c) < r ==> LeastFree(u, c) in u;
  }

  // ---- the pigeonhole bound

  function Range(lo: nat, hi: nat): (s: set<nat>)
    requires lo <= hi
    ensures forall b :: b in s <==> lo <= b < hi
    ensures |s| == hi - lo
    decreases hi - lo
  {
    if lo == hi then {} else {lo} + Range(lo + 1, hi)
  }

  lemma SubsetSize(a: set<nat>, b: set<nat>)
    requires a <= b
    ensures |a| <= |b|
    decreases b
  {
    if b != {} {
      var x :| x in b;
      SubsetSize(a - {x}, b - {x});
      if x in a {
        assert a == (a - {x}) + {x};
      } else {
        assert a == a - {x};
      }
    }
  }

  /** The blocks of the first n inodes, flattened. */
  function Slots(t: Table, n: nat): (s: seq<nat>)
    requires n <= INODE_COUNT
    ensures |s| == n * DIRECT_BLOCKS
  {
    if n == 0 then [] else Slots(t, n - 1) + t[n - 1].blocks
  }

  lemma {:induction false} SlotIn(t: Table, n: nat, i: nat, j: nat)
    requires i < n <= INODE_COUNT && j < DIRECT_BLOCKS
    ensures t[i].blocks[j] in Slots(t, n)
  {
    if i < n - 1 {
      SlotIn(t, n - 1, i, j);
    } else {
      assert t[i].blocks[j] in t[i].blocks;
    }
  }

  function Elements(s: seq<nat>): (r: set<nat>)
    ensures forall x :: x in s <==> x in r
    ensures |r| <= |s|
  {
    if s == [] then {} else Elements(s[..|s| - 1]) + {s[|s| - 1]}
  }

  lemma UsedBlocksBound(t: Table)
    ensures |UsedBlocks(t)| <= INODE_COUNT * DIRECT_BLOCKS
  {
    var all := Elements(Slots(t, INODE_COUNT));
    forall b | b in UsedBlocks(t)
      ensures b in all
    {
      var i, j :| 0 <= i < INODE_COUNT && 0 <= j < DIRECT_BLOCKS && t[i].Used() && t[i].blocks[j] != 0 && t[i].blocks[j] == b;
      SlotIn(t, INODE_COUNT, i, j);
    }
    SubsetSize(UsedBlocks(t), all);
  }

  /** A search starting at c in any table stops after at most one probe per slot. */
  lemma LeastFreeBound(u: set<nat>, c: nat)
    ensures LeastFree(u, c) <= c + |u|
  {
    var r := LeastFree(u, c);
    SubsetSize(Range(c, r), u);
  }

  /** What find_free_data_block returns. */
  function FreeBlock(t: Table): (b: nat)
    ensures DATA_START <= b <= LAST_BLOCK
  {
    SearchBound(t);
    LeastFree(UsedBlocks(t), DATA_START)
  }

  lemma SearchBound(t: Table)
    ensures LeastFree(UsedBlocks(t), DATA_START) <= LAST_BLOCK
  {
    LeastFreeBound(UsedBlocks(t), DATA_START);
    UsedBlocksBound(t);
  }

  /** find_free_data_block has no upper limit in its loop, yet whatever the inode table
      holds it stops at the lowest free data block, inside the disk. */
  lemma SearchStaysOnDisk(t: Table)
    ensures DATA_START <= FreeBlock(t) <= DATA_START + 64 * 30 < TOTAL_SECTORS
    ensures forall i, j :: 0 <= i < INODE_COUNT && 0 <= j < DIRECT_BLOCKS && t[i].Used() ==> t[i].blocks[j] != FreeBlock(t)
    ensures forall b :: DATA_START <= b < FreeBlock(t) ==> b in UsedBlocks(t)
  {
    var r := FreeBlock(t);
    forall i, j | 0 <= i < INODE_COUNT && 0 <= j < DIRECT_BLOCKS && t[i].Used()
      ensures t[i].blocks[j] != r
    {
      assert t[i].blocks[j] == 0 || t[i].blocks[j] in UsedBlocks(t);
    }
  }

  // ---- the ownership invariant

  /** Sectors a file of this many bytes occupies. */
  function BlocksFor(size: nat): nat {
    (size + 511) / 512
  }

  /** Non-zero block numbers form a prefix of the slots. */
  predicate Prefix(bs: Blocks) {
    forall j :: 0 < j < DIRECT_BLOCKS && bs[j] != 0 ==> bs[j - 1] != 0
  }

  predicate InodeOk(x: Inode) {
    if !x.Used() then x.flags == 0 else
      && (x.flags == FLAG_FILE || x.flags == FLAG_DIR)
      && (forall j :: 0 <= j < DIRECT_BLOCKS ==> x.blocks[j] == 0 || DATA_START <= x.blocks[j] < TOTAL_SECTORS)
      && (if x.Dir() then forall j :: 1 <= j < DIRECT_BLOCKS ==> x.blocks[j] == 0
          else
            && Prefix(x.blocks)
            && BlocksFor(x.size) <= DIRECT_BLOCKS
            && forall j :: 0 <= j < BlocksFor(x.size) ==> x.blocks[j] != 0)
  }

  predicate Slot(i: nat, j: nat) {
    i < INODE_COUNT && j < DIRECT_BLOCKS
  }

  /** Two slots of used inodes never hold the same block. */
  predicate Apart(t: Table, i: nat, j: nat, k: nat, l: nat)
    requires Slot(i, j) && Slot(k, l)
  {
    t[i].Used() && t[k].Used() && t[i].blocks[j] != 0 && t[i].blocks[j] == t[k].blocks[l] ==> i == k && j == l
  }

  /** No block number occurs in two (inode, slot) positions. */
  ghost predicate Disjoint(t: Table) {
    forall i, j, k, l {:trigger Apart(t, i, j, k, l)} :: Slot(i, j) && Slot(k, l) ==> Apart(t, i, j, k, l)
  }

  ghost predicate Owned(t: Table) {
    && t[0].Used() && t[0].Dir() && t[0].blocks[0] == DATA_START
    && (forall i {:trigger InodeOk(t[i])} :: 0 <= i < INODE_COUNT ==> InodeOk(t[i]))
    && Disjoint(t)
  }

  /** Replacing an inode keeps ownership when the new inode is sound by itself and every
      block it gains was free. */
  lemma OwnedUpdate(t: Table, i: nat, x: Inode)
    requires Owned(t) && 0 < i < INODE_COUNT && InodeOk(x)
    requires x.Used() ==> forall j :: 0 <= j < DIRECT_BLOCKS && x.blocks[j] != 0 ==>
      (t[i].Used() && x.blocks[j] == t[i].blocks[j]) || x.blocks[j] !in UsedBlocks(t)
    requires x.Used() ==> forall j, l :: 0 <= j < l < DIRECT_BLOCKS && x.blocks[j] != 0 ==> x.blocks[j] != x.blocks[l]
    ensures Owned(t[i := x])
  {
    var t' := t[i := x];
    forall a: nat, j: nat, b: nat, l: nat | Slot(a, j) && Slot(b, l)
      ensures Apart(t', a, j, b, l)
    {
      assert Apart(t, a, j, b, l);
      assert t[a].Used() && t[a].blocks[j] != 0 ==> t[a].blocks[j] in UsedBlocks(t);
      assert t[b].Used() && t[b].blocks[l] != 0 ==> t[b].blocks[l] in UsedBlocks(t);
    }
    forall a | 0 <= a < INODE_COUNT
      ensures InodeOk(t'[a])
    {
      assert a != i ==> InodeOk(t[a]);
    }
  }

  /** What taking one more block does to the set of used blocks. */
  lemma UsedBlocksGain(t: Table, i: nat, j: nat, b: U32)
    requires i < INODE_COUNT && j < DIRECT_BLOCKS && t[i].Used() && t[i].blocks[j] == 0 && b != 0
    ensures UsedBlocks(t[i := t[i].(blocks := t[i].blocks[j := b])]) == UsedBlocks(t) + {b}
  {
    var t' := t[i := t[i].(blocks := t[i].blocks[j := b])];
    forall x | x in UsedBlocks(t')
      ensures x in UsedBlocks(t) + {b}
    {
      var k, l :| 0 <= k < INODE_COUNT && 0 <= l < DIRECT_BLOCKS && t'[k].Used() && t'[k].blocks[l] != 0 && t'[k].blocks[l] == x;
      if k != i || l != j {
        assert t[k].blocks[l] == x;
      }
    }
    forall x | x in UsedBlocks(t) + {b}
      ensures x in UsedBlocks(t')
    {
      if x in UsedBlocks(t) {
        var k, l :| 0 <= k < INODE_COUNT && 0 <= l < DIRECT_BLOCKS && t[k].Used() && t[k].blocks[l] != 0 && t[k].blocks[l] == x;
        assert t'[k].blocks[l] == x;
      } else {
        assert t'[i].blocks[j] == b;
      }
    }
  }

  /** The lowest unused inode number, or 64 when the table is full. */
  function FreeInode(t: Table, from: nat): (i: nat)
    requires from <= INODE_COUNT
    ensures from <= i <= INODE_COUNT
    ensures i < INODE_COUNT ==> !t[i].Used()
    ensures forall k :: from <= k < i ==> t[k].Used()
    decreases INODE_COUNT - from
  {
    if from == INODE_COUNT || !t[from].Used() then from else FreeInode(t, from + 1)
  }
}
