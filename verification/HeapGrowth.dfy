/**
 The kernel heap growing by a page (mm/heap.cpp) in the page tables of the directory that
 happens to be current (mm/vmm.cpp).  The walk over the block headers faults in the heap
 tables it goes through; the table of the page to come need not be one of them.
 */
module HeapGrowth {
  import opened Machine
  import opened PagingSpec
  import H = HeapSpec

  /** The bytes one directory slot covers. */
  const SLOT := 0x40_0000

  // ---- the walk

  /** The addresses the walk reads when no block fits: is_free, size if it is set, next. */
  function Reads(bs: seq<H.Blk>): seq<nat> {
    if bs == [] then []
    else
      var b := bs[|bs| - 1];
      Reads(bs[..|bs| - 1]) + [b.addr + 4] + (if b.free then [b.addr] else []) + [b.addr + 8]
  }

  /** Each read falls into a header, no further than the next field of the last block, and
      that one is read too. */
  lemma {:induction false} ReadsInside(bs: seq<H.Blk>, end: nat, i: nat)
    requires H.Span(bs, end) && 0 < i <= |bs|
    ensures forall a {:trigger a in Reads(bs[..i])} :: a in Reads(bs[..i]) ==> H.HEAP_START <= a <= bs[i - 1].addr + 8
    ensures bs[i - 1].addr + 8 in Reads(bs[..i])
    decreases i
  {
    hide H.Span;
    H.Inside(bs, end, i - 1);
    assert bs[..i][..i - 1] == bs[..i - 1];
    if i > 1 {
      ReadsInside(bs, end, i - 1);
      H.Ordered(bs, i - 2, i - 1);
    }
  }

  /** A read in the current directory, with the page fault it may raise. */
  function Touch(m: seq<U32>, dir: nat, master: nat, a: nat): (r: seq<U32>)
    requires Physical(m) && dir < FRAMES && master < FRAMES
    ensures Physical(r)
  {
    if a / 4096 < FRAMES then Accessed(m, dir, master, a) else m
  }

  function Walk(m: seq<U32>, dir: nat, master: nat, addrs: seq<nat>): (r: seq<U32>)
    requires Physical(m) && dir < FRAMES && master < FRAMES
    ensures Physical(r)
  {
    if addrs == [] then m else Touch(Walk(m, dir, master, addrs[..|addrs| - 1]), dir, master, addrs[|addrs| - 1])
  }

  /** Every page of the heap is mapped in the master, which has no heap tables beyond. */
  ghost predicate Backed(m: seq<U32>, master: nat, end: nat)
    requires Physical(m) && master < FRAMES
  {
    && (forall q: nat {:trigger Look(m, master, q)} :: H.HEAP_START / 4096 <= q < end / 4096 && q < FRAMES ==> Look(m, master, q).Some?)
    && (forall i: nat {:trigger Word(m, master, i)} :: KERNEL_SLOT <= i < HEAP_END_SLOT && Present(Word(m, master, i)) ==> i * SLOT < end)
  }

  lemma BackedSlot(m: seq<U32>, master: nat, end: nat, slot: nat)
    requires Physical(m) && master < FRAMES && Backed(m, master, end) && end <= H.HEAP_MAX && end % 4096 == 0
    requires KERNEL_SLOT <= slot < HEAP_END_SLOT
    ensures Present(Word(m, master, slot)) <==> slot * SLOT < end
  {
    hide Word, Present;
    if slot * SLOT < end {
      assert Look(m, master, slot * 1024).Some?;
    }
  }

  /** Does one of the reads fall into the slot? */
  predicate Reaches(addrs: seq<nat>, slot: nat) {
    exists a :: a in addrs && a / SLOT == slot
  }

  /** The walk leaves the current directory with the heap tables it had and those it went
      through; the master and its look-ups stay as they are. */
  lemma {:induction false} WalkFacts(m: seq<U32>, l: Layout, dir: nat, end: nat, addrs: seq<nat>, slot: nat, q: nat)
    requires Sound(m, l) && Physical(m) && dir in l.dirs && dir < FRAMES && l.master < FRAMES && Backed(m, l.master, end)
    requires end <= H.HEAP_MAX && end % 4096 == 0 && forall a :: a in addrs ==> H.HEAP_START <= a < end
    requires KERNEL_SLOT <= slot < HEAP_END_SLOT && q < 1023 * 1024
    ensures var w := Walk(m, dir, l.master, addrs);
      && Sound(w, l) && Look(w, l.master, q) == Look(m, l.master, q)
      && (forall i {:trigger Word(w, l.master, i)} :: 0 <= i < 1024 ==> Word(w, l.master, i) == Word(m, l.master, i))
      && (Present(Word(w, dir, slot)) <==> Present(Word(m, dir, slot)) || Reaches(addrs, slot))
    decreases |addrs|
  {
    hide Word, Present, Sound, Look, Backed, Sync;
    if addrs != [] {
      var n := |addrs| - 1;
      var a := addrs[n];
      var w := Walk(m, dir, l.master, addrs[..n]);
      LastRead(addrs, slot);
      HeapSlot(a, end);
      ReadPage(a, end);
      WalkFacts(m, l, dir, end, addrs[..n], slot, q);
      WalkFacts(m, l, dir, end, addrs[..n], slot, a / 4096);
      BackedPage(m, l.master, end, a / 4096);
      TouchFacts(w, l, dir, a, slot, q);
    }
  }

  lemma LastRead(addrs: seq<nat>, slot: nat)
    requires addrs != []
    ensures var n := |addrs| - 1;
      && (forall a :: a in addrs[..n] ==> a in addrs) && addrs[n] in addrs
      && (Reaches(addrs, slot) <==> Reaches(addrs[..n], slot) || addrs[n] / SLOT == slot)
  {
    var n := |addrs| - 1;
    assert addrs == addrs[..n] + [addrs[n]];
    assert forall a :: a in addrs <==> a in addrs[..n] || a == addrs[n];
  }

  lemma HeapSlot(a: nat, end: nat)
    requires H.HEAP_START <= a < end <= H.HEAP_MAX
    ensures KERNEL_SLOT <= a / SLOT < HEAP_END_SLOT && a / SLOT * SLOT < end
  {
  }

  lemma BackedPage(m: seq<U32>, master: nat, end: nat, q: nat)
    requires Physical(m) && master < FRAMES && Backed(m, master, end) && H.HEAP_START / 4096 <= q < end / 4096 && q < FRAMES
    ensures Look(m, master, q).Some?
  {
  }

  lemma TouchFacts(m: seq<U32>, l: Layout, dir: nat, a: nat, slot: nat, q: nat)
    requires Sound(m, l) && Physical(m) && dir in l.dirs && dir < FRAMES && l.master < FRAMES
    requires KERNEL_SLOT <= a / SLOT < HEAP_END_SLOT && a / 4096 < FRAMES && Look(m, l.master, a / 4096).Some?
    requires KERNEL_SLOT <= slot < HEAP_END_SLOT && q < 1023 * 1024
    ensures var w := Touch(m, dir, l.master, a);
      && Sound(w, l) && Look(w, l.master, q) == Look(m, l.master, q)
      && (forall i {:trigger Word(w, l.master, i)} :: 0 <= i < 1024 ==> Word(w, l.master, i) == Word(m, l.master, i))
      && (Present(Word(w, dir, slot)) <==> Present(Word(m, dir, slot)) || a / SLOT == slot)
  {
    hide Word, Present, Sound, Look, Set;
    assert a / 4096 / 1024 == a / SLOT;
    MasterInUse(m, l);
    KernelShared(m, l, dir, l.master, a / 4096);
    SlotPresent(m, l.master, a / 4096);
    SlotPresent(m, dir, a / 4096);
    SyncsIff(m, l.master, a);
    if Look(m, dir, a / 4096) == None {
      var e := Word(m, l.master, a / SLOT);
      SyncSound(m, l, dir, a / SLOT);
      SyncLook(m, l, dir, a / SLOT, l.master, q);
      WordSet(m, dir, a / SLOT, e, dir, slot);
      forall i | 0 <= i < 1024
        ensures Word(Touch(m, dir, l.master, a), l.master, i) == Word(m, l.master, i)
      {
        WordSet(m, dir, a / SLOT, e, l.master, i);
      }
    }
  }

  /** Every header the walk reads is found where the master has it. */
  lemma ReadsServed(m: seq<U32>, l: Layout, dir: nat, end: nat, addrs: seq<nat>, a: nat)
    requires Sound(m, l) && Physical(m) && dir in l.dirs && dir < FRAMES && l.master < FRAMES && Backed(m, l.master, end)
    requires end <= H.HEAP_MAX && end % 4096 == 0 && forall b :: b in addrs ==> H.HEAP_START <= b < end
    requires a in addrs
    ensures a / 4096 < FRAMES && Look(m, l.master, a / 4096).Some?
    ensures Look(Walk(m, dir, l.master, addrs), dir, a / 4096) == Look(m, l.master, a / 4096)
  {
    hide Word, Present, Sound, Walk;
    var w := Walk(m, dir, l.master, addrs);
    HeapSlot(a, end);
    ReadPage(a, end);
    assert Reaches(addrs, a / SLOT);
    MasterInUse(m, l);
    WalkFacts(m, l, dir, end, addrs, a / SLOT, a / 4096);
    KernelShared(w, l, dir, l.master, a / 4096);
  }

  lemma ReadPage(a: nat, end: nat)
    requires H.HEAP_START <= a < end <= H.HEAP_MAX && end % 4096 == 0
    ensures H.HEAP_START / 4096 <= a / 4096 < end / 4096 && a / 4096 / 1024 == a / SLOT && a / 4096 < 1023 * 1024 < FRAMES
  {
  }

  // ---- growth

  /** The tables after kmalloc, finding no block that fits, mapped one more page to a frame;
      n is the frame a new table would get. */
  function GrowTables(m: seq<U32>, dir: nat, master: nat, bs: seq<H.Blk>, end: nat, e: U32, n: nat): (r: seq<U32>)
    requires Physical(m) && dir < FRAMES && master < FRAMES && n < FRAMES && end / 4096 < FRAMES
    ensures Physical(r)
  {
    MapPage(Walk(m, dir, master, Reads(bs)), dir, master, end / 4096, e, n)
  }

  /** The new page starts a table, or the directory has its table, or the last read of the
      walk goes through it. */
  predicate Covered(m: seq<U32>, dir: nat, bs: seq<H.Blk>, end: nat)
    requires Physical(m) && dir < FRAMES && bs != [] && end / SLOT < 1024
  {
    end % SLOT == 0 || Present(Word(m, dir, end / SLOT)) || (bs[|bs| - 1].addr + 8) / SLOT == end / SLOT
  }

  /** Room for one more page of a heap whose pages are mapped, in a sound system. */
  ghost predicate CanGrow(m: seq<U32>, l: Layout, dir: nat, bs: seq<H.Blk>, end: nat, e: U32, n: nat) {
    && Sound(m, l) && dir in l.dirs && Unused(l, n) && Present(e)
    && Physical(m) && dir < FRAMES && l.master < FRAMES && Backed(m, l.master, end)
    && H.Heap(bs, end) && end + PAGE_SIZE <= H.HEAP_MAX
  }

  lemma HeapEnd(bs: seq<H.Blk>, end: nat)
    requires H.Heap(bs, end) && end + PAGE_SIZE <= H.HEAP_MAX
    ensures H.Span(bs, end) && bs != [] && H.HEAP_START <= bs[|bs| - 1].addr && bs[|bs| - 1].addr + 8 < end
    ensures end % 4096 == 0 && KERNEL_SLOT <= end / SLOT < HEAP_END_SLOT && end / 4096 / 1024 == end / SLOT && end / 4096 < 1023 * 1024
    ensures end / 4096 % 1024 == 0 <==> end % SLOT == 0
  {
    hide H.Tiled, H.Coalesced;
    H.Inside(bs, end, |bs| - 1);
  }

  /** The tables the growing page finds. */
  lemma AfterWalk(m: seq<U32>, l: Layout, dir: nat, bs: seq<H.Blk>, end: nat, e: U32, n: nat, q: nat)
    requires CanGrow(m, l, dir, bs, end, e, n) && q < 1023 * 1024
    ensures end / SLOT < 1024 && bs != []
    ensures var w := Walk(m, dir, l.master, Reads(bs));
      && Sound(w, l) && Look(w, l.master, q) == Look(m, l.master, q)
      && (forall i {:trigger Word(w, l.master, i)} :: 0 <= i < 1024 ==> Word(w, l.master, i) == Word(m, l.master, i))
      && (Present(Word(w, dir, end / SLOT)) <==> Present(Word(m, dir, end / SLOT)) || (bs[|bs| - 1].addr + 8) / SLOT == end / SLOT)
  {
    hide Word, Present, Sound, Look, Backed, Walk, Reads, H.Heap, H.Span, Unused;
    HeapEnd(bs, end);
    ReadsInside(bs, end, |bs|);
    assert bs[..|bs|] == bs;
    WalkFacts(m, l, dir, end, Reads(bs), end / SLOT, q);
    assert Reaches(Reads(bs), end / SLOT) <==> (bs[|bs| - 1].addr + 8) / SLOT == end / SLOT;
  }

  /** When the table is ready, the growing page is the only change to the heap. */
  lemma ReadyGrows(m: seq<U32>, l: Layout, dir: nat, page: nat, e: U32, n: nat, q: nat, i: nat)
    requires CanMap(m, l, dir, page, n) && KERNEL_SLOT <= page / 1024 && Present(e) && q < 1023 * 1024 && i < 1024
    ensures dir < FRAMES && l.master < FRAMES
    ensures var t := MapPage(m, dir, l.master, page, e, n);
      && Sound(t, WithOwner(l, m, dir, page / 1024, n))
      && Look(t, l.master, q) == (if q == page then Some(e) else Look(m, l.master, q))
      && (i != page / 1024 ==> Word(t, l.master, i) == Word(m, l.master, i))
  {
    hide Word, WithTable, Set, FrameOf, Present, Sound, WithOwner, Look, NewTable, TableReady;
    var slot := page / 1024;
    IsPhysical(m, l);
    MasterInUse(m, l);
    SlotAt(m, l, dir, slot);
    MapSoundIff(m, l, dir, page, e, n);
    WithTableFacts(m, l, dir, page, n);
    SameDirs(l, m, dir, slot, n);
    var m1, l1 := WithTable(m, dir, l.master, slot, n), WithOwner(l, m, dir, slot, n);
    TableKind(m1, l1, dir, slot);
    WordSet(m1, FrameOf(Word(m1, dir, slot)), page % 1024, e, l.master, slot);
    WordSet(m1, FrameOf(Word(m1, dir, slot)), page % 1024, e, l.master, i);
    MasterHas(m, l, dir, page, n, i);
    MapLook(m, l, dir, page, e, n, l.master, q);
  }

  /** map_page leaves the master with the table, and changes no other slot of it. */
  lemma MasterHas(m: seq<U32>, l: Layout, dir: nat, page: nat, n: nat, i: nat)
    requires CanMap(m, l, dir, page, n) && KERNEL_SLOT <= page / 1024 && i < 1024
    ensures dir < FRAMES && l.master < FRAMES
    ensures var m1 := WithTable(m, dir, l.master, page / 1024, n);
      Present(Word(m1, l.master, page / 1024)) && (i != page / 1024 ==> Word(m1, l.master, i) == Word(m, l.master, i))
  {
    hide Word, FrameOf, Present, NewTable, Entry;
    MasterInUse(m, l);
    SlotAt(m, l, dir, page / 1024);
    SlotAt(m, l, l.master, i);
    EntryParts(n);
    if !Present(Word(m, dir, page / 1024)) {
      NewTableWord(m, dir, l.master, page / 1024, n, l.master, page / 1024);
      NewTableWord(m, dir, l.master, page / 1024, n, l.master, i);
    }
  }

  /** When it is not, the master's table for the slot is replaced by one without its first
      page, which the heap already had. */
  lemma UnreadyLoses(m: seq<U32>, l: Layout, dir: nat, page: nat, e: U32, n: nat)
    requires Sound(m, l) && dir in l.dirs && Unused(l, n) && KERNEL_SLOT <= page / 1024 < 1023 && page % 1024 != 0
    requires Physical(m) && dir < FRAMES && l.master < FRAMES && !Present(Word(m, dir, page / 1024))
    ensures Look(MapPage(m, dir, l.master, page, e, n), l.master, page / 1024 * 1024) == None
  {
    hide Word, FrameOf, Present, NewTable, Entry, Set;
    var slot := page / 1024;
    MasterInUse(m, l);
    SlotAt(m, l, dir, slot);
    SlotAt(m, l, l.master, slot);
    EntryParts(n);
    AbsentZero();
    var m1 := NewTable(m, dir, l.master, slot, n);
    NewTableWord(m, dir, l.master, slot, n, dir, slot);
    NewTableWord(m, dir, l.master, slot, n, l.master, slot);
    NewTableWord(m, dir, l.master, slot, n, n, 0);
    WordSet(m1, n, page % 1024, e, l.master, slot);
    WordSet(m1, n, page % 1024, e, n, 0);
  }

  /** kmalloc's growth keeps every page of the heap mapped, the new one included, exactly
      when the walk left no table of the master's unseen: the page starts a table, or the
      current directory had the table, or the last header's next field lies in it. */
  lemma GrowthBackedIff(m: seq<U32>, l: Layout, dir: nat, bs: seq<H.Blk>, end: nat, e: U32, n: nat)
    requires CanGrow(m, l, dir, bs, end, e, n)
    ensures n < FRAMES && end / 4096 < FRAMES && end / SLOT < 1024 && bs != []
    ensures Backed(GrowTables(m, dir, l.master, bs, end, e, n), l.master, end + PAGE_SIZE) <==> Covered(m, dir, bs, end)
  {
    hide Sound, H.Heap, Backed, Unused;
    HeapEnd(bs, end);
    UnusedFrame(l, n);
    if Covered(m, dir, bs, end) {
      GrowthKeeps(m, l, dir, bs, end, e, n);
    } else {
      GrowthLoses(m, l, dir, bs, end, e, n);
    }
  }

  lemma UnusedFrame(l: Layout, n: nat)
    requires Unused(l, n)
    ensures n < FRAMES
  {
  }

  /** Mapping the page at the end of the heap, with its table ready. */
  lemma MappedBacked(m: seq<U32>, l: Layout, dir: nat, end: nat, e: U32, n: nat)
    requires CanMap(m, l, dir, end / 4096, n) && Present(e)
    requires Physical(m) && l.master < FRAMES && Backed(m, l.master, end)
    requires end % 4096 == 0 && KERNEL_SLOT <= end / 4096 / 1024 && end + PAGE_SIZE <= H.HEAP_MAX
    ensures dir < FRAMES && Backed(MapPage(m, dir, l.master, end / 4096, e, n), l.master, end + PAGE_SIZE)
  {
    hide Word, Present, Sound, Look, MapPage, WithOwner, Unused, TableReady;
    var page := end / 4096;
    var t := MapPage(m, dir, l.master, page, e, n);
    forall q: nat | H.HEAP_START / 4096 <= q < (end + PAGE_SIZE) / 4096 && q < FRAMES
      ensures Look(t, l.master, q).Some?
    {
      ReadyGrows(m, l, dir, page, e, n, q, 0);
    }
    forall i: nat | KERNEL_SLOT <= i < HEAP_END_SLOT && Present(Word(t, l.master, i))
      ensures i * SLOT < end + PAGE_SIZE
    {
      ReadyGrows(m, l, dir, page, e, n, 0, i);
    }
  }

  /** Then the tables also stay sound. */
  lemma GrowthKeeps(m: seq<U32>, l: Layout, dir: nat, bs: seq<H.Blk>, end: nat, e: U32, n: nat)
    requires CanGrow(m, l, dir, bs, end, e, n) && end / SLOT < 1024 && bs != [] && Covered(m, dir, bs, end)
    ensures n < FRAMES && end / 4096 < FRAMES
    ensures Backed(GrowTables(m, dir, l.master, bs, end, e, n), l.master, end + PAGE_SIZE)
    ensures Sound(GrowTables(m, dir, l.master, bs, end, e, n), WithOwner(l, Walk(m, dir, l.master, Reads(bs)), dir, end / SLOT, n))
  {
    hide Word, Present, Sound, Look, Walk, Reads, H.Heap, H.Span, MapPage, WithOwner, Unused;
    HeapEnd(bs, end);
    UnusedFrame(l, n);
    var w := Walk(m, dir, l.master, Reads(bs));
    AfterWalk(m, l, dir, bs, end, e, n, 0);
    BackedSlot(m, l.master, end, end / SLOT);
    forall q: nat | H.HEAP_START / 4096 <= q < end / 4096
      ensures q < FRAMES && Look(w, l.master, q) == Look(m, l.master, q)
    {
      AfterWalk(m, l, dir, bs, end, e, n, q);
    }
    MappedBacked(w, l, dir, end, e, n);
    ReadyGrows(w, l, dir, end / 4096, e, n, 0, 0);
  }

  lemma GrowthLoses(m: seq<U32>, l: Layout, dir: nat, bs: seq<H.Blk>, end: nat, e: U32, n: nat)
    requires CanGrow(m, l, dir, bs, end, e, n) && end / SLOT < 1024 && bs != [] && !Covered(m, dir, bs, end)
    ensures n < FRAMES && end / 4096 < FRAMES
    ensures !Backed(GrowTables(m, dir, l.master, bs, end, e, n), l.master, end + PAGE_SIZE)
  {
    hide Word, Present, Sound, Look, Walk, Reads, H.Heap, H.Span, MapPage, Unused;
    HeapEnd(bs, end);
    UnusedFrame(l, n);
    AfterWalk(m, l, dir, bs, end, e, n, 0);
    UnreadyLoses(Walk(m, dir, l.master, Reads(bs)), l, dir, end / 4096, e, n);
    var q := end / 4096 / 1024 * 1024;
    assert H.HEAP_START / 4096 <= q < (end + PAGE_SIZE) / 4096;
  }

  /** The bad case is reached from any state whose heap ends where a table does, with a free
      block there: make a directory, let the heap grow by a page, switch.  The block grows
      on, so no header lies in the new table, and the next page loses the one before. */
  lemma GrowthCanFail(s: System, bs: seq<H.Blk>, end: nat, n: nat, e: U32, k: nat) returns (s1: System, s2: System, s3: System)
    requires SystemOk(s) && Physical(s.m) && s.cur == s.l.master < FRAMES && Backed(s.m, s.l.master, end)
    requires H.Heap(bs, end) && bs[|bs| - 1].free && end % SLOT == 0 && end + 2 * PAGE_SIZE <= H.HEAP_MAX
    requires Unused(s.l, n) && n < 1024 && Unused(s.l, k) && k != n && Present(e)
    ensures IsRun([s, s1, s2, s3], [NewDir(n), Map(end / 4096, e, k), Switch(n)]) && SystemOk(s3) && s3.cur == n < FRAMES
    ensures var bs', end' := H.Grow(bs, end), end + PAGE_SIZE;
      forall e': U32, k': nat | Unused(s3.l, k') && Present(e') ::
        CanGrow(s3.m, s3.l, n, bs', end', e', k') && k' < FRAMES && end' / 4096 < FRAMES
        && !Backed(GrowTables(s3.m, n, s3.l.master, bs', end', e', k'), s3.l.master, end' + PAGE_SIZE)
  {
    hide Word, Present, Sound, Look, Walk, Reads, H.Heap, H.Span, MapPage, NewDirectory, WithOwner, Unused, Backed, H.Grow, H.Good, H.Live;
    HeapEnd(bs, end);
    var bs', end' := H.Grow(bs, end), end + PAGE_SIZE;
    BackedSlot(s.m, s.l.master, end, end / SLOT);
    s1, s2, s3 := ReachesOutOfSync(s, n, end / 4096, e, k);
    GrowthRun(s, s1, s2, s3, end, n, e, k);
    GrownEnd(bs, end);
    HeapEnd(bs', end');
    forall e': U32, k': nat | Unused(s3.l, k') && Present(e')
      ensures CanGrow(s3.m, s3.l, n, bs', end', e', k') && k' < FRAMES && end' / 4096 < FRAMES
      ensures !Backed(GrowTables(s3.m, n, s3.l.master, bs', end', e', k'), s3.l.master, end' + PAGE_SIZE)
    {
      GrowthBackedIff(s3.m, s3.l, n, bs', end', e', k');
    }
  }

  /** The heap's pages over the three steps. */
  lemma GrowthRun(s: System, s1: System, s2: System, s3: System, end: nat, n: nat, e: U32, k: nat)
    requires SystemOk(s) && Physical(s.m) && s.cur == s.l.master < FRAMES && Backed(s.m, s.l.master, end) && Present(e)
    requires end % 4096 == 0 && KERNEL_SLOT <= end / 4096 / 1024 && end + PAGE_SIZE <= H.HEAP_MAX
    requires IsRun([s, s1, s2, s3], [NewDir(n), Map(end / 4096, e, k), Switch(n)])
    ensures SystemOk(s3) && Physical(s3.m) && n in s3.l.dirs && s3.l.master < FRAMES && Backed(s3.m, s3.l.master, end + PAGE_SIZE)
  {
    hide Word, Present, Sound, Look, MapPage, NewDirectory, WithOwner;
    MasterInUse(s.m, s.l);
    RunSteps(s, s1, s2, s3, NewDir(n), Map(end / 4096, e, k), Switch(n));
    StepSound(s, NewDir(n), s1);
    StepSound(s1, Map(end / 4096, e, k), s2);
    SameDirs(s1.l, s1.m, s1.cur, end / 4096 / 1024, k);
    forall q: nat | q < end / 4096
      ensures q < FRAMES && Look(s1.m, s.l.master, q) == Look(s.m, s.l.master, q)
    {
      NewDirectoryLook(s.m, s.l, n, s.l.master, q);
    }
    forall i: nat | i < 1024
      ensures Word(s1.m, s.l.master, i) == Word(s.m, s.l.master, i)
    {
      NewDirectoryWord(s.m, s.l.master, n, s.l.master, i);
    }
    MappedBacked(s1.m, s1.l, s1.cur, end, e, k);
  }

  lemma RunSteps(s: System, s1: System, s2: System, s3: System, a: Op, b: Op, c: Op)
    requires IsRun([s, s1, s2, s3], [a, b, c])
    ensures Step(s, a, s1) && Step(s1, b, s2) && Step(s2, c, s3)
  {
    hide Step;
    var states, ops := [s, s1, s2, s3], [a, b, c];
    assert Step(states[0], ops[0], states[1]) && Step(states[1], ops[1], states[2]) && Step(states[2], ops[2], states[3]);
  }

  /** A free last block is stretched: its header stays below the old end. */
  lemma GrownEnd(bs: seq<H.Blk>, end: nat)
    requires H.Heap(bs, end) && bs[|bs| - 1].free && end % SLOT == 0 && end + 2 * PAGE_SIZE <= H.HEAP_MAX
    ensures var bs', end' := H.Grow(bs, end), end + PAGE_SIZE;
      H.Heap(bs', end') && (bs'[|bs'| - 1].addr + 8) / SLOT != end' / SLOT && end' % SLOT != 0 && end' / SLOT == end / SLOT
  {
    hide H.Tiled, H.Coalesced, H.Live;
    H.GrowKeeps(bs, end);
    HeapEnd(bs, end);
  }
}
