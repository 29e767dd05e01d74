/**
 mm/vmm.cpp.  After paging is on, directories and tables are only reached through virtual
 addresses, translated by the tables being edited.
 */
module Paging {
  import opened Machine
  import opened PagingSpec

  // ---- what the initial tables are

  /** The first n entries of the identity table. */
  function LowTable(m: seq<U32>, low: nat, n: nat): (r: seq<U32>)
    requires Physical(m) && low < FRAMES && n <= 1024
    ensures Physical(r)
  {
    if n == 0 then m else Set(LowTable(m, low, n - 1), low, n - 1, Entry((n - 1) * 4096, ALL_FLAGS))
  }

  lemma {:induction false} LowTableWord(m: seq<U32>, low: nat, n: nat, f: nat, i: nat)
    requires Physical(m) && low < FRAMES && n <= 1024 && f < FRAMES && i < 1024
    ensures Word(LowTable(m, low, n), f, i) == if f == low && i < n then Entry(i * 4096, ALL_FLAGS) else Word(m, f, i)
    decreases n
  {
    hide Word, Set, Entry;
    if n > 0 {
      LowTableWord(m, low, n - 1, f, i);
      WordSet(LowTable(m, low, n - 1), low, n - 1, Entry((n - 1) * 4096, ALL_FLAGS), f, i);
    }
  }

  function Initial(m: seq<U32>, master: nat, low: nat): (r: seq<U32>)
    requires Physical(m) && master < FRAMES && low < FRAMES
    ensures Physical(r)
  {
    var m1 := Set(Blank(m, master, 1024), master, 0, Entry(low * 4096, ALL_FLAGS));
    LowTable(Set(m1, master, 1023, Entry(master * 4096, RW_PRESENT)), low, 1024)
  }

  function FirstLayout(master: nat, low: nat): Layout {
    Layout({master}, master, low, map[])
  }

  lemma InitialWord(m: seq<U32>, master: nat, low: nat, i: nat)
    requires Physical(m) && master < 1024 && low < 1024 && master != low && i < 1024
    ensures Word(Initial(m, master, low), low, i) == Entry(i * 4096, ALL_FLAGS)
    ensures Word(Initial(m, master, low), master, i) ==
      if i == 0 then Entry(low * 4096, ALL_FLAGS) else if i == 1023 then Entry(master * 4096, RW_PRESENT) else 0
  {
    hide Word, Set, Entry, Blank, LowTable;
    var m0 := Blank(m, master, 1024);
    var m1 := Set(m0, master, 0, Entry(low * 4096, ALL_FLAGS));
    var m2 := Set(m1, master, 1023, Entry(master * 4096, RW_PRESENT));
    LowTableWord(m2, low, 1024, low, i);
    LowTableWord(m2, low, 1024, master, i);
    WordSet(m1, master, 1023, Entry(master * 4096, RW_PRESENT), master, i);
    WordSet(m0, master, 0, Entry(low * 4096, ALL_FLAGS), master, i);
    WordBlank(m, master, 1024, master, i);
  }

  /** Paging starts in a sound state with the first 4 MB mapped to themselves and nothing
      else outside the windows. */
  lemma InitialSound(m: seq<U32>, master: nat, low: nat)
    requires Physical(m) && master < 1024 && low < 1024 && master != low
    ensures Sound(Initial(m, master, low), FirstLayout(master, low))
  {
    hide Word, Entry, Initial, FrameOf, Present;
    var r, l := Initial(m, master, low), FirstLayout(master, low);
    AbsentZero();
    forall d, i | d in l.dirs && 0 <= i < 1024
      ensures SlotOk(r, l, d, i)
    {
      InitialWord(m, master, low, i);
    }
    forall i | 0 <= i < 1024
      ensures MapsTo(i, Word(r, low, i))
    {
      InitialWord(m, master, low, i);
      EntryParts(i);
    }
  }

  lemma InitialLook(m: seq<U32>, master: nat, low: nat, q: nat)
    requires Physical(m) && master < 1024 && low < 1024 && master != low && q < 1023 * 1024
    ensures Look(Initial(m, master, low), master, q) == if q < 1024 then Some(Entry(q * 4096, ALL_FLAGS)) else None
  {
    hide Word, Initial, FrameOf, Entry, Present;
    AbsentZero();
    InitialWord(m, master, low, q / 1024);
    InitialWord(m, master, low, q % 1024);
    EntryParts(low);
    EntryParts(q % 1024);
  }

  /** The current directory maps the first 4 MB to themselves. */
  ghost predicate LowMapped(m: seq<U32>, dir: nat, low: nat) {
    Physical(m) && dir < FRAMES && low < FRAMES && LowIdentity(m, low) && Word(m, dir, 0) == Entry(low * 4096, ALL_FLAGS)
  }

  lemma SetKeepsLow(m: seq<U32>, dir: nat, low: nat, f: nat, i: nat, v: U32)
    requires LowMapped(m, dir, low) && f < FRAMES && i < 1024 && f != low && (f == dir ==> i != 0)
    ensures LowMapped(Set(m, f, i, v), dir, low)
  {
    hide Word, Set, Entry;
    WordSet(m, f, i, v, dir, 0);
    forall j | 0 <= j < 1024
      ensures MapsTo(j, Word(Set(m, f, i, v), low, j))
    {
      WordSet(m, f, i, v, low, j);
    }
  }

  lemma SoundLow(m: seq<U32>, l: Layout, dir: nat)
    requires Sound(m, l) && dir in l.dirs
    ensures LowMapped(m, dir, l.low) && SelfMapped(m, dir) && l.master < 1024 && dir < 1024 && l.low != dir && l.low != l.master
  {
    hide Word, Entry;
    SlotAt(m, l, dir, 0);
    SlotAt(m, l, dir, 1023);
  }

  class Paging {
    const mem: array<U32>
    const master: nat
    const low: nat
    var cr3: U32
    ghost var layout: Layout

    ghost function Dir(): nat
      reads this
    {
      cr3 / 4096
    }

    ghost predicate Valid()
      reads this, mem
    {
      && mem.Length == WORDS && cr3 % 4096 == 0 && Dir() in layout.dirs
      && layout.master == master && layout.low == low && Sound(mem[..], layout)
    }

    /** A store to physical memory, while paging is off. */
    method PhysicalStore(f: nat, i: nat, v: U32)
      requires mem.Length == WORDS && f < FRAMES && i < 1024
      modifies mem
      ensures mem[..] == Set(old(mem[..]), f, i, v)
    {
      mem[f * 1024 + i] := v;
    }

    /** init_vmm: clear the directory, link the identity table and the directory itself, fill
        the identity table, turn paging on. */
    constructor (memory: array<U32>, masterFrame: nat, lowFrame: nat)
      requires memory.Length == WORDS && masterFrame < 1024 && lowFrame < 1024 && masterFrame != lowFrame
      modifies memory
      ensures mem == memory && Valid() && layout == FirstLayout(masterFrame, lowFrame) && Dir() == masterFrame
      ensures forall q :: 0 <= q < 1023 * 1024 ==>
        Look(mem[..], masterFrame, q) == if q < 1024 then Some(Entry(q * 4096, ALL_FLAGS)) else None
    {
      hide Set, Entry, Sound, Look, Word;
      mem, master, low := memory, masterFrame, lowFrame;
      cr3 := masterFrame * 4096;
      layout := FirstLayout(masterFrame, lowFrame);
      new;
      ghost var m := mem[..];
      for i := 0 to 1024
        invariant mem[..] == Blank(m, master, i)
        modifies mem
      {
        PhysicalStore(master, i, 0);
      }
      PhysicalStore(master, 0, Entry(low * 4096, ALL_FLAGS));
      PhysicalStore(master, 1023, Entry(master * 4096, RW_PRESENT));
      ghost var m2 := mem[..];
      for i := 0 to 1024
        invariant mem[..] == LowTable(m2, low, i)
        modifies mem
      {
        PhysicalStore(low, i, Entry(i * 4096, ALL_FLAGS));
      }
      InitialSound(m, master, low);
      forall q | 0 <= q < 1023 * 1024
        ensures Look(mem[..], masterFrame, q) == if q < 1024 then Some(Entry(q * 4096, ALL_FLAGS)) else None
      {
        InitialLook(m, master, low, q);
      }
    }

    // ---- virtual memory

    /** A load from a mapped address. */
    method Load(va: U32) returns (v: U32)
      requires mem.Length == WORDS && va % 4 == 0 && Translate(mem[..], cr3, va).Some?
      ensures v == mem[Translate(mem[..], cr3, va).value / 4]
    {
      var pa := Translate(mem[..], cr3, va);
      v := mem[pa.value / 4];
    }

    /** A store to a mapped address. */
    method Store(va: U32, v: U32)
      requires mem.Length == WORDS && va % 4 == 0 && Translate(mem[..], cr3, va).Some?
      modifies mem
      ensures mem[..] == old(mem[..])[Translate(old(mem[..]), cr3, va).value / 4 := v]
    {
      var pa := Translate(mem[..], cr3, va);
      mem[pa.value / 4] := v;
    }

    static lemma FrameWord(f: nat, k: nat)
      requires f < FRAMES && k < 1024
      ensures (f * 4096 + 4 * k) / 4 == f * 1024 + k && 0 <= f * 4096 + 4 * k < 0x1_0000_0000
    {
    }

    /** current_pd[i] */
    method LoadDirectory(i: nat) returns (v: U32)
      requires mem.Length == WORDS && cr3 % 4096 == 0 && SelfMapped(mem[..], cr3 / 4096) && i < 1024
      ensures v == Word(mem[..], cr3 / 4096, i)
    {
      hide Translate, SelfMapped;
      Windows(mem[..], cr3 / 4096, 0, i);
      FrameWord(cr3 / 4096, i);
      v := Load(DIR_WINDOW + 4 * i);
    }

    method StoreDirectory(i: nat, v: U32)
      requires mem.Length == WORDS && cr3 % 4096 == 0 && SelfMapped(mem[..], cr3 / 4096) && i < 1024
      modifies mem
      ensures mem[..] == Set(old(mem[..]), cr3 / 4096, i, v)
    {
      hide Translate, SelfMapped;
      Windows(mem[..], cr3 / 4096, 0, i);
      FrameWord(cr3 / 4096, i);
      Store(DIR_WINDOW + 4 * i, v);
    }

    /** page_table[k] for the table in this slot */
    method StoreTable(slot: nat, k: nat, v: U32)
      requires mem.Length == WORDS && cr3 % 4096 == 0 && SelfMapped(mem[..], cr3 / 4096) && slot < 1024 && k < 1024
      requires Present(Word(mem[..], cr3 / 4096, slot))
      modifies mem
      ensures mem[..] == Set(old(mem[..]), FrameOf(Word(old(mem[..]), cr3 / 4096, slot)), k, v)
    {
      hide Translate, SelfMapped, Present;
      Windows(mem[..], cr3 / 4096, slot, k);
      FrameWord(FrameOf(Word(mem[..], cr3 / 4096, slot)), k);
      Store(TABLE_WINDOW + slot * 4096 + 4 * k, v);
    }

    /** A word of a frame in the first 4 MB, at its own address. */
    method LoadLow(f: nat, i: nat) returns (v: U32)
      requires mem.Length == WORDS && cr3 % 4096 == 0 && LowMapped(mem[..], cr3 / 4096, low) && f < 1024 && i < 1024
      ensures v == Word(mem[..], f, i)
    {
      hide Translate, LowIdentity;
      LowAddress(mem[..], cr3 / 4096, low, f * 4096 + 4 * i);
      FrameWord(f, i);
      v := Load(f * 4096 + 4 * i);
    }

    method StoreLow(f: nat, i: nat, v: U32)
      requires mem.Length == WORDS && cr3 % 4096 == 0 && LowMapped(mem[..], cr3 / 4096, low) && f < 1024 && i < 1024
      modifies mem
      ensures mem[..] == Set(old(mem[..]), f, i, v)
    {
      hide Translate, LowIdentity;
      LowAddress(mem[..], cr3 / 4096, low, f * 4096 + 4 * i);
      FrameWord(f, i);
      Store(f * 4096 + 4 * i, v);
    }

    // ---- operations

    /** vmm_create_page_directory, with the frame the allocator gave, or null.  The frame is
        written at its physical address, so it must lie in the first 4 MB. */
    method CreatePageDirectory(pageDirPhys: U32) returns (r: U32)
      requires Valid() && pageDirPhys % 4096 == 0
      requires pageDirPhys != 0 ==> Unused(layout, pageDirPhys / 4096) && pageDirPhys / 4096 < 1024
      modifies mem, `layout
      ensures Valid() && r == pageDirPhys && cr3 == old(cr3)
      ensures if pageDirPhys == 0 then mem[..] == old(mem[..]) && layout == old(layout)
        else mem[..] == NewDirectory(old(mem[..]), master, pageDirPhys / 4096) && layout == WithDirectory(old(layout), pageDirPhys / 4096)
    {
      hide Set, Entry, Sound, Word, LowMapped, Unused, NewDirectory, Blank, CopyHeap, Present;
      ghost var m, l := mem[..], layout;
      if pageDirPhys == 0 {
        return 0;
      }
      var n := pageDirPhys / 4096;
      SoundLow(m, l, Dir());
      NewDirectorySound(m, l, n);
      UnusedIs(l, n);
      DirsApart(m, l, n, Dir());
      BlankStart(m, n);
      for i := 0 to 1024
        invariant mem[..] == Blank(m, n, i) && LowMapped(mem[..], Dir(), low)
      {
        SetKeepsLow(mem[..], Dir(), low, n, i, 0);
        StoreLow(n, i, 0);
        BlankStep(m, n, i);
      }
      var e := LoadLow(master, 0);
      SetKeepsLow(mem[..], Dir(), low, n, 0, e);
      StoreLow(n, 0, e);
      ghost var m2 := mem[..];
      CopyHeapStart(m2, master, n);
      for i := KERNEL_SLOT to HEAP_END_SLOT
        invariant mem[..] == CopyHeap(m2, master, n, i) && LowMapped(mem[..], Dir(), low)
      {
        e := LoadLow(master, i);
        CopyHeapStep(m2, master, n, i);
        if Present(e) {
          SetKeepsLow(mem[..], Dir(), low, n, i, e);
          StoreLow(n, i, e);
        }
      }
      StoreLow(n, 1023, Entry(pageDirPhys, RW_PRESENT));
      NewDirectoryIs(m, master, n);
      layout := WithDirectory(l, n);
      return pageDirPhys;
    }

    static lemma UnusedIs(l: Layout, n: nat)
      requires Unused(l, n)
      ensures 0 < n < FRAMES && n !in l.dirs && n != l.low && n !in l.owners
    {
    }

    static lemma DirsApart(m: seq<U32>, l: Layout, n: nat, d: nat)
      requires Sound(m, l) && Unused(l, n) && d in l.dirs
      ensures n != d && n != l.master && l.master in l.dirs && l.master < 1024
    {
    }

    static lemma BlankStart(m: seq<U32>, n: nat)
      requires Physical(m) && n < FRAMES
      ensures Blank(m, n, 0) == m
    {
    }

    static lemma BlankStep(m: seq<U32>, n: nat, i: nat)
      requires Physical(m) && n < FRAMES && i < 1024
      ensures Blank(m, n, i + 1) == Set(Blank(m, n, i), n, i, 0)
    {
    }

    static lemma CopyHeapStart(m: seq<U32>, master: nat, n: nat)
      requires Physical(m) && master < FRAMES && n < FRAMES
      ensures CopyHeap(m, master, n, KERNEL_SLOT) == m
    {
    }

    static lemma CopyHeapStep(m: seq<U32>, master: nat, n: nat, i: nat)
      requires Physical(m) && master < FRAMES && n < FRAMES && KERNEL_SLOT <= i < HEAP_END_SLOT
      ensures var prev := CopyHeap(m, master, n, i);
        CopyHeap(m, master, n, i + 1) == if Present(Word(prev, master, i)) then Set(prev, n, i, Word(prev, master, i)) else prev
    {
    }

    static lemma NewDirectoryIs(m: seq<U32>, master: nat, n: nat)
      requires Physical(m) && master < FRAMES && n < FRAMES
      ensures var m1 := Blank(m, n, 1024);
        NewDirectory(m, master, n)
        == Set(CopyHeap(Set(m1, n, 0, Word(m1, master, 0)), master, n, HEAP_END_SLOT), n, 1023, Entry(n * 4096, RW_PRESENT))
    {
    }

    /** vmm_switch_page_directory */
    method SwitchPageDirectory(dir: U32)
      requires Valid() && dir % 4096 == 0 && dir / 4096 in layout.dirs
      modifies `cr3
      ensures Valid() && cr3 == dir
    {
      cr3 := dir;
    }

    /** vmm_map_page, with the frame the allocator gives if a table is needed.  The state
        stays valid exactly unless a page of the first 4 MB is put on another frame. */
    method MapPage(va: U32, pa: U32, flags: nat, newTable: U32)
      requires Valid() && Mappable(va / 4096) && flags < 4096 && newTable % 4096 == 0
      requires TableReady(mem[..], layout, Dir(), va / 4096 / 1024, newTable / 4096)
      modifies mem, `layout
      ensures cr3 == old(cr3) && (Valid() <==> KeepsLow(va / 4096, Entry(pa, flags)))
      ensures mem[..] == PagingSpec.MapPage(old(mem[..]), Dir(), master, va / 4096, Entry(pa, flags), newTable / 4096)
      ensures layout == WithOwner(old(layout), old(mem[..]), Dir(), va / 4096 / 1024, newTable / 4096)
    {
      hide Set, Entry, Sound, Word, LowMapped, Unused, Blank, Present, TableReady, SelfMapped, FrameOf, WithTable, WithOwner, KeepsLow;
      ghost var m, l := mem[..], layout;
      var n := newTable / 4096;
      var pdIdx := va / 0x40_0000;
      var ptIdx := va / 4096 % 1024;
      Indices(va);
      SoundLow(m, l, Dir());
      MapSoundIff(m, l, Dir(), va / 4096, Entry(pa, flags), n);
      AbsentIsInner(m, l, Dir(), pdIdx);
      WithTableFacts(m, l, Dir(), va / 4096, n);
      SameDirs(l, m, Dir(), pdIdx, n);
      SoundLow(WithTable(m, Dir(), master, pdIdx, n), WithOwner(l, m, Dir(), pdIdx, n), Dir());
      var pde := LoadDirectory(pdIdx);
      if !Present(pde) {
        AddTable(pdIdx, newTable);
      }
      WithTableIs(m, Dir(), master, pdIdx, n);
      StoreTable(pdIdx, ptIdx, Entry(pa, flags));
      layout := WithOwner(l, m, Dir(), pdIdx, n);
    }

    static lemma Indices(va: U32)
      ensures va / 0x40_0000 == va / 4096 / 1024 < 1024
      ensures va >= KERNEL_BASE <==> va / 0x40_0000 >= KERNEL_SLOT
    {
    }

    static lemma WithTableIs(m: seq<U32>, dir: nat, master: nat, slot: nat, n: nat)
      requires Physical(m) && dir < FRAMES && master < FRAMES && slot < 1024 && n < FRAMES
      ensures WithTable(m, dir, master, slot, n) == if Present(Word(m, dir, slot)) then m else NewTable(m, dir, master, slot, n)
    {
    }

    /** Enter a new table in the directory, and the master for the kernel half, then clear it
        through its window. */
    method AddTable(pdIdx: nat, newTable: U32)
      requires Valid() && Inner(pdIdx) && newTable % 4096 == 0
      requires TableReady(mem[..], layout, Dir(), pdIdx, newTable / 4096) && !Present(Word(mem[..], Dir(), pdIdx))
      modifies mem
      ensures mem[..] == NewTable(old(mem[..]), Dir(), master, pdIdx, newTable / 4096)
    {
      hide Set, Entry, Sound, Word, LowMapped, Unused, Blank, Present, SelfMapped, FrameOf;
      ghost var m, l := mem[..], layout;
      var n := newTable / 4096;
      var e := Entry(newTable, ALL_FLAGS);
      UnusedIs(l, n);
      DirsApart(m, l, n, Dir());
      SoundLow(m, l, Dir());
      EntryParts(n);
      Entered(m, Dir(), master, low, pdIdx, n);
      StoreDirectory(pdIdx, e);
      if pdIdx >= KERNEL_SLOT {
        StoreLow(master, pdIdx, e);
      }
      ghost var m2 := mem[..];
      BlankStart(m2, n);
      for i := 0 to 1024
        invariant mem[..] == Blank(m2, n, i) && SelfMapped(mem[..], Dir()) && Word(mem[..], Dir(), pdIdx) == e
      {
        ClearStep(mem[..], Dir(), pdIdx, n, i);
        StoreTable(pdIdx, i, 0);
        BlankStep(m2, n, i);
      }
    }

    /** What stays true while the table's entries are stored. */
    static lemma Entered(m: seq<U32>, dir: nat, master: nat, low: nat, slot: nat, n: nat)
      requires LowMapped(m, dir, low) && SelfMapped(m, dir) && Inner(slot) && n < FRAMES && master < FRAMES && low != dir && low != master
      ensures var e := Entry(n * 4096, ALL_FLAGS);
        var m1 := Set(m, dir, slot, e);
        var m2 := Set(m1, master, slot, e);
        && LowMapped(m1, dir, low)
        && SelfMapped(m1, dir) && Word(m1, dir, slot) == e && SelfMapped(m2, dir) && Word(m2, dir, slot) == e
    {
      hide Set, Entry, Word, LowMapped;
      LowFrames(m, dir, low);
      var e := Entry(n * 4096, ALL_FLAGS);
      var m1 := Set(m, dir, slot, e);
      SetKeepsLow(m, dir, low, dir, slot, e);
      WordSet(m, dir, slot, e, dir, 1023);
      WordSet(m, dir, slot, e, dir, slot);
      WordSet(m1, master, slot, e, dir, 1023);
      WordSet(m1, master, slot, e, dir, slot);
    }

    static lemma LowFrames(m: seq<U32>, dir: nat, low: nat)
      requires LowMapped(m, dir, low)
      ensures Physical(m) && dir < FRAMES && low < FRAMES
    {
    }

    static lemma ClearStep(m: seq<U32>, dir: nat, slot: nat, n: nat, i: nat)
      requires Physical(m) && dir < FRAMES && n < FRAMES && n != dir && slot < 1024 && i < 1024 && SelfMapped(m, dir)
      ensures SelfMapped(Set(m, n, i, 0), dir) && Word(Set(m, n, i, 0), dir, slot) == Word(m, dir, slot)
    {
      hide Set, Entry, Word;
      WordSet(m, n, i, 0, dir, 1023);
      WordSet(m, n, i, 0, dir, slot);
    }

    /** vmm_unmap_page; the state stays valid unless a page of the first 4 MB goes. */
    method UnmapPage(va: U32)
      requires Valid() && Mappable(va / 4096)
      modifies mem
      ensures Valid() <==> va / 4096 / 1024 != 0
      ensures mem[..] == PagingSpec.UnmapPage(old(mem[..]), Dir(), va / 4096)
    {
      hide Set, Entry, Sound, Word, Present, SelfMapped, FrameOf, LowMapped;
      ghost var m := mem[..];
      var pdIdx := va / 0x40_0000;
      var ptIdx := va / 4096 % 1024;
      Indices(va);
      SoundLow(m, layout, Dir());
      UnmapSoundIff(m, layout, Dir(), va / 4096);
      var pde := LoadDirectory(pdIdx);
      if !Present(pde) {
        return;
      }
      StoreTable(pdIdx, ptIdx, 0);
    }

    /** The first part of page_fault_handler: serve a kernel fault from the master, or report
        that it cannot be served. */
    method ServeFault(va: U32) returns (served: bool)
      requires Valid()
      modifies mem
      ensures Valid()
      ensures served <==> KERNEL_BASE <= va < TABLE_WINDOW && Present(Word(old(mem[..]), master, va / 0x40_0000))
      ensures mem[..] == if served then Sync(old(mem[..]), Dir(), master, va / 0x40_0000) else old(mem[..])
    {
      hide Set, Entry, Sound, Word, Present, SelfMapped, LowMapped;
      ghost var m := mem[..];
      var pdIdx := va / 0x40_0000;
      Indices(va);
      SoundLow(m, layout, Dir());
      SyncsIff(m, master, va);
      if va >= KERNEL_BASE && pdIdx < 1023 {
        var e := LoadLow(master, pdIdx);
        if Present(e) {
          SyncSound(m, layout, Dir(), pdIdx);
          StoreDirectory(pdIdx, e);
          return true;
        }
      }
      return false;
    }
  }
}
