/**
 Two-level page tables (mm/vmm.cpp) in physical memory, translated as 32-bit paging does
 (Intel SDM Volume 3A, section 4.3, 4 KB pages only): a directory and its tables are frames
 of 1024 words.
 */
module PagingSpec {
  import opened Machine

  const FRAMES := 0x10_0000
  const WORDS := 0x4000_0000
  const KERNEL_SLOT := 768
  const KERNEL_BASE := 0xC000_0000
  const DIR_WINDOW := 0xFFFF_F000
  const TABLE_WINDOW := 0xFFC0_0000
  const RW_PRESENT := 3
  const ALL_FLAGS := 7

  // ---- words of frames

  predicate Physical(m: seq<U32>) {
    |m| == WORDS
  }

  /** Word i of frame f. */
  function Word(m: seq<U32>, f: nat, i: nat): U32
    requires Physical(m) && f < FRAMES && i < 1024
  {
    m[f * 1024 + i]
  }

  function Set(m: seq<U32>, f: nat, i: nat, v: U32): (r: seq<U32>)
    requires Physical(m) && f < FRAMES && i < 1024
    ensures Physical(r)
  {
    m[f * 1024 + i := v]
  }

  lemma WordSet(m: seq<U32>, f: nat, i: nat, v: U32, g: nat, j: nat)
    requires Physical(m) && f < FRAMES && i < 1024 && g < FRAMES && j < 1024
    ensures Word(Set(m, f, i, v), g, j) == if g == f && j == i then v else Word(m, g, j)
  {
  }

  /** The first n words of frame f zeroed. */
  function Blank(m: seq<U32>, f: nat, n: nat): (r: seq<U32>)
    requires Physical(m) && f < FRAMES && n <= 1024
    ensures Physical(r)
  {
    if n == 0 then m else Set(Blank(m, f, n - 1), f, n - 1, 0)
  }

  lemma {:induction false} WordBlank(m: seq<U32>, f: nat, n: nat, g: nat, j: nat)
    requires Physical(m) && f < FRAMES && n <= 1024 && g < FRAMES && j < 1024
    ensures Word(Blank(m, f, n), g, j) == if g == f && j < n then 0 else Word(m, g, j)
    decreases n
  {
    hide Word, Set;
    if n > 0 {
      WordBlank(m, f, n - 1, g, j);
      WordSet(Blank(m, f, n - 1), f, n - 1, 0, g, j);
    }
  }

  // ---- entries

  /** Bit 0. */
  predicate Present(e: U32) { e % 2 == 1 }

  /** Bits 31:12. */
  function FrameOf(e: U32): (f: nat)
    ensures f < FRAMES
  {
    e / 4096
  }

  /** An address with its low bits cleared, or-ed with flags below 4096. */
  function Entry(addr: U32, flags: nat): (e: U32)
    requires flags < 4096
    ensures FrameOf(e) == addr / 4096 && e % 4096 == flags
  {
    addr / 4096 * 4096 + flags
  }

  // ---- translation

  /** The present table entry for a virtual page, if any. */
  function Look(m: seq<U32>, dir: nat, page: nat): Option<U32>
    requires Physical(m) && dir < FRAMES && page < FRAMES
  {
    var pde := Word(m, dir, page / 1024);
    if !Present(pde) then None
    else
      var pte := Word(m, FrameOf(pde), page % 1024);
      if Present(pte) then Some(pte) else None
  }

  /** The physical address a virtual one is translated to, or a page fault. */
  function Translate(m: seq<U32>, cr3: U32, va: U32): Option<U32>
    requires Physical(m)
  {
    match Look(m, cr3 / 4096, va / 4096)
    case None => None
    case Some(pte) => Some(FrameOf(pte) * 4096 + va % 4096)
  }

  // ---- the recursive windows

  predicate SelfMapped(m: seq<U32>, dir: nat)
    requires Physical(m) && dir < FRAMES
  {
    Word(m, dir, 1023) == Entry(dir * 4096, RW_PRESENT)
  }

  /** An address in the last 4 MB is looked up in the directory itself. */
  lemma ThroughWindow(m: seq<U32>, dir: nat, va: U32, i: nat, off: nat)
    requires Physical(m) && dir < FRAMES && SelfMapped(m, dir) && i < 1024
    requires va / 4096 / 1024 == 1023 && va / 4096 % 1024 == i && va % 4096 == off
    ensures Translate(m, dir * 4096, va) == if Present(Word(m, dir, i)) then Some(FrameOf(Word(m, dir, i)) * 4096 + off) else None
  {
    hide Word, Entry, FrameOf;
    assert dir * 4096 / 4096 == dir;
    assert FrameOf(Entry(dir * 4096, RW_PRESENT)) == dir;
    assert Present(Entry(dir * 4096, RW_PRESENT));
  }

  /** With slot 1023 of a directory pointing at itself, the page at 0xFFFFF000 is the
      directory, and the page at 0xFFC00000 + 4096 * i is the table in slot i. */
  lemma Windows(m: seq<U32>, dir: nat, i: nat, k: nat)
    requires Physical(m) && dir < FRAMES && SelfMapped(m, dir) && i < 1024 && k < 1024
    ensures Translate(m, dir * 4096, DIR_WINDOW + 4 * k) == Some(dir * 4096 + 4 * k)
    ensures Present(Word(m, dir, i)) ==>
      Translate(m, dir * 4096, TABLE_WINDOW + i * 4096 + 4 * k) == Some(FrameOf(Word(m, dir, i)) * 4096 + 4 * k)
  {
    hide Word, Translate, Entry, FrameOf;
    WindowPage(i, k);
    WindowPage(1023, k);
    ThroughWindow(m, dir, TABLE_WINDOW + i * 4096 + 4 * k, i, 4 * k);
    ThroughWindow(m, dir, DIR_WINDOW + 4 * k, 1023, 4 * k);
    assert FrameOf(Entry(dir * 4096, RW_PRESENT)) == dir;
    assert Present(Entry(dir * 4096, RW_PRESENT));
  }

  lemma WindowPage(i: nat, k: nat)
    requires i < 1024 && k < 1024
    ensures var va := TABLE_WINDOW + i * 4096 + 4 * k;
      va / 4096 / 1024 == 1023 && va / 4096 % 1024 == i && va % 4096 == 4 * k
  {
  }

  /** The entry maps a page to the frame of the same number, with whatever flags. */
  predicate MapsTo(page: nat, e: U32) {
    Present(e) && FrameOf(e) == page
  }

  /** The first 4 MB are mapped to themselves through table `low` in slot 0. */
  ghost predicate LowIdentity(m: seq<U32>, low: nat)
    requires Physical(m) && low < FRAMES
  {
    forall i {:trigger Word(m, low, i)} :: 0 <= i < 1024 ==> MapsTo(i, Word(m, low, i))
  }

  lemma LowAddress(m: seq<U32>, dir: nat, low: nat, va: U32)
    requires Physical(m) && dir < FRAMES && low < FRAMES && LowIdentity(m, low)
    requires Word(m, dir, 0) == Entry(low * 4096, ALL_FLAGS) && va < 0x40_0000
    ensures Translate(m, dir * 4096, va) == Some(va)
  {
    hide Word, Entry, FrameOf, Present;
    LowPage(va);
    EntryParts(low);
    assert dir * 4096 / 4096 == dir;
    assert MapsTo(va / 4096, Word(m, low, va / 4096));
  }

  lemma LowPage(va: U32)
    requires va < 0x40_0000
    ensures va / 4096 / 1024 == 0 && va / 4096 % 1024 == va / 4096 < 1024 && va / 4096 * 4096 + va % 4096 == va
  {
  }

  // ---- the system

  /** Whose table is it: one directory's user half, or the kernel half of all. */
  datatype Owner = User(dir: nat, slot: nat) | Kernel(slot: nat)

  function OwnerOf(dir: nat, slot: nat): Owner {
    if slot < KERNEL_SLOT then User(dir, slot) else Kernel(slot)
  }

  /** Directories in use, the master (the kernel's page_directory), the table of the first
      4 MB, and who owns each other page table. */
  datatype Layout = Layout(dirs: set<nat>, master: nat, low: nat, owners: map<nat, Owner>)

  predicate Inner(slot: nat) { 0 < slot < 1023 }

  /** Slot i of a directory: the fixed entries, or absent, or a table of its own, which in
      the kernel half is the master's. */
  predicate SlotOk(m: seq<U32>, l: Layout, dir: nat, i: nat)
    requires Physical(m) && dir < FRAMES && l.master < FRAMES && l.low < FRAMES && i < 1024
  {
    var e := Word(m, dir, i);
    if i == 0 then e == Entry(l.low * 4096, ALL_FLAGS)
    else if i == 1023 then e == Entry(dir * 4096, RW_PRESENT)
    else Present(e) ==>
      && e == Entry(FrameOf(e) * 4096, ALL_FLAGS) && FrameOf(e) in l.owners && l.owners[FrameOf(e)] == OwnerOf(dir, i)
      && (i >= KERNEL_SLOT ==> e == Word(m, l.master, i))
  }

  ghost predicate Kinds(l: Layout) {
    && l.master in l.dirs && l.master < 1024 && l.low < 1024 && l.low !in l.dirs && l.low !in l.owners
    && (forall d {:trigger d in l.dirs} :: d in l.dirs ==> d < 1024 && d !in l.owners)
    && (forall f {:trigger f in l.owners} :: f in l.owners ==> f < FRAMES)
  }

  /** The invariant of the whole system. */
  ghost predicate Sound(m: seq<U32>, l: Layout) {
    && Physical(m) && Kinds(l) && LowIdentity(m, l.low)
    && forall d, i {:trigger SlotOk(m, l, d, i)} :: d in l.dirs && 0 <= i < 1024 ==> SlotOk(m, l, d, i)
  }

  lemma SlotAt(m: seq<U32>, l: Layout, d: nat, i: nat)
    requires Sound(m, l) && d in l.dirs && i < 1024
    ensures d < 1024 && d !in l.owners && d != l.low && SlotOk(m, l, d, i)
  {
  }

  /** Kernel slots of any two directories are absent or the same, so kernel pages both can
      see are the same pages. */
  lemma KernelShared(m: seq<U32>, l: Layout, d: nat, e: nat, q: nat)
    requires Sound(m, l) && d in l.dirs && e in l.dirs && KERNEL_SLOT <= q / 1024 < 1023
    ensures d < FRAMES && e < FRAMES && q < FRAMES
    ensures Present(Word(m, d, q / 1024)) && Present(Word(m, e, q / 1024)) ==> Look(m, d, q) == Look(m, e, q)
    ensures Look(m, d, q).Some? ==> l.master < FRAMES && Look(m, l.master, q) == Look(m, d, q)
  {
    hide Word;
    SlotAt(m, l, d, q / 1024);
    SlotAt(m, l, e, q / 1024);
  }

  /** A frame nobody uses as a directory or table. */
  ghost predicate Unused(l: Layout, f: nat) {
    0 < f < FRAMES && f !in l.dirs && f != l.low && f !in l.owners
  }

  /** Tables of different slots are different frames, and user tables of different
      directories are too. */
  lemma TablesDistinct(m: seq<U32>, l: Layout, d: nat, i: nat, e: nat, j: nat)
    requires Sound(m, l) && d in l.dirs && e in l.dirs && Inner(i) && Inner(j)
    requires Present(Word(m, d, i)) && Present(Word(m, e, j))
    ensures FrameOf(Word(m, d, i)) == FrameOf(Word(m, e, j)) <==> OwnerOf(d, i) == OwnerOf(e, j)
    ensures FrameOf(Word(m, d, i)) !in l.dirs && FrameOf(Word(m, d, i)) != l.low
  {
    hide Word;
    SlotAt(m, l, d, i);
    SlotAt(m, l, e, j);
  }

  // ---- mapping a page

  /** Give a directory slot a fresh table, in the master too for the kernel half. */
  function NewTable(m: seq<U32>, dir: nat, master: nat, slot: nat, n: nat): (r: seq<U32>)
    requires Physical(m) && dir < FRAMES && master < FRAMES && slot < 1024 && n < FRAMES
    ensures Physical(r)
  {
    var e := Entry(n * 4096, ALL_FLAGS);
    var m1 := Set(m, dir, slot, e);
    Blank(if slot >= KERNEL_SLOT then Set(m1, master, slot, e) else m1, n, 1024)
  }

  /** The table for the slot is there, or is made of frame n. */
  function WithTable(m: seq<U32>, dir: nat, master: nat, slot: nat, n: nat): (r: seq<U32>)
    requires Physical(m) && dir < FRAMES && master < FRAMES && slot < 1024 && n < FRAMES
    ensures Physical(r)
  {
    if Present(Word(m, dir, slot)) then m else NewTable(m, dir, master, slot, n)
  }

  function MapPage(m: seq<U32>, dir: nat, master: nat, page: nat, e: U32, n: nat): (r: seq<U32>)
    requires Physical(m) && dir < FRAMES && master < FRAMES && page < FRAMES && n < FRAMES
    ensures Physical(r)
  {
    var m1 := WithTable(m, dir, master, page / 1024, n);
    Set(m1, FrameOf(Word(m1, dir, page / 1024)), page % 1024, e)
  }

  function UnmapPage(m: seq<U32>, dir: nat, page: nat): (r: seq<U32>)
    requires Physical(m) && dir < FRAMES && page < FRAMES
    ensures Physical(r)
  {
    var pde := Word(m, dir, page / 1024);
    if Present(pde) then Set(m, FrameOf(pde), page % 1024, 0) else m
  }

  /** What a new table needs: an unused frame, and, in the kernel half, a master that has no
      table there either. */
  ghost predicate TableReady(m: seq<U32>, l: Layout, dir: nat, slot: nat, n: nat)
    requires Physical(m) && dir < FRAMES && l.master < FRAMES && slot < 1024
  {
    !Present(Word(m, dir, slot)) ==> Unused(l, n) && (slot >= KERNEL_SLOT ==> !Present(Word(m, l.master, slot)))
  }

  function WithOwner(l: Layout, m: seq<U32>, dir: nat, slot: nat, n: nat): Layout
    requires Physical(m) && dir < FRAMES && slot < 1024
  {
    if Present(Word(m, dir, slot)) then l else l.(owners := l.owners[n := OwnerOf(dir, slot)])
  }

  /** Every word of a directory or table after a table was made. */
  lemma NewTableWord(m: seq<U32>, dir: nat, master: nat, slot: nat, n: nat, f: nat, i: nat)
    requires Physical(m) && dir < FRAMES && master < FRAMES && slot < 1024 && n < FRAMES && n != dir && n != master && f < FRAMES && i < 1024
    ensures Word(NewTable(m, dir, master, slot, n), f, i) ==
      if f == n then 0
      else if i == slot && (f == dir || (slot >= KERNEL_SLOT && f == master)) then Entry(n * 4096, ALL_FLAGS)
      else Word(m, f, i)
  {
    hide Word, Set, Entry, Blank;
    var e := Entry(n * 4096, ALL_FLAGS);
    var m1 := Set(m, dir, slot, e);
    WordSet(m, dir, slot, e, f, i);
    WordSet(m1, master, slot, e, f, i);
    WordBlank(if slot >= KERNEL_SLOT then Set(m1, master, slot, e) else m1, n, 1024, f, i);
  }

  lemma EntryParts(n: nat)
    requires n < FRAMES
    ensures FrameOf(Entry(n * 4096, ALL_FLAGS)) == n && Present(Entry(n * 4096, ALL_FLAGS))
  {
  }

  /** A new table keeps the system sound. */
  lemma NewTableSound(m: seq<U32>, l: Layout, dir: nat, slot: nat, n: nat)
    requires Sound(m, l) && dir in l.dirs && Inner(slot) && !Present(Word(m, dir, slot)) && l.master < FRAMES && TableReady(m, l, dir, slot, n)
    ensures n < FRAMES && Sound(NewTable(m, dir, l.master, slot, n), WithOwner(l, m, dir, slot, n))
  {
    hide Word, NewTable, Entry, FrameOf;
    SlotAt(m, l, dir, slot);
    var m', l' := NewTable(m, dir, l.master, slot, n), WithOwner(l, m, dir, slot, n);
    EntryParts(n);
    forall d, i | d in l'.dirs && 0 <= i < 1024
      ensures SlotOk(m', l', d, i)
    {
      NewTableSlot(m, l, dir, slot, n, d, i);
    }
    forall i | 0 <= i < 1024
      ensures MapsTo(i, Word(m', l.low, i))
    {
      NewTableWord(m, dir, l.master, slot, n, l.low, i);
    }
  }

  lemma NewTableSlot(m: seq<U32>, l: Layout, dir: nat, slot: nat, n: nat, d: nat, i: nat)
    requires Sound(m, l) && dir in l.dirs && Inner(slot) && !Present(Word(m, dir, slot)) && l.master < FRAMES && TableReady(m, l, dir, slot, n)
    requires d in l.dirs && i < 1024
    ensures n < FRAMES && d < FRAMES && SlotOk(NewTable(m, dir, l.master, slot, n), WithOwner(l, m, dir, slot, n), d, i)
  {
    hide Word, NewTable, Entry, FrameOf;
    SlotAt(m, l, dir, slot);
    SlotAt(m, l, d, i);
    SlotAt(m, l, l.master, i);
    EntryParts(n);
    NewTableWord(m, dir, l.master, slot, n, d, i);
    NewTableWord(m, dir, l.master, slot, n, l.master, i);
  }

  /** What a page looks up to after a word of its table became e. */
  function Seen(e: U32): Option<U32> {
    if Present(e) then Some(e) else None
  }

  /** Every present directory entry but the recursive one leads to the first-4-MB table or
      to an owned one. */
  lemma TableKind(m: seq<U32>, l: Layout, d: nat, s: nat)
    requires Sound(m, l) && d in l.dirs && s < 1023 && Present(Word(m, d, s))
    ensures FrameOf(Word(m, d, s)) !in l.dirs
    ensures if s == 0 then FrameOf(Word(m, d, s)) == l.low
      else FrameOf(Word(m, d, s)) in l.owners && l.owners[FrameOf(Word(m, d, s))] == OwnerOf(d, s)
  {
    hide Word, Entry;
    SlotAt(m, l, d, s);
    EntryParts(l.low);
  }

  /** A store into the table of an inner slot keeps the system sound. */
  lemma TableStoreSound(m: seq<U32>, l: Layout, dir: nat, slot: nat, k: nat, e: U32)
    requires Sound(m, l) && dir in l.dirs && Inner(slot) && Present(Word(m, dir, slot)) && k < 1024
    ensures Sound(Set(m, FrameOf(Word(m, dir, slot)), k, e), l)
  {
    hide Word, Set, Entry, FrameOf;
    TableKind(m, l, dir, slot);
    var t := FrameOf(Word(m, dir, slot));
    var m' := Set(m, t, k, e);
    forall d, i | d in l.dirs && 0 <= i < 1024
      ensures SlotOk(m', l, d, i)
    {
      SlotAt(m, l, d, i);
      WordSet(m, t, k, e, d, i);
      WordSet(m, t, k, e, l.master, i);
    }
    forall i | 0 <= i < 1024
      ensures MapsTo(i, Word(m', l.low, i))
    {
      WordSet(m, t, k, e, l.low, i);
    }
  }

  /** Does directory d go through the same table for this slot? */
  predicate SharesTable(m: seq<U32>, d: nat, dir: nat, slot: nat)
    requires Physical(m) && d < FRAMES && slot < 1024
  {
    Present(Word(m, d, slot)) && (slot == 0 || OwnerOf(d, slot) == OwnerOf(dir, slot))
  }

  /** It changes the look-up of one page, in the directories that share the table. */
  lemma TableStoreLook(m: seq<U32>, l: Layout, dir: nat, slot: nat, k: nat, e: U32, d: nat, q: nat)
    requires Sound(m, l) && dir in l.dirs && slot < 1023 && Present(Word(m, dir, slot)) && k < 1024
    requires d in l.dirs && q < 1023 * 1024
    ensures d < FRAMES && Look(Set(m, FrameOf(Word(m, dir, slot)), k, e), d, q) ==
      if q == slot * 1024 + k && SharesTable(m, d, dir, slot) then Seen(e) else Look(m, d, q)
  {
    hide Word, Set, Entry, FrameOf, Present;
    TableKind(m, l, dir, slot);
    var t := FrameOf(Word(m, dir, slot));
    SlotAt(m, l, dir, slot);
    SlotAt(m, l, d, q / 1024);
    WordSet(m, t, k, e, d, q / 1024);
    if Present(Word(m, d, q / 1024)) {
      TableKind(m, l, d, q / 1024);
      WordSet(m, t, k, e, FrameOf(Word(m, d, q / 1024)), q % 1024);
      if q / 1024 != 0 && slot != 0 {
        TablesDistinct(m, l, d, q / 1024, dir, slot);
      }
      PageParts(q, slot, k);
    }
  }

  lemma PageParts(q: nat, slot: nat, k: nat)
    requires k < 1024
    ensures q == slot * 1024 + k <==> q / 1024 == slot && q % 1024 == k
  {
  }

  /** A new, empty table changes no look-up. */
  lemma NewTableLook(m: seq<U32>, l: Layout, dir: nat, slot: nat, n: nat, d: nat, q: nat)
    requires Sound(m, l) && dir in l.dirs && Inner(slot) && !Present(Word(m, dir, slot)) && l.master < FRAMES && TableReady(m, l, dir, slot, n)
    requires d in l.dirs && q < 1023 * 1024
    ensures n < FRAMES && d < FRAMES && Look(NewTable(m, dir, l.master, slot, n), d, q) == Look(m, d, q)
  {
    hide Word, NewTable, Entry, FrameOf, Present;
    SlotAt(m, l, dir, slot);
    SlotAt(m, l, d, q / 1024);
    EntryParts(n);
    NewTableWord(m, dir, l.master, slot, n, d, q / 1024);
    if Present(Word(m, d, q / 1024)) {
      TableKind(m, l, d, q / 1024);
      NewTableWord(m, dir, l.master, slot, n, FrameOf(Word(m, d, q / 1024)), q % 1024);
    } else {
      NewTableWord(m, dir, l.master, slot, n, n, q % 1024);
      AbsentZero();
    }
  }

  lemma AbsentZero()
    ensures !Present(0)
  {
  }

  /** A page outside the windows. */
  predicate Mappable(page: nat) { page / 1024 < 1023 }

  /** The entry leaves the first 4 MB mapped to themselves. */
  predicate KeepsLow(page: nat, e: U32) {
    page / 1024 == 0 ==> MapsTo(page, e)
  }

  ghost predicate CanMap(m: seq<U32>, l: Layout, dir: nat, page: nat, n: nat) {
    && Sound(m, l) && dir in l.dirs && page < FRAMES && n < FRAMES && Mappable(page)
    && dir < FRAMES && l.master < FRAMES && TableReady(m, l, dir, page / 1024, n)
  }

  /** Only inner slots can be absent. */
  lemma AbsentIsInner(m: seq<U32>, l: Layout, dir: nat, slot: nat)
    requires Sound(m, l) && dir in l.dirs && slot < 1023
    ensures dir < FRAMES && (!Present(Word(m, dir, slot)) ==> Inner(slot))
  {
    hide Word, Present, Entry;
    SlotAt(m, l, dir, slot);
    EntryParts(l.low);
  }

  lemma WithTableFacts(m: seq<U32>, l: Layout, dir: nat, page: nat, n: nat)
    requires CanMap(m, l, dir, page, n)
    ensures Physical(m) && dir < FRAMES && l.master < FRAMES
    ensures var m1 := WithTable(m, dir, l.master, page / 1024, n);
      Sound(m1, WithOwner(l, m, dir, page / 1024, n)) && Present(Word(m1, dir, page / 1024))
  {
    hide Word, NewTable, Entry, FrameOf, Present;
    AbsentIsInner(m, l, dir, page / 1024);
    SlotAt(m, l, dir, page / 1024);
    if !Present(Word(m, dir, page / 1024)) {
      NewTableSound(m, l, dir, page / 1024, n);
      NewTableWord(m, dir, l.master, page / 1024, n, dir, page / 1024);
      EntryParts(n);
    }
  }

  lemma MapSound(m: seq<U32>, l: Layout, dir: nat, page: nat, e: U32, n: nat)
    requires CanMap(m, l, dir, page, n) && page / 1024 != 0
    ensures dir < FRAMES && l.master < FRAMES
    ensures Sound(MapPage(m, dir, l.master, page, e, n), WithOwner(l, m, dir, page / 1024, n))
  {
    hide Word, WithTable, Set, FrameOf, Present, Sound, WithOwner;
    WithTableFacts(m, l, dir, page, n);
    SameDirs(l, m, dir, page / 1024, n);
    TableStoreSound(WithTable(m, dir, l.master, page / 1024, n), WithOwner(l, m, dir, page / 1024, n), dir, page / 1024, page % 1024, e);
  }

  /** In the first 4 MB the one table all directories share is overwritten. */
  lemma MapLow(m: seq<U32>, l: Layout, dir: nat, page: nat, e: U32, n: nat)
    requires CanMap(m, l, dir, page, n) && page / 1024 == 0
    ensures dir < FRAMES && l.master < FRAMES && l.low < FRAMES
    ensures MapPage(m, dir, l.master, page, e, n) == Set(m, l.low, page, e) && WithOwner(l, m, dir, page / 1024, n) == l
  {
    hide Word, Set, Entry, FrameOf, Present;
    SlotAt(m, l, dir, 0);
    EntryParts(l.low);
  }

  /** Storing an entry in that table keeps the system sound exactly when the page stays on
      its own frame. */
  lemma LowStoreSoundIff(m: seq<U32>, l: Layout, page: nat, e: U32)
    requires Sound(m, l) && page < 1024
    ensures l.low < FRAMES && (Sound(Set(m, l.low, page, e), l) <==> MapsTo(page, e))
  {
    hide Word, Set, Entry, FrameOf, Present;
    var m' := Set(m, l.low, page, e);
    WordSet(m, l.low, page, e, l.low, page);
    if MapsTo(page, e) {
      forall d, i | d in l.dirs && 0 <= i < 1024
        ensures SlotOk(m', l, d, i)
      {
        SlotAt(m, l, d, i);
        WordSet(m, l.low, page, e, d, i);
        WordSet(m, l.low, page, e, l.master, i);
      }
      forall i | 0 <= i < 1024
        ensures MapsTo(i, Word(m', l.low, i))
      {
        WordSet(m, l.low, page, e, l.low, i);
      }
    }
  }

  /** Mapping a page keeps the system sound exactly unless it puts a page of the first 4 MB
      on another frame. */
  lemma MapSoundIff(m: seq<U32>, l: Layout, dir: nat, page: nat, e: U32, n: nat)
    requires CanMap(m, l, dir, page, n)
    ensures dir < FRAMES && l.master < FRAMES
    ensures Sound(MapPage(m, dir, l.master, page, e, n), WithOwner(l, m, dir, page / 1024, n)) <==> KeepsLow(page, e)
  {
    hide Word, WithTable, Set, FrameOf, Present, WithOwner, Entry, TableReady, MapPage, Sound;
    if page / 1024 != 0 {
      MapSound(m, l, dir, page, e, n);
    } else {
      MapLow(m, l, dir, page, e, n);
      LowStoreSoundIff(m, l, page, e);
    }
  }

  /** Every directory translates every address of the first 4 MB to itself. */
  ghost predicate LowUsable(m: seq<U32>, l: Layout) {
    Physical(m) && forall d: nat, va: U32 {:trigger Translate(m, d * 4096, va)} ::
      d in l.dirs && d < FRAMES && va < 0x40_0000 ==> Translate(m, d * 4096, va) == Some(va)
  }

  lemma SoundIsUsable(m: seq<U32>, l: Layout)
    requires Sound(m, l)
    ensures LowUsable(m, l)
  {
    hide Translate, Word, LowIdentity;
    forall d: nat, va: U32 | d in l.dirs && d < FRAMES && va < 0x40_0000
      ensures Translate(m, d * 4096, va) == Some(va)
    {
      SlotAt(m, l, d, 0);
      LowAddress(m, d, l.low, va);
    }
  }

  /** Said of the directories: after map_page the first 4 MB are where they were, in every
      directory, exactly unless a page of them was put on another frame. */
  lemma MapUsableIff(m: seq<U32>, l: Layout, dir: nat, page: nat, e: U32, n: nat)
    requires CanMap(m, l, dir, page, n)
    ensures dir < FRAMES && l.master < FRAMES
    ensures LowUsable(MapPage(m, dir, l.master, page, e, n), l) <==> KeepsLow(page, e)
  {
    hide Word, WithTable, FrameOf, Present, Entry, TableReady, MapPage, Sound, Look, WithOwner, Unused;
    IsPhysical(m, l);
    MapSoundIff(m, l, dir, page, e, n);
    SameDirs(l, m, dir, page / 1024, n);
    if KeepsLow(page, e) {
      SoundIsUsable(MapPage(m, dir, l.master, page, e, n), WithOwner(l, m, dir, page / 1024, n));
    } else {
      MapLook(m, l, dir, page, e, n, dir, page);
      NotUsable(MapPage(m, dir, l.master, page, e, n), l, dir, page, e);
    }
  }

  /** And after unmap_page exactly when the page was not one of them. */
  lemma UnmapUsableIff(m: seq<U32>, l: Layout, dir: nat, page: nat)
    requires Sound(m, l) && dir in l.dirs && page < FRAMES && Mappable(page)
    ensures dir < FRAMES && (LowUsable(UnmapPage(m, dir, page), l) <==> page / 1024 != 0)
  {
    hide Word, FrameOf, Present, Entry, UnmapPage, Sound, Look;
    IsPhysical(m, l);
    UnmapSoundIff(m, l, dir, page);
    if page / 1024 != 0 {
      SoundIsUsable(UnmapPage(m, dir, page), l);
    } else {
      UnmapLook(m, l, dir, page, dir, page);
      AbsentZero();
      NotUsable(UnmapPage(m, dir, page), l, dir, page, 0);
    }
  }

  lemma NotUsable(m: seq<U32>, l: Layout, dir: nat, page: nat, e: U32)
    requires Physical(m) && dir in l.dirs && dir < FRAMES && page < 1024 && Look(m, dir, page) == Seen(e) && !MapsTo(page, e)
    ensures !LowUsable(m, l)
  {
    hide Look, FrameOf;
    var va := page * 4096;
    assert va / 4096 == page && va % 4096 == 0 && dir * 4096 / 4096 == dir;
    assert Translate(m, dir * 4096, va) != Some(va);
  }

  lemma SameDirs(l: Layout, m: seq<U32>, dir: nat, slot: nat, n: nat)
    requires Physical(m) && dir < FRAMES && slot < 1024
    ensures var l' := WithOwner(l, m, dir, slot, n); l'.dirs == l.dirs && l'.master == l.master && l'.low == l.low
  {
  }

  /** map_page refines inserting one page: in the current directory that page now has the
      new entry and every other page outside the windows looks up as before; another
      directory sees the change exactly if it shares the table: the one of the first 4 MB
      always, a kernel table when it has it. */
  lemma MapLook(m: seq<U32>, l: Layout, dir: nat, page: nat, e: U32, n: nat, d: nat, q: nat)
    requires CanMap(m, l, dir, page, n) && d in l.dirs && q < 1023 * 1024
    ensures dir < FRAMES && l.master < FRAMES && d < FRAMES
    ensures var m' := MapPage(m, dir, l.master, page, e, n);
      var seen := d == dir || page / 1024 == 0 || (page / 1024 >= KERNEL_SLOT && Present(Word(m', d, page / 1024)));
      Look(m', d, q) == if q == page && seen then Seen(e) else Look(m, d, q)
  {
    hide Word, WithTable, Set, FrameOf, Present, Sound, WithOwner, Look, NewTable, TableReady;
    var slot := page / 1024;
    SlotAt(m, l, d, 0);
    WithTableFacts(m, l, dir, page, n);
    SameDirs(l, m, dir, slot, n);
    var m1, l1 := WithTable(m, dir, l.master, slot, n), WithOwner(l, m, dir, slot, n);
    TableStoreLook(m1, l1, dir, slot, page % 1024, e, d, q);
    TableKind(m1, l1, dir, slot);
    SlotAt(m1, l1, d, 0);
    EntryParts(l1.low);
    WordSet(m1, FrameOf(Word(m1, dir, slot)), page % 1024, e, d, slot);
    WithTableLook(m, l, dir, page, n, d, q);
  }

  // ---- access rights

  /** Bit 1: writable. */
  predicate Writable(e: U32) { e / 2 % 2 == 1 }

  /** Bit 2: user mode. */
  predicate UserMode(e: U32) { e / 4 % 2 == 1 }

  /** Does the entry let a user-mode read (or write) through? */
  predicate Allows(e: U32, write: bool) {
    Present(e) && UserMode(e) && (write ==> Writable(e))
  }

  /** May code in user mode read (or write) this page?  Both levels must allow it (Intel SDM
      Volume 3A, section 4.6). */
  predicate UserCan(m: seq<U32>, dir: nat, page: nat, write: bool)
    requires Physical(m) && dir < FRAMES && page < FRAMES
  {
    var pde := Word(m, dir, page / 1024);
    Allows(pde, write) && Allows(Word(m, FrameOf(pde), page % 1024), write)
  }

  lemma AllFlagsAllow(f: nat, write: bool)
    requires f < FRAMES
    ensures Allows(Entry(f * 4096, ALL_FLAGS), write)
  {
    hide Entry;
    var e := Entry(f * 4096, ALL_FLAGS);
    AllFlags(f);
    Odd(e, 2048 * f + 3);
    Odd(2048 * f + 3, 1024 * f + 1);
    Odd(1024 * f + 1, 512 * f);
    Quarter(e);
  }

  lemma AllFlags(f: nat)
    requires f < FRAMES
    ensures Entry(f * 4096, ALL_FLAGS) == 4096 * f + 7
  {
  }

  lemma Odd(x: nat, k: nat)
    requires x == 2 * k + 1
    ensures x % 2 == 1 && x / 2 == k
  {
  }

  lemma Quarter(x: nat)
    ensures x / 4 == x / 2 / 2
  {
  }

  /** After map_page user code can use the page exactly as the flags given say: the table
      does not get in the way. */
  lemma MapUser(m: seq<U32>, l: Layout, dir: nat, page: nat, e: U32, n: nat, write: bool)
    requires CanMap(m, l, dir, page, n)
    ensures dir < FRAMES && l.master < FRAMES
    ensures UserCan(MapPage(m, dir, l.master, page, e, n), dir, page, write) <==> Allows(e, write)
  {
    hide Word, WithTable, Set, FrameOf, Present, WithOwner, Entry, TableReady, Allows;
    WithTableFacts(m, l, dir, page, n);
    SameDirs(l, m, dir, page / 1024, n);
    var m1, l1 := WithTable(m, dir, l.master, page / 1024, n), WithOwner(l, m, dir, page / 1024, n);
    SlotAt(m1, l1, dir, page / 1024);
    TableKind(m1, l1, dir, page / 1024);
    var t := FrameOf(Word(m1, dir, page / 1024));
    AllFlagsAllow(t, write);
    AllFlagsAllow(l1.low, write);
    WordSet(m1, t, page % 1024, e, dir, page / 1024);
    WordSet(m1, t, page % 1024, e, t, page % 1024);
  }

  lemma WithTableLook(m: seq<U32>, l: Layout, dir: nat, page: nat, n: nat, d: nat, q: nat)
    requires CanMap(m, l, dir, page, n) && d in l.dirs && q < 1023 * 1024
    ensures dir < FRAMES && l.master < FRAMES && d < FRAMES && Look(WithTable(m, dir, l.master, page / 1024, n), d, q) == Look(m, d, q)
  {
    hide Word, Present, Look, NewTable;
    AbsentIsInner(m, l, dir, page / 1024);
    SlotAt(m, l, dir, 0);
    SlotAt(m, l, d, 0);
    if !Present(Word(m, dir, page / 1024)) {
      NewTableLook(m, l, dir, page / 1024, n, d, q);
    }
  }

  lemma UnmapSound(m: seq<U32>, l: Layout, dir: nat, page: nat)
    requires Sound(m, l) && dir in l.dirs && page < FRAMES && Inner(page / 1024)
    ensures dir < FRAMES && Sound(UnmapPage(m, dir, page), l)
  {
    hide Word, Set, FrameOf, Present;
    SlotAt(m, l, dir, 0);
    if Present(Word(m, dir, page / 1024)) {
      TableStoreSound(m, l, dir, page / 1024, page % 1024, 0);
    }
  }

  /** Unmapping a page keeps the system sound exactly outside the first 4 MB. */
  lemma UnmapSoundIff(m: seq<U32>, l: Layout, dir: nat, page: nat)
    requires Sound(m, l) && dir in l.dirs && page < FRAMES && Mappable(page)
    ensures dir < FRAMES && (Sound(UnmapPage(m, dir, page), l) <==> page / 1024 != 0)
  {
    hide Word, Set, FrameOf, Present, Entry;
    SlotAt(m, l, dir, 0);
    if page / 1024 != 0 {
      UnmapSound(m, l, dir, page);
    } else {
      EntryParts(l.low);
      AbsentZero();
      LowStoreSoundIff(m, l, page, 0);
    }
  }

  /** unmap_page refines removing one page. */
  lemma UnmapLook(m: seq<U32>, l: Layout, dir: nat, page: nat, d: nat, q: nat)
    requires Sound(m, l) && dir in l.dirs && page < FRAMES && Mappable(page) && d in l.dirs && q < 1023 * 1024
    ensures dir < FRAMES && d < FRAMES
    ensures Look(UnmapPage(m, dir, page), d, q) ==
      if q == page && (d == dir || (Present(Word(m, dir, page / 1024)) && SharesTable(m, d, dir, page / 1024))) then None else Look(m, d, q)
  {
    hide Word, Set, FrameOf, Present;
    SlotAt(m, l, dir, 0);
    SlotAt(m, l, d, 0);
    EntryParts(l.low);
    AbsentZero();
    if Present(Word(m, dir, page / 1024)) {
      TableStoreLook(m, l, dir, page / 1024, page % 1024, 0, d, q);
    }
  }

  // ---- the fault handler

  /** Does the handler take the entry over from the master? */
  predicate Syncs(m: seq<U32>, master: nat, va: nat)
    requires Physical(m) && master < FRAMES
  {
    va >= KERNEL_BASE && va / 0x40_0000 < 1023 && Present(Word(m, master, va / 0x40_0000))
  }

  function Sync(m: seq<U32>, dir: nat, master: nat, slot: nat): (r: seq<U32>)
    requires Physical(m) && dir < FRAMES && master < FRAMES && slot < 1024
    ensures Physical(r)
  {
    Set(m, dir, slot, Word(m, master, slot))
  }

  /** It does so exactly for addresses of the kernel half below the windows for which the
      master has a table. */
  lemma SyncsIff(m: seq<U32>, master: nat, va: nat)
    requires Physical(m) && master < FRAMES
    ensures Syncs(m, master, va) <==> KERNEL_BASE <= va < TABLE_WINDOW && Present(Word(m, master, va / 0x40_0000))
  {
  }

  /** What an access at va in directory dir leaves: the tables as they are if it finds its
      page, else what the handler makes of them. */
  function Accessed(m: seq<U32>, dir: nat, master: nat, va: nat): (r: seq<U32>)
    requires Physical(m) && dir < FRAMES && master < FRAMES && va / 4096 < FRAMES
    ensures Physical(r)
  {
    if Look(m, dir, va / 4096) == None && Syncs(m, master, va) then Sync(m, dir, master, va / 0x40_0000) else m
  }

  /** Every kernel address the master maps is reached in every directory: it is translated as
      in the master, or it faults, the handler serves the fault, and then it is. */
  lemma KernelReached(m: seq<U32>, l: Layout, dir: nat, va: U32)
    requires Sound(m, l) && Physical(m) && dir in l.dirs && dir < FRAMES && l.master < FRAMES
    requires KERNEL_BASE <= va < TABLE_WINDOW && Translate(m, l.master * 4096, va).Some?
    ensures Translate(m, dir * 4096, va) == Translate(m, l.master * 4096, va)
      || (Translate(m, dir * 4096, va) == None && Syncs(m, l.master, va))
    ensures Translate(Accessed(m, dir, l.master, va), dir * 4096, va) == Translate(m, l.master * 4096, va)
  {
    hide Word, Sound, Sync, FrameOf, Present, Look;
    var q, slot := va / 4096, va / 0x40_0000;
    assert dir * 4096 / 4096 == dir && l.master * 4096 / 4096 == l.master && q / 1024 == slot && KERNEL_SLOT <= slot < 1023;
    MasterInUse(m, l);
    KernelShared(m, l, dir, l.master, q);
    SlotPresent(m, l.master, q);
    SlotPresent(m, dir, q);
    SyncsIff(m, l.master, va);
    SyncLook(m, l, dir, slot, dir, q);
  }

  lemma SlotPresent(m: seq<U32>, dir: nat, q: nat)
    requires Physical(m) && dir < FRAMES && q < FRAMES
    ensures Look(m, dir, q).Some? ==> Present(Word(m, dir, q / 1024))
  {
  }

  lemma MasterInUse(m: seq<U32>, l: Layout)
    requires Sound(m, l)
    ensures l.master in l.dirs
  {
  }

  /** A fault in the kernel half makes the slot equal to the master's; nothing else changes,
      in this directory or in another. */
  lemma SyncSound(m: seq<U32>, l: Layout, dir: nat, slot: nat)
    requires Sound(m, l) && dir in l.dirs && KERNEL_SLOT <= slot < 1023 && l.master < FRAMES && Present(Word(m, l.master, slot))
    ensures dir < FRAMES && Sound(Sync(m, dir, l.master, slot), l) && Word(Sync(m, dir, l.master, slot), dir, slot) == Word(m, l.master, slot)
  {
    hide Word, Set, FrameOf, Present, Entry;
    var e := Word(m, l.master, slot);
    var m' := Sync(m, dir, l.master, slot);
    SlotAt(m, l, dir, slot);
    SlotAt(m, l, l.master, slot);
    WordSet(m, dir, slot, e, dir, slot);
    forall d, i | d in l.dirs && 0 <= i < 1024
      ensures SlotOk(m', l, d, i)
    {
      SlotAt(m, l, d, i);
      WordSet(m, dir, slot, e, d, i);
      WordSet(m, dir, slot, e, l.master, i);
    }
    forall i | 0 <= i < 1024
      ensures MapsTo(i, Word(m', l.low, i))
    {
      WordSet(m, dir, slot, e, l.low, i);
    }
  }

  lemma SyncLook(m: seq<U32>, l: Layout, dir: nat, slot: nat, d: nat, q: nat)
    requires Sound(m, l) && dir in l.dirs && KERNEL_SLOT <= slot < 1023 && l.master < FRAMES && Present(Word(m, l.master, slot))
    requires d in l.dirs && q < 1023 * 1024
    ensures dir < FRAMES && d < FRAMES
    ensures Look(Sync(m, dir, l.master, slot), d, q) == Look(m, if d == dir && q / 1024 == slot then l.master else d, q)
  {
    hide Word, Set, FrameOf, Present, Entry;
    var e := Word(m, l.master, slot);
    SlotAt(m, l, dir, slot);
    SlotAt(m, l, d, q / 1024);
    SlotAt(m, l, l.master, slot);
    WordSet(m, dir, slot, e, d, q / 1024);
    var m' := Sync(m, dir, l.master, slot);
    if Present(Word(m', d, q / 1024)) {
      TableKind(m, l, if d == dir && q / 1024 == slot then l.master else d, q / 1024);
      WordSet(m, dir, slot, e, FrameOf(Word(m', d, q / 1024)), q % 1024);
    }
  }

  /** A kernel table made while the master already has one replaces it: no directory's
      present kernel entry changes if and only if the master had none. */
  lemma ReplacesMaster(m: seq<U32>, l: Layout, dir: nat, slot: nat, n: nat)
    requires Sound(m, l) && dir in l.dirs && KERNEL_SLOT <= slot < 1023 && dir < FRAMES && l.master < FRAMES
    requires !Present(Word(m, dir, slot)) && Unused(l, n)
    ensures (forall d :: d in l.dirs && d < FRAMES && Present(Word(m, d, slot)) ==>
        Word(NewTable(m, dir, l.master, slot, n), d, slot) == Word(m, d, slot))
      <==> !Present(Word(m, l.master, slot))
  {
    hide Word, NewTable, Entry, FrameOf, Present;
    EntryParts(n);
    SlotAt(m, l, l.master, slot);
    NewTableWord(m, dir, l.master, slot, n, l.master, slot);
    if Present(Word(m, l.master, slot)) {
      TableKind(m, l, l.master, slot);
    } else {
      forall d | d in l.dirs && d < FRAMES
        ensures !Present(Word(m, d, slot))
      {
        SlotAt(m, l, d, slot);
      }
    }
  }

  /** And when it does replace one, every page mapped there is lost to the kernel, and every
      other directory that had the old table keeps one the master no longer has. */
  lemma OutOfSync(m: seq<U32>, l: Layout, dir: nat, slot: nat, n: nat, d: nat, q: nat)
    requires Sound(m, l) && dir in l.dirs && KERNEL_SLOT <= slot < 1023 && dir < FRAMES && l.master < FRAMES
    requires !Present(Word(m, dir, slot)) && Present(Word(m, l.master, slot)) && Unused(l, n)
    requires d in l.dirs && d < FRAMES && d != l.master && Present(Word(m, d, slot)) && q / 1024 == slot
    ensures var m' := NewTable(m, dir, l.master, slot, n);
      Look(m', l.master, q) == None && Look(m', d, q) == Look(m, d, q) && Word(m', d, slot) != Word(m', l.master, slot)
  {
    hide Word, NewTable, Entry, FrameOf, Present;
    EntryParts(n);
    AbsentZero();
    SlotAt(m, l, dir, slot);
    SlotAt(m, l, d, slot);
    SlotAt(m, l, l.master, slot);
    TableKind(m, l, d, slot);
    NewTableWord(m, dir, l.master, slot, n, l.master, slot);
    NewTableWord(m, dir, l.master, slot, n, d, slot);
    NewTableWord(m, dir, l.master, slot, n, n, q % 1024);
    NewTableWord(m, dir, l.master, slot, n, FrameOf(Word(m, d, slot)), q % 1024);
  }

  // ---- a new directory

  const HEAP_END_SLOT := 896

  /** Copy the present heap slots below slot i. */
  function CopyHeap(m: seq<U32>, master: nat, n: nat, i: nat): (r: seq<U32>)
    requires Physical(m) && master < FRAMES && n < FRAMES && KERNEL_SLOT <= i <= HEAP_END_SLOT
    ensures Physical(r)
  {
    if i == KERNEL_SLOT then m
    else
      var prev := CopyHeap(m, master, n, i - 1);
      var e := Word(prev, master, i - 1);
      if Present(e) then Set(prev, n, i - 1, e) else prev
  }

  function NewDirectory(m: seq<U32>, master: nat, n: nat): (r: seq<U32>)
    requires Physical(m) && master < FRAMES && n < FRAMES
    ensures Physical(r)
  {
    var m1 := Blank(m, n, 1024);
    var m2 := Set(m1, n, 0, Word(m1, master, 0));
    Set(CopyHeap(m2, master, n, HEAP_END_SLOT), n, 1023, Entry(n * 4096, RW_PRESENT))
  }

  lemma {:induction false} CopyHeapWord(m: seq<U32>, master: nat, n: nat, i: nat, f: nat, j: nat)
    requires Physical(m) && master < FRAMES && n < FRAMES && n != master && KERNEL_SLOT <= i <= HEAP_END_SLOT && f < FRAMES && j < 1024
    ensures Word(CopyHeap(m, master, n, i), f, j) ==
      if f == n && KERNEL_SLOT <= j < i && Present(Word(m, master, j)) then Word(m, master, j) else Word(m, f, j)
    decreases i
  {
    hide Word, Set, Present;
    if i > KERNEL_SLOT {
      var prev := CopyHeap(m, master, n, i - 1);
      CopyHeapWord(m, master, n, i - 1, f, j);
      CopyHeapWord(m, master, n, i - 1, master, i - 1);
      WordSet(prev, n, i - 1, Word(prev, master, i - 1), f, j);
    }
  }

  /** A new directory: the master's first slot and heap slots, itself in the last, nothing
      else; no other frame changes. */
  lemma NewDirectoryWord(m: seq<U32>, master: nat, n: nat, f: nat, j: nat)
    requires Physical(m) && master < FRAMES && n < FRAMES && n != master && f < FRAMES && j < 1024
    ensures Word(NewDirectory(m, master, n), f, j) ==
      if f != n then Word(m, f, j)
      else if j == 1023 then Entry(n * 4096, RW_PRESENT)
      else if j == 0 || (KERNEL_SLOT <= j < HEAP_END_SLOT && Present(Word(m, master, j))) then Word(m, master, j)
      else 0
  {
    hide Word, Set, Present, Entry, Blank, CopyHeap;
    var m1 := Blank(m, n, 1024);
    var m2 := Set(m1, n, 0, Word(m1, master, 0));
    var m3 := CopyHeap(m2, master, n, HEAP_END_SLOT);
    WordBlank(m, n, 1024, f, j);
    WordBlank(m, n, 1024, master, j);
    WordSet(m1, n, 0, Word(m1, master, 0), f, j);
    WordSet(m1, n, 0, Word(m1, master, 0), master, j);
    CopyHeapWord(m2, master, n, HEAP_END_SLOT, f, j);
    WordSet(m3, n, 1023, Entry(n * 4096, RW_PRESENT), f, j);
  }

  function WithDirectory(l: Layout, n: nat): Layout {
    l.(dirs := l.dirs + {n})
  }

  lemma NewDirectorySound(m: seq<U32>, l: Layout, n: nat)
    requires Sound(m, l) && Unused(l, n) && n < 1024
    ensures l.master < FRAMES && Sound(NewDirectory(m, l.master, n), WithDirectory(l, n))
  {
    hide Word, NewDirectory, Entry, FrameOf, Present;
    var m', l' := NewDirectory(m, l.master, n), WithDirectory(l, n);
    forall d, i | d in l'.dirs && 0 <= i < 1024
      ensures SlotOk(m', l', d, i)
    {
      NewDirectorySlot(m, l, n, d, i);
    }
    forall i | 0 <= i < 1024
      ensures MapsTo(i, Word(m', l.low, i))
    {
      NewDirectoryWord(m, l.master, n, l.low, i);
    }
  }

  lemma NewDirectorySlot(m: seq<U32>, l: Layout, n: nat, d: nat, i: nat)
    requires Sound(m, l) && Unused(l, n) && n < 1024 && d in WithDirectory(l, n).dirs && i < 1024
    ensures l.master < FRAMES && d < FRAMES && SlotOk(NewDirectory(m, l.master, n), WithDirectory(l, n), d, i)
  {
    hide Word, NewDirectory, Entry, FrameOf, Present;
    AbsentZero();
    SlotAt(m, l, l.master, i);
    NewDirectoryWord(m, l.master, n, d, i);
    NewDirectoryWord(m, l.master, n, l.master, i);
    if d != n {
      SlotAt(m, l, d, i);
    }
  }

  /** The new address space: the first 4 MB and the kernel heap as the master has them, and
      nothing else; other address spaces are as before. */
  lemma NewDirectoryLook(m: seq<U32>, l: Layout, n: nat, d: nat, q: nat)
    requires Sound(m, l) && Unused(l, n) && n < 1024 && d in WithDirectory(l, n).dirs && q < 1023 * 1024
    ensures l.master < FRAMES && d < FRAMES
    ensures Look(NewDirectory(m, l.master, n), d, q) ==
      if d != n then Look(m, d, q)
      else if q / 1024 == 0 || KERNEL_SLOT <= q / 1024 < HEAP_END_SLOT then Look(m, l.master, q)
      else None
  {
    hide Word, NewDirectory, Entry, FrameOf, Present;
    AbsentZero();
    var from := if d == n then l.master else d;
    SlotAt(m, l, l.master, q / 1024);
    SlotAt(m, l, from, q / 1024);
    NewDirectoryWord(m, l.master, n, d, q / 1024);
    if Present(Word(m, from, q / 1024)) {
      TableKind(m, l, from, q / 1024);
      NewDirectoryWord(m, l.master, n, FrameOf(Word(m, from, q / 1024)), q % 1024);
    }
  }

  // ---- runs

  datatype System = System(m: seq<U32>, l: Layout, cur: nat)

  /** create-directory with the frame it gets, drop, switch, map with the frame a new table
      would get, unmap, and a page fault the handler can serve. */
  datatype Op = NewDir(n: nat) | DropDir(d: nat) | Switch(d: nat) | Map(page: nat, e: U32, n: nat) | Unmap(page: nat) | Fault(va: U32)

  ghost predicate SystemOk(s: System) {
    Sound(s.m, s.l) && s.cur in s.l.dirs
  }

  ghost predicate Step(s: System, op: Op, t: System) {
    Physical(s.m) && s.cur < FRAMES && s.l.master < FRAMES &&
    match op
    case NewDir(n) => Unused(s.l, n) && n < 1024 && t == System(NewDirectory(s.m, s.l.master, n), WithDirectory(s.l, n), s.cur)
    case DropDir(d) => d != s.cur && d != s.l.master && t == s.(l := s.l.(dirs := s.l.dirs - {d}))
    case Switch(d) => d in s.l.dirs && t == s.(cur := d)
    case Map(page, e, n) =>
      page < FRAMES && n < FRAMES && Mappable(page) && KeepsLow(page, e) && TableReady(s.m, s.l, s.cur, page / 1024, n)
      && t == System(MapPage(s.m, s.cur, s.l.master, page, e, n), WithOwner(s.l, s.m, s.cur, page / 1024, n), s.cur)
    case Unmap(page) => page < FRAMES && Inner(page / 1024) && t == s.(m := UnmapPage(s.m, s.cur, page))
    case Fault(va) => Syncs(s.m, s.l.master, va) && t == s.(m := Sync(s.m, s.cur, s.l.master, va / 0x40_0000))
  }

  lemma DropSound(m: seq<U32>, l: Layout, d: nat)
    requires Sound(m, l) && d != l.master
    ensures Sound(m, l.(dirs := l.dirs - {d}))
  {
    hide Word, Entry, FrameOf, Present;
    var l' := l.(dirs := l.dirs - {d});
    forall e, i | e in l'.dirs && 0 <= i < 1024
      ensures SlotOk(m, l', e, i)
    {
      SlotAt(m, l, e, i);
    }
  }

  lemma FaultSlot(va: U32)
    requires va >= KERNEL_BASE && va / 0x40_0000 < 1023
    ensures KERNEL_SLOT <= va / 0x40_0000 < 1023
  {
  }

  lemma StepSound(s: System, op: Op, t: System)
    requires SystemOk(s) && Step(s, op, t)
    ensures SystemOk(t)
  {
    hide Word, NewDirectory, MapPage, UnmapPage, Sync, Sound, Unused, TableReady;
    match op
    case NewDir(n) => NewDirectorySound(s.m, s.l, n);
    case DropDir(d) => DropSound(s.m, s.l, d);
    case Switch(d) =>
    case Map(page, e, n) =>
      MapSoundIff(s.m, s.l, s.cur, page, e, n);
      PageSlot(page);
      SameDirs(s.l, s.m, s.cur, page / 1024, n);
    case Unmap(page) => UnmapSound(s.m, s.l, s.cur, page);
    case Fault(va) =>
      FaultSlot(va);
      SyncSound(s.m, s.l, s.cur, va / 0x40_0000);
  }

  ghost predicate IsRun(states: seq<System>, ops: seq<Op>) {
    |states| == |ops| + 1 && forall k {:trigger ops[k]} :: 0 <= k < |ops| ==> Step(states[k], ops[k], states[k + 1])
  }

  lemma RunPrefix(states: seq<System>, ops: seq<Op>)
    requires IsRun(states, ops) && ops != []
    ensures var n := |ops| - 1;
      |states| == n + 2 && IsRun(states[..n + 1], ops[..n]) && Step(states[n], ops[n], states[n + 1])
  {
    hide Step;
    var n := |ops| - 1;
    assert forall k :: 0 <= k < n ==> ops[..n][k] == ops[k];
    assert Step(states[n], ops[n], states[n + 1]);
  }

  /** Over every run: heap slots of each directory are absent or the master's, tables of
      different owners are different frames, and every directory maps itself and the first
      4 MB. */
  lemma {:induction false} RunsStaySound(states: seq<System>, ops: seq<Op>)
    requires IsRun(states, ops) && SystemOk(states[0])
    ensures |states| == |ops| + 1 && SystemOk(states[|ops|])
    decreases |ops|
  {
    hide Step, SystemOk;
    if ops != [] {
      var n := |ops| - 1;
      RunPrefix(states, ops);
      RunsStaySound(states[..n + 1], ops[..n]);
      StepSound(states[n], ops[n], states[n + 1]);
    }
  }

  /** A step changes no user page of a directory that is not the current one.  The first
      4 MB are shared by all; there the frame stays (RunsKeepLow). */
  lemma StepSeparate(s: System, op: Op, t: System, d: nat, q: nat)
    requires SystemOk(s) && Step(s, op, t) && d in s.l.dirs && d != s.cur && 0 < q / 1024 < KERNEL_SLOT && op != DropDir(d)
    ensures Physical(s.m) && Physical(t.m) && d < FRAMES && q < FRAMES
    ensures d in t.l.dirs && Look(t.m, d, q) == Look(s.m, d, q)
  {
    hide Word, NewDirectory, MapPage, UnmapPage, Sync, Sound, TableReady, Look;
    SlotAt(s.m, s.l, d, 0);
    IsPhysical(s.m, s.l);
    match op
    case NewDir(n) => NewDirectoryLook(s.m, s.l, n, d, q);
    case DropDir(e) =>
    case Switch(e) =>
    case Map(page, e, n) =>
      PageSlot(page);
      SameDirs(s.l, s.m, s.cur, page / 1024, n);
      MapSoundIff(s.m, s.l, s.cur, page, e, n);
      MapLook(s.m, s.l, s.cur, page, e, n, d, q);
    case Unmap(page) => UnmapLook(s.m, s.l, s.cur, page, d, q);
    case Fault(va) =>
      FaultSlot(va);
      SyncLook(s.m, s.l, s.cur, va / 0x40_0000, d, q);
  }

  lemma IsPhysical(m: seq<U32>, l: Layout)
    requires Sound(m, l)
    ensures Physical(m)
  {
  }

  lemma PageSlot(page: nat)
    requires page < FRAMES
    ensures page / 1024 < 1024
  {
  }

  /** Over every run every directory in use translates the first 4 MB to themselves, though
      the flags of those pages may change for all. */
  lemma RunsKeepLow(states: seq<System>, ops: seq<Op>)
    requires IsRun(states, ops) && SystemOk(states[0])
    ensures |states| == |ops| + 1 && LowUsable(states[|ops|].m, states[|ops|].l)
  {
    hide LowUsable, Sound, IsRun;
    RunsStaySound(states, ops);
    SoundIsUsable(states[|ops|].m, states[|ops|].l);
  }

  /** Separation: as long as a directory is never the current one, whatever the others map,
      unmap, create or fault in, its user pages are translated as before. */
  lemma {:induction false} RunsSeparate(states: seq<System>, ops: seq<Op>, d: nat, q: nat)
    requires IsRun(states, ops) && SystemOk(states[0]) && d in states[0].l.dirs && 0 < q / 1024 < KERNEL_SLOT && DropDir(d) !in ops
    requires forall k {:trigger states[k]} :: 0 <= k < |ops| ==> states[k].cur != d
    ensures |states| == |ops| + 1 && d < FRAMES && q < FRAMES && Physical(states[0].m) && Physical(states[|ops|].m)
    ensures d in states[|ops|].l.dirs && Look(states[|ops|].m, d, q) == Look(states[0].m, d, q)
    decreases |ops|
  {
    hide Step, SystemOk, Look, Sound;
    CurrentOk(states[0], d);
    if ops != [] {
      var n := |ops| - 1;
      RunPrefix(states, ops);
      assert forall op :: op in ops[..n] ==> op in ops;
      RunsStaySound(states[..n + 1], ops[..n]);
      RunsSeparate(states[..n + 1], ops[..n], d, q);
      assert ops[n] in ops;
      StepSeparate(states[n], ops[n], states[n + 1], d, q);
    }
  }

  lemma CurrentOk(s: System, d: nat)
    requires SystemOk(s) && d in s.l.dirs
    ensures Physical(s.m) && d < FRAMES
  {
    SlotAt(s.m, s.l, d, 0);
  }

  // ---- getting out of sync

  /** Three steps from a sound state with the master current: make a directory, map a page
      in a heap slot the master did not have, switch.  The new directory then lacks a
      kernel table the master has, and no frame makes it ready for one of its own. */
  lemma ReachesOutOfSync(s: System, n: nat, page: nat, e: U32, k: nat) returns (s1: System, s2: System, s3: System)
    requires SystemOk(s) && Physical(s.m) && s.cur == s.l.master < FRAMES
    requires Unused(s.l, n) && n < 1024 && Unused(s.l, k) && k != n && page < FRAMES
    requires KERNEL_SLOT <= page / 1024 < HEAP_END_SLOT && !Present(Word(s.m, s.l.master, page / 1024))
    ensures IsRun([s, s1, s2, s3], [NewDir(n), Map(page, e, k), Switch(n)]) && SystemOk(s3)
    ensures s3.cur == n && s3.l.master == s.l.master && n < FRAMES
    ensures !Present(Word(s3.m, n, page / 1024)) && Present(Word(s3.m, s3.l.master, page / 1024))
    ensures forall x: nat :: !TableReady(s3.m, s3.l, n, page / 1024, x)
    ensures forall j :: KERNEL_SLOT <= j < HEAP_END_SLOT && Present(Word(s.m, s.l.master, j)) ==> Present(Word(s3.m, n, j)) && Present(Word(s3.m, s3.l.master, j))
  {
    hide Word, NewDirectory, MapPage, Sound, Entry, FrameOf, Present, Set, WithTable;
    var slot := page / 1024;
    IsPhysical(s.m, s.l);
    SlotAt(s.m, s.l, s.l.master, slot);
    s1 := System(NewDirectory(s.m, s.l.master, n), WithDirectory(s.l, n), s.cur);
    s2 := System(MapPage(s1.m, s1.cur, s1.l.master, page, e, k), WithOwner(s1.l, s1.m, s1.cur, slot, k), s1.cur);
    s3 := s2.(cur := n);
    AbsentZero();
    NewDirectoryWord(s.m, s.l.master, n, n, slot);
    NewDirectoryWord(s.m, s.l.master, n, s.l.master, slot);
    StepSound(s, NewDir(n), s1);
    StepSound(s1, Map(page, e, k), s2);
    SameDirs(s1.l, s1.m, s1.cur, slot, k);
    forall f, j | (f == n || f == s.l.master) && KERNEL_SLOT <= j < HEAP_END_SLOT
      ensures f < FRAMES && Word(s2.m, f, j) == if f == s.l.master && j == slot then Entry(k * 4096, ALL_FLAGS) else Word(s1.m, f, j)
    {
      MappedWord(s1, page, e, k, f, j);
    }
    forall j | KERNEL_SLOT <= j < HEAP_END_SLOT && Present(Word(s.m, s.l.master, j))
      ensures Present(Word(s3.m, n, j)) && Present(Word(s3.m, s3.l.master, j))
    {
      NewDirectoryWord(s.m, s.l.master, n, n, j);
      NewDirectoryWord(s.m, s.l.master, n, s.l.master, j);
      EntryParts(k);
    }
    EntryParts(k);
  }

  /** The directories' entries after map_page made a table. */
  lemma MappedWord(s: System, page: nat, e: U32, k: nat, f: nat, j: nat)
    requires SystemOk(s) && Physical(s.m) && s.cur < FRAMES && s.l.master < FRAMES && page < FRAMES && k < FRAMES
    requires Step(s, Map(page, e, k), System(MapPage(s.m, s.cur, s.l.master, page, e, k), WithOwner(s.l, s.m, s.cur, page / 1024, k), s.cur))
    requires !Present(Word(s.m, s.cur, page / 1024)) && s.cur == s.l.master && f in s.l.dirs && Inner(j)
    ensures f < FRAMES
    ensures Word(MapPage(s.m, s.cur, s.l.master, page, e, k), f, j)
      == if f == s.l.master && j == page / 1024 then Entry(k * 4096, ALL_FLAGS) else Word(s.m, f, j)
  {
    hide Word, Entry, FrameOf, Present, Set, NewTable;
    SlotAt(s.m, s.l, f, j);
    SlotAt(s.m, s.l, s.cur, page / 1024);
    EntryParts(k);
    var m1 := NewTable(s.m, s.cur, s.l.master, page / 1024, k);
    NewTableWord(s.m, s.cur, s.l.master, page / 1024, k, s.cur, page / 1024);
    NewTableWord(s.m, s.cur, s.l.master, page / 1024, k, f, j);
    WordSet(m1, k, page % 1024, e, f, j);
  }
}
