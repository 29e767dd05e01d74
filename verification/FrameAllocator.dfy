/**
 mm/pmm.cpp: a bitmap of physical page frames, one bit a frame, 1 for used.
 */
module FrameAllocator {
  import opened Machine

  const MAX_PAGES := 1024 * 1024
  const BITMAP_SIZE := 32768
  const WRAP := 0x1_0000_0000

  // ---- bits of a word

  /** 1 << j */
  function Mask(j: nat): bv32
    requires j < 32
  {
    if j == 0 then 1 else Mask(j - 1) << 1
  }

  lemma ShiftedApart(a: bv32, b: bv32)
    requires And(a, b) == 0
    ensures And(a << 1, b << 1) == 0
  {
  }

  lemma ShiftedEven(a: bv32)
    ensures And(a << 1, 1) == 0 && And(1, a << 1) == 0
  {
  }

  lemma {:induction false} MasksApart(i: nat, j: nat)
    requires i < 32 && j < 32 && i != j
    ensures And(Mask(i), Mask(j)) == 0
    decreases i + j
  {
    if i == 0 {
      ShiftedEven(Mask(j - 1));
    } else if j == 0 {
      ShiftedEven(Mask(i - 1));
    } else {
      MasksApart(i - 1, j - 1);
      ShiftedApart(Mask(i - 1), Mask(j - 1));
    }
  }

  /** The 32 masks are the 32 powers of two. */
  lemma MaskValues()
    ensures Mask(0) == 0x1 && Mask(1) == 0x2 && Mask(2) == 0x4 && Mask(3) == 0x8
    ensures Mask(4) == 0x10 && Mask(5) == 0x20 && Mask(6) == 0x40 && Mask(7) == 0x80
    ensures Mask(8) == 0x100 && Mask(9) == 0x200 && Mask(10) == 0x400 && Mask(11) == 0x800
    ensures Mask(12) == 0x1000 && Mask(13) == 0x2000 && Mask(14) == 0x4000 && Mask(15) == 0x8000
    ensures Mask(16) == 0x10000 && Mask(17) == 0x20000 && Mask(18) == 0x40000 && Mask(19) == 0x80000
    ensures Mask(20) == 0x100000 && Mask(21) == 0x200000 && Mask(22) == 0x400000 && Mask(23) == 0x800000
    ensures Mask(24) == 0x1000000 && Mask(25) == 0x2000000 && Mask(26) == 0x4000000 && Mask(27) == 0x8000000
    ensures Mask(28) == 0x10000000 && Mask(29) == 0x20000000 && Mask(30) == 0x40000000 && Mask(31) == 0x80000000
  {
    assert Mask(3) == 0x8;
    assert Mask(6) == 0x40;
    assert Mask(9) == 0x200;
    assert Mask(12) == 0x1000;
    assert Mask(15) == 0x8000;
    assert Mask(18) == 0x40000;
    assert Mask(21) == 0x200000;
    assert Mask(24) == 0x1000000;
    assert Mask(27) == 0x8000000;
    assert Mask(30) == 0x40000000;
  }

  function And(w: bv32, a: bv32): bv32 { w & a }
  function Or(w: bv32, a: bv32): bv32 { w | a }
  function AndNot(w: bv32, a: bv32): bv32 { w & !a }

  predicate Bit(w: bv32, j: nat)
    requires j < 32
  {
    And(w, Mask(j)) != 0
  }

  lemma OrApart(w: bv32, a: bv32, b: bv32)
    requires And(a, b) == 0
    ensures And(Or(w, a), b) == And(w, b)
  {
  }

  lemma AndApart(w: bv32, a: bv32, b: bv32)
    requires And(a, b) == 0
    ensures And(AndNot(w, a), b) == And(w, b)
  {
  }

  lemma {:induction false} MaskNonZero(j: nat)
    requires j < 32
    ensures Mask(j) != 0 && (j < 31 ==> Mask(j) < 0x80000000)
  {
    MaskValues();
    assert j == 0 || j == 1 || j == 2 || j == 3 || j == 4 || j == 5 || j == 6 || j == 7 || j == 8 || j == 9 || j == 10
      || j == 11 || j == 12 || j == 13 || j == 14 || j == 15 || j == 16 || j == 17 || j == 18 || j == 19 || j == 20
      || j == 21 || j == 22 || j == 23 || j == 24 || j == 25 || j == 26 || j == 27 || j == 28 || j == 29 || j == 30 || j == 31;
  }

  lemma OrOwn(w: bv32, a: bv32)
    requires a != 0
    ensures And(Or(w, a), a) != 0
  {
  }

  lemma AndOwn(w: bv32, a: bv32)
    ensures And(AndNot(w, a), a) == 0
  {
  }

  function SetBit(w: bv32, j: nat): bv32
    requires j < 32
  {
    Or(w, Mask(j))
  }

  function ClearBit(w: bv32, j: nat): bv32
    requires j < 32
  {
    AndNot(w, Mask(j))
  }

  lemma SetOwn(w: bv32, j: nat)
    requires j < 32
    ensures Bit(SetBit(w, j), j)
  {
    hide Mask, And, Or, AndNot;
    MaskNonZero(j);
    OrOwn(w, Mask(j));
  }

  lemma ClearOwn(w: bv32, j: nat)
    requires j < 32
    ensures !Bit(ClearBit(w, j), j)
  {
    hide Mask, And, Or, AndNot;
    AndOwn(w, Mask(j));
  }

  lemma SameBit(v: bv32, w: bv32, k: nat)
    requires k < 32 && And(v, Mask(k)) == And(w, Mask(k))
    ensures Bit(v, k) == Bit(w, k)
  {
    hide Mask, And;
  }

  lemma SetOther(w: bv32, j: nat, k: nat)
    requires j < 32 && k < 32 && j != k
    ensures Bit(SetBit(w, j), k) == Bit(w, k)
  {
    hide Mask, Bit, And, Or, AndNot;
    MasksApart(j, k);
    OrApart(w, Mask(j), Mask(k));
    SameBit(SetBit(w, j), w, k);
  }

  lemma ClearOther(w: bv32, j: nat, k: nat)
    requires j < 32 && k < 32 && j != k
    ensures Bit(ClearBit(w, j), k) == Bit(w, k)
  {
    hide Mask, Bit, And, Or, AndNot;
    MasksApart(j, k);
    AndApart(w, Mask(j), Mask(k));
    SameBit(ClearBit(w, j), w, k);
  }

  /** Setting or clearing a bit changes that bit alone. */
  lemma BitChanged(w: bv32, j: nat, k: nat)
    requires j < 32 && k < 32
    ensures Bit(SetBit(w, j), k) == (k == j || Bit(w, k))
    ensures Bit(ClearBit(w, j), k) == (k != j && Bit(w, k))
  {
    hide Mask, Bit, SetBit, ClearBit;
    if j == k {
      SetOwn(w, j);
      ClearOwn(w, j);
    } else {
      SetOther(w, j, k);
      ClearOther(w, j, k);
    }
  }

  /** A word is all ones exactly when each of its bits is set. */
  lemma AllOnes(w: bv32)
    ensures w == 0xFFFFFFFF <==> forall j :: 0 <= j < 32 ==> Bit(w, j)
  {
    MaskValues();
    if forall j :: 0 <= j < 32 ==> Bit(w, j) {
      assert Bit(w, 0) && Bit(w, 1) && Bit(w, 2) && Bit(w, 3) && Bit(w, 4) && Bit(w, 5) && Bit(w, 6) && Bit(w, 7);
      assert Bit(w, 8) && Bit(w, 9) && Bit(w, 10) && Bit(w, 11) && Bit(w, 12) && Bit(w, 13) && Bit(w, 14) && Bit(w, 15);
      assert Bit(w, 16) && Bit(w, 17) && Bit(w, 18) && Bit(w, 19) && Bit(w, 20) && Bit(w, 21) && Bit(w, 22) && Bit(w, 23);
      assert Bit(w, 24) && Bit(w, 25) && Bit(w, 26) && Bit(w, 27) && Bit(w, 28) && Bit(w, 29) && Bit(w, 30) && Bit(w, 31);
    }
    if w == 0xFFFFFFFF {
      forall j | 0 <= j < 32
        ensures Bit(w, j)
      {
        MaskNonZero(j);
        AndOnes(Mask(j));
      }
    }
  }

  lemma AndOnes(a: bv32)
    ensures 0xFFFFFFFF & a == a
  {
  }

  // ---- the bitmap

  predicate Test(m: seq<bv32>, p: nat)
    requires |m| == BITMAP_SIZE && p < MAX_PAGES
  {
    Bit(m[p / 32], p % 32)
  }

  /** The bitmap marks exactly these pages, of the first `total`, as used. */
  ghost predicate Marks(m: seq<bv32>, total: nat, used: set<nat>) {
    && |m| == BITMAP_SIZE && total <= MAX_PAGES
    && forall p {:trigger Test(m, p)} {:trigger p in used} :: 0 <= p < total ==> (Test(m, p) <==> p in used)
  }

  lemma PageWord(p: nat, q: nat)
    ensures p == 32 * (p / 32) + p % 32 && (p / 32 == q / 32 && p % 32 == q % 32 ==> p == q)
  {
  }

  lemma TestSet(m: seq<bv32>, p: nat, q: nat)
    requires |m| == BITMAP_SIZE && p < MAX_PAGES && q < MAX_PAGES
    ensures Test(m[p / 32 := SetBit(m[p / 32], p % 32)], q) == (q == p || Test(m, q))
    ensures Test(m[p / 32 := ClearBit(m[p / 32], p % 32)], q) == (q != p && Test(m, q))
  {
    hide Bit, Mask, SetBit, ClearBit;
    PageWord(p, q);
    BitChanged(m[p / 32], p % 32, q % 32);
  }

  lemma MarkSet(m: seq<bv32>, total: nat, used: set<nat>, p: nat)
    requires Marks(m, total, used) && p < total
    ensures Marks(m[p / 32 := SetBit(m[p / 32], p % 32)], total, used + {p})
    ensures Marks(m[p / 32 := ClearBit(m[p / 32], p % 32)], total, used - {p})
  {
    hide Test, Mask, Bit, SetBit, ClearBit;
    forall q | 0 <= q < total
      ensures Test(m[p / 32 := SetBit(m[p / 32], p % 32)], q) <==> q in used + {p}
      ensures Test(m[p / 32 := ClearBit(m[p / 32], p % 32)], q) <==> q in used - {p}
    {
      TestSet(m, p, q);
    }
  }

  // ---- regions

  /** Low words of an address range, and whether the map calls it available. */
  datatype Region = Region(base: U32, len: U32, available: bool)

  function FirstWhole(r: Region): nat { (r.base + PAGE_SIZE - 1) % WRAP / PAGE_SIZE }
  function EndWhole(r: Region): nat { (r.base + r.len) % WRAP / PAGE_SIZE }

  /** Pages pmm_mark_region_free opens. */
  predicate Opens(r: Region, p: nat) {
    FirstWhole(r) <= p < EndWhole(r)
  }

  /** The page lies wholly inside the region. */
  predicate Inside(r: Region, p: nat) {
    r.base <= p * PAGE_SIZE && p * PAGE_SIZE + PAGE_SIZE <= r.base + r.len
  }

  /** Does rounding the start up to a page wrap? */
  predicate StartWraps(r: Region) {
    r.base + PAGE_SIZE - 1 >= WRAP
  }

  /** Pages outside the region are opened exactly when the rounded start wraps to page 0
      and the end, cut to 32 bits, is not in that page. */
  predicate OpensOutside(r: Region) {
    StartWraps(r) && (r.base + r.len) % WRAP >= PAGE_SIZE
  }

  lemma OpensOutsideIff(r: Region)
    ensures (exists p: nat :: Opens(r, p) && !Inside(r, p)) <==> OpensOutside(r)
  {
    if OpensOutside(r) {
      assert Opens(r, 0) && !Inside(r, 0);
    } else {
      forall p: nat | Opens(r, p)
        ensures Inside(r, p)
      {
        NothingOutside(r, p);
      }
    }
  }

  lemma NothingOutside(r: Region, p: nat)
    requires !OpensOutside(r) && Opens(r, p)
    ensures Inside(r, p)
  {
  }

  /** Pages opened are exactly those wholly inside, over the whole address space, exactly
      when neither computation wraps or the start does and then nothing is opened. */
  predicate OpensExactly(r: Region) {
    if StartWraps(r) then (r.base + r.len) % WRAP < PAGE_SIZE else r.base + r.len < WRAP
  }

  lemma OpensExactlyIff(r: Region)
    ensures (forall p: nat {:trigger Opens(r, p)} :: p < MAX_PAGES ==> (Opens(r, p) <==> Inside(r, p))) <==> OpensExactly(r)
  {
    if OpensExactly(r) {
      forall p: nat | p < MAX_PAGES
        ensures Opens(r, p) <==> Inside(r, p)
      {
        OpensWholePages(r, p);
      }
    } else {
      OpensWrongly(r);
    }
  }

  lemma OpensWholePages(r: Region, p: nat)
    requires OpensExactly(r) && p < MAX_PAGES
    ensures Opens(r, p) <==> Inside(r, p)
  {
  }

  /** Otherwise page 0 is opened from outside, or the last page is missed inside. */
  lemma OpensWrongly(r: Region)
    requires !OpensExactly(r)
    ensures if StartWraps(r) then Opens(r, 0) && !Inside(r, 0) else !Opens(r, MAX_PAGES - 1) && Inside(r, MAX_PAGES - 1)
  {
  }

  function PageCount(len: nat): nat {
    (len + PAGE_SIZE - 1) % WRAP / PAGE_SIZE
  }

  /** Pages pmm_mark_region_used closes. */
  predicate Closes(base: U32, len: U32, p: nat) {
    base / PAGE_SIZE <= p < base / PAGE_SIZE + PageCount(len)
  }

  /** For a page-aligned range they are those that overlap it. */
  lemma ClosesTouched(base: U32, len: U32, p: nat)
    requires base % PAGE_SIZE == 0 && len + PAGE_SIZE - 1 < WRAP
    ensures Closes(base, len, p) <==> p * PAGE_SIZE < base + len && base < p * PAGE_SIZE + PAGE_SIZE
  {
  }

  // ---- boot information

  /** What the boot loader passes, as far as init_pmm reads it. */
  datatype BootInfo = BootInfo(magicOk: bool, hasMemory: bool, memUpper: U32, hasMap: bool, ranges: seq<Region>)

  function SizeKb(b: BootInfo): U32 {
    if b.magicOk && b.hasMemory then (1024 + b.memUpper) % WRAP else 128 * 1024
  }

  function TotalPages(b: BootInfo): (n: nat)
    ensures n < MAX_PAGES
  {
    SizeKb(b) * 1024 % WRAP / PAGE_SIZE
  }

  /** With the size the boot loader gives, the pages managed are those wholly inside the
      memory, exactly when that size in bytes does not wrap; without one, 128 MB. */
  lemma TotalExactIff(b: BootInfo)
    ensures b.magicOk && b.hasMemory ==>
      (TotalPages(b) * 4 <= 1024 + b.memUpper < TotalPages(b) * 4 + 4 <==> (1024 + b.memUpper) * 1024 < WRAP)
    ensures !(b.magicOk && b.hasMemory) ==> TotalPages(b) == 32768
  {
    SizeWrap(SizeKb(b));
    if b.magicOk && b.hasMemory && 1024 + b.memUpper >= WRAP {
      assert SizeKb(b) < 1024;
    }
  }

  lemma SizeWrap(kb: U32)
    ensures kb * 1024 < WRAP ==> kb * 1024 % WRAP / PAGE_SIZE == kb / 4
    ensures kb * 1024 >= WRAP ==> kb * 1024 % WRAP / PAGE_SIZE + MAX_PAGES <= kb / 4
  {
    assert kb * 1024 == kb * 1024 / WRAP * WRAP + kb * 1024 % WRAP;
  }

  /** The ranges init_pmm opens: the available ones of the map, or everything above 1 MB. */
  function Ranges(b: BootInfo): seq<Region> {
    if b.magicOk && b.hasMap then b.ranges
    else [Region(0x10_0000, (SizeKb(b) - 1024) % WRAP * 1024 % WRAP, true)]
  }

  ghost predicate OpenedBy(rs: seq<Region>, p: nat) {
    exists k {:trigger rs[k]} :: 0 <= k < |rs| && rs[k].available && Opens(rs[k], p)
  }

  ghost predicate InsideSome(rs: seq<Region>, p: nat) {
    exists k {:trigger rs[k]} :: 0 <= k < |rs| && rs[k].available && Inside(rs[k], p)
  }

  /** Without a map, exactly the managed pages from 1 MB on are opened. */
  lemma FallbackOpens(b: BootInfo, p: nat)
    requires !(b.magicOk && b.hasMap)
    ensures OpenedBy(Ranges(b), p) <==> 256 <= p < TotalPages(b)
  {
    var rs := Ranges(b);
    EndWraps(SizeKb(b));
    assert rs[0].available && (Opens(rs[0], p) <==> 256 <= p < TotalPages(b));
  }

  lemma EndWraps(kb: U32)
    ensures (0x10_0000 + (kb - 1024) % WRAP * 1024 % WRAP) % WRAP == kb * 1024 % WRAP
  {
    var d := (kb - 1024) % WRAP;
    assert d == kb - 1024 || d == kb - 1024 + WRAP;
    var e := d * 1024 % WRAP;
    assert d * 1024 == d * 1024 / WRAP * WRAP + e;
    assert kb * 1024 == kb * 1024 / WRAP * WRAP + kb * 1024 % WRAP;
  }

  /** If every available range is of that kind, the pages opened at boot are exactly those
      wholly inside an available range. */
  lemma OpenedIsInside(rs: seq<Region>, p: nat)
    requires p < MAX_PAGES && forall k {:trigger rs[k]} :: 0 <= k < |rs| && rs[k].available ==> OpensExactly(rs[k])
    ensures OpenedBy(rs, p) <==> InsideSome(rs, p)
  {
    hide Opens, Inside, OpensExactly;
    forall k | 0 <= k < |rs| && rs[k].available
      ensures Opens(rs[k], p) <==> Inside(rs[k], p)
    {
      OpensWholePages(rs[k], p);
    }
  }

  /** The first megabyte and the kernel's image. */
  predicate Protected(kernelEnd: U32, p: nat)
    requires 0x10_0000 <= kernelEnd
  {
    Closes(0, 0x10_0000, p) || Closes(0x10_0000, kernelEnd - 0x10_0000, p)
  }

  /** The protected pages are exactly the ones below the end of the kernel. */
  lemma ProtectedBelowKernelEnd(kernelEnd: U32, p: nat)
    requires 0x10_0000 <= kernelEnd && kernelEnd + PAGE_SIZE <= WRAP
    ensures Protected(kernelEnd, p) <==> p * PAGE_SIZE < kernelEnd
  {
    ClosesTouched(0, 0x10_0000, p);
    ClosesTouched(0x10_0000, kernelEnd - 0x10_0000, p);
  }

  // ---- the allocator

  /** The lowest unused page at or above p and below n, or n. */
  function LowestFree(used: set<nat>, p: nat, n: nat): (r: nat)
    requires p <= n
    ensures p <= r <= n
    ensures r < n ==> r !in used
    ensures forall q :: p <= q < r ==> q in used
    decreases n - p
  {
    if p == n || p !in used then p else LowestFree(used, p + 1, n)
  }

  function Below(n: nat): (s: set<nat>)
    ensures forall p: nat {:trigger p in s} :: p in s <==> p < n
  {
    if n == 0 then {} else Below(n - 1) + {n - 1}
  }

  class FrameAllocator {
    const bitmap: array<bv32>
    var totalPages: nat
    var usedPages: int
    ghost var used: set<nat>

    /** used_memory_pages counts the set bits below total_memory_pages. */
    ghost predicate Valid()
      reads this, bitmap
    {
      && bitmap.Length == BITMAP_SIZE && totalPages < MAX_PAGES
      && Marks(bitmap[..], totalPages, used)
      && (forall p :: p in used ==> p < totalPages) && usedPages == |used|
    }

    /** bitmap_set: pages beyond the end are ignored, and a page already used is not counted
        again. */
    method BitmapSet(p: nat)
      requires Valid()
      modifies `usedPages, `used, bitmap
      ensures Valid() && used == if p < totalPages then old(used) + {p} else old(used)
    {
      hide Test, Mask, Bit, Marks, SetBit, ClearBit;
      if p < totalPages {
        TestIs(bitmap[..], totalPages, used, p);
        if !Bit(bitmap[p / 32], p % 32) {
          MarkSet(bitmap[..], totalPages, used, p);
          bitmap[p / 32] := SetBit(bitmap[p / 32], p % 32);
          usedPages := usedPages + 1;
        }
        used := used + {p};
      }
    }

    method BitmapUnset(p: nat)
      requires Valid()
      modifies `usedPages, `used, bitmap
      ensures Valid() && used == old(used) - {p}
    {
      hide Test, Mask, Bit, Marks, SetBit, ClearBit;
      if p < totalPages {
        TestIs(bitmap[..], totalPages, used, p);
        if Bit(bitmap[p / 32], p % 32) {
          MarkSet(bitmap[..], totalPages, used, p);
          bitmap[p / 32] := ClearBit(bitmap[p / 32], p % 32);
          usedPages := usedPages - 1;
        }
        used := used - {p};
      }
    }

    static lemma TestIs(m: seq<bv32>, total: nat, used: set<nat>, p: nat)
      requires Marks(m, total, used) && p < total
      ensures Bit(m[p / 32], p % 32) <==> p in used
      ensures p in used ==> used + {p} == used
      ensures p !in used ==> used - {p} == used
    {
      hide Bit, Mask;
      assert Test(m, p) <==> p in used;
    }

    /** find_first_free_page: words below total / 32 only, so up to 31 pages at the end are
        never found. */
    method FindFirstFreePage() returns (r: int)
      requires Valid()
      ensures var n := 32 * (totalPages / 32); r == if LowestFree(used, 0, n) == n then -1 else LowestFree(used, 0, n)
    {
      hide Test, Mask, Bit, Marks, LowestFree;
      ghost var n := 32 * (totalPages / 32);
      for i := 0 to totalPages / 32
        invariant LowestFree(used, 0, n) == LowestFree(used, 32 * i, n)
      {
        WordIs(bitmap[..], totalPages, used, i);
        if bitmap[i] != 0xFFFFFFFF {
          var j := FirstClear(i);
          SkipWord(used, 32 * i, n, j);
          Stops(used, 32 * i + j, n);
          return i * 32 + j;
        }
        SkipWord(used, 32 * i, n, 32);
      }
      Stops(used, n, n);
      return -1;
    }

    static lemma Stops(used: set<nat>, p: nat, n: nat)
      requires p <= n && (p == n || p !in used)
      ensures LowestFree(used, p, n) == p
    {
    }

    /** The inner loop: the first clear bit of a word that is not all ones. */
    method FirstClear(i: nat) returns (j: nat)
      requires Valid() && i < totalPages / 32 && bitmap[i] != 0xFFFFFFFF
      ensures j < 32 && 32 * i + j !in used && forall q :: 32 * i <= q < 32 * i + j ==> q in used
    {
      hide Test, Mask, Bit, Marks;
      for k := 0 to 32
        invariant forall q :: 32 * i <= q < 32 * i + k ==> q in used
        invariant forall l {:trigger Bit(bitmap[i], l)} :: 0 <= l < k ==> Bit(bitmap[i], l)
      {
        TestIs(bitmap[..], totalPages, used, i * 32 + k);
        if !Bit(bitmap[i], k) {
          return k;
        }
      }
      NotAllSet(bitmap[i]);
      assert false;
    }

    static lemma NotAllSet(w: bv32)
      requires w != 0xFFFFFFFF
      ensures !(forall k {:trigger Bit(w, k)} :: 0 <= k < 32 ==> Bit(w, k))
    {
      AllOnes(w);
    }

    /** A word of ones is 32 used pages. */
    static lemma WordIs(m: seq<bv32>, total: nat, used: set<nat>, i: nat)
      requires Marks(m, total, used) && i < total / 32
      ensures m[i] == 0xFFFFFFFF ==> forall q :: 32 * i <= q < 32 * i + 32 ==> q in used
    {
      hide Bit, Mask;
      AllOnes(m[i]);
      if m[i] == 0xFFFFFFFF {
        forall q | 32 * i <= q < 32 * i + 32
          ensures q in used
        {
          assert Test(m, q);
        }
      }
    }

    static lemma {:induction false} SkipWord(used: set<nat>, p: nat, n: nat, k: nat)
      requires p + k <= n && forall q :: p <= q < p + k ==> q in used
      ensures LowestFree(used, p, n) == LowestFree(used, p + k, n)
      decreases k
    {
      if k > 0 {
        SkipWord(used, p + 1, n, k - 1);
      }
    }

    method MarkRegionUsed(base: U32, len: U32)
      requires Valid()
      modifies `usedPages, `used, bitmap
      ensures Valid() && forall p: nat :: p in used <==> p in old(used) || (p < totalPages && Closes(base, len, p))
    {
      hide Marks;
      ghost var used0 := used;
      var startPage := base / PAGE_SIZE;
      var numPages := (len + PAGE_SIZE - 1) % WRAP / PAGE_SIZE;
      for i := 0 to numPages
        invariant Valid()
        invariant forall p: nat :: p in used <==> p in used0 || (p < totalPages && startPage <= p < startPage + i)
      {
        BitmapSet(startPage + i);
      }
    }

    method MarkRegionFree(base: U32, len: U32)
      requires Valid()
      modifies `usedPages, `used, bitmap
      ensures Valid() && forall p: nat :: p in used <==> p in old(used) && !Opens(Region(base, len, true), p)
    {
      hide Marks;
      ghost var used0 := used;
      var startPage := (base + PAGE_SIZE - 1) % WRAP / PAGE_SIZE;
      var endPage := (base + len) % WRAP / PAGE_SIZE;
      var i := startPage;
      while i < endPage
        invariant Valid() && startPage <= i && (i <= endPage || i == startPage)
        invariant forall p: nat :: p in used <==> p in used0 && !(startPage <= p < i)
        decreases endPage - i
      {
        BitmapUnset(i);
        i := i + 1;
      }
    }

    /** init_pmm.  Afterwards a page is free exactly when an available range opens it and it
        is not protected. */
    constructor (memory: array<bv32>, b: BootInfo, kernelEnd: U32)
      requires memory.Length == BITMAP_SIZE && 0x10_0000 <= kernelEnd
      modifies memory
      ensures bitmap == memory && Valid() && totalPages == TotalPages(b)
      ensures forall p: nat :: p in used <==> p < totalPages && (Protected(kernelEnd, p) || !OpenedBy(Ranges(b), p))
    {
      hide Marks, Below, OpenedBy, Ranges, Closes;
      bitmap := memory;
      var memorySizeKb: U32 := if b.magicOk && b.hasMemory then (1024 + b.memUpper) % WRAP else 128 * 1024;
      var total := memorySizeKb * 1024 % WRAP / PAGE_SIZE;
      TotalIs(b);
      totalPages := Least(total, MAX_PAGES);
      usedPages := total;
      used := Below(total);
      new;
      FillOnes();
      AllUsed(total);
      OnesMark(bitmap[..], totalPages, used);
      OpenRanges(b, memorySizeKb);
      MarkRegionUsed(0, 0x10_0000);
      MarkRegionUsed(0x10_0000, kernelEnd - 0x10_0000);
    }

    /** Open the available ranges of the map, or everything above 1 MB. */
    method OpenRanges(b: BootInfo, memorySizeKb: U32)
      requires Valid() && memorySizeKb == SizeKb(b) && used == Below(totalPages)
      modifies `usedPages, `used, bitmap
      ensures Valid() && forall p: nat :: p in used <==> p < totalPages && !OpenedBy(Ranges(b), p)
    {
      hide Marks, Below;
      if b.magicOk && b.hasMap {
        for i := 0 to |b.ranges|
          invariant Valid()
          invariant forall p: nat :: p in used <==> p < totalPages && !OpenedBy(b.ranges[..i], p)
        {
          OneMore(b.ranges, i);
          if b.ranges[i].available {
            MarkRegionFree(b.ranges[i].base, b.ranges[i].len);
          }
        }
        assert b.ranges[..|b.ranges|] == b.ranges;
      } else {
        MarkRegionFree(0x10_0000, (memorySizeKb - 1024) % WRAP * 1024 % WRAP);
        OneRange(Ranges(b)[0]);
      }
    }

    static lemma TotalIs(b: BootInfo)
      ensures TotalPages(b) == SizeKb(b) * 1024 % WRAP / PAGE_SIZE < MAX_PAGES
    {
    }

    /** Lock every page. */
    method FillOnes()
      requires bitmap.Length == BITMAP_SIZE
      modifies bitmap
      ensures forall i :: 0 <= i < BITMAP_SIZE ==> bitmap[i] == 0xFFFFFFFF
    {
      for i := 0 to BITMAP_SIZE
        invariant forall k :: 0 <= k < i ==> bitmap[k] == 0xFFFFFFFF
      {
        bitmap[i] := 0xFFFFFFFF;
      }
    }

    static lemma {:induction false} AllUsed(n: nat)
      ensures |Below(n)| == n
    {
      if n > 0 {
        AllUsed(n - 1);
      }
    }

    static lemma OnesMark(m: seq<bv32>, total: nat, used: set<nat>)
      requires |m| == BITMAP_SIZE && total <= MAX_PAGES && used == Below(total)
      requires forall i :: 0 <= i < BITMAP_SIZE ==> m[i] == 0xFFFFFFFF
      ensures Marks(m, total, used)
    {
      hide Bit, Mask;
      AllOnes(0xFFFFFFFF);
    }

    static lemma OneMore(rs: seq<Region>, i: nat)
      requires i < |rs|
      ensures forall p: nat {:trigger OpenedBy(rs[..i + 1], p)} {:trigger OpenedBy(rs[..i], p)} ::
        OpenedBy(rs[..i + 1], p) <==> OpenedBy(rs[..i], p) || (rs[i].available && Opens(rs[i], p))
    {
      hide Opens;
      var a, b := rs[..i], rs[..i + 1];
      forall p: nat
        ensures OpenedBy(b, p) <==> OpenedBy(a, p) || (rs[i].available && Opens(rs[i], p))
      {
        if OpenedBy(a, p) {
          var k :| 0 <= k < |a| && a[k].available && Opens(a[k], p);
          assert b[k].available && Opens(b[k], p);
        }
        if rs[i].available && Opens(rs[i], p) {
          assert b[i].available;
        }
        if OpenedBy(b, p) {
          var k :| 0 <= k < |b| && b[k].available && Opens(b[k], p);
          assert k < i ==> a[k].available && Opens(a[k], p);
        }
      }
    }

    static lemma OneRange(r: Region)
      requires r.available
      ensures forall p: nat :: OpenedBy([r], p) <==> Opens(r, p)
    {
      assert [r][0] == r;
    }

    /** pmm_alloc_page: the lowest free page among the first 32 * (total / 32), or null. */
    method AllocPage() returns (r: U32)
      requires Valid()
      modifies `usedPages, `used, bitmap
      ensures Valid()
      ensures var n := 32 * (totalPages / 32);
        var p := LowestFree(old(used), 0, n);
        if p == n then r == 0 && used == old(used) else r == p * PAGE_SIZE && used == old(used) + {p}
    {
      hide Marks;
      var freePage := FindFirstFreePage();
      if freePage == -1 {
        return 0;
      }
      BitmapSet(freePage);
      return freePage * PAGE_SIZE;
    }

    method FreePage(addr: U32)
      requires Valid()
      modifies `usedPages, `used, bitmap
      ensures Valid() && used == old(used) - {addr / PAGE_SIZE}
    {
      BitmapUnset(addr / PAGE_SIZE);
    }
  }

  // ---- runs

  /** Used pages, and the ones handed out and not yet given back. */
  datatype Frames = Frames(total: nat, used: set<nat>, out: set<nat>)

  datatype Call = Alloc | Free(p: nat)

  /** One call; callers free only pages they hold. */
  ghost predicate Step(s: Frames, c: Call, t: Frames) {
    match c
    case Alloc =>
      var n := 32 * (s.total / 32);
      var p := LowestFree(s.used, 0, n);
      t == if p == n then s else Frames(s.total, s.used + {p}, s.out + {p})
    case Free(p) => p in s.out && t == Frames(s.total, s.used - {p}, s.out - {p})
  }

  ghost predicate IsRun(states: seq<Frames>, calls: seq<Call>) {
    && |states| == |calls| + 1
    && forall k {:trigger calls[k]} :: 0 <= k < |calls| ==> Step(states[k], calls[k], states[k + 1])
  }

  /** Over every run the used pages are the reserved ones and the outstanding ones, and no
      reserved page is ever handed out: so a page handed out is neither protected nor
      already held by someone. */
  lemma {:induction false} RunsKeepReserved(states: seq<Frames>, calls: seq<Call>, reserved: set<nat>)
    requires IsRun(states, calls) && states[0].used == reserved + states[0].out && reserved !! states[0].out
    ensures states[|calls|].used == reserved + states[|calls|].out && reserved !! states[|calls|].out
    ensures states[|calls|].total == states[0].total
    decreases |calls|
  {
    if calls != [] {
      var n := |calls| - 1;
      assert forall k :: 0 <= k < n ==> calls[..n][k] == calls[k];
      RunsKeepReserved(states[..n + 1], calls[..n], reserved);
      assert Step(states[n], calls[n], states[n + 1]);
    }
  }

  /** In particular a page allocated after any run that started at init is above the kernel,
      was not outstanding, and was the lowest free one. */
  lemma AllocIsFresh(states: seq<Frames>, calls: seq<Call>, b: BootInfo, kernelEnd: U32, p: nat)
    requires 0x10_0000 <= kernelEnd && kernelEnd + PAGE_SIZE <= WRAP
    requires IsRun(states, calls) && states[0].out == {} && states[0].total == TotalPages(b)
    requires forall q: nat :: q in states[0].used <==> q < TotalPages(b) && (Protected(kernelEnd, q) || !OpenedBy(Ranges(b), q))
    requires p == LowestFree(states[|calls|].used, 0, 32 * (TotalPages(b) / 32)) < 32 * (TotalPages(b) / 32)
    ensures p !in states[|calls|].out && kernelEnd <= p * PAGE_SIZE && OpenedBy(Ranges(b), p)
    ensures forall q :: 0 <= q < p ==> q in states[0].used || q in states[|calls|].out
  {
    hide Protected, OpenedBy, Ranges;
    RunsKeepReserved(states, calls, states[0].used);
    ProtectedBelowKernelEnd(kernelEnd, p);
    assert p !in states[0].used;
  }
}
