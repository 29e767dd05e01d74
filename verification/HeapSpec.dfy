/**
 The kernel heap (mm/heap.cpp) as a list of blocks in address order, and what its
 operations do to that list.
 */
module HeapSpec {
  import opened Machine

  const HEAP_START := 0xC000_0000
  const HEAP_MAX := 0xE000_0000
  const HEADER := 16

  /** A header at addr and the payload behind it. */
  datatype Blk = Blk(addr: nat, size: nat, free: bool) {
    function Payload(): nat { addr + HEADER }
    function End(): nat { addr + HEADER + size }
  }

  // ---- the invariant

  /** Block i + 1 starts where block i ends. */
  predicate Linked(bs: seq<Blk>, i: nat) {
    i + 1 < |bs| ==> bs[i + 1].addr == bs[i].End()
  }

  /** Blocks i and i + 1 are not both free. */
  predicate Apart(bs: seq<Blk>, i: nat) {
    i + 1 < |bs| ==> !(bs[i].free && bs[i + 1].free)
  }

  ghost predicate Tiled(bs: seq<Blk>) {
    && (forall i {:trigger bs[i]} :: 0 <= i < |bs| ==> bs[i].addr % 4 == 0 && bs[i].size % 4 == 0)
    && (forall i: nat {:trigger Linked(bs, i)} :: Linked(bs, i))
  }

  ghost predicate Coalesced(bs: seq<Blk>) {
    forall i: nat {:trigger Apart(bs, i)} :: Apart(bs, i)
  }

  /** Blocks fill the heap without gaps, and sizes are multiples of 4. */
  ghost predicate Span(bs: seq<Blk>, end: nat) {
    bs != [] && Tiled(bs) && bs[0].addr == HEAP_START && bs[|bs| - 1].End() == end && end <= HEAP_MAX
  }

  /** Also, no two free blocks are neighbours, and the heap is a whole number of pages. */
  ghost predicate Heap(bs: seq<Blk>, end: nat) {
    Span(bs, end) && Coalesced(bs) && (end - HEAP_START) % PAGE_SIZE == 0
  }

  /** Blocks lie one after the other, so their headers and payloads are disjoint. */
  lemma {:induction false} Ordered(bs: seq<Blk>, i: nat, j: nat)
    requires Tiled(bs) && i < j < |bs|
    ensures bs[i].End() <= bs[j].addr
    decreases j - i
  {
    if j > i + 1 {
      Ordered(bs, i, j - 1);
    }
    assert Linked(bs, j - 1);
  }

  lemma {:induction false} Inside(bs: seq<Blk>, end: nat, i: nat)
    requires Span(bs, end) && i < |bs|
    ensures HEAP_START <= bs[i].addr && bs[i].End() <= end && bs[i].addr % 4 == 0 && Tiled(bs)
  {
    if i > 0 {
      Ordered(bs, 0, i);
    }
    if i < |bs| - 1 {
      Ordered(bs, i, |bs| - 1);
    }
  }

  function Total(bs: seq<Blk>): nat {
    if bs == [] then 0 else Total(bs[..|bs| - 1]) + HEADER + bs[|bs| - 1].size
  }

  /** Nothing is lost: headers and payloads, free and live, add up to the whole heap. */
  lemma {:induction false} TotalIsSpan(bs: seq<Blk>)
    requires Tiled(bs) && bs != []
    ensures bs[0].addr + Total(bs) == bs[|bs| - 1].End()
    decreases |bs|
  {
    var n := |bs| - 1;
    if n > 0 {
      var rest := bs[..n];
      assert Linked(bs, n - 1);
      forall k: nat
        ensures Linked(rest, k)
      {
        assert Linked(bs, k);
      }
      TotalIsSpan(rest);
    } else {
      assert bs[..0] == [];
    }
  }

  // ---- kmalloc

  /** ((size + 3) / 4) * 4 in 32-bit arithmetic. */
  function Aligned(size: U32): U32 {
    (size + 3) % 0x1_0000_0000 / 4 * 4
  }

  /** The rounded size covers the request exactly when size + 3 does not wrap. */
  lemma AlignedCovers(size: U32)
    ensures Aligned(size) % 4 == 0
    ensures Aligned(size) >= size <==> size + 3 < 0x1_0000_0000
    ensures size + 3 < 0x1_0000_0000 ==> Aligned(size) < size + 4
    ensures size + 3 >= 0x1_0000_0000 ==> Aligned(size) == 0
  {
  }

  predicate Fits(b: Blk, a: nat) {
    b.free && b.size >= a
  }

  /** The first block that fits, at the lowest address, or |bs|. */
  function FirstFit(bs: seq<Blk>, a: nat, i: nat): (r: nat)
    requires i <= |bs|
    ensures i <= r <= |bs|
    ensures r < |bs| ==> Fits(bs[r], a)
    ensures forall k {:trigger bs[k]} :: i <= k < r ==> !Fits(bs[k], a)
    decreases |bs| - i
  {
    if i == |bs| || Fits(bs[i], a) then i else FirstFit(bs, a, i + 1)
  }

  /** Is what is left over big enough for a header and a word? */
  predicate Splits(b: Blk, a: nat) {
    b.size >= a && b.size - a >= HEADER + 4
  }

  /** Take block i for a bytes. */
  function Place(bs: seq<Blk>, i: nat, a: nat): seq<Blk>
    requires i < |bs| && Fits(bs[i], a)
  {
    var b := bs[i];
    if Splits(b, a) then
      bs[..i] + [Blk(b.addr, a, false), Blk(b.addr + HEADER + a, b.size - a - HEADER, true)] + bs[i + 1..]
    else
      bs[i := Blk(b.addr, b.size, false)]
  }

  /** One more page: the last block is stretched if it is free, else a block is added. */
  function Grow(bs: seq<Blk>, end: nat): seq<Blk>
    requires bs != []
  {
    var last := bs[|bs| - 1];
    if last.free then bs[|bs| - 1 := last.(size := last.size + PAGE_SIZE)]
    else bs + [Blk(end, PAGE_SIZE - HEADER, true)]
  }

  /** Blocks, end of the heap, and how many more pages the frame allocator will give. */
  datatype State = State(bs: seq<Blk>, end: nat, frames: nat)

  ghost predicate Good(s: State) {
    Heap(s.bs, s.end)
  }

  /** kmalloc after rounding: search, else grow by a page and start over; 0 is null. */
  function Allocate(s: State, a: nat): (State, nat)
    requires s.bs != []
    decreases HEAP_MAX - s.end
  {
    var i := FirstFit(s.bs, a, 0);
    if i < |s.bs| then (s.(bs := Place(s.bs, i, a)), s.bs[i].Payload())
    else if s.end + PAGE_SIZE > HEAP_MAX || s.frames == 0 then (s, 0)
    else Allocate(State(Grow(s.bs, s.end), s.end + PAGE_SIZE, s.frames - 1), a)
  }

  function Kmalloc(s: State, size: U32): (State, nat)
    requires s.bs != []
  {
    if size == 0 then (s, 0) else Allocate(s, Aligned(size))
  }

  // ---- kfree

  /** The index of the block whose header is at addr, or |bs|. */
  function IndexOf(bs: seq<Blk>, addr: nat, i: nat): (r: nat)
    requires i <= |bs|
    ensures i <= r <= |bs|
    ensures r < |bs| ==> bs[r].addr == addr
    ensures forall k {:trigger bs[k]} :: i <= k < r ==> bs[k].addr != addr
    decreases |bs| - i
  {
    if i == |bs| || bs[i].addr == addr then i else IndexOf(bs, addr, i + 1)
  }

  /** Swallow block i + 1 if it is free. */
  function MergeNext(bs: seq<Blk>, i: nat): seq<Blk>
    requires i < |bs|
  {
    if i + 1 < |bs| && bs[i + 1].free then
      bs[..i] + [bs[i].(size := bs[i].size + (bs[i + 1].size + HEADER))] + bs[i + 2..]
    else bs
  }

  /** Be swallowed by block i - 1 if that is free. */
  function MergePrev(bs: seq<Blk>, i: nat): seq<Blk>
    requires i < |bs|
  {
    if i > 0 && bs[i - 1].free then MergeNext(bs[i := bs[i].(free := true)], i - 1) else bs
  }

  function Release(bs: seq<Blk>, i: nat): seq<Blk>
    requires i < |bs|
  {
    MergePrev(MergeNext(bs[i := bs[i].(free := true)], i), i)
  }

  predicate IsLive(bs: seq<Blk>, ptr: nat) {
    exists i :: 0 <= i < |bs| && !bs[i].free && bs[i].Payload() == ptr
  }

  function Kfree(bs: seq<Blk>, ptr: nat): seq<Blk>
    requires ptr == 0 || IsLive(bs, ptr)
  {
    if ptr == 0 then bs else Release(bs, IndexOf(bs, ptr - HEADER, 0))
  }

  // ---- the live blocks

  ghost function Live(bs: seq<Blk>): set<Blk> {
    set b | b in bs && !b.free
  }

  // ---- every operation keeps the invariant

  lemma PlaceSplit(bs: seq<Blk>, end: nat, i: nat, a: nat)
    requires Heap(bs, end) && i < |bs| && Fits(bs[i], a) && Splits(bs[i], a) && a % 4 == 0
    ensures Heap(Place(bs, i, a), end)
  {
    hide Linked, Apart;
    var p := Place(bs, i, a);
    PlaceAt(bs, i, a);
    forall k: nat
      ensures Linked(p, k) && Apart(p, k)
    {
      SplitLink(bs, i, a, k);
    }
    assert i == |bs| - 1 ==> p[|p| - 1] == p[i + 1];
  }

  lemma PlaceWhole(bs: seq<Blk>, end: nat, i: nat, a: nat)
    requires Heap(bs, end) && i < |bs| && Fits(bs[i], a) && !Splits(bs[i], a)
    ensures Heap(Place(bs, i, a), end)
  {
    var p := Place(bs, i, a);
    forall k: nat
      ensures Linked(p, k) && Apart(p, k)
    {
      assert Linked(bs, k) && Apart(bs, k);
    }
  }

  /** Allocating in place keeps the heap tiled and coalesced, and adds exactly one live
      block, at the address of the one that was taken. */
  lemma PlaceKeeps(bs: seq<Blk>, end: nat, i: nat, a: nat)
    requires Heap(bs, end) && i < |bs| && Fits(bs[i], a) && a % 4 == 0
    ensures Heap(Place(bs, i, a), end)
    ensures var b := Place(bs, i, a)[i];
      b !in bs && b.addr == bs[i].addr && !b.free && a <= b.size < a + HEADER + 4 && Live(Place(bs, i, a)) == Live(bs) + {b}
  {
    hide Heap, Live;
    if Splits(bs[i], a) {
      PlaceSplit(bs, end, i, a);
      PlaceAt(bs, i, a);
      LivePlace(bs, i, a);
    } else {
      PlaceWhole(bs, end, i, a);
      LiveUpdate(bs, i, Place(bs, i, a)[i]);
    }
    HeapTiled(bs, end);
    NotThere(bs, i, Place(bs, i, a)[i]);
  }

  lemma HeapTiled(bs: seq<Blk>, end: nat)
    requires Heap(bs, end)
    ensures Tiled(bs)
  {
  }

  lemma SplitLink(bs: seq<Blk>, i: nat, a: nat, k: nat)
    requires Tiled(bs) && Coalesced(bs) && i < |bs| && Fits(bs[i], a) && Splits(bs[i], a)
    ensures Linked(Place(bs, i, a), k) && Apart(Place(bs, i, a), k)
  {
    var p := Place(bs, i, a);
    PlaceAt(bs, i, a);
    if k < i {
      assert Linked(bs, k) && Apart(bs, k);
    } else if k > i {
      assert Linked(bs, k - 1) && Apart(bs, k - 1);
    }
  }

  lemma PlaceAt(bs: seq<Blk>, i: nat, a: nat)
    requires i < |bs| && Fits(bs[i], a) && Splits(bs[i], a)
    ensures var p := Place(bs, i, a);
      |p| == |bs| + 1 && p[i] == Blk(bs[i].addr, a, false) && p[i + 1] == Blk(bs[i].addr + HEADER + a, bs[i].size - a - HEADER, true)
      && (forall k :: 0 <= k < i ==> p[k] == bs[k]) && (forall k :: i + 1 < k < |p| ==> p[k] == bs[k - 1])
  {
    TwoForOne(bs, i, Blk(bs[i].addr, a, false), Blk(bs[i].addr + HEADER + a, bs[i].size - a - HEADER, true));
  }

  lemma TwoForOne<T>(s: seq<T>, i: nat, x: T, y: T)
    requires i < |s|
    ensures var p := s[..i] + [x, y] + s[i + 1..];
      |p| == |s| + 1 && p[i] == x && p[i + 1] == y
      && (forall k :: 0 <= k < i ==> p[k] == s[k]) && (forall k :: i + 1 < k < |p| ==> p[k] == s[k - 1])
  {
  }

  lemma OneForTwo<T>(s: seq<T>, i: nat, x: T)
    requires i + 1 < |s|
    ensures var p := s[..i] + [x] + s[i + 2..];
      |p| == |s| - 1 && p[i] == x
      && (forall k :: 0 <= k < i ==> p[k] == s[k]) && (forall k :: i < k < |p| ==> p[k] == s[k + 1])
  {
  }

  lemma NotThere(bs: seq<Blk>, i: nat, b: Blk)
    requires Tiled(bs) && i < |bs| && b.addr == bs[i].addr && b != bs[i]
    ensures b !in bs
  {
    if b in bs {
      var k :| 0 <= k < |bs| && bs[k] == b;
      if k < i {
        Ordered(bs, k, i);
      } else if k > i {
        Ordered(bs, i, k);
      }
    }
  }

  lemma LiveUpdate(bs: seq<Blk>, i: nat, b: Blk)
    requires i < |bs| && bs[i].free && !b.free
    ensures Live(bs[i := b]) == Live(bs) + {b}
  {
    var p := bs[i := b];
    assert p[i] == b;
    forall x | x in Live(bs)
      ensures x in Live(p)
    {
      var k :| 0 <= k < |bs| && bs[k] == x;
      assert p[k] == x;
    }
  }

  lemma LivePlace(bs: seq<Blk>, i: nat, a: nat)
    requires i < |bs| && Fits(bs[i], a) && Splits(bs[i], a)
    ensures Live(Place(bs, i, a)) == Live(bs) + {Place(bs, i, a)[i]}
  {
    var p := Place(bs, i, a);
    PlaceAt(bs, i, a);
    forall x | x in Live(bs)
      ensures x in Live(p)
    {
      var k :| 0 <= k < |bs| && bs[k] == x;
      assert p[if k < i then k else k + 1] == x;
    }
    forall x | x in Live(p)
      ensures x in Live(bs) + {p[i]}
    {
      var k :| 0 <= k < |p| && p[k] == x;
      assert k < i ==> bs[k] == x;
      assert k > i + 1 ==> bs[k - 1] == x;
    }
  }

  lemma GrowLive(bs: seq<Blk>, end: nat)
    requires bs != []
    ensures Live(Grow(bs, end)) == Live(bs)
  {
    var g := Grow(bs, end);
    forall x | x in Live(bs)
      ensures x in Live(g)
    {
      var k :| 0 <= k < |bs| && bs[k] == x;
      assert g[k] == x;
    }
    forall x | x in Live(g)
      ensures x in Live(bs)
    {
      var k :| 0 <= k < |g| && g[k] == x;
      assert bs[k] == x;
    }
  }

  lemma GrowLink(bs: seq<Blk>, end: nat, k: nat)
    requires Span(bs, end) && Coalesced(bs)
    ensures Linked(Grow(bs, end), k) && Apart(Grow(bs, end), k)
  {
    assert Linked(bs, k) && Apart(bs, k);
  }

  lemma GrowSpan(bs: seq<Blk>, end: nat)
    requires Span(bs, end) && Coalesced(bs) && end % 4 == 0 && end + PAGE_SIZE <= HEAP_MAX
    ensures Span(Grow(bs, end), end + PAGE_SIZE) && Coalesced(Grow(bs, end))
  {
    hide Linked, Apart;
    forall k: nat
      ensures Linked(Grow(bs, end), k) && Apart(Grow(bs, end), k)
    {
      GrowLink(bs, end, k);
    }
  }

  lemma EndAligned(bs: seq<Blk>, end: nat)
    requires Span(bs, end)
    ensures end % 4 == 0 && bs != []
  {
    hide Linked;
    assert bs[|bs| - 1].End() == end;
  }

  lemma GrowKeeps(bs: seq<Blk>, end: nat)
    requires Heap(bs, end) && end + PAGE_SIZE <= HEAP_MAX
    ensures Heap(Grow(bs, end), end + PAGE_SIZE) && Live(Grow(bs, end)) == Live(bs)
  {
    hide Live, Span, Coalesced, Grow;
    EndAligned(bs, end);
    GrowLive(bs, end);
    GrowSpan(bs, end);
  }

  /** What kmalloc leaves: a heap again; on success one more live block and nothing else
      live changed, on failure the same live blocks. */
  ghost predicate Allocated(s: State, t: State, r: nat, a: nat) {
    && Good(t)
    && if r == 0 then Live(t.bs) == Live(s.bs)
       else exists b: Blk :: b !in Live(s.bs) && !b.free && b.Payload() == r && a <= b.size < a + HEADER + 4 && Live(t.bs) == Live(s.bs) + {b}
  }

  lemma {:induction false} AllocateKeeps(s: State, a: nat)
    requires Good(s) && a % 4 == 0
    ensures Allocated(s, Allocate(s, a).0, Allocate(s, a).1, a)
    decreases HEAP_MAX - s.end
  {
    hide Heap, Place, Grow, Live;
    var i := FirstFit(s.bs, a, 0);
    assert s.bs != [] by {
      NotEmpty(s);
    }
    if i < |s.bs| {
      PlaceKeeps(s.bs, s.end, i, a);
      PlaceLonger(s.bs, i, a);
      var b := Place(s.bs, i, a)[i];
      NotLive(s.bs, b);
    } else if !(s.end + PAGE_SIZE > HEAP_MAX || s.frames == 0) {
      GrowKeeps(s.bs, s.end);
      AllocateKeeps(State(Grow(s.bs, s.end), s.end + PAGE_SIZE, s.frames - 1), a);
    }
  }

  lemma NotEmpty(s: State)
    requires Good(s)
    ensures s.bs != []
  {
  }

  lemma PlaceLonger(bs: seq<Blk>, i: nat, a: nat)
    requires i < |bs| && Fits(bs[i], a)
    ensures i < |Place(bs, i, a)|
  {
  }

  lemma NotLive(bs: seq<Blk>, b: Blk)
    requires b !in bs
    ensures b !in Live(bs)
  {
  }

  // ---- freeing

  lemma MergeNextAt(bs: seq<Blk>, i: nat)
    requires i + 1 < |bs| && bs[i + 1].free
    ensures var m := MergeNext(bs, i);
      |m| == |bs| - 1 && m[i] == Blk(bs[i].addr, bs[i].size + (bs[i + 1].size + HEADER), bs[i].free)
      && (forall k :: 0 <= k < i ==> m[k] == bs[k]) && (forall k :: i < k < |m| ==> m[k] == bs[k + 1])
  {
    OneForTwo(bs, i, Blk(bs[i].addr, bs[i].size + (bs[i + 1].size + HEADER), bs[i].free));
  }

  lemma MergeNextTiled(bs: seq<Blk>, i: nat)
    requires i < |bs| && Tiled(bs)
    ensures var m := MergeNext(bs, i);
      Tiled(m) && i < |m| && m[0].addr == bs[0].addr && m[|m| - 1].End() == bs[|bs| - 1].End()
  {
    if i + 1 < |bs| && bs[i + 1].free {
      var m := MergeNext(bs, i);
      MergeNextAt(bs, i);
      assert Linked(bs, i);
      forall k: nat
        ensures Linked(m, k)
      {
        assert Linked(bs, k) && Linked(bs, k + 1);
      }
    }
  }

  lemma MergeLive(bs: seq<Blk>, i: nat)
    requires i < |bs| && bs[i].free
    ensures Live(MergeNext(bs, i)) == Live(bs)
  {
    var m := MergeNext(bs, i);
    if i + 1 < |bs| && bs[i + 1].free {
      MergeNextAt(bs, i);
      forall x | x in Live(bs)
        ensures x in Live(m)
      {
        var k :| 0 <= k < |bs| && bs[k] == x;
        assert k != i && k != i + 1;
        assert m[if k < i then k else k - 1] == x;
      }
      forall x | x in Live(m)
        ensures x in Live(bs)
      {
        var k :| 0 <= k < |m| && m[k] == x;
        assert k != i;
        assert bs[if k < i then k else k + 1] == x;
      }
    }
  }

  lemma LiveWithout(bs: seq<Blk>, i: nat)
    requires i < |bs| && Tiled(bs) && !bs[i].free
    ensures Live(bs[i := bs[i].(free := true)]) == Live(bs) - {bs[i]}
  {
    var p := bs[i := bs[i].(free := true)];
    forall x | x in Live(bs) - {bs[i]}
      ensures x in Live(p)
    {
      var k :| 0 <= k < |bs| && bs[k] == x;
      assert p[k] == x;
    }
    forall x | x in Live(p)
      ensures x in Live(bs) - {bs[i]}
    {
      var k :| 0 <= k < |p| && p[k] == x;
      assert k != i && bs[k] == x;
      if k < i {
        Ordered(bs, k, i);
      } else {
        Ordered(bs, i, k);
      }
    }
  }

  /** Merging the free block i with a free right neighbour cannot make free neighbours
      elsewhere, nor leave one to its right. */
  lemma MergeApart(bs: seq<Blk>, i: nat, k: nat)
    requires i < |bs| && bs[i].free
    requires k != i ==> Apart(bs, k)
    requires k >= i ==> Apart(bs, k + 1)
    ensures Apart(MergeNext(bs, i), k)
  {
    if i + 1 < |bs| && bs[i + 1].free {
      MergeNextAt(bs, i);
    }
  }

  lemma ReleaseCoalesced(bs: seq<Blk>, i: nat)
    requires i < |bs| && Coalesced(bs) && !bs[i].free
    ensures Coalesced(Release(bs, i))
  {
    hide MergeNext;
    var f := bs[i := bs[i].(free := true)];
    forall k: nat | k != i && k + 1 != i
      ensures Apart(f, k)
    {
      assert Apart(bs, k);
    }
    var m := MergeNext(f, i);
    FreeStays(f, i);
    forall k: nat | k + 1 != i
      ensures Apart(m, k)
    {
      MergeApart(f, i, k);
    }
    assert m[i := m[i].(free := true)] == m;
    if i > 0 && m[i - 1].free {
      var r := MergeNext(m, i - 1);
      forall k: nat
        ensures Apart(r, k)
      {
        MergeApart(m, i - 1, k);
      }
    } else if i > 0 {
      assert Apart(m, i - 1);
    }
  }

  /** Freeing keeps the heap tiled and coalesced and removes exactly the freed block from
      the live ones. */
  lemma ReleaseKeeps(bs: seq<Blk>, end: nat, i: nat)
    requires Heap(bs, end) && i < |bs| && !bs[i].free
    ensures Heap(Release(bs, i), end) && Live(Release(bs, i)) == Live(bs) - {bs[i]}
  {
    hide Live, MergeNext;
    var f := bs[i := bs[i].(free := true)];
    var m := MergeNext(f, i);
    forall k: nat
      ensures Linked(f, k)
    {
      assert Linked(bs, k);
    }
    MergeNextTiled(f, i);
    LiveWithout(bs, i);
    MergeLive(f, i);
    ReleaseCoalesced(bs, i);
    FreeStays(f, i);
    if i > 0 && m[i - 1].free {
      assert m[i := m[i].(free := true)] == m;
      MergeNextTiled(m, i - 1);
      MergeLive(m, i - 1);
    }
  }

  lemma FreeStays(bs: seq<Blk>, i: nat)
    requires i < |bs| && bs[i].free
    ensures i < |MergeNext(bs, i)| && MergeNext(bs, i)[i].free
    ensures i > 0 ==> MergeNext(bs, i)[i - 1] == bs[i - 1]
  {
    if i + 1 < |bs| && bs[i + 1].free {
      MergeNextAt(bs, i);
    }
  }

  // ---- what kmalloc computes, without its recursion

  /** p pages at once. */
  function Stretch(bs: seq<Blk>, end: nat, p: nat): seq<Blk>
    requires bs != []
  {
    var last := bs[|bs| - 1];
    if p == 0 then bs
    else if last.free then bs[|bs| - 1 := last.(size := last.size + p * PAGE_SIZE)]
    else bs + [Blk(end, p * PAGE_SIZE - HEADER, true)]
  }

  /** What the end of the heap already offers to a stretched last block: a used one offers
      less than nothing, as the new block needs a header. */
  function Slack(bs: seq<Blk>): int
    requires bs != []
  {
    if bs[|bs| - 1].free then bs[|bs| - 1].size else -HEADER
  }

  /** The fewest pages that make a request fit. */
  function PagesNeeded(bs: seq<Blk>, a: nat): (p: nat)
    requires bs != []
  {
    if FirstFit(bs, a, 0) < |bs| then 0
    else if a <= Slack(bs) then 0 else (a - Slack(bs) + PAGE_SIZE - 1) / PAGE_SIZE
  }

  /** Pages that can still be added. */
  function Room(s: State): nat {
    var byAddress := if s.end >= HEAP_MAX then 0 else (HEAP_MAX - s.end) / PAGE_SIZE;
    if s.frames < byAddress then s.frames else byAddress
  }

  lemma FitsAfter(bs: seq<Blk>, end: nat, a: nat, p: nat)
    requires bs != []
    ensures FirstFit(Stretch(bs, end, p), a, 0) < |Stretch(bs, end, p)| <==> PagesNeeded(bs, a) <= p
  {
    var g, n := Stretch(bs, end, p), |bs| - 1;
    var i := FirstFit(bs, a, 0);
    if i < |bs| {
      assert Fits(g[i], a);
    } else if p > 0 {
      assert !Fits(bs[n], a);
      var top := g[|g| - 1];
      assert top.free && top.size == Slack(bs) + p * PAGE_SIZE;
      assert forall k :: 0 <= k < |g| - 1 ==> !Fits(g[k], a) by {
        assert forall k :: 0 <= k < |g| - 1 ==> g[k] == bs[k];
      }
      assert Fits(top, a) <==> a <= Slack(bs) + p * PAGE_SIZE;
    }
  }

  lemma StretchOnce(bs: seq<Blk>, end: nat, p: nat)
    requires bs != []
    ensures Stretch(Grow(bs, end), end + PAGE_SIZE, p) == Stretch(bs, end, p + 1)
  {
  }

  /** kmalloc in closed form.  It adds the fewest pages that make the request fit and takes
      the lowest block that then fits; it fails exactly when the address limit or the frame
      supply allows fewer, and then it has still grown the heap as far as it could. */
  ghost predicate Closed(s: State, a: nat, t: State, r: nat)
    requires s.bs != []
  {
    var p, room := PagesNeeded(s.bs, a), Room(s);
    if p <= room then
      var g := Stretch(s.bs, s.end, p);
      var i := FirstFit(g, a, 0);
      i < |g| && t == State(Place(g, i, a), s.end + p * PAGE_SIZE, s.frames - p) && r == g[i].Payload()
    else
      t == State(Stretch(s.bs, s.end, room), s.end + room * PAGE_SIZE, s.frames - room) && r == 0
  }

  lemma {:induction false} AllocateClosed(s: State, a: nat)
    requires s.bs != []
    ensures Closed(s, a, Allocate(s, a).0, Allocate(s, a).1)
    decreases HEAP_MAX - s.end
  {
    hide Place, Grow, Stretch, PagesNeeded;
    FitsAfter(s.bs, s.end, a, 0);
    NoStretch(s.bs, s.end);
    var i := FirstFit(s.bs, a, 0);
    if i < |s.bs| {
    } else if s.end + PAGE_SIZE > HEAP_MAX || s.frames == 0 {
      assert Room(s) == 0;
    } else {
      var u := State(Grow(s.bs, s.end), s.end + PAGE_SIZE, s.frames - 1);
      assert Room(u) == Room(s) - 1;
      PagesLeft(s.bs, s.end, a);
      AllocateClosed(u, a);
      StretchOnce(s.bs, s.end, PagesNeeded(u.bs, a));
      StretchOnce(s.bs, s.end, Room(u));
    }
  }

  /** Said of kmalloc itself: null at once for 0 and for nothing else; every other size is
      rounded and met as in the closed form. */
  lemma KmallocClosed(s: State, size: U32)
    requires s.bs != []
    ensures size == 0 ==> Kmalloc(s, size) == (s, 0)
    ensures size != 0 ==> Closed(s, Aligned(size), Kmalloc(s, size).0, Kmalloc(s, size).1)
  {
    hide Closed, Allocate;
    AllocateClosed(s, Aligned(size));
  }

  /** That many pages may still be added: frames are left and the address limit is not
      reached. */
  predicate MayAdd(s: State, p: nat) {
    p == 0 || (p <= s.frames && s.end + p * PAGE_SIZE <= HEAP_MAX)
  }

  /** kmalloc gives memory exactly when something was asked for and the pages it takes to
      make it fit may be added. */
  lemma KmallocServes(s: State, size: U32)
    requires Good(s)
    ensures s.bs != []
    ensures Kmalloc(s, size).1 != 0 <==> size != 0 && MayAdd(s, PagesNeeded(s.bs, Aligned(size)))
  {
    hide Heap, Place, Stretch, PagesNeeded, Aligned, Kmalloc;
    NotEmpty(s);
    KmallocClosed(s, size);
    RoomIs(s, PagesNeeded(s.bs, Aligned(size)));
  }

  lemma RoomIs(s: State, p: nat)
    ensures p <= Room(s) <==> MayAdd(s, p)
  {
  }

  lemma NoStretch(bs: seq<Blk>, end: nat)
    requires bs != []
    ensures Stretch(bs, end, 0) == bs
  {
  }

  lemma PagesLeft(bs: seq<Blk>, end: nat, a: nat)
    requires bs != [] && FirstFit(bs, a, 0) == |bs|
    ensures Grow(bs, end) != [] && PagesNeeded(bs, a) == PagesNeeded(Grow(bs, end), a) + 1
  {
    var g, n := Grow(bs, end), |bs| - 1;
    assert !Fits(bs[n], a);
    StretchOnce(bs, end, 0);
    assert Stretch(g, end + PAGE_SIZE, 0) == g;
    FitsAfter(bs, end, a, 1);
    assert Slack(g) == Slack(bs) + PAGE_SIZE;
  }

  // ---- undoing

  /** Freeing the block just placed gives back the list there was before it. */
  lemma PlaceThenRelease(bs: seq<Blk>, end: nat, i: nat, a: nat)
    requires Heap(bs, end) && i < |bs| && Fits(bs[i], a)
    ensures i < |Place(bs, i, a)| && Release(Place(bs, i, a), i) == bs
  {
    var p := Place(bs, i, a);
    var f := p[i := p[i].(free := true)];
    assert Apart(bs, i) && (i > 0 ==> Apart(bs, i - 1));
    if Splits(bs[i], a) {
      PlaceAt(bs, i, a);
      MergeNextAt(f, i);
      assert MergeNext(f, i) == bs;
    } else {
      assert f == bs;
    }
    assert bs[i := bs[i].(free := true)] == bs;
  }

  /** A heap with nothing live is one free block over the whole heap. */
  lemma NothingLive(bs: seq<Blk>, end: nat)
    requires Heap(bs, end) && Live(bs) == {}
    ensures |bs| == 1 && bs[0].free && bs[0].addr == HEAP_START && bs[0].End() == end
  {
    assert Apart(bs, 0);
    FreeUnlessLive(bs, 0);
    if |bs| > 1 {
      FreeUnlessLive(bs, 1);
    }
  }

  lemma FreeUnlessLive(bs: seq<Blk>, k: nat)
    requires k < |bs|
    ensures bs[k].free || bs[k] in Live(bs)
  {
  }

  // ---- runs

  /** Two live blocks do not overlap, headers included; payloads are 4-aligned and lie
      inside the heap. */
  lemma LiveApart(bs: seq<Blk>, end: nat, b: Blk, c: Blk)
    requires Span(bs, end) && b in bs && c in bs
    ensures b != c ==> b.End() <= c.addr || c.End() <= b.addr
    ensures HEAP_START < b.Payload() <= b.End() <= end && b.Payload() % 4 == 0
  {
    var i :| 0 <= i < |bs| && bs[i] == b;
    var j :| 0 <= j < |bs| && bs[j] == c;
    hide Tiled;
    Inside(bs, end, i);
    if i < j {
      Ordered(bs, i, j);
    } else if j < i {
      Ordered(bs, j, i);
    }
  }

  /** A pointer finds the block it came from. */
  lemma FindsBlock(bs: seq<Blk>, end: nat, ptr: nat)
    requires Heap(bs, end) && IsLive(bs, ptr)
    ensures ptr >= HEADER
    ensures var i := IndexOf(bs, ptr - HEADER, 0); i < |bs| && !bs[i].free && bs[i].Payload() == ptr
  {
    var k :| 0 <= k < |bs| && !bs[k].free && bs[k].Payload() == ptr;
    var i := IndexOf(bs, ptr - HEADER, 0);
    LiveApart(bs, end, bs[i], bs[k]);
  }

  /** One call: kmalloc when the frame allocator would give that many pages, or kfree. */
  datatype Call = Malloc(size: U32, frames: nat) | Free(ptr: nat)

  /** What callers hold: the pointers they were given and the sizes they asked for. */
  type Held = map<nat, U32>

  /** The block behind a pointer covers the request, exactly unless the size wrapped. */
  ghost predicate Backed(bs: seq<Blk>, ptr: nat, size: U32) {
    exists b: Blk :: b in Live(bs) && b.Payload() == ptr && Covers(b, size)
  }

  predicate Covers(b: Blk, size: U32) {
    size <= b.size <==> size + 3 < 0x1_0000_0000
  }

  /** The live blocks are exactly the ones callers hold. */
  ghost predicate Accounted(bs: seq<Blk>, held: Held) {
    && (forall b: Blk {:trigger b in Live(bs)} :: b in Live(bs) ==> b.Payload() in held)
    && (forall p {:trigger Backed(bs, p, held[p])} :: p in held ==> Backed(bs, p, held[p]))
  }

  /** Callers free null or a pointer they hold. */
  ghost predicate Step(s: State, held: Held, c: Call, t: State, kept: Held)
    requires s.bs != []
  {
    match c
    case Malloc(size, frames) =>
      var (u, r) := Kmalloc(s.(frames := frames), size);
      t == u && kept == if r == 0 then held else held[r := size]
    case Free(ptr) =>
      (ptr == 0 || (ptr in held && IsLive(s.bs, ptr))) && t == s.(bs := Kfree(s.bs, ptr)) && kept == held - {ptr}
  }

  lemma HeldIsLive(bs: seq<Blk>, held: Held, ptr: nat)
    requires Accounted(bs, held) && ptr in held
    ensures IsLive(bs, ptr)
  {
    assert Backed(bs, ptr, held[ptr]);
    var b: Blk :| b in Live(bs) && b.Payload() == ptr;
    var i :| 0 <= i < |bs| && bs[i] == b;
    assert !bs[i].free;
  }

  lemma MallocAccounted(s: State, held: Held, size: U32, t: State, r: nat)
    requires Good(s) && Accounted(s.bs, held) && (t, r) == Kmalloc(s, size)
    ensures Good(t) && Accounted(t.bs, if r == 0 then held else held[r := size])
    ensures r != 0 ==> r !in held
  {
    hide Span, Coalesced, Allocate;
    if size != 0 {
      AlignedCovers(size);
      AllocateKeeps(s, Aligned(size));
      if r != 0 {
        var b: Blk :| b !in Live(s.bs) && !b.free && b.Payload() == r && Aligned(size) <= b.size && Live(t.bs) == Live(s.bs) + {b};
        assert b in Live(t.bs);
        if r in held {
          assert Backed(s.bs, r, held[r]);
          var c: Blk :| c in Live(s.bs) && c.Payload() == r;
          LiveApart(t.bs, t.end, b, c);
          assert false;
        }
        var kept := held[r := size];
        forall p | p in kept
          ensures Backed(t.bs, p, kept[p])
        {
          if p != r {
            assert Backed(s.bs, p, held[p]);
          }
        }
      } else {
        forall p | p in held
          ensures Backed(t.bs, p, held[p])
        {
          assert Backed(s.bs, p, held[p]);
        }
      }
    }
  }

  /** Behind a pointer that is not null there is exactly one live block, new, and it covers
      the request exactly when size + 3 does not wrap. */
  lemma KmallocCovers(s: State, size: U32, t: State, r: nat) returns (b: Blk)
    requires Good(s) && (t, r) == Kmalloc(s, size) && r != 0
    ensures b.Payload() == r && b !in Live(s.bs) && Live(t.bs) == Live(s.bs) + {b}
    ensures forall c :: c in Live(t.bs) && c.Payload() == r ==> c == b
    ensures b.size >= size <==> size + 3 < 0x1_0000_0000
  {
    hide Span, Coalesced, Allocate;
    AlignedCovers(size);
    AllocateKeeps(s, Aligned(size));
    b :| b !in Live(s.bs) && !b.free && b.Payload() == r && Aligned(size) <= b.size < Aligned(size) + HEADER + 4
      && Live(t.bs) == Live(s.bs) + {b};
    assert b in Live(t.bs);
    forall c | c in Live(t.bs) && c.Payload() == r
      ensures c == b
    {
      LiveApart(t.bs, t.end, b, c);
    }
  }

  lemma FreeAccounted(bs: seq<Blk>, end: nat, held: Held, ptr: nat)
    requires Heap(bs, end) && Accounted(bs, held) && ptr in held
    ensures IsLive(bs, ptr) && Heap(Kfree(bs, ptr), end) && Accounted(Kfree(bs, ptr), held - {ptr})
  {
    hide Span, Coalesced, Release, IndexOf;
    HeldIsLive(bs, held, ptr);
    FindsBlock(bs, end, ptr);
    var i := IndexOf(bs, ptr - HEADER, 0);
    ReleaseKeeps(bs, end, i);
    var after, kept := Kfree(bs, ptr), held - {ptr};
    forall b: Blk | b in Live(after)
      ensures b.Payload() in kept
    {
      LiveApart(bs, end, b, bs[i]);
    }
    forall p | p in kept
      ensures Backed(after, p, kept[p])
    {
      assert Backed(bs, p, held[p]);
      var b: Blk :| b in Live(bs) && b.Payload() == p && Covers(b, held[p]);
      assert b in Live(after);
    }
  }

  ghost predicate IsRun(states: seq<State>, held: seq<Held>, calls: seq<Call>) {
    && |states| == |held| == |calls| + 1
    && (forall k {:trigger states[k]} :: 0 <= k < |states| ==> states[k].bs != [])
    && (forall k {:trigger calls[k]} :: 0 <= k < |calls| ==> Step(states[k], held[k], calls[k], states[k + 1], held[k + 1]))
  }

  /** After any sequence of calls the heap is tiled and coalesced and its live blocks are
      exactly the outstanding allocations, each at least as large as asked for. */
  lemma {:induction false} RunsKeepHeap(states: seq<State>, held: seq<Held>, calls: seq<Call>)
    requires IsRun(states, held, calls) && Good(states[0]) && Accounted(states[0].bs, held[0])
    ensures Good(states[|calls|]) && Accounted(states[|calls|].bs, held[|calls|])
    decreases |calls|
  {
    hide Accounted, Kmalloc, Kfree, Heap, IsLive;
    if |calls| > 0 {
      var n := |calls| - 1;
      assert forall k :: 0 <= k < n ==> calls[..n][k] == calls[k];
      RunsKeepHeap(states[..n + 1], held[..n + 1], calls[..n]);
      var s, h, c := states[n], held[n], calls[n];
      assert Step(s, h, c, states[n + 1], held[n + 1]);
      match c
      case Malloc(size, frames) =>
        MallocAccounted(s.(frames := frames), h, size, states[n + 1], Kmalloc(s.(frames := frames), size).1);
      case Free(ptr) =>
        if ptr in h {
          FreeAccounted(s.bs, s.end, h, ptr);
        } else {
          assert h - {ptr} == h;
          FreeNull(s.bs);
        }
    }
  }

  // ---- sizes stay positive

  predicate Positive(bs: seq<Blk>) {
    forall i {:trigger bs[i]} :: 0 <= i < |bs| ==> bs[i].size > 0
  }

  lemma {:induction false} AllocatePositive(s: State, a: nat)
    requires s.bs != [] && Positive(s.bs) && a > 0
    ensures Positive(Allocate(s, a).0.bs)
    decreases HEAP_MAX - s.end
  {
    var i := FirstFit(s.bs, a, 0);
    if i < |s.bs| {
      if Splits(s.bs[i], a) {
        PlaceAt(s.bs, i, a);
        forall k | 0 <= k < |Place(s.bs, i, a)|
          ensures Place(s.bs, i, a)[k].size > 0
        {
          assert k < i ==> s.bs[k].size > 0;
          assert k > i + 1 ==> s.bs[k - 1].size > 0;
        }
      }
    } else if !(s.end + PAGE_SIZE > HEAP_MAX || s.frames == 0) {
      AllocatePositive(State(Grow(s.bs, s.end), s.end + PAGE_SIZE, s.frames - 1), a);
    }
  }

  lemma MergePositive(bs: seq<Blk>, i: nat)
    requires i < |bs| && Positive(bs)
    ensures Positive(MergeNext(bs, i))
  {
    if i + 1 < |bs| && bs[i + 1].free {
      MergeNextAt(bs, i);
    }
  }

  lemma ReleasePositive(bs: seq<Blk>, i: nat)
    requires i < |bs| && Positive(bs)
    ensures Positive(Release(bs, i))
  {
    hide MergeNext;
    var f := bs[i := bs[i].(free := true)];
    var m := MergeNext(f, i);
    MergePositive(f, i);
    FreeStays(f, i);
    if i > 0 && m[i - 1].free {
      MergePositive(m[i := m[i].(free := true)], i - 1);
    }
  }

  /** Sizes are positive after any run in which no request wraps. */
  lemma {:induction false} RunsKeepPositive(states: seq<State>, held: seq<Held>, calls: seq<Call>)
    requires IsRun(states, held, calls) && Good(states[0]) && Accounted(states[0].bs, held[0]) && Positive(states[0].bs)
    requires forall k {:trigger calls[k]} :: 0 <= k < |calls| && calls[k].Malloc? ==> calls[k].size + 3 < 0x1_0000_0000
    ensures Positive(states[|calls|].bs)
    decreases |calls|
  {
    hide Accounted, Positive, Heap, Allocate, Release, IsLive, IndexOf;
    if |calls| > 0 {
      var n := |calls| - 1;
      assert forall k :: 0 <= k < n ==> calls[..n][k] == calls[k];
      RunsKeepPositive(states[..n + 1], held[..n + 1], calls[..n]);
      RunsKeepHeap(states[..n + 1], held[..n + 1], calls[..n]);
      var s, h, c := states[n], held[n], calls[n];
      assert Step(s, h, c, states[n + 1], held[n + 1]);
      match c
      case Malloc(size, frames) =>
        if size != 0 {
          AlignedCovers(size);
          AllocatePositive(s.(frames := frames), Aligned(size));
        }
      case Free(ptr) =>
        if ptr != 0 {
          FindsBlock(s.bs, s.end, ptr);
          ReleasePositive(s.bs, IndexOf(s.bs, ptr - HEADER, 0));
        }
    }
  }

  lemma FreeNull(bs: seq<Blk>)
    ensures Kfree(bs, 0) == bs
  {
  }

  /** Free these pointers one after the other. */
  ghost function FreeEach(bs: seq<Blk>, order: seq<nat>): seq<Blk>
    decreases |order|
  {
    if order == [] then bs
    else if !IsLive(bs, order[0]) then []
    else FreeEach(Kfree(bs, order[0]), order[1..])
  }

  /** Whatever the order in which all outstanding allocations are freed, one free block
      spanning the heap is left. */
  lemma {:induction false} FreeAll(bs: seq<Blk>, end: nat, held: Held, order: seq<nat>)
    requires Heap(bs, end) && Accounted(bs, held)
    requires (set p | p in order) == held.Keys && forall i, j :: 0 <= i < j < |order| ==> order[i] != order[j]
    ensures var r := FreeEach(bs, order); |r| == 1 && r[0].free && r[0].addr == HEAP_START && r[0].End() == end
    decreases |order|
  {
    hide Heap, Kfree, IsLive;
    if order == [] {
      NoneHeld(bs, held);
      NothingLive(bs, end);
    } else {
      var p := order[0];
      assert p in held;
      FreeAccounted(bs, end, held, p);
      var rest := order[1..];
      forall q | q in held - {p}
        ensures q in rest
      {
        assert q in order;
      }
      FreeAll(Kfree(bs, p), end, held - {p}, rest);
    }
  }

  lemma NoneHeld(bs: seq<Blk>, held: Held)
    requires Accounted(bs, held) && held.Keys == {}
    ensures Live(bs) == {}
  {
    assert forall b: Blk :: b in Live(bs) ==> b.Payload() in held.Keys;
  }

  /** The precondition on sizes is needed: a request of 2^32 - 3 bytes is met with an empty
      payload. */
  lemma WrappedRequest(s: State)
    requires s == State([Blk(HEAP_START, PAGE_SIZE - HEADER, true)], HEAP_START + PAGE_SIZE, 0)
    ensures Good(s)
    ensures var (t, r) := Kmalloc(s, 0xFFFF_FFFD); r == HEAP_START + HEADER && t.bs[0] == Blk(HEAP_START, 0, false)
  {
    assert FirstFit(s.bs, 0, 0) == 0;
  }
}
