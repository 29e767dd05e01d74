/**
 mm/heap.cpp over the memory it manages: headers and payloads are words of one array, and
 the list is threaded through the headers.
 */
module KernelHeap {
  import opened Machine
  import opened HeapSpec

  const WORDS := (HEAP_MAX - HEAP_START) / 4
  // offsets of the fields of struct block_header
  const SIZE := 0
  const IS_FREE := 4
  const NEXT := 8
  const PREV := 12

  // ---- words

  predicate WordAddr(a: nat) {
    HEAP_START <= a < HEAP_MAX && a % 4 == 0
  }

  function Peek(m: seq<U32>, a: nat): U32
    requires |m| == WORDS && WordAddr(a)
  {
    m[(a - HEAP_START) / 4]
  }

  function Poke(m: seq<U32>, a: nat, v: U32): (r: seq<U32>)
    requires |m| == WORDS && WordAddr(a)
    ensures |r| == WORDS
  {
    m[(a - HEAP_START) / 4 := v]
  }

  lemma PeekPoke(m: seq<U32>, a: nat, v: U32, b: nat)
    requires |m| == WORDS && WordAddr(a) && WordAddr(b)
    ensures Peek(Poke(m, a, v), b) == if a == b then v else Peek(m, b)
  {
  }

  // ---- headers

  datatype Hdr = Hdr(size: U32, isFree: U32, next: U32, prev: U32)

  predicate HdrAddr(a: nat) {
    HEAP_START <= a && a + HEADER <= HEAP_MAX && a % 4 == 0
  }

  function HdrAt(m: seq<U32>, a: nat): Hdr
    requires |m| == WORDS && HdrAddr(a)
  {
    Hdr(Peek(m, a + SIZE), Peek(m, a + IS_FREE), Peek(m, a + NEXT), Peek(m, a + PREV))
  }

  predicate Field(k: nat) { k == SIZE || k == IS_FREE || k == NEXT || k == PREV }

  function SetField(h: Hdr, k: nat, v: U32): Hdr
    requires Field(k)
  {
    if k == SIZE then h.(size := v)
    else if k == IS_FREE then h.(isFree := v)
    else if k == NEXT then h.(next := v)
    else h.(prev := v)
  }

  lemma PokeHdr(m: seq<U32>, a: nat, k: nat, v: U32, b: nat)
    requires |m| == WORDS && HdrAddr(a) && HdrAddr(b) && Field(k)
    requires a == b || a + HEADER <= b || b + HEADER <= a
    ensures HdrAt(Poke(m, a + k, v), b) == if a == b then SetField(HdrAt(m, b), k, v) else HdrAt(m, b)
  {
    hide Peek, Poke;
    PeekPoke(m, a + k, v, b + SIZE);
    PeekPoke(m, a + k, v, b + IS_FREE);
    PeekPoke(m, a + k, v, b + NEXT);
    PeekPoke(m, a + k, v, b + PREV);
  }

  // ---- headers of a list of blocks

  /** The headers of these blocks are inside the heap and do not overlap. */
  ghost predicate Separate(bs: seq<Blk>) {
    && (forall i {:trigger bs[i]} :: 0 <= i < |bs| ==> HdrAddr(bs[i].addr))
    && (forall i, j {:trigger bs[i], bs[j]} :: 0 <= i < j < |bs| ==> bs[i].addr + HEADER <= bs[j].addr)
  }

  lemma HeapSeparate(bs: seq<Blk>, end: nat)
    requires Span(bs, end)
    ensures Separate(bs)
  {
    hide Span, Tiled;
    forall i | 0 <= i < |bs|
      ensures HdrAddr(bs[i].addr)
    {
      Inside(bs, end, i);
      HeapEnds(bs, end);
    }
    forall i, j | 0 <= i < j < |bs|
      ensures bs[i].addr + HEADER <= bs[j].addr
    {
      Inside(bs, end, i);
      Ordered(bs, i, j);
    }
  }

  lemma HeapEnds(bs: seq<Blk>, end: nat)
    requires Span(bs, end)
    ensures bs != [] && end <= HEAP_MAX && bs[0].addr == HEAP_START && bs[|bs| - 1].End() == end && HEAP_START < end
  {
    hide Tiled;
    Inside(bs, end, 0);
  }

  function Flag(free: bool): U32 { if free then 1 else 0 }

  function AddrOf(bs: seq<Blk>, i: int): nat {
    if 0 <= i < |bs| then bs[i].addr else 0
  }

  /** Block i has this header in memory: its own size and flag, the addresses of its
      neighbours, 0 at either end of the list. */
  predicate Shown(m: seq<U32>, bs: seq<Blk>, i: nat)
    requires |m| == WORDS && i < |bs| && HdrAddr(bs[i].addr)
  {
    var h := HdrAt(m, bs[i].addr);
    && h.size == bs[i].size && h.isFree == Flag(bs[i].free)
    && h.next == AddrOf(bs, i + 1) && h.prev == AddrOf(bs, i - 1)
  }

  /** Memory holds this list of blocks: next leads through it in address order, and prev is
      its inverse. */
  ghost predicate Rep(m: seq<U32>, bs: seq<Blk>) {
    && |m| == WORDS && Separate(bs)
    && forall i {:trigger Shown(m, bs, i)} :: 0 <= i < |bs| ==> Shown(m, bs, i)
  }

  /** The invariant read off the memory: a header's next is where its block ends, or 0 at
      the end of the heap; prev undoes next; neighbours are not both free. */
  lemma MemoryTiles(m: seq<U32>, bs: seq<Blk>, end: nat, i: nat)
    requires Rep(m, bs) && Heap(bs, end) && i < |bs|
    ensures bs[0].addr == HEAP_START && HdrAddr(bs[i].addr)
    ensures var h := HdrAt(m, bs[i].addr);
      && h.size % 4 == 0
      && (i + 1 < |bs| ==>
            h.next == bs[i].addr + HEADER + h.size && HdrAddr(h.next)
            && HdrAt(m, h.next).prev == bs[i].addr && !(h.isFree == 1 && HdrAt(m, h.next).isFree == 1))
      && (i + 1 == |bs| ==> h.next == 0 && bs[i].addr + HEADER + h.size == end)
  {
    hide HdrAt;
    assert Shown(m, bs, i);
    assert Linked(bs, i) && Apart(bs, i);
    if i + 1 < |bs| {
      assert Shown(m, bs, i + 1);
    }
  }

  // ---- payloads

  ghost predicate SamePayload(m: seq<U32>, m': seq<U32>, b: Blk) {
    |m| == |m'| == WORDS && forall a {:trigger Peek(m', a)} :: b.Payload() <= a < b.End() && WordAddr(a) ==> Peek(m', a) == Peek(m, a)
  }

  /** No word of these blocks' payloads changed. */
  ghost predicate Untouched(m: seq<U32>, m': seq<U32>, bs: set<Blk>) {
    |m| == |m'| == WORDS && forall b {:trigger SamePayload(m, m', b)} :: b in bs ==> SamePayload(m, m', b)
  }

  lemma UntouchedThen(m: seq<U32>, m1: seq<U32>, m2: seq<U32>, bs: set<Blk>)
    requires Untouched(m, m1, bs) && Untouched(m1, m2, bs)
    ensures Untouched(m, m2, bs)
  {
    forall b | b in bs
      ensures SamePayload(m, m2, b)
    {
      assert SamePayload(m, m1, b) && SamePayload(m1, m2, b);
      forall a | b.Payload() <= a < b.End() && WordAddr(a)
        ensures Peek(m2, a) == Peek(m, a)
      {
        assert Peek(m1, a) == Peek(m, a);
      }
    }
  }

  lemma UntouchedSame(m: seq<U32>, bs: set<Blk>)
    requires |m| == WORDS
    ensures Untouched(m, m, bs)
  {
  }

  lemma UntouchedFewer(m: seq<U32>, m': seq<U32>, bs: set<Blk>, fewer: set<Blk>)
    requires Untouched(m, m', bs) && fewer <= bs
    ensures Untouched(m, m', fewer)
  {
    forall b | b in fewer
      ensures SamePayload(m, m', b)
    {
      assert b in bs;
    }
  }

  /** The address lies in no payload of these blocks. */
  ghost predicate Clear(bs: set<Blk>, a: nat) {
    forall b: Blk :: b in bs ==> a < b.Payload() || b.End() <= a
  }

  lemma PokeUntouched(m: seq<U32>, bs: set<Blk>, a: nat, v: U32)
    requires |m| == WORDS && WordAddr(a) && Clear(bs, a)
    ensures Untouched(m, Poke(m, a, v), bs)
  {
    hide Peek, Poke;
    var m' := Poke(m, a, v);
    forall b | b in bs
      ensures SamePayload(m, m', b)
    {
      forall c | b.Payload() <= c < b.End() && WordAddr(c)
        ensures Peek(m', c) == Peek(m, c)
      {
        PeekPoke(m, a, v, c);
      }
    }
  }

  /** Headers lie in no payload, and neither does what is inside a free block. */
  lemma OwnClear(bs: seq<Blk>, end: nat, i: nat, a: nat)
    requires Span(bs, end) && i < |bs| && bs[i].addr <= a < bs[i].End() && (bs[i].free || a < bs[i].Payload())
    ensures Clear(Live(bs), a) && a < end <= HEAP_MAX && HEAP_START <= a
  {
    hide Span, Tiled;
    Inside(bs, end, i);
    HeapEnds(bs, end);
    forall b: Blk | b in Live(bs)
      ensures a < b.Payload() || b.End() <= a
    {
      var k :| 0 <= k < |bs| && bs[k] == b;
      if k < i {
        Ordered(bs, k, i);
      } else if k > i {
        Ordered(bs, i, k);
      }
    }
  }

  // ---- storing a field of a listed header

  /** One field of block i's header is stored: the other headers and all live payloads stay. */
  lemma FieldStored(m: seq<U32>, bs: seq<Blk>, end: nat, i: nat, k: nat, v: U32, j: nat)
    requires |m| == WORDS && Span(bs, end) && Separate(bs) && i < |bs| && Field(k) && j < |bs|
    ensures WordAddr(bs[i].addr + k)
    ensures HdrAt(Poke(m, bs[i].addr + k, v), bs[j].addr) ==
      if j == i then SetField(HdrAt(m, bs[i].addr), k, v) else HdrAt(m, bs[j].addr)
  {
    hide Poke, HdrAt, SetField, Heap;
    PokeHdr(m, bs[i].addr, k, v, bs[j].addr);
  }

  lemma FieldSafe(m: seq<U32>, bs: seq<Blk>, end: nat, i: nat, k: nat, v: U32)
    requires |m| == WORDS && Span(bs, end) && Separate(bs) && i < |bs| && Field(k)
    ensures WordAddr(bs[i].addr + k) && bs[i].addr + k < end && Untouched(m, Poke(m, bs[i].addr + k, v), Live(bs))
  {
    hide Poke, Heap, Live, Clear;
    OwnClear(bs, end, i, bs[i].addr + k);
    PokeUntouched(m, Live(bs), bs[i].addr + k, v);
  }

  // ---- writing a whole header where there was none

  function NewHeader(m: seq<U32>, n: nat, h: Hdr): (r: seq<U32>)
    requires |m| == WORDS && HdrAddr(n)
    ensures |r| == WORDS
  {
    Poke(Poke(Poke(Poke(m, n + SIZE, h.size), n + IS_FREE, h.isFree), n + NEXT, h.next), n + PREV, h.prev)
  }

  lemma NewHeaderAt(m: seq<U32>, n: nat, h: Hdr, b: nat)
    requires |m| == WORDS && HdrAddr(n) && HdrAddr(b) && (n == b || n + HEADER <= b || b + HEADER <= n)
    ensures HdrAt(NewHeader(m, n, h), b) == if n == b then h else HdrAt(m, b)
  {
    hide Poke, HdrAt;
    var m1 := Poke(m, n + SIZE, h.size);
    var m2 := Poke(m1, n + IS_FREE, h.isFree);
    var m3 := Poke(m2, n + NEXT, h.next);
    PokeHdr(m, n, SIZE, h.size, b);
    PokeHdr(m1, n, IS_FREE, h.isFree, b);
    PokeHdr(m2, n, NEXT, h.next, b);
    PokeHdr(m3, n, PREV, h.prev, b);
  }

  ghost predicate HeaderClear(bs: set<Blk>, n: nat) {
    Clear(bs, n + SIZE) && Clear(bs, n + IS_FREE) && Clear(bs, n + NEXT) && Clear(bs, n + PREV)
  }

  lemma NewHeaderSafe(m: seq<U32>, n: nat, h: Hdr, bs: set<Blk>)
    requires |m| == WORDS && HdrAddr(n) && HeaderClear(bs, n)
    ensures Untouched(m, NewHeader(m, n, h), bs)
  {
    hide Poke, Untouched, Clear;
    var m1 := Poke(m, n + SIZE, h.size);
    var m2 := Poke(m1, n + IS_FREE, h.isFree);
    var m3 := Poke(m2, n + NEXT, h.next);
    PokeUntouched(m, bs, n + SIZE, h.size);
    PokeUntouched(m1, bs, n + IS_FREE, h.isFree);
    PokeUntouched(m2, bs, n + NEXT, h.next);
    PokeUntouched(m3, bs, n + PREV, h.prev);
    UntouchedThen(m, m1, m2, bs);
    UntouchedThen(m, m2, m3, bs);
    UntouchedThen(m, m3, NewHeader(m, n, h), bs);
  }

  // ---- split

  function Rest(bs: seq<Blk>, i: nat, a: nat): nat
    requires i < |bs|
  {
    bs[i].addr + HEADER + a
  }

  predicate CanSplit(bs: seq<Blk>, i: nat, a: nat) {
    && i < |bs| && Splits(bs[i], a) && bs[i].size < 0x1_0000_0000
    && HdrAddr(Rest(bs, i, a)) && HdrAddr(bs[i].addr) && (i + 1 < |bs| ==> HdrAddr(bs[i + 1].addr))
  }

  /** Memory after each stage of taking a bytes of block i when the rest is split off. */
  function SplitNew(m: seq<U32>, bs: seq<Blk>, i: nat, a: nat): (r: seq<U32>)
    requires |m| == WORDS && CanSplit(bs, i, a)
    ensures |r| == WORDS
  {
    NewHeader(m, Rest(bs, i, a), Hdr(bs[i].size - a - HEADER, 1, AddrOf(bs, i + 1), bs[i].addr))
  }

  function SplitBack(m: seq<U32>, bs: seq<Blk>, i: nat, a: nat): (r: seq<U32>)
    requires |m| == WORDS && CanSplit(bs, i, a)
    ensures |r| == WORDS
  {
    if i + 1 < |bs| then Poke(m, bs[i + 1].addr + PREV, Rest(bs, i, a)) else m
  }

  function Taken(m: seq<U32>, bs: seq<Blk>, i: nat, a: nat): (r: seq<U32>)
    requires |m| == WORDS && CanSplit(bs, i, a)
    ensures |r| == WORDS
  {
    Poke(Poke(Poke(m, bs[i].addr + NEXT, Rest(bs, i, a)), bs[i].addr + SIZE, a), bs[i].addr + IS_FREE, 0)
  }

  function SplitMem(m: seq<U32>, bs: seq<Blk>, i: nat, a: nat): (r: seq<U32>)
    requires |m| == WORDS && CanSplit(bs, i, a)
    ensures |r| == WORDS
  {
    Taken(SplitBack(SplitNew(m, bs, i, a), bs, i, a), bs, i, a)
  }

  lemma RestAddr(bs: seq<Blk>, end: nat, i: nat, a: nat)
    requires Span(bs, end) && i < |bs| && Splits(bs[i], a) && a % 4 == 0
    ensures CanSplit(bs, i, a) && bs[i].addr + HEADER <= Rest(bs, i, a) && Rest(bs, i, a) + HEADER <= bs[i].End() <= end
  {
    hide Span, Tiled;
    Inside(bs, end, i);
    HeapEnds(bs, end);
    if i + 1 < |bs| {
      Inside(bs, end, i + 1);
    }
  }

  lemma RestInside(bs: seq<Blk>, end: nat, i: nat, a: nat)
    requires Span(bs, end) && i < |bs| && Fits(bs[i], a) && Splits(bs[i], a) && a % 4 == 0
    ensures CanSplit(bs, i, a) && Rest(bs, i, a) + HEADER <= end
    ensures bs[i].addr + HEADER <= Rest(bs, i, a)
    ensures forall k :: 0 <= k < |bs| && k != i ==> Rest(bs, i, a) + HEADER <= bs[k].addr || bs[k].addr + HEADER <= Rest(bs, i, a)
    ensures HeaderClear(Live(bs), Rest(bs, i, a))
  {
    hide Span, Tiled, Live, Clear, CanSplit, Splits, Rest;
    RestAddr(bs, end, i, a);
    Inside(bs, end, i);
    forall k | 0 <= k < |bs| && k != i
      ensures Rest(bs, i, a) + HEADER <= bs[k].addr || bs[k].addr + HEADER <= Rest(bs, i, a)
    {
      if k < i {
        Ordered(bs, k, i);
      } else {
        Ordered(bs, i, k);
      }
    }
    OwnClear(bs, end, i, Rest(bs, i, a) + SIZE);
    OwnClear(bs, end, i, Rest(bs, i, a) + IS_FREE);
    OwnClear(bs, end, i, Rest(bs, i, a) + NEXT);
    OwnClear(bs, end, i, Rest(bs, i, a) + PREV);
  }

  lemma SplitHeader(m: seq<U32>, bs: seq<Blk>, end: nat, i: nat, a: nat, k: nat)
    requires |m| == WORDS && Span(bs, end) && Separate(bs) && i < |bs| && Fits(bs[i], a) && Splits(bs[i], a) && a % 4 == 0 && k < |bs|
    ensures CanSplit(bs, i, a)
    ensures var h := HdrAt(m, bs[k].addr);
      HdrAt(SplitMem(m, bs, i, a), bs[k].addr)
      == if k == i then Hdr(a, 0, Rest(bs, i, a), h.prev) else if k == i + 1 then h.(prev := Rest(bs, i, a)) else h
  {
    hide Span, Poke, HdrAt, NewHeader, Live;
    RestInside(bs, end, i, a);
    var m1 := SplitNew(m, bs, i, a);
    var m2 := SplitBack(m1, bs, i, a);
    var m3 := Poke(m2, bs[i].addr + NEXT, Rest(bs, i, a));
    var m4 := Poke(m3, bs[i].addr + SIZE, a);
    NewHeaderAt(m, Rest(bs, i, a), Hdr(bs[i].size - a - HEADER, 1, AddrOf(bs, i + 1), bs[i].addr), bs[k].addr);
    if i + 1 < |bs| {
      FieldStored(m1, bs, end, i + 1, PREV, Rest(bs, i, a), k);
    }
    FieldStored(m2, bs, end, i, NEXT, Rest(bs, i, a), k);
    FieldStored(m3, bs, end, i, SIZE, a, k);
    FieldStored(m4, bs, end, i, IS_FREE, 0, k);
  }

  lemma SplitRest(m: seq<U32>, bs: seq<Blk>, end: nat, i: nat, a: nat)
    requires |m| == WORDS && Span(bs, end) && Separate(bs) && i < |bs| && Fits(bs[i], a) && Splits(bs[i], a) && a % 4 == 0
    ensures CanSplit(bs, i, a)
    ensures HdrAt(SplitMem(m, bs, i, a), Rest(bs, i, a)) == Hdr(bs[i].size - a - HEADER, 1, AddrOf(bs, i + 1), bs[i].addr)
  {
    hide Span, Poke, HdrAt, NewHeader, Live;
    RestInside(bs, end, i, a);
    var n := Rest(bs, i, a);
    var m1 := SplitNew(m, bs, i, a);
    var m2 := SplitBack(m1, bs, i, a);
    var m3 := Poke(m2, bs[i].addr + NEXT, n);
    var m4 := Poke(m3, bs[i].addr + SIZE, a);
    NewHeaderAt(m, n, Hdr(bs[i].size - a - HEADER, 1, AddrOf(bs, i + 1), bs[i].addr), n);
    if i + 1 < |bs| {
      PokeHdr(m1, bs[i + 1].addr, PREV, n, n);
    }
    PokeHdr(m2, bs[i].addr, NEXT, n, n);
    PokeHdr(m3, bs[i].addr, SIZE, a, n);
    PokeHdr(m4, bs[i].addr, IS_FREE, 0, n);
  }

  lemma SplitSafe(m: seq<U32>, bs: seq<Blk>, end: nat, i: nat, a: nat)
    requires |m| == WORDS && Span(bs, end) && Separate(bs) && i < |bs| && Fits(bs[i], a) && Splits(bs[i], a) && a % 4 == 0
    ensures CanSplit(bs, i, a)
    ensures Untouched(m, SplitMem(m, bs, i, a), Live(bs))
  {
    hide Span, Poke, HdrAt, NewHeader, Live, Clear, Untouched;
    RestInside(bs, end, i, a);
    var n, l := Rest(bs, i, a), Live(bs);
    var m1 := SplitNew(m, bs, i, a);
    var m2 := SplitBack(m1, bs, i, a);
    var m3 := Poke(m2, bs[i].addr + NEXT, n);
    var m4 := Poke(m3, bs[i].addr + SIZE, a);
    NewHeaderSafe(m, n, Hdr(bs[i].size - a - HEADER, 1, AddrOf(bs, i + 1), bs[i].addr), l);
    if i + 1 < |bs| {
      FieldSafe(m1, bs, end, i + 1, PREV, n);
    } else {
      UntouchedSame(m1, l);
    }
    UntouchedThen(m, m1, m2, l);
    FieldSafe(m2, bs, end, i, NEXT, n);
    UntouchedThen(m, m2, m3, l);
    FieldSafe(m3, bs, end, i, SIZE, a);
    UntouchedThen(m, m3, m4, l);
    FieldSafe(m4, bs, end, i, IS_FREE, 0);
    UntouchedThen(m, m4, SplitMem(m, bs, i, a), l);
  }

  /** The stores of a split turn the memory of the old list into the memory of the new. */
  lemma SplitRep(m: seq<U32>, bs: seq<Blk>, end: nat, i: nat, a: nat)
    requires Rep(m, bs) && Heap(bs, end) && i < |bs| && Fits(bs[i], a) && Splits(bs[i], a) && a % 4 == 0
    ensures CanSplit(bs, i, a)
    ensures Rep(SplitMem(m, bs, i, a), Place(bs, i, a))
  {
    hide Span, Coalesced, HdrAt, SplitMem, Place, Live;
    RestInside(bs, end, i, a);
    var m', p := SplitMem(m, bs, i, a), Place(bs, i, a);
    PlaceKeeps(bs, end, i, a);
    HeapSeparate(p, end);
    PlaceAt(bs, i, a);
    forall j | 0 <= j < |p|
      ensures Shown(m', p, j)
    {
      if j == i + 1 {
        SplitRest(m, bs, end, i, a);
      } else {
        var k := if j <= i then j else j - 1;
        assert Shown(m, bs, k);
        SplitHeader(m, bs, end, i, a, k);
      }
    }
  }

  // ---- changing one flag

  function WithFlag(bs: seq<Blk>, i: nat, free: bool): seq<Blk>
    requires i < |bs|
  {
    bs[i := bs[i].(free := free)]
  }

  lemma FlagSpan(bs: seq<Blk>, end: nat, i: nat, free: bool)
    requires Span(bs, end) && i < |bs|
    ensures Span(WithFlag(bs, i, free), end)
  {
    var f := WithFlag(bs, i, free);
    forall k: nat
      ensures Linked(f, k)
    {
      assert Linked(bs, k);
    }
  }

  lemma FlagRep(m: seq<U32>, bs: seq<Blk>, end: nat, i: nat, free: bool)
    requires Rep(m, bs) && Span(bs, end) && i < |bs|
    ensures HdrAddr(bs[i].addr) && WordAddr(bs[i].addr + IS_FREE)
    ensures Rep(Poke(m, bs[i].addr + IS_FREE, Flag(free)), WithFlag(bs, i, free))
    ensures Untouched(m, Poke(m, bs[i].addr + IS_FREE, Flag(free)), Live(bs))
  {
    hide Span, HdrAt, Poke, Live, Untouched;
    var m', f := Poke(m, bs[i].addr + IS_FREE, Flag(free)), WithFlag(bs, i, free);
    FlagSpan(bs, end, i, free);
    HeapSeparate(f, end);
    FieldSafe(m, bs, end, i, IS_FREE, Flag(free));
    forall j | 0 <= j < |f|
      ensures Shown(m', f, j)
    {
      assert Shown(m, bs, j);
      FieldStored(m, bs, end, i, IS_FREE, Flag(free), j);
    }
  }

  // ---- merging

  predicate CanMerge(bs: seq<Blk>, i: nat) {
    && i + 1 < |bs| && HdrAddr(bs[i].addr) && bs[i].size + (bs[i + 1].size + HEADER) < 0x1_0000_0000
    && HdrAddr(bs[i + 1].addr) && (i + 2 < |bs| ==> HdrAddr(bs[i + 2].addr))
  }

  function MergeBack(m: seq<U32>, bs: seq<Blk>, i: nat): (r: seq<U32>)
    requires |m| == WORDS && CanMerge(bs, i)
    ensures |r| == WORDS
  {
    if i + 2 < |bs| then Poke(m, bs[i + 2].addr + PREV, bs[i].addr) else m
  }

  /** Block i swallows block i + 1: its size, its next, and the prev of what follows. */
  function MergeMem(m: seq<U32>, bs: seq<Blk>, i: nat): (r: seq<U32>)
    requires |m| == WORDS && CanMerge(bs, i)
    ensures |r| == WORDS
  {
    MergeBack(Poke(Poke(m, bs[i].addr + SIZE, bs[i].size + (bs[i + 1].size + HEADER)), bs[i].addr + NEXT, AddrOf(bs, i + 2)), bs, i)
  }

  lemma MergeFits(bs: seq<Blk>, end: nat, i: nat)
    requires Span(bs, end) && i + 1 < |bs|
    ensures CanMerge(bs, i)
  {
    hide Span, Tiled;
    Inside(bs, end, i);
    Inside(bs, end, i + 1);
    HeapEnds(bs, end);
    Ordered(bs, i, i + 1);
    if i + 2 < |bs| {
      Inside(bs, end, i + 2);
    }
  }

  lemma MergeHeader(m: seq<U32>, bs: seq<Blk>, end: nat, i: nat, k: nat)
    requires |m| == WORDS && Span(bs, end) && Separate(bs) && i + 1 < |bs| && k < |bs|
    ensures CanMerge(bs, i)
    ensures var h := HdrAt(m, bs[k].addr);
      HdrAt(MergeMem(m, bs, i), bs[k].addr)
      == if k == i then h.(size := bs[i].size + (bs[i + 1].size + HEADER), next := AddrOf(bs, i + 2))
         else if k == i + 2 then h.(prev := bs[i].addr) else h
  {
    hide Span, Poke, HdrAt;
    MergeFits(bs, end, i);
    var size := bs[i].size + (bs[i + 1].size + HEADER);
    var m1 := Poke(m, bs[i].addr + SIZE, size);
    var m2 := Poke(m1, bs[i].addr + NEXT, AddrOf(bs, i + 2));
    FieldStored(m, bs, end, i, SIZE, size, k);
    FieldStored(m1, bs, end, i, NEXT, AddrOf(bs, i + 2), k);
    if i + 2 < |bs| {
      FieldStored(m2, bs, end, i + 2, PREV, bs[i].addr, k);
    }
  }

  lemma MergeSafe(m: seq<U32>, bs: seq<Blk>, end: nat, i: nat)
    requires |m| == WORDS && Span(bs, end) && Separate(bs) && i + 1 < |bs|
    ensures CanMerge(bs, i) && Untouched(m, MergeMem(m, bs, i), Live(bs))
  {
    hide Span, Poke, HdrAt, Live, Untouched;
    MergeFits(bs, end, i);
    var size, l := bs[i].size + (bs[i + 1].size + HEADER), Live(bs);
    var m1 := Poke(m, bs[i].addr + SIZE, size);
    var m2 := Poke(m1, bs[i].addr + NEXT, AddrOf(bs, i + 2));
    FieldSafe(m, bs, end, i, SIZE, size);
    FieldSafe(m1, bs, end, i, NEXT, AddrOf(bs, i + 2));
    UntouchedThen(m, m1, m2, l);
    if i + 2 < |bs| {
      FieldSafe(m2, bs, end, i + 2, PREV, bs[i].addr);
      UntouchedThen(m, m2, MergeMem(m, bs, i), l);
    }
  }

  lemma MergeRep(m: seq<U32>, bs: seq<Blk>, end: nat, i: nat)
    requires Rep(m, bs) && Span(bs, end) && i + 1 < |bs| && bs[i + 1].free
    ensures CanMerge(bs, i) && Rep(MergeMem(m, bs, i), MergeNext(bs, i))
  {
    hide Span, HdrAt, MergeMem, MergeNext, Tiled, CanMerge;
    MergeFits(bs, end, i);
    var m', r := MergeMem(m, bs, i), MergeNext(bs, i);
    SpanMerge(bs, end, i);
    HeapSeparate(r, end);
    MergeNextAt(bs, i);
    forall j | 0 <= j < |r|
      ensures Shown(m', r, j)
    {
      assert Shown(m, bs, if j <= i then j else j + 1);
      MergedShown(m, bs, end, i, j);
    }
  }

  lemma MergedShown(m: seq<U32>, bs: seq<Blk>, end: nat, i: nat, j: nat)
    requires |m| == WORDS && Span(bs, end) && Separate(bs) && i + 1 < |bs| && bs[i + 1].free && j < |bs| - 1
    requires Shown(m, bs, if j <= i then j else j + 1)
    ensures CanMerge(bs, i)
    ensures var r := MergeNext(bs, i); |r| == |bs| - 1 && HdrAddr(r[j].addr) && Shown(MergeMem(m, bs, i), r, j)
  {
    hide Span, HdrAt, MergeMem, MergeNext, Tiled;
    MergeFits(bs, end, i);
    MergeNextAt(bs, i);
    MergeHeader(m, bs, end, i, if j <= i then j else j + 1);
  }

  lemma SpanMerge(bs: seq<Blk>, end: nat, i: nat)
    requires Span(bs, end) && i < |bs|
    ensures Span(MergeNext(bs, i), end)
  {
    hide Tiled, MergeNext;
    MergeNextTiled(bs, i);
  }

  // ---- growing

  predicate CanGrow(bs: seq<Blk>, end: nat) {
    bs != [] && HdrAddr(bs[|bs| - 1].addr) && HdrAddr(end) && bs[|bs| - 1].size + PAGE_SIZE < 0x1_0000_0000
  }

  function GrowMem(m: seq<U32>, bs: seq<Blk>, end: nat): (r: seq<U32>)
    requires |m| == WORDS && CanGrow(bs, end)
    ensures |r| == WORDS
  {
    var last := bs[|bs| - 1];
    if last.free then Poke(m, last.addr + SIZE, last.size + PAGE_SIZE)
    else Poke(NewHeader(m, end, Hdr(PAGE_SIZE - HEADER, 1, 0, last.addr)), last.addr + NEXT, end)
  }

  lemma GrowFits(bs: seq<Blk>, end: nat)
    requires Heap(bs, end) && end + PAGE_SIZE <= HEAP_MAX
    ensures Separate(bs) && CanGrow(bs, end)
    ensures HeaderClear(Live(bs), end)
    ensures forall k :: 0 <= k < |bs| ==> bs[k].addr + HEADER <= end
  {
    hide Span, Tiled;
    HeapEnds(bs, end);
    HeapSeparate(bs, end);
    forall k | 0 <= k < |bs|
      ensures bs[k].End() <= end
    {
      Inside(bs, end, k);
    }
  }

  lemma GrowRep(m: seq<U32>, bs: seq<Blk>, end: nat)
    requires Rep(m, bs) && Heap(bs, end) && end + PAGE_SIZE <= HEAP_MAX
    ensures CanGrow(bs, end)
    ensures Rep(GrowMem(m, bs, end), Grow(bs, end)) && Untouched(m, GrowMem(m, bs, end), Live(bs))
  {
    hide Span, Coalesced, Live, HeaderClear, Untouched, GrowMem, Shown;
    GrowFits(bs, end);
    GrowKeeps(bs, end);
    var g, m' := Grow(bs, end), GrowMem(m, bs, end);
    HeapSeparate(g, end + PAGE_SIZE);
    GrowSafe(m, bs, end);
    forall j | 0 <= j < |g|
      ensures Shown(m', g, j)
    {
      if bs[|bs| - 1].free {
        StretchShown(m, bs, end, j);
      } else {
        AppendShown(m, bs, end, j);
      }
    }
  }

  lemma GrowSafe(m: seq<U32>, bs: seq<Blk>, end: nat)
    requires |m| == WORDS && CanGrow(bs, end) && Separate(bs) && Span(bs, end) && HeaderClear(Live(bs), end)
    ensures Untouched(m, GrowMem(m, bs, end), Live(bs))
  {
    hide Span, Poke, NewHeader, Live, HeaderClear, Untouched;
    var last, n := bs[|bs| - 1], |bs| - 1;
    if last.free {
      FieldSafe(m, bs, end, n, SIZE, last.size + PAGE_SIZE);
    } else {
      var h := Hdr(PAGE_SIZE - HEADER, 1, 0, last.addr);
      NewHeaderSafe(m, end, h, Live(bs));
      FieldSafe(NewHeader(m, end, h), bs, end, n, NEXT, end);
      UntouchedThen(m, NewHeader(m, end, h), GrowMem(m, bs, end), Live(bs));
    }
  }

  lemma StretchShown(m: seq<U32>, bs: seq<Blk>, end: nat, j: nat)
    requires Rep(m, bs) && CanGrow(bs, end) && Span(bs, end) && bs[|bs| - 1].free && j < |bs|
    ensures var g := Grow(bs, end); |g| == |bs| && HdrAddr(g[j].addr) && Shown(GrowMem(m, bs, end), g, j)
  {
    hide Span, HdrAt, Poke;
    assert Shown(m, bs, j);
    FieldStored(m, bs, end, |bs| - 1, SIZE, bs[|bs| - 1].size + PAGE_SIZE, j);
  }

  lemma AppendShown(m: seq<U32>, bs: seq<Blk>, end: nat, j: nat)
    requires Rep(m, bs) && CanGrow(bs, end) && !bs[|bs| - 1].free && j <= |bs|
    requires forall k :: 0 <= k < |bs| ==> bs[k].addr + HEADER <= end
    ensures var g := Grow(bs, end); |g| == |bs| + 1 && HdrAddr(g[j].addr) && Shown(GrowMem(m, bs, end), g, j)
  {
    hide HdrAt, Poke, NewHeader;
    var g, n := Grow(bs, end), |bs| - 1;
    var h := Hdr(PAGE_SIZE - HEADER, 1, 0, bs[n].addr);
    NewHeaderAt(m, end, h, g[j].addr);
    PokeHdr(NewHeader(m, end, h), bs[n].addr, NEXT, end, g[j].addr);
    if j <= n {
      assert Shown(m, bs, j);
    }
  }

  // ---- the allocator

  class KernelHeap {
    const words: array<U32>
    var head: U32
    var end: U32
    var frames: nat
    ghost var mapped: nat
    ghost var blocks: seq<Blk>

    ghost function State(): HeapSpec.State
      reads this
    {
      HeapSpec.State(blocks, end, frames)
    }

    ghost predicate Valid()
      reads this, words
    {
      && words.Length == WORDS && head == HEAP_START && mapped == end
      && Heap(blocks, end) && Rep(words[..], blocks)
    }

    /** init_heap: map the first page and make it one free block.  `supply` is how many more
        pages the frame allocator will give. */
    constructor (memory: array<U32>, supply: nat)
      requires memory.Length == WORDS
      modifies memory
      ensures words == memory && Valid()
      ensures State() == HeapSpec.State([Blk(HEAP_START, PAGE_SIZE - HEADER, true)], HEAP_START + PAGE_SIZE, supply)
    {
      hide Rep, Heap, HdrAt, Peek, Poke;
      words := memory;
      frames := supply;
      mapped := HEAP_START + PAGE_SIZE;
      head := HEAP_START;
      end := HEAP_START + PAGE_SIZE;
      blocks := [Blk(HEAP_START, PAGE_SIZE - HEADER, true)];
      new;
      ghost var m := words[..];
      WriteHeader(HEAP_START, PAGE_SIZE - HEADER, 1, 0, 0);
      FirstBlock(m);
    }

    static lemma FirstBlock(m: seq<U32>)
      requires |m| == WORDS
      ensures var bs := [Blk(HEAP_START, PAGE_SIZE - HEADER, true)];
        && Heap(bs, HEAP_START + PAGE_SIZE)
        && HdrAddr(HEAP_START) && Rep(NewHeader(m, HEAP_START, Hdr(PAGE_SIZE - HEADER, 1, 0, 0)), bs)
    {
      hide NewHeader, HdrAt;
      NewHeaderAt(m, HEAP_START, Hdr(PAGE_SIZE - HEADER, 1, 0, 0), HEAP_START);
    }

    /** Read a word of a mapped page. */
    method Load(a: nat) returns (v: U32)
      requires words.Length == WORDS && WordAddr(a) && a < mapped
      ensures v == Peek(words[..], a)
    {
      v := words[(a - HEAP_START) / 4];
    }

    /** Write a word of a mapped page. */
    method Put(a: nat, v: U32)
      requires words.Length == WORDS && WordAddr(a) && a < mapped
      modifies words
      ensures words[..] == Poke(old(words[..]), a, v)
    {
      words[(a - HEAP_START) / 4] := v;
    }

    method WriteHeader(n: nat, size: U32, isFree: U32, next: U32, prev: U32)
      requires words.Length == WORDS && HdrAddr(n) && n + HEADER <= mapped
      modifies words
      ensures words[..] == NewHeader(old(words[..]), n, Hdr(size, isFree, next, prev))
    {
      hide Poke;
      Put(n + SIZE, size);
      Put(n + IS_FREE, isFree);
      Put(n + NEXT, next);
      Put(n + PREV, prev);
    }

    /** What the header of block i holds. */
    static lemma Reads(m: seq<U32>, bs: seq<Blk>, end: nat, i: nat)
      requires Rep(m, bs) && Span(bs, end) && i < |bs|
      ensures HdrAddr(bs[i].addr) && bs[i].End() <= end && 0 < bs[i].addr
      ensures Peek(m, bs[i].addr + SIZE) == bs[i].size && Peek(m, bs[i].addr + IS_FREE) == Flag(bs[i].free)
      ensures Peek(m, bs[i].addr + NEXT) == AddrOf(bs, i + 1) && Peek(m, bs[i].addr + PREV) == AddrOf(bs, i - 1)
    {
      hide Peek, Span;
      Inside(bs, end, i);
      assert Shown(m, bs, i);
    }

    /** kmalloc.  The result and the new list are those of the specification; memory is given
        exactly when something was asked for and the pages it takes may be added; no word of
        a live payload changes. */
    method Kmalloc(size: U32) returns (r: U32)
      requires Valid()
      modifies this, words
      ensures Valid()
      ensures (State(), r) == HeapSpec.Kmalloc(old(State()), size)
      ensures old(blocks) != [] && (r != 0 <==> size != 0 && MayAdd(old(State()), PagesNeeded(old(blocks), Aligned(size))))
      ensures Untouched(old(words[..]), words[..], Live(old(blocks)))
      decreases HEAP_MAX - end
    {
      hide Heap, Rep, Place, Grow, Untouched, Live, Peek, Aligned, PagesNeeded, MayAdd;
      ghost var m, bs := words[..], blocks;
      KmallocServes(State(), size);
      Starts(bs, end);
      UntouchedSame(m, Live(bs));
      if size == 0 {
        return 0;
      }
      AlignedCovers(size);
      var alignedSize: U32 := (size + 3) % 0x1_0000_0000 / 4 * 4;
      assert alignedSize == Aligned(size) by { AlignedIs(size); }
      var block, prevBlock, i := Search(alignedSize);
      if block != 0 {
        Reads(m, bs, end, i);
        TakeBlock(block, alignedSize, i);
        return block + HEADER;
      }
      if end + PAGE_SIZE > HEAP_MAX {
        return 0;
      }
      if frames == 0 {
        return 0;
      }
      frames := frames - 1;
      Extend(prevBlock);
      ghost var m1, bs1 := words[..], blocks;
      r := Kmalloc(size);
      UntouchedThen(m, m1, words[..], Live(bs));
    }

    /** The search loop: the first block that fits and the one before it, or 0 and the last
        block. */
    method Search(alignedSize: U32) returns (block: U32, prevBlock: U32, ghost i: nat)
      requires Valid()
      ensures i == FirstFit(blocks, alignedSize, 0) && block == AddrOf(blocks, i) && prevBlock == AddrOf(blocks, i - 1)
      ensures block == 0 <==> i == |blocks|
    {
      hide Heap, Rep, Peek;
      Starts(blocks, end);
      block, prevBlock, i := head, 0, 0;
      while block != 0
        invariant i <= |blocks| && block == AddrOf(blocks, i) && prevBlock == AddrOf(blocks, i - 1)
        invariant FirstFit(blocks, alignedSize, 0) == FirstFit(blocks, alignedSize, i)
        decreases |blocks| - i
      {
        Reads(words[..], blocks, end, i);
        var isFree := Load(block + IS_FREE);
        var blockSize := Load(block + SIZE);
        if isFree != 0 && blockSize >= alignedSize {
          return;
        }
        prevBlock := block;
        block := Load(block + NEXT);
        i := i + 1;
      }
    }

    static lemma AlignedIs(size: U32)
      ensures Aligned(size) == (size + 3) % 0x1_0000_0000 / 4 * 4
    {
    }

    static lemma Starts(bs: seq<Blk>, end: nat)
      requires Heap(bs, end)
      ensures bs != [] && bs[0].addr == HEAP_START && Span(bs, end) && forall k :: 0 <= k < |bs| ==> bs[k].addr > 0
    {
      hide Tiled;
      forall k | 0 <= k < |bs|
        ensures bs[k].addr > 0
      {
        Inside(bs, end, k);
      }
    }

    /** The body of the search loop once a block fits: split it if enough is left, and mark
        it used. */
    method TakeBlock(block: U32, alignedSize: U32, ghost i: nat)
      requires Valid() && i < |blocks| && block == blocks[i].addr && Fits(blocks[i], alignedSize) && alignedSize % 4 == 0
      modifies words, `blocks
      ensures Valid() && blocks == Place(old(blocks), i, alignedSize)
      ensures Untouched(old(words[..]), words[..], Live(old(blocks)))
    {
      hide Heap, Rep, Place, Untouched, Live, Peek, Poke, Span, NewHeader, Tiled;
      ghost var m, bs := words[..], blocks;
      Starts(bs, end);
      PlaceKeeps(bs, end, i, alignedSize);
      Reads(m, bs, end, i);
      var blockSize := Load(block + SIZE);
      if blockSize - alignedSize >= HEADER + 4 {
        SplitBlock(block, alignedSize, i);
      } else {
        FlagRep(m, bs, end, i, false);
        WholePlace(bs, i, alignedSize);
        Put(block + IS_FREE, 0);
      }
      blocks := Place(bs, i, alignedSize);
    }

    /** Split the rest off and mark the block used. */
    method SplitBlock(block: U32, alignedSize: U32, ghost i: nat)
      requires Valid() && i < |blocks| && block == blocks[i].addr && Fits(blocks[i], alignedSize) && alignedSize % 4 == 0
      requires Splits(blocks[i], alignedSize)
      modifies words
      ensures Rep(words[..], Place(blocks, i, alignedSize)) && Untouched(old(words[..]), words[..], Live(blocks))
    {
      hide Heap, Rep, Place, Untouched, Live, Peek, Poke, Span, NewHeader, Tiled, Coalesced, Separate, HeaderClear, SplitMem;
      ghost var m, bs := words[..], blocks;
      var a := alignedSize;
      Starts(bs, end);
      RestInside(bs, end, i, a);
      SplitRep(m, bs, end, i, a);
      RepSeparate(m, bs);
      SplitSafe(m, bs, end, i, a);
      Reads(m, bs, end, i);
      var blockSize := Load(block + SIZE);
      var newBlock := block + a + HEADER;
      var next := Load(block + NEXT);
      if i + 1 < |bs| {
        Reads(m, bs, end, i + 1);
      }
      WriteHeader(newBlock, blockSize - a - HEADER, 1, next, block);
      if next != 0 {
        Put(next + PREV, newBlock);
      }
      Put(block + NEXT, newBlock);
      Put(block + SIZE, a);
      Put(block + IS_FREE, 0);
      assert words[..] == SplitMem(m, bs, i, a) by { SplitIs(m, bs, i, a); }
    }

    static lemma SplitIs(m: seq<U32>, bs: seq<Blk>, i: nat, a: nat)
      requires |m| == WORDS && CanSplit(bs, i, a)
      ensures SplitMem(m, bs, i, a) == Taken(SplitBack(SplitNew(m, bs, i, a), bs, i, a), bs, i, a)
    {
    }

    static lemma RepSeparate(m: seq<U32>, bs: seq<Blk>)
      requires Rep(m, bs)
      ensures Separate(bs)
    {
    }

    static lemma WholePlace(bs: seq<Blk>, i: nat, a: nat)
      requires i < |bs| && Fits(bs[i], a) && !Splits(bs[i], a)
      ensures Place(bs, i, a) == WithFlag(bs, i, false)
    {
    }

    /** The page is mapped; give it to the last block or make a block of it. */
    method Extend(prevBlock: U32)
      requires Valid() && end + PAGE_SIZE <= HEAP_MAX && prevBlock == AddrOf(blocks, |blocks| - 1)
      modifies words, `blocks, `end, `mapped
      ensures Valid() && end == old(end) + PAGE_SIZE && blocks == Grow(old(blocks), old(end))
      ensures Untouched(old(words[..]), words[..], Live(old(blocks))) && Live(blocks) == Live(old(blocks))
    {
      hide Heap, Rep, Grow, Untouched, Live, Peek, Poke, Span, NewHeader, Separate, HeaderClear, GrowMem;
      ghost var m, bs, n := words[..], blocks, |blocks| - 1;
      Starts(bs, end);
      GrowKeeps(bs, end);
      GrowFits(bs, end);
      GrowRep(m, bs, end);
      Reads(m, bs, end, n);
      mapped := mapped + PAGE_SIZE;
      var isFree := Load(prevBlock + IS_FREE);
      if prevBlock != 0 && isFree != 0 {
        var size := Load(prevBlock + SIZE);
        Put(prevBlock + SIZE, size + PAGE_SIZE);
      } else {
        WriteHeader(end, PAGE_SIZE - HEADER, 1, 0, prevBlock);
        Put(prevBlock + NEXT, end);
      }
      assert words[..] == GrowMem(m, bs, end) by { GrowIs(m, bs, end); }
      end := end + PAGE_SIZE;
      blocks := Grow(bs, end - PAGE_SIZE);
    }

    static lemma GrowIs(m: seq<U32>, bs: seq<Blk>, end: nat)
      requires |m| == WORDS && CanGrow(bs, end)
      ensures var last := bs[|bs| - 1];
        GrowMem(m, bs, end) == if last.free then Poke(m, last.addr + SIZE, last.size + PAGE_SIZE)
          else Poke(NewHeader(m, end, Hdr(PAGE_SIZE - HEADER, 1, 0, last.addr)), last.addr + NEXT, end)
    {
    }

    /** kfree of null or of a live pointer: the block is merged with its free neighbours,
        and no word of a payload that stays live changes. */
    method Kfree(ptr: U32)
      requires Valid() && (ptr == 0 || IsLive(blocks, ptr))
      modifies words, `blocks
      ensures Valid() && blocks == HeapSpec.Kfree(old(blocks), ptr)
      ensures Untouched(old(words[..]), words[..], Live(blocks))
    {
      hide Heap, Rep, Release, Untouched, Live, Peek, Poke, Span, IndexOf, IsLive, MergeNext, MergePrev;
      ghost var m, bs := words[..], blocks;
      if ptr == 0 {
        UntouchedSame(m, Live(bs));
        return;
      }
      Starts(bs, end);
      FindsBlock(bs, end, ptr);
      var block: U32 := ptr - HEADER;
      ghost var i := IndexOf(bs, block, 0);
      ReleaseKeeps(bs, end, i);
      Reads(m, bs, end, i);
      FlagRep(m, bs, end, i, true);
      FlagSpan(bs, end, i, true);
      Put(block + IS_FREE, 1);
      ghost var m1, f := words[..], WithFlag(bs, i, true);
      AbsorbNext(f, i, block);
      ghost var m2, g := words[..], MergeNext(f, i);
      SpanMerge(f, end, i);
      Absorbed(f, i);
      AbsorbIntoPrev(g, i, block);
      assert Release(bs, i) == MergePrev(g, i) by { ReleaseIs(bs, i); }
      Inside(bs, end, i);
      KfreeEnds(m, bs, m1, m2, words[..], i);
      blocks := Release(bs, i);
    }

    static lemma Absorbed(bs: seq<Blk>, i: nat)
      requires i < |bs| && bs[i].free
      ensures var g := MergeNext(bs, i); i < |g| && g[i].free && g[i].addr == bs[i].addr
    {
    }

    static lemma ReleaseIs(bs: seq<Blk>, i: nat)
      requires i < |bs|
      ensures i < |MergeNext(WithFlag(bs, i, true), i)| && Release(bs, i) == MergePrev(MergeNext(WithFlag(bs, i, true), i), i)
    {
    }

    static lemma KfreeEnds(m: seq<U32>, bs: seq<Blk>, m1: seq<U32>, m2: seq<U32>, m3: seq<U32>, i: nat)
      requires i < |bs| && Tiled(bs) && !bs[i].free && Live(Release(bs, i)) == Live(bs) - {bs[i]}
      requires var f := WithFlag(bs, i, true);
        Untouched(m, m1, Live(bs)) && Untouched(m1, m2, Live(f)) && i < |MergeNext(f, i)| && Untouched(m2, m3, Live(MergeNext(f, i)))
      ensures Untouched(m, m3, Live(Release(bs, i)))
    {
      hide Untouched, Live, MergeNext, MergePrev;
      var f, kept := WithFlag(bs, i, true), Live(bs) - {bs[i]};
      LiveWithout(bs, i);
      MergeLive(f, i);
      UntouchedFewer(m, m1, Live(bs), kept);
      UntouchedThen(m, m1, m2, kept);
      UntouchedThen(m, m2, m3, kept);
    }

    /** Merge the block at `first` with its free right neighbour at `second`. */
    method Merge(first: U32, second: U32, ghost bs: seq<Blk>, ghost i: nat)
      requires words.Length == WORDS && mapped == end && Rep(words[..], bs) && Span(bs, end)
      requires i + 1 < |bs| && bs[i + 1].free && first == bs[i].addr && second == bs[i + 1].addr
      modifies words
      ensures Rep(words[..], MergeNext(bs, i)) && Untouched(old(words[..]), words[..], Live(bs))
    {
      hide Rep, Untouched, Live, Peek, Poke, Span, MergeNext, Separate, MergeMem;
      ghost var m := words[..];
      RepSeparate(m, bs);
      MergeFits(bs, end, i);
      MergeRep(m, bs, end, i);
      MergeSafe(m, bs, end, i);
      Reads(m, bs, end, i);
      Reads(m, bs, end, i + 1);
      var size := Load(first + SIZE);
      var otherSize := Load(second + SIZE);
      var next := Load(second + NEXT);
      if i + 2 < |bs| {
        Reads(m, bs, end, i + 2);
      }
      Put(first + SIZE, size + (otherSize + HEADER));
      Put(first + NEXT, next);
      if next != 0 {
        Put(next + PREV, first);
      }
      assert words[..] == MergeMem(m, bs, i) by { MergeIs(m, bs, i); }
    }

    static lemma MergeIs(m: seq<U32>, bs: seq<Blk>, i: nat)
      requires |m| == WORDS && CanMerge(bs, i)
      ensures MergeMem(m, bs, i)
        == MergeBack(Poke(Poke(m, bs[i].addr + SIZE, bs[i].size + (bs[i + 1].size + HEADER)), bs[i].addr + NEXT, AddrOf(bs, i + 2)), bs, i)
    {
    }

    /** If the next block is free, swallow it. */
    method AbsorbNext(ghost bs: seq<Blk>, ghost i: nat, block: U32)
      requires words.Length == WORDS && mapped == end && Rep(words[..], bs) && Span(bs, end)
      requires i < |bs| && bs[i].free && block == bs[i].addr
      modifies words
      ensures Rep(words[..], MergeNext(bs, i)) && Untouched(old(words[..]), words[..], Live(bs))
    {
      hide Rep, Untouched, Live, Peek, Poke, Span;
      ghost var m := words[..];
      UntouchedSame(m, Live(bs));
      Reads(m, bs, end, i);
      var next := Load(block + NEXT);
      if i + 1 < |bs| {
        Reads(m, bs, end, i + 1);
      }
      if next != 0 {
        var isFree := Load(next + IS_FREE);
        if isFree != 0 {
          Merge(block, next, bs, i);
        }
      }
    }

    static lemma MergePrevIs(bs: seq<Blk>, i: nat)
      requires i < |bs| && bs[i].free
      ensures MergePrev(bs, i) == if i > 0 && bs[i - 1].free then MergeNext(bs, i - 1) else bs
    {
      assert bs[i := bs[i].(free := true)] == bs;
    }

    /** If the previous block is free, be swallowed by it. */
    method AbsorbIntoPrev(ghost bs: seq<Blk>, ghost i: nat, block: U32)
      requires words.Length == WORDS && mapped == end && Rep(words[..], bs) && Span(bs, end)
      requires i < |bs| && bs[i].free && block == bs[i].addr
      modifies words
      ensures Rep(words[..], MergePrev(bs, i)) && Untouched(old(words[..]), words[..], Live(bs))
    {
      hide Rep, Untouched, Live, Peek, Poke, Span, MergeNext, MergePrev;
      ghost var m := words[..];
      UntouchedSame(m, Live(bs));
      Reads(m, bs, end, i);
      MergePrevIs(bs, i);
      var prev := Load(block + PREV);
      if i > 0 {
        Reads(m, bs, end, i - 1);
      }
      if prev != 0 {
        var isFree := Load(prev + IS_FREE);
        if isFree != 0 {
          Merge(prev, block, bs, i - 1);
        }
      }
    }
  }
}
