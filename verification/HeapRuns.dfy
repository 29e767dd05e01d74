/**
 Callers and the kernel heap together, over runs: what a payload holds from kmalloc to kfree
 (mm/heap.cpp), whatever other calls and stores come between.
 */
module HeapRuns {
  import opened Machine
  import opened HeapSpec
  import opened KernelHeap

  /** The heap's blocks and its memory. */
  datatype World = World(s: State, m: seq<U32>)

  /** A call of the heap, or a caller's store of a word. */
  datatype Event = HeapCall(c: Call) | Store(a: nat, v: U32)

  ghost predicate WorldOk(w: World) {
    Good(w.s) && Rep(w.m, w.s.bs)
  }

  /** The address lies in this block's payload. */
  predicate Within(b: Blk, a: nat) {
    b.Payload() <= a < b.End() && WordAddr(a)
  }

  /** kmalloc and kfree do to blocks and memory what KernelHeap's methods promise; callers
      store only inside blocks that are theirs. */
  ghost predicate Does(w: World, e: Event, t: World) {
    match e
    case HeapCall(Malloc(size, frames)) =>
      && w.s.bs != [] && t.s == Kmalloc(w.s.(frames := frames), size).0
      && Rep(t.m, t.s.bs) && Untouched(w.m, t.m, Live(w.s.bs))
    case HeapCall(Free(ptr)) =>
      && (ptr == 0 || IsLive(w.s.bs, ptr)) && t.s == w.s.(bs := Kfree(w.s.bs, ptr))
      && Rep(t.m, t.s.bs) && Untouched(w.m, t.m, Live(t.s.bs))
    case Store(a, v) =>
      && |w.m| == WORDS && WordAddr(a) && (exists b :: b in Live(w.s.bs) && Within(b, a))
      && t == w.(m := Poke(w.m, a, v))
  }

  // ---- one event

  /** A caller's store reaches no header. */
  lemma StoreKeepsRep(w: World, a: nat, v: U32, b: Blk)
    requires WorldOk(w) && b in Live(w.s.bs) && Within(b, a)
    ensures Rep(Poke(w.m, a, v), w.s.bs)
  {
    hide Poke, Heap, Shown;
    HeapSpan(w.s.bs, w.s.end);
    forall i | 0 <= i < |w.s.bs|
      ensures Shown(Poke(w.m, a, v), w.s.bs, i)
    {
      assert Shown(w.m, w.s.bs, i);
      LiveApart(w.s.bs, w.s.end, b, w.s.bs[i]);
      StoreShown(w.m, w.s.bs, a, v, i);
    }
  }

  lemma StoreShown(m: seq<U32>, bs: seq<Blk>, a: nat, v: U32, i: nat)
    requires |m| == WORDS && i < |bs| && HdrAddr(bs[i].addr) && Shown(m, bs, i) && WordAddr(a)
    requires a < bs[i].addr || bs[i].Payload() <= a
    ensures Shown(Poke(m, a, v), bs, i)
  {
    hide Poke, Peek;
    PeekPoke(m, a, v, bs[i].addr + SIZE);
    PeekPoke(m, a, v, bs[i].addr + IS_FREE);
    PeekPoke(m, a, v, bs[i].addr + NEXT);
    PeekPoke(m, a, v, bs[i].addr + PREV);
  }

  lemma HeapSpan(bs: seq<Blk>, end: nat)
    requires Heap(bs, end)
    ensures Span(bs, end) && Tiled(bs)
  {
  }

  /** A call keeps every live block but the one freed. */
  lemma CallKeeps(s: State, c: Call, t: State)
    requires Good(s) && s.bs != []
    requires match c
      case Malloc(size, frames) => t == Kmalloc(s.(frames := frames), size).0
      case Free(ptr) => (ptr == 0 || IsLive(s.bs, ptr)) && t == s.(bs := Kfree(s.bs, ptr))
    ensures Good(t)
    ensures forall b :: b in Live(s.bs) && (c.Free? ==> b.Payload() != c.ptr) ==> b in Live(t.bs)
  {
    hide Span, Coalesced, Allocate, Release, IndexOf, Live;
    match c
    case Malloc(size, frames) =>
      if size != 0 {
        AlignedCovers(size);
        AllocateKeeps(s.(frames := frames), Aligned(size));
      }
    case Free(ptr) =>
      if ptr != 0 {
        FindsBlock(s.bs, s.end, ptr);
        ReleaseKeeps(s.bs, s.end, IndexOf(s.bs, ptr - HEADER, 0));
      }
  }

  lemma EventKeeps(w: World, e: Event, t: World)
    requires WorldOk(w) && Does(w, e, t)
    ensures WorldOk(t)
    ensures forall b :: b in Live(w.s.bs) && (e.HeapCall? && e.c.Free? ==> b.Payload() != e.c.ptr) ==> b in Live(t.s.bs)
  {
    hide Rep, Untouched, Live, Kmalloc, Kfree, IsLive, Poke, Heap;
    match e
    case HeapCall(c) =>
      NotEmpty(w.s);
      CallKeeps(w.s, c, t.s);
    case Store(a, v) =>
      var b :| b in Live(w.s.bs) && Within(b, a);
      StoreKeepsRep(w, a, v, b);
  }

  /** A word of a block that stays live changes only by a store to that word. */
  lemma EventWord(w: World, e: Event, t: World, b: Blk, a: nat)
    requires WorldOk(w) && Does(w, e, t) && b in Live(w.s.bs) && b in Live(t.s.bs) && Within(b, a)
    ensures |w.m| == |t.m| == WORDS
    ensures Peek(t.m, a) == if e.Store? && e.a == a then e.v else Peek(w.m, a)
  {
    hide Live, Kmalloc, Kfree, IsLive, Poke, Peek, Heap;
    match e
    case HeapCall(c) =>
      assert SamePayload(w.m, t.m, b);
    case Store(a', v) => PeekPoke(w.m, a', v, a);
  }

  // ---- runs

  ghost predicate WorldRun(worlds: seq<World>, events: seq<Event>) {
    |worlds| == |events| + 1 && forall k {:trigger events[k]} :: 0 <= k < |events| ==> Does(worlds[k], events[k], worlds[k + 1])
  }

  lemma WorldPrefix(worlds: seq<World>, events: seq<Event>)
    requires WorldRun(worlds, events) && events != []
    ensures var n := |events| - 1;
      |worlds| == n + 2 && WorldRun(worlds[..n + 1], events[..n]) && Does(worlds[n], events[n], worlds[n + 1])
  {
    hide Does;
    var n := |events| - 1;
    assert forall k :: 0 <= k < n ==> events[..n][k] == events[k];
    assert Does(worlds[n], events[n], worlds[n + 1]);
  }

  /** What was last stored at an address, or what was there before. */
  function LastStored(events: seq<Event>, a: nat, before: U32): U32 {
    if events == [] then before
    else
      var e := events[|events| - 1];
      if e.Store? && e.a == a then e.v else LastStored(events[..|events| - 1], a, before)
  }

  /** Until it is freed a block is live, the list in memory is intact, and each word of its
      payload holds what was last stored there: no call and no other caller's store reaches
      it. */
  lemma {:induction false} PayloadKept(worlds: seq<World>, events: seq<Event>, b: Blk, a: nat)
    requires WorldRun(worlds, events) && WorldOk(worlds[0]) && b in Live(worlds[0].s.bs) && Within(b, a)
    requires HeapCall(Free(b.Payload())) !in events
    ensures |worlds| == |events| + 1 && WorldOk(worlds[|events|]) && b in Live(worlds[|events|].s.bs)
    ensures |worlds[0].m| == |worlds[|events|].m| == WORDS
    ensures Peek(worlds[|events|].m, a) == LastStored(events, a, Peek(worlds[0].m, a))
    decreases |events|
  {
    hide Does, Live, Peek, Within;
    RepSize(worlds[0]);
    if events != [] {
      var n := |events| - 1;
      WorldPrefix(worlds, events);
      assert events == events[..n] + [events[n]];
      PayloadKept(worlds[..n + 1], events[..n], b, a);
      EventKeeps(worlds[n], events[n], worlds[n + 1]);
      EventWord(worlds[n], events[n], worlds[n + 1], b, a);
    }
  }

  lemma RepSize(w: World)
    requires WorldOk(w)
    ensures |w.m| == WORDS
  {
  }
}
