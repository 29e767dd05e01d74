/**
 The scheduler (task/task.cpp) on values: the circular list is a sequence that starts at
 the current task, and every function of the source is one step.
 */
module SchedSpec {
  const TIMER_FREQ := 100

  datatype TaskState = Ready | Running | Sleeping | Dead

  /** A task: its pid, state and wake-up tick, and the memory that dies with it. */
  datatype Rec = Rec(id: nat, state: TaskState, wake: nat, isUser: bool, stack: nat, userStack: nat, dir: nat, mem: nat)

  /** What the kernel heap (kfree) and the frame allocator (pmm_free_page) get back. */
  datatype Res = Heap(addr: nat) | Frame(addr: nat)

  /** What kill_task gives back, in its order. */
  function Resources(r: Rec): seq<Res> {
    [Heap(r.stack)] + (if r.isUser then [Frame(r.userStack), Frame(r.dir)] else []) + [Heap(r.mem)]
  }

  /** What a task holds of the allocators: the kernel task is static and holds nothing. */
  function Holds(r: Rec): multiset<Res> {
    if r.id == 0 then multiset{} else multiset(Resources(r))
  }

  /** ring[0] is the current task; the others follow in the order of their next links. */
  datatype Sched = Sched(ring: seq<Rec>, nextPid: nat, tick: nat, freed: seq<Res>)

  /** The state init_tasking leaves: the kernel task alone, RUNNING. */
  function Boot(cr3: nat): Sched {
    Sched([Rec(0, Running, 0, false, 0, 0, cr3, 0)], 1, 0, [])
  }

  // ---- the invariant

  predicate DistinctIds(ring: seq<Rec>) {
    forall i, j {:trigger ring[i], ring[j]} :: 0 <= i < j < |ring| ==> ring[i].id != ring[j].id
  }

  /** Only the current task can be RUNNING. */
  predicate OnlyFirstRuns(ring: seq<Rec>) {
    forall i {:trigger ring[i]} :: 0 < i < |ring| ==> !ring[i].state.Running?
  }

  predicate HasPid(ring: seq<Rec>, pid: nat) {
    exists i {:trigger ring[i]} :: 0 <= i < |ring| && ring[i].id == pid
  }

  /** The kernel task is in the ring, pids are distinct and below the next one, and only the
      current task can be RUNNING. */
  predicate Inv(s: Sched) {
    && s.ring != [] && DistinctIds(s.ring) && OnlyFirstRuns(s.ring) && HasPid(s.ring, 0)
    && forall i {:trigger s.ring[i]} :: 0 <= i < |s.ring| ==> s.ring[i].id < s.nextPid
  }

  // ---- create

  /** A new READY task goes right behind the current one. */
  function Create(s: Sched, r: Rec): Sched
    requires s.ring != []
  {
    var added := r.(id := s.nextPid, state := Ready, wake := 0);
    s.(ring := [s.ring[0], added] + s.ring[1..], nextPid := s.nextPid + 1)
  }

  // ---- kill

  /** The position of a pid behind the current task, or |ring|. */
  function Find(ring: seq<Rec>, pid: nat, i: nat): (r: nat)
    requires i <= |ring|
    ensures i <= r <= |ring|
    ensures r < |ring| ==> ring[r].id == pid
    ensures forall k {:trigger ring[k]} :: i <= k < r ==> ring[k].id != pid
    decreases |ring| - i
  {
    if i == |ring| || ring[i].id == pid then i else Find(ring, pid, i + 1)
  }

  function Without(ring: seq<Rec>, k: nat): seq<Rec>
    requires k < |ring|
  {
    ring[..k] + ring[k + 1..]
  }

  function KillCode(s: Sched, pid: nat): int
    requires s.ring != []
  {
    if pid == 0 || Find(s.ring, pid, 1) == |s.ring| then -1 else pid
  }

  function Kill(s: Sched, pid: nat): Sched
    requires s.ring != []
  {
    var k := Find(s.ring, pid, 1);
    if pid == 0 || k == |s.ring| then s
    else s.(ring := Without(s.ring, k), freed := s.freed + Resources(s.ring[k]))
  }

  // ---- schedule

  /** A dead task met on the walk is unlinked and freed, unless it is the kernel task. */
  predicate Reaped(r: Rec) {
    r.state.Dead? && r.id != 0
  }

  /** The walk from position i: stop at a READY task or back at the current one, unlinking
      and freeing dead tasks on the way. */
  function Walk(s: Sched, i: nat): (r: (Sched, nat))
    requires i <= |s.ring|
    ensures i <= r.1 <= |r.0.ring|
    decreases |s.ring| - i
  {
    if i == |s.ring| || s.ring[i].state.Ready? then (s, i)
    else if Reaped(s.ring[i]) then Walk(Reap(s, i), i)
    else Walk(s, i + 1)
  }

  function Reap(s: Sched, i: nat): Sched
    requires i < |s.ring|
  {
    s.(ring := Without(s.ring, i), freed := s.freed + Resources(s.ring[i]))
  }

  /** The task switched away from stays runnable if it was running. */
  function Demoted(r: Rec): Rec {
    if r.state.Running? then r.(state := Ready) else r
  }

  function Dispatched(r: Rec): Rec { r.(state := Running) }

  /** Make the task at position p the current one; 0 is the current one itself. */
  function Switch(ring: seq<Rec>, p: nat): seq<Rec>
    requires p < |ring|
  {
    if p == 0 then ring[0 := Dispatched(ring[0])]
    else [Dispatched(ring[p])] + ring[p + 1..] + [Demoted(ring[0])] + ring[1..p]
  }

  /** Walk from the current task to the next READY one, reaping on the way, and switch to
      it; if there is none the current task goes on, RUNNING if it was READY.  A lone task
      is left as it is. */
  function Schedule(s: Sched): Sched
    requires s.ring != []
  {
    if |s.ring| == 1 then s
    else
      var (m, p) := Walk(s, 1);
      if p < |m.ring| then m.(ring := Switch(m.ring, p))
      else if m.ring[0].state.Ready? then m.(ring := Switch(m.ring, 0))
      else m
  }

  // ---- sleep, exit, tick

  /** (ms * TIMER_FREQ) / 1000 in 32-bit arithmetic, at least one tick. */
  function SleepTicks(ms: nat): nat
    requires ms < 0x1_0000_0000
  {
    var ticks := ms * TIMER_FREQ % 0x1_0000_0000 / 1000;
    if ms > 0 && ticks == 0 then 1 else ticks
  }

  /** The tick count is the milliseconds over ten, rounded down but at least one, exactly
      when ms * TIMER_FREQ does not wrap. */
  lemma SleepTicksExact(ms: nat)
    requires 0 < ms < 0x1_0000_0000
    ensures SleepTicks(ms) >= 1
    ensures SleepTicks(ms) == (if ms < 10 then 1 else ms / 10) <==> ms * TIMER_FREQ < 0x1_0000_0000
  {
    WrapIsLess(ms * TIMER_FREQ);
  }

  /** So the ticks amount to the time asked for, at ten milliseconds each, exactly up to 10
      ms and for unwrapped multiples of ten: 15 ms is one tick. */
  lemma SleepLongEnough(ms: nat)
    requires ms < 0x1_0000_0000
    ensures SleepTicks(ms) * 10 >= ms <==> ms <= 10 || (ms % 10 == 0 && ms * TIMER_FREQ < 0x1_0000_0000)
    ensures ms == 15 ==> SleepTicks(ms) == 1
  {
    WrapIsLess(ms * TIMER_FREQ);
  }

  lemma WrapIsLess(p: nat)
    ensures p >= 0x1_0000_0000 ==> p % 0x1_0000_0000 <= p - 0x1_0000_0000
    ensures p < 0x1_0000_0000 ==> p % 0x1_0000_0000 == p
  {
    assert p == p / 0x1_0000_0000 * 0x1_0000_0000 + p % 0x1_0000_0000;
  }

  /** task_sleep up to and including its first call of schedule. */
  function Sleep(s: Sched, ms: nat): Sched
    requires s.ring != [] && ms < 0x1_0000_0000
  {
    Schedule(s.(ring := s.ring[0 := s.ring[0].(state := Sleeping, wake := s.tick + SleepTicks(ms))]))
  }

  /** exit_task up to and including schedule. */
  function Exit(s: Sched): Sched
    requires s.ring != []
  {
    Schedule(s.(ring := s.ring[0 := s.ring[0].(state := Dead)]))
  }

  function Woken(r: Rec, tick: nat): Rec {
    if r.state.Sleeping? && tick >= r.wake then r.(state := Ready) else r
  }

  function WakeAll(ring: seq<Rec>, tick: nat): (r: seq<Rec>)
    ensures |r| == |ring| && forall i {:trigger r[i]} :: 0 <= i < |ring| ==> r[i] == Woken(ring[i], tick)
  {
    seq(|ring|, i requires 0 <= i < |ring| => Woken(ring[i], tick))
  }

  /** The timer interrupt counts a tick and wakes sleepers. */
  function Tick(s: Sched): Sched {
    s.(tick := s.tick + 1, ring := WakeAll(s.ring, s.tick + 1))
  }

  // ---- the walk in closed form

  /** The first READY task at or behind position i, or |ring|. */
  function FirstReady(ring: seq<Rec>, i: nat): (r: nat)
    requires i <= |ring|
    ensures i <= r <= |ring|
    ensures r < |ring| ==> ring[r].state.Ready?
    ensures forall k {:trigger ring[k]} :: i <= k < r ==> !ring[k].state.Ready?
    decreases |ring| - i
  {
    if i == |ring| || ring[i].state.Ready? then i else FirstReady(ring, i + 1)
  }

  function Survivors(rs: seq<Rec>): seq<Rec> {
    if rs == [] then [] else (if Reaped(rs[0]) then [] else [rs[0]]) + Survivors(rs[1..])
  }

  function Released(rs: seq<Rec>): seq<Res> {
    if rs == [] then [] else (if Reaped(rs[0]) then Resources(rs[0]) else []) + Released(rs[1..])
  }

  ghost predicate WalkResult(s: Sched, i: nat, m: Sched, p: nat)
    requires i <= |s.ring|
  {
    var k := FirstReady(s.ring, i);
    && m == s.(ring := s.ring[..i] + Survivors(s.ring[i..k]) + s.ring[k..], freed := s.freed + Released(s.ring[i..k]))
    && p == i + |Survivors(s.ring[i..k])| && (p < |m.ring| <==> k < |s.ring|)
  }

  /** The walk reaps every dead task in front of the first READY one, frees exactly what
      they held, and touches no other. */
  lemma {:induction false} WalkClosed(s: Sched, i: nat)
    requires i <= |s.ring|
    ensures WalkResult(s, i, Walk(s, i).0, Walk(s, i).1)
    decreases |s.ring| - i
  {
    hide WalkResult, Reap;
    if i == |s.ring| || s.ring[i].state.Ready? {
      WalkStops(s, i);
    } else if Reaped(s.ring[i]) {
      ReapShorter(s, i);
      WalkClosed(Reap(s, i), i);
      WalkReaps(s, i, Walk(s, i).0, Walk(s, i).1);
    } else {
      WalkClosed(s, i + 1);
      WalkPasses(s, i, Walk(s, i).0, Walk(s, i).1);
    }
  }

  lemma WalkStops(s: Sched, i: nat)
    requires i <= |s.ring| && (i == |s.ring| || s.ring[i].state.Ready?)
    ensures WalkResult(s, i, s, i)
  {
    assert s.ring[i..i] == [];
    assert s.ring == s.ring[..i] + [] + s.ring[i..];
  }

  lemma WalkReaps(s: Sched, i: nat, m: Sched, p: nat)
    requires i < |s.ring| && Reaped(s.ring[i])
    requires i <= |Reap(s, i).ring| && WalkResult(Reap(s, i), i, m, p)
    ensures WalkResult(s, i, m, p)
  {
    hide Survivors, Released, Without;
    var ring, k := s.ring, FirstReady(s.ring, i);
    SameFirstReady(ring, i);
    SkipReaped(ring, i, k);
    assert (s.freed + Resources(ring[i])) + Released(ring[i + 1..k]) == s.freed + (Resources(ring[i]) + Released(ring[i + 1..k]));
    ReapShorter(s, i);
  }

  lemma WalkPasses(s: Sched, i: nat, m: Sched, p: nat)
    requires i < |s.ring| && !Reaped(s.ring[i]) && !s.ring[i].state.Ready? && WalkResult(s, i + 1, m, p)
    ensures WalkResult(s, i, m, p)
  {
    hide Survivors, Released;
    SkipKept(s.ring, i, FirstReady(s.ring, i));
  }

  lemma SkipReaped(ring: seq<Rec>, i: nat, k: nat)
    requires i < k <= |ring| && Reaped(ring[i])
    ensures var less := Without(ring, i);
      less[..i] == ring[..i] && less[i..k - 1] == ring[i + 1..k] && less[k - 1..] == ring[k..]
    ensures Survivors(ring[i..k]) == Survivors(ring[i + 1..k]) && Released(ring[i..k]) == Resources(ring[i]) + Released(ring[i + 1..k])
  {
    hide Resources;
    assert ring[i..k][0] == ring[i] && ring[i..k][1..] == ring[i + 1..k];
  }

  lemma SkipKept(ring: seq<Rec>, i: nat, k: nat)
    requires i < k <= |ring| && !Reaped(ring[i])
    ensures ring[..i + 1] + Survivors(ring[i + 1..k]) == ring[..i] + Survivors(ring[i..k])
    ensures |Survivors(ring[i..k])| == 1 + |Survivors(ring[i + 1..k])| && Released(ring[i..k]) == Released(ring[i + 1..k])
  {
    assert ring[i..k][0] == ring[i] && ring[i..k][1..] == ring[i + 1..k];
    assert ring[..i + 1] == ring[..i] + [ring[i]];
    assert ring[..i] + [ring[i]] + Survivors(ring[i + 1..k]) == ring[..i] + ([ring[i]] + Survivors(ring[i + 1..k]));
  }

  lemma SameFirstReady(ring: seq<Rec>, i: nat)
    requires i < |ring| && !ring[i].state.Ready?
    ensures FirstReady(Without(ring, i), i) == FirstReady(ring, i) - 1
  {
    hide Without;
    WithoutAt(ring, i);
    var less, k := Without(ring, i), FirstReady(ring, i);
    var r := FirstReady(less, i);
    assert r < |less| ==> less[r] == ring[r + 1];
    assert k < |ring| ==> less[k - 1] == ring[k];
  }

  // ---- positions

  lemma WithoutAt(ring: seq<Rec>, k: nat)
    requires k < |ring|
    ensures var r := Without(ring, k);
      |r| == |ring| - 1 && (forall j {:trigger r[j]} :: 0 <= j < |r| ==> r[j] == ring[if j < k then j else j + 1])
  {
  }

  lemma SwitchAt(ring: seq<Rec>, p: nat)
    requires p < |ring|
    ensures var r := Switch(ring, p); |r| == |ring| && r[0] == Dispatched(ring[p])
    ensures var r := Switch(ring, p);
      forall j {:trigger r[j]} :: 0 < j < |r| ==>
        r[j] == if p + j < |ring| then ring[p + j] else if p + j == |ring| then Demoted(ring[0]) else ring[p + j - |ring|]
  {
  }

  // ---- the invariant is kept

  lemma BootOk(cr3: nat)
    ensures Inv(Boot(cr3))
  {
    assert Boot(cr3).ring[0].id == 0;
  }

  lemma ReapKeeps(s: Sched, i: nat)
    requires Inv(s) && 0 < i < |s.ring| && s.ring[i].id != 0
    ensures Inv(Reap(s, i)) && Reap(s, i).ring[0] == s.ring[0]
  {
    var ring, r := s.ring, Without(s.ring, i);
    WithoutAt(ring, i);
    var z :| 0 <= z < |ring| && ring[z].id == 0;
    assert r[if z < i then z else z - 1].id == 0;
  }

  lemma {:induction false} WalkKeeps(s: Sched, i: nat)
    requires Inv(s) && 0 < i <= |s.ring|
    ensures var (m, p) := Walk(s, i); Inv(m) && m.ring[0] == s.ring[0] && (p < |m.ring| ==> m.ring[p].state.Ready?)
    decreases |s.ring| - i
  {
    hide Inv, Reap;
    if i == |s.ring| || s.ring[i].state.Ready? {
    } else if Reaped(s.ring[i]) {
      ReapKeeps(s, i);
      ReapShorter(s, i);
      WalkKeeps(Reap(s, i), i);
    } else {
      WalkKeeps(s, i + 1);
    }
  }

  lemma ReapShorter(s: Sched, i: nat)
    requires i < |s.ring|
    ensures |Reap(s, i).ring| == |s.ring| - 1
  {
  }

  /** The position in the old ring of what is at position j after a switch to p. */
  function Source(n: nat, p: nat, j: nat): nat
    requires p < n && j < n
  {
    if p + j < n then p + j else p + j - n
  }

  lemma SwitchedTask(ring: seq<Rec>, p: nat, j: nat)
    requires p < |ring| && j < |ring| && OnlyFirstRuns(ring)
    ensures |Switch(ring, p)| == |ring|
    ensures var r := Switch(ring, p)[j]; r.id == ring[Source(|ring|, p, j)].id && (j > 0 ==> !r.state.Running?)
  {
    SwitchAt(ring, p);
  }

  lemma SwitchKeeps(s: Sched, p: nat)
    requires Inv(s) && p < |s.ring| && s.ring[p].state.Ready?
    ensures Inv(s.(ring := Switch(s.ring, p)))
  {
    hide Switch;
    var ring, n, r := s.ring, |s.ring|, Switch(s.ring, p);
    SwitchedTask(ring, p, 0);
    forall i, j | 0 <= i < j < |r|
      ensures r[i].id != r[j].id
    {
      SwitchedTask(ring, p, i);
      SwitchedTask(ring, p, j);
      DistinctAt(ring, Source(n, p, i), Source(n, p, j));
    }
    forall i | 0 <= i < |r|
      ensures r[i].id < s.nextPid && (i > 0 ==> !r[i].state.Running?)
    {
      SwitchedTask(ring, p, i);
    }
    var z :| 0 <= z < |ring| && ring[z].id == 0;
    var y := if z >= p then z - p else z + n - p;
    SwitchedTask(ring, p, y);
    assert r[y].id == 0;
  }

  lemma DistinctAt(ring: seq<Rec>, i: nat, j: nat)
    requires DistinctIds(ring) && i < |ring| && j < |ring| && i != j
    ensures ring[i].id != ring[j].id
  {
  }

  lemma ScheduleKeeps(s: Sched)
    requires Inv(s)
    ensures Inv(Schedule(s))
  {
    hide Inv, Switch;
    NotEmpty(s);
    if |s.ring| > 1 {
      WalkKeeps(s, 1);
      var (m, p) := Walk(s, 1);
      NotEmpty(m);
      if p < |m.ring| {
        SwitchKeeps(m, p);
      } else if m.ring[0].state.Ready? {
        SwitchKeeps(m, 0);
      }
    }
  }

  lemma NotEmpty(s: Sched)
    requires Inv(s)
    ensures s.ring != []
  {
  }

  lemma CreateKeeps(s: Sched, r: Rec)
    requires Inv(s)
    ensures Inv(Create(s, r))
  {
    var ring, c := s.ring, Create(s, r).ring;
    assert forall i :: 1 < i < |c| ==> c[i] == ring[i - 1];
    var z :| 0 <= z < |ring| && ring[z].id == 0;
    assert c[if z == 0 then 0 else z + 1].id == 0;
  }

  lemma SetFirstKeeps(s: Sched, r: Rec)
    requires Inv(s) && r.id == s.ring[0].id
    ensures Inv(s.(ring := s.ring[0 := r]))
  {
    var ring, c := s.ring, s.ring[0 := r];
    var z :| 0 <= z < |ring| && ring[z].id == 0;
    assert c[z].id == 0;
  }

  lemma TickKeeps(s: Sched)
    requires Inv(s)
    ensures Inv(Tick(s))
  {
    var ring := s.ring;
    var z :| 0 <= z < |ring| && ring[z].id == 0;
    assert Tick(s).ring[z].id == 0;
  }

  lemma KillKeeps(s: Sched, pid: nat)
    requires Inv(s)
    ensures Inv(Kill(s, pid)) && Kill(s, pid).ring[0] == s.ring[0]
  {
    hide Inv, Reap;
    NotEmpty(s);
    var k := Find(s.ring, pid, 1);
    if pid != 0 && k < |s.ring| {
      ReapKeeps(s, k);
      assert Kill(s, pid) == Reap(s, k) by { KillIsReap(s, pid); }
    }
  }

  lemma KillIsReap(s: Sched, pid: nat)
    requires s.ring != [] && pid != 0 && Find(s.ring, pid, 1) < |s.ring|
    ensures Kill(s, pid) == Reap(s, Find(s.ring, pid, 1))
  {
  }
}
