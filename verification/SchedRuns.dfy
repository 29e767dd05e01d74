/**
 What holds over whole runs of the scheduler, for every interleaving of its steps.
 */
module SchedRuns {
  import opened SchedSpec

  /** One step.  A new task, a sleep, a kill and an exit are calls of the current task; a
      tick and a call of schedule can come at any time. */
  datatype Op = NewTask(r: Rec) | SleepFor(ms: nat) | KillPid(pid: nat) | ExitNow | TimerTick | Yield

  /** The current task executes its own code: it is RUNNING, or was made READY while it
      waited for an interrupt.  A sleeping or dead one only loops. */
  predicate CanRun(s: Sched) {
    s.ring != [] && (s.ring[0].state.Running? || s.ring[0].state.Ready?)
  }

  predicate Enabled(s: Sched, op: Op) {
    && s.ring != []
    && (op.NewTask? || op.SleepFor? || op.KillPid? || op.ExitNow? ==> CanRun(s))
    && (op.SleepFor? ==> op.ms < 0x1_0000_0000)
  }

  function Step(s: Sched, op: Op): Sched
    requires Enabled(s, op)
  {
    match op
    case NewTask(r) => Create(s, r)
    case SleepFor(ms) => Sleep(s, ms)
    case KillPid(pid) => Kill(s, pid)
    case ExitNow => Exit(s)
    case TimerTick => Tick(s)
    case Yield => Schedule(s)
  }

  ghost predicate IsRun(states: seq<Sched>, ops: seq<Op>) {
    && |states| == |ops| + 1
    && forall k {:trigger ops[k]} :: 0 <= k < |ops| ==> Enabled(states[k], ops[k]) && states[k + 1] == Step(states[k], ops[k])
  }

  lemma RunPrefix(states: seq<Sched>, ops: seq<Op>)
    requires IsRun(states, ops) && ops != []
    ensures var n := |ops| - 1;
      IsRun(states[..n + 1], ops[..n]) && Enabled(states[n], ops[n]) && states[n + 1] == Step(states[n], ops[n])
  {
    var n := |ops| - 1;
    assert forall k :: 0 <= k < n ==> ops[..n][k] == ops[k];
    assert Enabled(states[n], ops[n]);
  }

  // ---- ring safety

  lemma StepKeeps(s: Sched, op: Op)
    requires Inv(s) && Enabled(s, op)
    ensures Inv(Step(s, op))
  {
    hide Inv, Schedule, Create, Kill, Tick;
    match op
    case NewTask(r) => CreateKeeps(s, r);
    case SleepFor(ms) =>
      SetFirstKeeps(s, s.ring[0].(state := Sleeping, wake := s.tick + SleepTicks(ms)));
      ScheduleKeeps(s.(ring := s.ring[0 := s.ring[0].(state := Sleeping, wake := s.tick + SleepTicks(ms))]));
    case KillPid(pid) => KillKeeps(s, pid);
    case ExitNow =>
      SetFirstKeeps(s, s.ring[0].(state := Dead));
      ScheduleKeeps(s.(ring := s.ring[0 := s.ring[0].(state := Dead)]));
    case TimerTick => TickKeeps(s);
    case Yield => ScheduleKeeps(s);
  }

  /** In every reachable state the ring holds the current task and the kernel task, pids
      are distinct, and only the current task can be RUNNING. */
  lemma {:induction false} RunsKeepInv(states: seq<Sched>, ops: seq<Op>)
    requires IsRun(states, ops) && Inv(states[0])
    ensures Inv(states[|ops|])
    decreases |ops|
  {
    hide Inv, Step, Enabled, IsRun;
    if ops != [] {
      var n := |ops| - 1;
      RunPrefix(states, ops);
      RunLength(states, ops);
      RunsKeepInv(states[..n + 1], ops[..n]);
      StepKeeps(states[n], ops[n]);
    }
  }

  lemma RunLength(states: seq<Sched>, ops: seq<Op>)
    requires IsRun(states, ops)
    ensures |states| == |ops| + 1
  {
  }

  // ---- what is freed

  /** What create_task and create_user_task obtain for a task: its kernel stack, its Task
      block and, for a user task, a stack frame and a page directory. */
  function Obtained(r: Rec): multiset<Res> {
    multiset{Heap(r.stack), Heap(r.mem)} + if r.isUser then multiset{Frame(r.userStack), Frame(r.dir)} else multiset{}
  }

  /** All that the tasks of a ring hold. */
  function Held(ring: seq<Rec>): multiset<Res> {
    if ring == [] then multiset{} else Held(ring[..|ring| - 1]) + Holds(ring[|ring| - 1])
  }

  /** Given back, or still held. */
  function Ledger(s: Sched): multiset<Res> {
    multiset(s.freed) + Held(s.ring)
  }

  lemma {:induction false} HeldConcat(a: seq<Rec>, b: seq<Rec>)
    ensures Held(a + b) == Held(a) + Held(b)
    decreases |b|
  {
    hide Holds;
    if b == [] {
      assert a + b == a;
    } else {
      var n := |b| - 1;
      assert (a + b)[..|a + b| - 1] == a + b[..n];
      HeldConcat(a, b[..n]);
    }
  }

  lemma HeldOne(r: Rec)
    ensures Held([r]) == Holds(r)
  {
    hide Holds;
    assert [r][..0] == [];
  }

  lemma ReapLedger(s: Sched, i: nat)
    requires i < |s.ring| && s.ring[i].id != 0
    ensures Ledger(Reap(s, i)) == Ledger(s)
  {
    hide Resources, Held;
    var ring := s.ring;
    HeldOne(ring[i]);
    HeldConcat(ring[..i], [ring[i]]);
    HeldConcat(ring[..i] + [ring[i]], ring[i + 1..]);
    HeldConcat(ring[..i], ring[i + 1..]);
    assert ring == ring[..i] + [ring[i]] + ring[i + 1..];
  }

  lemma {:induction false} WalkLedger(s: Sched, i: nat)
    requires i <= |s.ring|
    ensures Ledger(Walk(s, i).0) == Ledger(s)
    decreases |s.ring| - i
  {
    hide Ledger, Reap;
    if i == |s.ring| || s.ring[i].state.Ready? {
    } else if Reaped(s.ring[i]) {
      ReapShorter(s, i);
      ReapLedger(s, i);
      WalkLedger(Reap(s, i), i);
    } else {
      WalkLedger(s, i + 1);
    }
  }

  lemma SetFirstLedger(s: Sched, r: Rec)
    requires s.ring != [] && Holds(r) == Holds(s.ring[0])
    ensures Ledger(s.(ring := s.ring[0 := r])) == Ledger(s)
  {
    hide Holds, Held;
    HeldOne(r);
    HeldOne(s.ring[0]);
    HeldConcat([r], s.ring[1..]);
    HeldConcat([s.ring[0]], s.ring[1..]);
    assert s.ring == [s.ring[0]] + s.ring[1..];
    assert s.ring[0 := r] == [r] + s.ring[1..];
  }

  lemma SwitchLedger(s: Sched, p: nat)
    requires p < |s.ring|
    ensures Ledger(s.(ring := Switch(s.ring, p))) == Ledger(s)
  {
    hide Held, Holds, Demoted, Dispatched;
    var ring := s.ring;
    SwitchHolds(ring[0]);
    SwitchHolds(ring[p]);
    if p == 0 {
      SetFirstLedger(s, Dispatched(ring[0]));
    } else {
      var a, b, c, d := [ring[0]], ring[1..p], [ring[p]], ring[p + 1..];
      var a', c' := [Demoted(ring[0])], [Dispatched(ring[p])];
      assert ring == a + b + c + d;
      HeldOne(ring[0]);
      HeldOne(ring[p]);
      HeldOne(Demoted(ring[0]));
      HeldOne(Dispatched(ring[p]));
      HeldConcat(a, b);
      HeldConcat(a + b, c);
      HeldConcat(a + b + c, d);
      HeldConcat(c', d);
      HeldConcat(c' + d, a');
      HeldConcat(c' + d + a', b);
    }
  }

  lemma ScheduleLedger(s: Sched)
    requires s.ring != []
    ensures Ledger(Schedule(s)) == Ledger(s)
  {
    hide Ledger, Switch;
    if |s.ring| > 1 {
      WalkLedger(s, 1);
      var (m, p) := Walk(s, 1);
      if p < |m.ring| {
        SwitchLedger(m, p);
      } else if m.ring[0].state.Ready? {
        SwitchLedger(m, 0);
      }
    }
  }

  lemma {:induction false} WakeLedger(ring: seq<Rec>, tick: nat)
    ensures Held(WakeAll(ring, tick)) == Held(ring)
  {
    hide Holds, WakeAll;
    if ring != [] {
      var n := |ring| - 1;
      WakeLedger(ring[..n], tick);
      assert WakeAll(ring, tick)[..n] == WakeAll(ring[..n], tick);
      WokenHolds(ring[n], tick);
    }
  }

  lemma WokenHolds(r: Rec, tick: nat)
    ensures Holds(Woken(r, tick)) == Holds(r)
  {
  }

  lemma AddedHolds(r: Rec, pid: nat)
    requires pid > 0
    ensures Holds(r.(id := pid, state := Ready, wake := 0)) == Obtained(r)
  {
  }

  lemma SwitchHolds(r: Rec)
    ensures Holds(Demoted(r)) == Holds(r) && Holds(Dispatched(r)) == Holds(r)
  {
  }

  lemma CreateLedger(s: Sched, r: Rec)
    requires s.ring != [] && s.nextPid > 0
    ensures Ledger(Create(s, r)) == Ledger(s) + Obtained(r)
  {
    hide Held, Obtained, Holds;
    var added := r.(id := s.nextPid, state := Ready, wake := 0);
    AddedHolds(r, s.nextPid);
    HeldOne(s.ring[0]);
    HeldOne(added);
    HeldConcat([s.ring[0]], s.ring[1..]);
    HeldConcat([s.ring[0]], [added]);
    HeldConcat([s.ring[0]] + [added], s.ring[1..]);
    assert s.ring == [s.ring[0]] + s.ring[1..];
    assert [s.ring[0], added] == [s.ring[0]] + [added];
  }

  /** Nothing is lost and nothing freed twice: what a step gives back is what the tasks it
      removed held. */
  lemma StepLedger(s: Sched, op: Op)
    requires Inv(s) && Enabled(s, op)
    ensures Ledger(Step(s, op)) == Ledger(s) + if op.NewTask? then Obtained(op.r) else multiset{}
  {
    hide Ledger, Obtained, Schedule, Create, Kill, Tick, DistinctIds, OnlyFirstRuns, HasPid;
    match op
    case NewTask(r) => CreateLedger(s, r);
    case SleepFor(ms) => MarkLedger(s, s.ring[0].(state := Sleeping, wake := s.tick + SleepTicks(ms)));
    case KillPid(pid) => KillLedger(s, pid);
    case ExitNow => MarkLedger(s, s.ring[0].(state := Dead));
    case TimerTick => TickLedger(s);
    case Yield => ScheduleLedger(s);
  }

  lemma MarkLedger(s: Sched, r: Rec)
    requires s.ring != [] && r == s.ring[0].(state := r.state, wake := r.wake)
    ensures Ledger(Schedule(s.(ring := s.ring[0 := r]))) == Ledger(s)
  {
    hide Ledger, Schedule;
    SetFirstLedger(s, r);
    ScheduleLedger(s.(ring := s.ring[0 := r]));
  }

  lemma KillLedger(s: Sched, pid: nat)
    requires s.ring != []
    ensures Ledger(Kill(s, pid)) == Ledger(s)
  {
    hide Ledger, Reap;
    var k := Find(s.ring, pid, 1);
    if pid != 0 && k < |s.ring| {
      KillIsReap(s, pid);
      ReapLedger(s, k);
    }
  }

  lemma TickLedger(s: Sched)
    ensures Ledger(Tick(s)) == Ledger(s)
  {
    hide Held, WakeAll;
    WakeLedger(s.ring, s.tick + 1);
  }

  ghost predicate NoDuplicates(m: multiset<Res>) {
    forall x :: m[x] <= 1
  }

  lemma FreedGrows(s: Sched, op: Op)
    requires Enabled(s, op)
    ensures s.freed <= Step(s, op).freed
  {
    match op
    case SleepFor(ms) => WalkFrees(s.(ring := s.ring[0 := s.ring[0].(state := Sleeping, wake := s.tick + SleepTicks(ms))]), 1);
    case ExitNow => WalkFrees(s.(ring := s.ring[0 := s.ring[0].(state := Dead)]), 1);
    case Yield => WalkFrees(s, 1);
    case _ =>
  }

  lemma WalkFrees(s: Sched, i: nat)
    requires i <= |s.ring|
    ensures s.freed <= Walk(s, i).0.freed
  {
    WalkClosed(s, i);
  }

  /** The allocators do not hand out what a task still holds. */
  ghost predicate Fresh(s: Sched, op: Op) {
    op.NewTask? ==> NoDuplicates(Held(s.ring) + Obtained(op.r))
  }

  /** What a step hands out. */
  function Handed(op: Op): multiset<Res> {
    if op.NewTask? then Obtained(op.r) else multiset{}
  }

  /** Then no step frees anything that a remaining task (the current one included) still
      uses. */
  lemma FreedIsUnused(s: Sched, op: Op)
    requires Inv(s) && Enabled(s, op) && NoDuplicates(Held(s.ring)) && Fresh(s, op)
    ensures NoDuplicates(Held(Step(s, op).ring)) && s.freed <= Step(s, op).freed
    ensures forall x :: x in Step(s, op).freed[|s.freed|..] ==> x !in Held(Step(s, op).ring)
  {
    hide Held, Step, Inv;
    StepLedger(s, op);
    FreedGrows(s, op);
    var t := Step(s, op);
    var out := t.freed[|s.freed|..];
    assert t.freed == s.freed + out;
    assert multiset(t.freed) == multiset(s.freed) + multiset(out);
    forall x
      ensures Held(t.ring)[x] <= 1 && (x in out ==> x !in Held(t.ring))
    {
      assert Ledger(t)[x] == multiset(s.freed)[x] + multiset(out)[x] + Held(t.ring)[x];
      assert (Ledger(s) + Handed(op))[x] == multiset(s.freed)[x] + (Held(s.ring) + Handed(op))[x];
      assert (Held(s.ring) + Handed(op))[x] <= 1;
      assert x in out ==> x in multiset(out);
    }
  }

  /** The kernel task starts with nothing an allocator gave out. */
  lemma BootHoldsNothing(cr3: nat)
    ensures Held(Boot(cr3).ring) == multiset{} && NoDuplicates(Held(Boot(cr3).ring))
  {
    HeldOne(Boot(cr3).ring[0]);
  }

  /** A run in which the allocators keep that promise. */
  ghost predicate FreshRun(states: seq<Sched>, ops: seq<Op>) {
    IsRun(states, ops) && forall k {:trigger ops[k]} :: 0 <= k < |ops| ==> Fresh(states[k], ops[k])
  }

  function HandedOut(ops: seq<Op>): multiset<Res> {
    if ops == [] then multiset{} else HandedOut(ops[..|ops| - 1]) + Handed(ops[|ops| - 1])
  }

  lemma FreshPrefix(states: seq<Sched>, ops: seq<Op>)
    requires FreshRun(states, ops) && ops != []
    ensures var n := |ops| - 1; |states| == n + 2 && FreshRun(states[..n + 1], ops[..n]) && Fresh(states[n], ops[n])
  {
    RunPrefix(states, ops);
    var n := |ops| - 1;
    assert forall k :: 0 <= k < n ==> ops[..n][k] == ops[k];
    assert Fresh(states[n], ops[n]);
  }

  /** Over every such run each resource has at most one holder, and the books balance:
      what was freed and what is held is what was held before and what was handed out. */
  lemma {:induction false} RunsBalance(states: seq<Sched>, ops: seq<Op>)
    requires FreshRun(states, ops) && Inv(states[0]) && NoDuplicates(Held(states[0].ring))
    ensures |states| == |ops| + 1 && NoDuplicates(Held(states[|ops|].ring)) && states[0].freed <= states[|ops|].freed
    ensures Ledger(states[|ops|]) == Ledger(states[0]) + HandedOut(ops)
    decreases |ops|
  {
    hide Inv, Step, Enabled, IsRun, Held, Ledger, Fresh, Handed;
    RunLength(states, ops);
    if ops != [] {
      var n := |ops| - 1;
      RunPrefix(states, ops);
      FreshPrefix(states, ops);
      RunsBalance(states[..n + 1], ops[..n]);
      RunsKeepInv(states[..n + 1], ops[..n]);
      FreedIsUnused(states[n], ops[n]);
      StepBalance(states[n], ops[n]);
    }
  }

  lemma StepBalance(s: Sched, op: Op)
    requires Inv(s) && Enabled(s, op)
    ensures Ledger(Step(s, op)) == Ledger(s) + Handed(op)
  {
    hide Inv, Step, Ledger;
    StepLedger(s, op);
  }

  /** Since any earlier state of a run, a resource has been freed at most once per time it
      was held or handed out; so what was freed, and not handed out again, is held by no
      task of the ring, the current one included, and was freed once. */
  lemma RunsFreeUnused(states: seq<Sched>, ops: seq<Op>, x: Res)
    requires FreshRun(states, ops) && Inv(states[0]) && NoDuplicates(Held(states[0].ring)) && x !in HandedOut(ops)
    ensures |states| == |ops| + 1 && states[0].freed <= states[|ops|].freed
    ensures var out := states[|ops|].freed[|states[0].freed|..];
      && multiset(out)[x] + Held(states[|ops|].ring)[x] == Held(states[0].ring)[x] <= 1
      && (x in out ==> x !in Held(states[|ops|].ring))
  {
    hide Held, IsRun, HandedOut, Inv;
    RunsBalance(states, ops);
    var s, t := states[0], states[|ops|];
    var out := t.freed[|s.freed|..];
    assert t.freed == s.freed + out;
    assert multiset(t.freed) == multiset(s.freed) + multiset(out);
    assert Ledger(t)[x] == multiset(s.freed)[x] + multiset(out)[x] + Held(t.ring)[x];
    assert (Ledger(s) + HandedOut(ops))[x] == multiset(s.freed)[x] + Held(s.ring)[x];
    assert x in out ==> x in multiset(out);
  }

  /** From boot on: every run in which the allocators keep their promise. */
  lemma BootRunsFreeUnused(states: seq<Sched>, ops: seq<Op>, cr3: nat, i: nat, j: nat, x: Res)
    requires FreshRun(states, ops) && states[0] == Boot(cr3) && i <= j <= |ops| && x !in HandedOut(ops[i..j])
    ensures |states| == |ops| + 1 && states[i].freed <= states[j].freed
    ensures NoDuplicates(Held(states[j].ring))
    ensures x in states[j].freed[|states[i].freed|..] ==> x !in Held(states[j].ring)
  {
    hide Held, Inv, HandedOut, NoDuplicates;
    RunLength(states, ops);
    BootOk(cr3);
    BootHoldsNothing(cr3);
    FreshSlice(states, ops, 0, i);
    FreshSlice(states, ops, i, j);
    RunsBalance(states[0..i + 1], ops[0..i]);
    RunsKeepInv(states[0..i + 1], ops[0..i]);
    RunsFreeUnused(states[i..j + 1], ops[i..j], x);
    RunsBalance(states[i..j + 1], ops[i..j]);
  }

  lemma FreshSlice(states: seq<Sched>, ops: seq<Op>, i: nat, j: nat)
    requires FreshRun(states, ops) && i <= j <= |ops|
    ensures |states| == |ops| + 1 && FreshRun(states[i..j + 1], ops[i..j])
  {
    hide Enabled, Step, Fresh;
    forall k | 0 <= k < j - i
      ensures Enabled(states[i..j + 1][k], ops[i..j][k]) && states[i..j + 1][k + 1] == Step(states[i..j + 1][k], ops[i..j][k])
      ensures Fresh(states[i..j + 1][k], ops[i..j][k])
    {
      assert ops[i..j][k] == ops[i + k];
    }
  }

  // ---- bounded waiting

  /** Calls of schedule a step makes. */
  function Yields(op: Op): nat {
    if op.Yield? || op.SleepFor? || op.ExitNow? then 1 else 0
  }

  function Creates(op: Op): nat {
    if op.NewTask? then 1 else 0
  }

  function CountYields(ops: seq<Op>): nat {
    if ops == [] then 0 else CountYields(ops[..|ops| - 1]) + Yields(ops[|ops| - 1])
  }

  function CountCreates(ops: seq<Op>): nat {
    if ops == [] then 0 else CountCreates(ops[..|ops| - 1]) + Creates(ops[|ops| - 1])
  }

  /** Task t is READY, d places behind the current one. */
  predicate Waits(s: Sched, t: nat, d: nat) {
    1 <= d < |s.ring| && s.ring[d].id == t && s.ring[d].state.Ready?
  }

  predicate IsCurrent(s: Sched, t: nat) {
    s.ring != [] && s.ring[0].id == t && s.ring[0].state.Running?
  }

  lemma ReapWaits(s: Sched, i: nat, t: nat, d: nat)
    requires Waits(s, t, d) && 0 < i < |s.ring| && i != d
    ensures Waits(Reap(s, i), t, if i < d then d - 1 else d)
  {
    WithoutAt(s.ring, i);
  }

  lemma {:induction false} WalkWaits(s: Sched, i: nat, t: nat, d: nat) returns (e: nat)
    requires Waits(s, t, d) && 0 < i <= d
    ensures var (m, p) := Walk(s, i); p <= e <= d && i <= p && Waits(m, t, e)
    decreases |s.ring| - i
  {
    hide Reap;
    if s.ring[i].state.Ready? {
      e := d;
    } else if Reaped(s.ring[i]) {
      ReapWaits(s, i, t, d);
      ReapShorter(s, i);
      e := WalkWaits(Reap(s, i), i, t, d - 1);
    } else {
      e := WalkWaits(s, i + 1, t, d);
    }
  }

  /** A call of schedule dispatches the waiting task or brings it closer. */
  lemma ScheduleWaits(s: Sched, t: nat, d: nat) returns (e: nat)
    requires Waits(s, t, d)
    ensures if e == 0 then IsCurrent(Schedule(s), t) else e < d && Waits(Schedule(s), t, e)
  {
    hide Walk;
    var (m, p) := Walk(s, 1);
    var f := WalkWaits(s, 1, t, d);
    SwitchAt(m.ring, p);
    e := f - p;
  }

  lemma KillWaits(s: Sched, pid: nat, t: nat, d: nat) returns (e: nat)
    requires Waits(s, t, d) && pid != t
    ensures 1 <= e <= d && Waits(Kill(s, pid), t, e)
  {
    var k := Find(s.ring, pid, 1);
    e := d;
    if pid != 0 && k < |s.ring| {
      KillIsReap(s, pid);
      ReapWaits(s, k, t, d);
      if k < d {
        e := d - 1;
      }
    }
  }

  lemma WaitStep(s: Sched, op: Op, t: nat, d: nat) returns (e: nat)
    requires Waits(s, t, d) && Enabled(s, op) && op != KillPid(t)
    ensures if e == 0 then IsCurrent(Step(s, op), t) && Yields(op) == 1
      else Waits(Step(s, op), t, e) && e + Yields(op) <= d + Creates(op)
  {
    hide Schedule, Kill;
    match op
    case NewTask(r) => e := d + 1;
    case SleepFor(ms) =>
      e := ScheduleWaits(s.(ring := s.ring[0 := s.ring[0].(state := Sleeping, wake := s.tick + SleepTicks(ms))]), t, d);
    case KillPid(pid) => e := KillWaits(s, pid, t, d);
    case ExitNow => e := ScheduleWaits(s.(ring := s.ring[0 := s.ring[0].(state := Dead)]), t, d);
    case TimerTick => e := d;
    case Yield => e := ScheduleWaits(s, t, d);
  }

  /** A task that is READY at distance d and not killed is dispatched, or is still READY
      and closer by one for every call of schedule, further by one for every new task. */
  lemma {:induction false} Waiting(states: seq<Sched>, ops: seq<Op>, t: nat, d: nat) returns (j: nat, e: nat)
    requires IsRun(states, ops) && Waits(states[0], t, d) && KillPid(t) !in ops
    ensures j <= |ops|
    ensures if e == 0 then IsCurrent(states[j], t)
      else j == |ops| && Waits(states[j], t, e) && e + CountYields(ops) <= d + CountCreates(ops)
    decreases |ops|
  {
    hide Waits, Step, Enabled, IsRun, IsCurrent;
    RunLength(states, ops);
    if ops == [] {
      j, e := 0, d;
      WaitsBehind(states[0], t, d);
    } else {
      var n := |ops| - 1;
      RunPrefix(states, ops);
      j, e := Waiting(states[..n + 1], ops[..n], t, d);
      if e != 0 {
        assert ops[n] in ops;
        e := WaitStep(states[n], ops[n], t, e);
        j := |ops|;
      }
    }
  }

  lemma WaitsBehind(s: Sched, t: nat, d: nat)
    requires Waits(s, t, d)
    ensures d >= 1
  {
  }

  /** Bounded waiting: a READY task d places behind the current one is RUNNING within d
      calls of schedule, plus one for each task created meanwhile, whatever else happens. */
  lemma BoundedWaiting(states: seq<Sched>, ops: seq<Op>, t: nat, d: nat) returns (j: nat)
    requires IsRun(states, ops) && Inv(states[0]) && Waits(states[0], t, d) && KillPid(t) !in ops
    requires CountYields(ops) >= d + CountCreates(ops)
    ensures 0 < j <= |ops| && IsCurrent(states[j], t)
  {
    var e: nat;
    j, e := Waiting(states, ops, t, d);
    NotYet(states[0], t, d);
  }

  lemma NotYet(s: Sched, t: nat, d: nat)
    requires Inv(s) && Waits(s, t, d)
    ensures !IsCurrent(s, t)
  {
  }

  /** A lone task is never redispatched: made READY by a tick it stays READY, although it is
      the one that runs.  A READY current task becomes RUNNING again exactly when it is not
      alone and nobody else is READY. */
  lemma LoneReady(s: Sched)
    requires Inv(s) && s.ring[0].state.Ready?
    ensures IsCurrent(Schedule(s), s.ring[0].id) <==> |s.ring| > 1 && FirstReady(s.ring, 1) == |s.ring|
  {
    hide Walk, Inv;
    NotEmpty(s);
    if |s.ring| > 1 {
      WalkClosed(s, 1);
      WalkKeeps(s, 1);
      var (m, p) := Walk(s, 1);
      assert p < |m.ring| <==> FirstReady(s.ring, 1) < |s.ring|;
      NotEmpty(m);
      if p < |m.ring| {
        SwitchAt(m.ring, p);
        InvDistinct(m, 0, p);
      }
    }
  }

  lemma InvDistinct(s: Sched, i: nat, j: nat)
    requires Inv(s) && i < j < |s.ring|
    ensures s.ring[i].id != s.ring[j].id
  {
  }

  // ---- sleeping and dead tasks

  /** If t is in the ring, its record is r; its pid will not be given to another task. */
  predicate Frozen(s: Sched, t: nat, r: Rec) {
    t < s.nextPid && forall i {:trigger s.ring[i]} :: 0 <= i < |s.ring| && s.ring[i].id == t ==> s.ring[i] == r
  }

  lemma ReapFrozen(s: Sched, i: nat, t: nat, r: Rec)
    requires Frozen(s, t, r) && i < |s.ring|
    ensures Frozen(Reap(s, i), t, r)
    ensures HasPid(s.ring, t) && s.ring[i].id != t ==> HasPid(Reap(s, i).ring, t)
  {
    WithoutAt(s.ring, i);
    if HasPid(s.ring, t) && s.ring[i].id != t {
      var z :| 0 <= z < |s.ring| && s.ring[z].id == t;
      assert Reap(s, i).ring[if z < i then z else z - 1].id == t;
    }
  }

  lemma {:induction false} WalkFrozen(s: Sched, i: nat, t: nat, r: Rec)
    requires Frozen(s, t, r) && i <= |s.ring|
    ensures Frozen(Walk(s, i).0, t, r)
    ensures HasPid(s.ring, t) && !r.state.Dead? ==> HasPid(Walk(s, i).0.ring, t)
    decreases |s.ring| - i
  {
    hide Reap, HasPid;
    if i == |s.ring| || s.ring[i].state.Ready? {
    } else if Reaped(s.ring[i]) {
      ReapShorter(s, i);
      ReapFrozen(s, i, t, r);
      WalkFrozen(Reap(s, i), i, t, r);
    } else {
      WalkFrozen(s, i + 1, t, r);
    }
  }

  lemma SwitchFrozen(s: Sched, p: nat, t: nat, r: Rec)
    requires Frozen(s, t, r) && p < |s.ring| && s.ring[p].state.Ready? && (r.state.Sleeping? || r.state.Dead?)
    ensures Frozen(s.(ring := Switch(s.ring, p)), t, r)
    ensures HasPid(s.ring, t) ==> HasPid(Switch(s.ring, p), t)
  {
    hide Switch;
    var ring, n, q := s.ring, |s.ring|, Switch(s.ring, p);
    SwitchAt(ring, p);
    if HasPid(ring, t) {
      var z :| 0 <= z < n && ring[z].id == t;
      assert q[if z >= p then z - p else z + n - p].id == t;
    }
  }

  lemma ScheduleFrozen(s: Sched, t: nat, r: Rec)
    requires s.ring != [] && Frozen(s, t, r) && (r.state.Sleeping? || r.state.Dead?)
    ensures Frozen(Schedule(s), t, r)
    ensures HasPid(s.ring, t) && r.state.Sleeping? ==> HasPid(Schedule(s).ring, t)
  {
    hide Frozen, HasPid, Switch;
    if |s.ring| > 1 {
      WalkFrozen(s, 1, t, r);
      WalkClosed(s, 1);
      var (m, p) := Walk(s, 1);
      StopsReady(s, 1);
      if p < |m.ring| {
        SwitchFrozen(m, p, t, r);
      } else if m.ring[0].state.Ready? {
        SwitchFrozen(m, 0, t, r);
      }
    }
  }

  lemma {:induction false} StopsReady(s: Sched, i: nat)
    requires 0 < i <= |s.ring|
    ensures var (m, p) := Walk(s, i); m.ring != [] && (p < |m.ring| ==> m.ring[p].state.Ready?)
    decreases |s.ring| - i
  {
    if i == |s.ring| || s.ring[i].state.Ready? {
    } else if Reaped(s.ring[i]) {
      StopsReady(Reap(s, i), i);
    } else {
      StopsReady(s, i + 1);
    }
  }

  lemma SetFirstFrozen(s: Sched, q: Rec, t: nat, r: Rec)
    requires s.ring != [] && Frozen(s, t, r) && s.ring[0].id == q.id != t
    ensures Frozen(s.(ring := s.ring[0 := q]), t, r)
    ensures HasPid(s.ring, t) ==> HasPid(s.ring[0 := q], t)
  {
    if HasPid(s.ring, t) {
      var z :| 0 <= z < |s.ring| && s.ring[z].id == t;
      assert s.ring[0 := q][z].id == t;
    }
  }

  lemma CreateFrozen(s: Sched, q: Rec, t: nat, r: Rec)
    requires s.ring != [] && Frozen(s, t, r)
    ensures Frozen(Create(s, q), t, r) && (HasPid(s.ring, t) ==> HasPid(Create(s, q).ring, t))
  {
    var c := Create(s, q).ring;
    assert forall i :: 1 < i < |c| ==> c[i] == s.ring[i - 1];
    if HasPid(s.ring, t) {
      var z :| 0 <= z < |s.ring| && s.ring[z].id == t;
      assert c[if z == 0 then 0 else z + 1].id == t;
    }
  }

  /** Does this step wake a task with this record? */
  predicate Wakes(s: Sched, op: Op, r: Rec) {
    op.TimerTick? && r.state.Sleeping? && s.tick + 1 >= r.wake
  }

  lemma TickFrozen(s: Sched, t: nat, r: Rec)
    requires Frozen(s, t, r)
    ensures Frozen(Tick(s), t, Woken(r, s.tick + 1)) && (HasPid(s.ring, t) ==> HasPid(Tick(s).ring, t))
  {
    hide WakeAll;
    if HasPid(s.ring, t) {
      var z :| 0 <= z < |s.ring| && s.ring[z].id == t;
      assert Tick(s).ring[z].id == t;
    }
  }

  /** A sleeping or dead task is left exactly as it is by every step but its waking tick;
      a sleeping one also stays in the ring unless it is killed. */
  lemma StepFrozen(s: Sched, op: Op, t: nat, r: Rec)
    requires Inv(s) && Enabled(s, op) && Frozen(s, t, r) && (r.state.Sleeping? || r.state.Dead?)
    ensures Frozen(Step(s, op), t, if Wakes(s, op, r) then r.(state := Ready) else r)
    ensures HasPid(s.ring, t) && r.state.Sleeping? && op != KillPid(t) ==> HasPid(Step(s, op).ring, t)
  {
    hide Inv, HasPid, Schedule, Create, Reap, Tick;
    if CanRun(s) {
      NotCurrent(s, t, r);
    }
    match op
    case NewTask(q) => CreateFrozen(s, q, t, r);
    case SleepFor(ms) =>
      var q := s.ring[0].(state := Sleeping, wake := s.tick + SleepTicks(ms));
      SetFirstFrozen(s, q, t, r);
      ScheduleFrozen(s.(ring := s.ring[0 := q]), t, r);
    case KillPid(pid) =>
      var k := Find(s.ring, pid, 1);
      if pid != 0 && k < |s.ring| {
        KillIsReap(s, pid);
        ReapFrozen(s, k, t, r);
      }
    case ExitNow =>
      var q := s.ring[0].(state := Dead);
      SetFirstFrozen(s, q, t, r);
      ScheduleFrozen(s.(ring := s.ring[0 := q]), t, r);
    case TimerTick => TickFrozen(s, t, r);
    case Yield => ScheduleFrozen(s, t, r);
  }

  lemma NotCurrent(s: Sched, t: nat, r: Rec)
    requires CanRun(s) && Frozen(s, t, r) && (r.state.Sleeping? || r.state.Dead?)
    ensures s.ring[0].id != t
  {
  }

  /** Dead tasks never leave DEAD: until one is reaped nothing about it changes. */
  lemma {:induction false} DeadStaysDead(states: seq<Sched>, ops: seq<Op>, t: nat, r: Rec)
    requires IsRun(states, ops) && Inv(states[0]) && Frozen(states[0], t, r) && r.state.Dead?
    ensures Frozen(states[|ops|], t, r)
    decreases |ops|
  {
    hide Inv, Step, Enabled, IsRun, Frozen;
    RunLength(states, ops);
    if ops != [] {
      var n := |ops| - 1;
      RunPrefix(states, ops);
      RunsKeepInv(states[..n + 1], ops[..n]);
      DeadStaysDead(states[..n + 1], ops[..n], t, r);
      StepFrozen(states[n], ops[n], t, r);
    }
  }

  /** The tick at which a task put to sleep now until `wake` gets up. */
  function RiseTick(s: Sched, wake: nat): nat {
    if wake > s.tick then wake else s.tick + 1
  }

  lemma {:induction false} WalkTick(s: Sched, i: nat)
    requires i <= |s.ring|
    ensures Walk(s, i).0.tick == s.tick
    decreases |s.ring| - i
  {
    if i == |s.ring| || s.ring[i].state.Ready? {
    } else if Reaped(s.ring[i]) {
      WalkTick(Reap(s, i), i);
    } else {
      WalkTick(s, i + 1);
    }
  }

  lemma ScheduleTick(s: Sched)
    requires s.ring != []
    ensures Schedule(s).tick == s.tick
  {
    hide Walk, Switch;
    if |s.ring| > 1 {
      WalkTick(s, 1);
    }
  }

  lemma TickMoves(s: Sched, op: Op)
    requires Enabled(s, op)
    ensures Step(s, op).tick == s.tick + if op.TimerTick? then 1 else 0
  {
    hide Schedule;
    match op
    case SleepFor(ms) => ScheduleTick(s.(ring := s.ring[0 := s.ring[0].(state := Sleeping, wake := s.tick + SleepTicks(ms))]));
    case ExitNow => ScheduleTick(s.(ring := s.ring[0 := s.ring[0].(state := Dead)]));
    case Yield => ScheduleTick(s);
    case _ =>
  }

  /** A sleeping task that nobody kills is SLEEPING at every state before its tick, and
      READY, wherever it is in the ring, in the first state at that tick. */
  lemma {:induction false} SleepsUntil(states: seq<Sched>, ops: seq<Op>, t: nat, r: Rec)
    requires IsRun(states, ops) && Inv(states[0]) && Frozen(states[0], t, r) && HasPid(states[0].ring, t)
    requires r.state.Sleeping? && KillPid(t) !in ops
    ensures states[0].tick <= states[|ops|].tick
    ensures states[|ops|].tick < RiseTick(states[0], r.wake) ==>
      Frozen(states[|ops|], t, r) && HasPid(states[|ops|].ring, t)
    ensures |ops| > 0 && states[|ops| - 1].tick < RiseTick(states[0], r.wake) == states[|ops|].tick ==>
      Frozen(states[|ops|], t, r.(state := Ready)) && HasPid(states[|ops|].ring, t)
    decreases |ops|
  {
    hide Inv, Step, Enabled, IsRun, Frozen, HasPid;
    RunLength(states, ops);
    if ops != [] {
      var n := |ops| - 1;
      RunPrefix(states, ops);
      RunsKeepInv(states[..n + 1], ops[..n]);
      assert forall op :: op in ops[..n] ==> op in ops;
      SleepsUntil(states[..n + 1], ops[..n], t, r);
      TickMoves(states[n], ops[n]);
      assert ops[n] in ops;
      if states[n].tick < RiseTick(states[0], r.wake) {
        StepFrozen(states[n], ops[n], t, r);
      }
    }
  }

  /** The record task_sleep gives the current task. */
  function Asleep(s: Sched, ms: nat): Rec
    requires s.ring != [] && ms < 0x1_0000_0000
  {
    s.ring[0].(state := Sleeping, wake := s.tick + SleepTicks(ms))
  }

  lemma SleepStart(s: Sched, ms: nat)
    requires Inv(s) && s.ring != [] && ms < 0x1_0000_0000
    ensures var t := Sleep(s, ms);
      Frozen(t, s.ring[0].id, Asleep(s, ms)) && HasPid(t.ring, s.ring[0].id) && t.tick == s.tick
  {
    hide Schedule;
    var r := Asleep(s, ms);
    var m := s.(ring := s.ring[0 := r]);
    assert m.ring[0].id == r.id;
    ScheduleFrozen(m, r.id, r);
    ScheduleTick(m);
  }

  /** task_sleep does not return early: whatever happens after the call, unless it is killed
      the caller is SLEEPING, which keeps it in the loop, until the ticks it asked for, at
      least one, have passed; at the tick that completes them it is READY. */
  lemma SleepNotEarly(states: seq<Sched>, ops: seq<Op>, ms: nat)
    requires IsRun(states, ops) && Inv(states[0]) && ops != [] && ops[0] == SleepFor(ms)
    requires states[0].ring != [] && ms < 0x1_0000_0000 && KillPid(states[0].ring[0].id) !in ops[1..]
    ensures |states| == |ops| + 1
    ensures var pid, r, n := states[0].ring[0].id, Asleep(states[0], ms), |ops|;
      var rise := states[0].tick + if SleepTicks(ms) == 0 then 1 else SleepTicks(ms);
      && HasPid(states[1].ring, pid) && Frozen(states[1], pid, r)
      && (states[n].tick < rise ==> HasPid(states[n].ring, pid) && Frozen(states[n], pid, r))
      && (n > 1 && states[n - 1].tick < rise == states[n].tick ==> HasPid(states[n].ring, pid) && Frozen(states[n], pid, r.(state := Ready)))
  {
    hide Inv, Frozen, HasPid, Enabled, Sleep;
    RunTail(states, ops);
    SleepStart(states[0], ms);
    StepKeeps(states[0], ops[0]);
    SleepsUntil(states[1..], ops[1..], states[0].ring[0].id, Asleep(states[0], ms));
  }

  lemma RunTail(states: seq<Sched>, ops: seq<Op>)
    requires IsRun(states, ops) && ops != []
    ensures |states| == |ops| + 1 && Enabled(states[0], ops[0]) && states[1] == Step(states[0], ops[0]) && IsRun(states[1..], ops[1..])
  {
    hide Step, Enabled;
    assert Enabled(states[0], ops[0]);
    forall k | 0 <= k < |ops| - 1
      ensures Enabled(states[1..][k], ops[1..][k]) && states[1..][k + 1] == Step(states[1..][k], ops[1..][k])
    {
      assert ops[1..][k] == ops[k + 1];
    }
  }
}
