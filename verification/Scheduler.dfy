/**
 task/task.cpp: tasks linked in a circle, changed in place.
 */
module Scheduler {
  import opened SchedSpec

  /** struct Task, without registers, descriptors and working directory. */
  class Task {
    const id: nat
    var state: TaskState
    var wakeTick: nat
    const isUser: bool
    const stack: nat
    const userStack: nat
    const dir: nat
    const mem: nat
    var next: Task?

    constructor (id: nat, state: TaskState, isUser: bool, stack: nat, userStack: nat, dir: nat, mem: nat)
      ensures Rec() == SchedSpec.Rec(id, state, 0, isUser, stack, userStack, dir, mem) && next == null
    {
      this.id, this.state, wakeTick := id, state, 0;
      this.isUser, this.stack, this.userStack, this.dir, this.mem := isUser, stack, userStack, dir, mem;
      next := null;
    }

    ghost function Rec(): SchedSpec.Rec
      reads `state, `wakeTick
    {
      SchedSpec.Rec(id, state, wakeTick, isUser, stack, userStack, dir, mem)
    }
  }

  /** These tasks have these records. */
  ghost predicate Shows(ring: seq<Task>, recs: seq<Rec>)
    reads ring`state, ring`wakeTick
  {
    |ring| == |recs| && forall i {:trigger ring[i]} {:trigger recs[i]} :: 0 <= i < |ring| ==> ring[i].Rec() == recs[i]
  }

  /** The task at position i of the circle, the first again after the last. */
  ghost function At(ring: seq<Task>, i: nat): Task
    requires i <= |ring| && ring != []
  {
    if i < |ring| then ring[i] else ring[0]
  }

  ghost predicate LinkAt(ring: seq<Task>, i: nat)
    requires i < |ring|
    reads ring`next
  {
    ring[i].next == At(ring, i + 1)
  }

  /** Following next from ring[0] leads through the sequence and back. */
  ghost predicate Circle(ring: seq<Task>)
    reads ring`next
  {
    && ring != []
    && (forall i: nat {:trigger LinkAt(ring, i)} :: i < |ring| ==> LinkAt(ring, i))
    && (forall i, j {:trigger ring[i], ring[j]} :: 0 <= i < j < |ring| ==> ring[i] != ring[j])
  }

  lemma AfterFirst(ring: seq<Task>)
    requires Circle(ring)
    ensures ring[0].next == At(ring, 1) && (At(ring, 1) == ring[0] <==> |ring| == 1)
  {
    assert LinkAt(ring, 0);
  }

  lemma After(ring: seq<Task>, i: nat)
    requires Circle(ring) && i < |ring|
    ensures ring[i].next == At(ring, i + 1)
  {
    assert LinkAt(ring, i);
  }

  /** Start the circle at position p. */
  ghost function Rotated(ring: seq<Task>, p: nat): (r: seq<Task>)
    requires p < |ring|
    ensures |r| == |ring| && forall j {:trigger r[j]} :: 0 <= j < |r| ==> r[j] == ring[Source(|ring|, p, j)]
  {
    if p == 0 then ring else [ring[p]] + ring[p + 1..] + [ring[0]] + ring[1..p]
  }

  lemma RotatedCircle(ring: seq<Task>, p: nat)
    requires Circle(ring) && p < |ring|
    ensures Circle(Rotated(ring, p)) && Members(Rotated(ring, p)) == Members(ring)
  {
    hide Rotated;
    var r, n := Rotated(ring, p), |ring|;
    forall i: nat | i < n
      ensures LinkAt(r, i)
    {
      After(ring, Source(n, p, i));
    }
    forall t | t in ring
      ensures t in r
    {
      var z :| 0 <= z < n && ring[z] == t;
      assert r[if z >= p then z - p else z + n - p] == t;
    }
  }

  /** The first i tasks are woken, the others are as they were. */
  ghost predicate HalfWoken(ring: seq<Task>, recs: seq<Rec>, tick: nat, i: nat)
    requires |ring| == |recs|
    reads ring`state, ring`wakeTick
  {
    forall k {:trigger ring[k]} :: 0 <= k < |ring| ==> ring[k].Rec() == if k < i then Woken(recs[k], tick) else recs[k]
  }

  lemma DistinctTasks(ring: seq<Task>, i: nat, j: nat)
    requires Circle(ring) && i < |ring| && j < |ring| && i != j
    ensures ring[i] != ring[j]
  {
  }

  ghost function Members(ring: seq<Task>): set<Task> {
    set t | t in ring
  }

  class Scheduler {
    var current: Task
    var nextPid: nat
    var tick: nat
    const kernelDir: nat
    ghost var ring: seq<Task>
    ghost var recs: seq<Rec>
    ghost var freed: seq<Res>

    ghost function State(): Sched
      reads `recs, `nextPid, `tick, `freed
    {
      Sched(recs, nextPid, tick, freed)
    }

    /** The tasks form the circle `ring`, their fields are the records of the state, and the
        state satisfies the invariant. */
    ghost predicate Valid()
      reads this, ring
    {
      Circle(ring) && ring[0] == current && Shows(ring, recs) && Inv(State())
    }

    /** init_tasking: the kernel task alone, RUNNING. */
    constructor (cr3: nat)
      ensures Valid() && fresh(ring)
      ensures State() == Boot(cr3)
      ensures ring == [current] && current.id == 0 && current.state.Running? && current.dir == kernelDir == cr3 && nextPid == 1
    {
      var kernelTask := new Task(0, Running, false, 0, 0, cr3, 0);
      kernelTask.next := kernelTask;
      current, nextPid, tick, kernelDir := kernelTask, 1, 0, cr3;
      ring, recs, freed := [kernelTask], Boot(cr3).ring, [];
      new;
      BootOk(cr3);
    }

    /** Hand a block or a frame back to its allocator. */
    method Free(r: Res)
      modifies `freed
      ensures freed == old(freed) + [r]
    {
      freed := freed + [r];
    }

    /** Link a task in behind the current one. */
    method Insert(t: Task)
      requires Valid() && t !in ring && t.id == nextPid && t.state.Ready? && t.wakeTick == 0
      modifies `nextPid, `ring, `recs, current`next, t`next
      ensures Valid() && State() == Create(old(State()), old(t.Rec()))
      ensures ring == [current, t] + old(ring)[1..]
    {
      hide Inv;
      ghost var s, r := State(), t.Rec();
      CreateKeeps(s, r);
      AfterFirst(ring);
      t.next := current.next;
      current.next := t;
      nextPid := nextPid + 1;
      ghost var was := ring;
      ring, recs := [current, t] + ring[1..], Create(s, r).ring;
      assert forall i :: 1 < i < |ring| ==> ring[i] == was[i - 1];
      assert forall i :: 1 < i < |recs| ==> recs[i] == s.ring[i - 1];
      forall i: nat | i < |ring|
        ensures LinkAt(ring, i)
      {
        assert i > 1 ==> old(LinkAt(was, i - 1));
      }
    }

    /** create_task, with what kmalloc gave for the stack and for the task; 0 is null.  A
        failure gives back what was obtained and changes nothing else. */
    method CreateTask(stackMem: nat, taskMem: nat) returns (t: Task?)
      requires Valid()
      modifies `nextPid, `ring, `recs, `freed, current`next
      ensures Valid()
      ensures t == null <==> stackMem == 0 || taskMem == 0
      ensures t == null ==> ring == old(ring) && State() == old(State()).(freed := old(freed) + if stackMem == 0 then [] else [Heap(stackMem)])
      ensures t != null ==> fresh(t) && ring == [current, t] + old(ring)[1..]
      ensures t != null ==> State() == Create(old(State()), Rec(old(nextPid), Ready, 0, false, stackMem, 0, kernelDir, taskMem))
    {
      hide Inv, Circle, Create;
      if stackMem == 0 {
        return null;
      }
      if taskMem == 0 {
        Free(Heap(stackMem));
        SameInv(old(State()), State());
        return null;
      }
      t := new Task(nextPid, Ready, false, stackMem, 0, kernelDir, taskMem);
      Insert(t);
    }

    /** What is freed plays no part in the invariant. */
    static lemma SameInv(s: Sched, t: Sched)
      requires Inv(s) && t == s.(freed := t.freed)
      ensures Inv(t)
    {
    }

    /** create_user_task, likewise, with a user stack frame and a page directory. */
    method CreateUserTask(stackMem: nat, userStackMem: nat, taskMem: nat, cr3: nat) returns (t: Task?)
      requires Valid()
      modifies `nextPid, `ring, `recs, `freed, current`next
      ensures Valid()
      ensures t == null <==> stackMem == 0 || userStackMem == 0 || taskMem == 0
      ensures t == null ==> ring == old(ring) && State() == old(State()).(freed := old(freed)
        + (if stackMem == 0 then [] else [Heap(stackMem)]) + (if userStackMem == 0 then [] else [Frame(userStackMem)]))
      ensures t != null ==> fresh(t) && ring == [current, t] + old(ring)[1..]
      ensures t != null ==> State() == Create(old(State()), Rec(old(nextPid), Ready, 0, true, stackMem, userStackMem, cr3, taskMem))
    {
      hide Inv, Circle, Create;
      if stackMem == 0 || userStackMem == 0 {
        if stackMem != 0 {
          Free(Heap(stackMem));
        }
        if userStackMem != 0 {
          Free(Frame(userStackMem));
        }
        SameInv(old(State()), State());
        return null;
      }
      if taskMem == 0 {
        Free(Heap(stackMem));
        Free(Frame(userStackMem));
        SameInv(old(State()), State());
        return null;
      }
      t := new Task(nextPid, Ready, true, stackMem, userStackMem, cr3, taskMem);
      Insert(t);
    }

    /** kill_task: unlink and free the task with this pid, unless it is the kernel task or
        not behind the current one. */
    method KillTask(pid: nat) returns (code: int)
      requires Valid()
      modifies `ring, `recs, `freed, Members(ring)`next
      ensures Valid() && Members(ring) <= Members(old(ring))
      ensures code == KillCode(old(State()), pid) && State() == Kill(old(State()), pid)
      ensures |ring| == |old(ring)| - if code == -1 then 0 else 1
      ensures var k := Find(old(State()).ring, pid, 1);
        forall j {:trigger ring[j]} :: 0 <= j < |ring| ==> ring[j] == old(ring)[if code == -1 || j < k then j else j + 1]
    {
      hide Inv, Circle, Shows, Reap;
      ghost var s := State();
      SameLength(ring, recs);
      if pid == 0 {
        return -1;
      }
      var prev, t, i := Search(pid);
      if t == null {
        return -1;
      }
      KillIsReap(s, pid);
      Unlink(prev, t, i);
      return pid;
    }

    /** The loop of kill_task: the task with this pid behind the current one, and the one
        that points to it. */
    method Search(pid: nat) returns (prev: Task, found: Task?, ghost i: nat)
      requires Valid() && pid != 0
      ensures |ring| == |recs| && i == Find(recs, pid, 1)
      ensures found == null <==> i == |ring|
      ensures found != null ==> found == ring[i] && prev == ring[i - 1] && found.id == pid
    {
      hide Inv, Circle, Shows;
      SameLength(ring, recs);
      AfterFirst(ring);
      NotLone(State());
      var t: Task := current.next;
      prev, i := current, 1;
      var first := true;
      while first || t != current
        invariant 1 <= i <= |ring| && t == At(ring, i)
        invariant first ==> i == 1 && prev == current
        invariant !first && t == current ==> i == |ring|
        invariant i < |ring| ==> prev == ring[i - 1]
        invariant Find(recs, pid, 1) == Find(recs, pid, i)
        decreases |ring| - i, first
      {
        IdAt(ring, recs, i);
        if t.id == pid {
          return prev, t, i;
        }
        first := false;
        prev := t;
        After(ring, if i < |ring| then i else 0);
        t := t.next;
        i := if i < |ring| then i + 1 else i;
        AtCurrent(ring, i);
      }
      found := null;
    }

    static lemma SameLength(ring: seq<Task>, recs: seq<Rec>)
      requires Shows(ring, recs)
      ensures |ring| == |recs|
    {
    }

    static lemma IdAt(ring: seq<Task>, recs: seq<Rec>, i: nat)
      requires Shows(ring, recs) && ring != [] && i <= |ring|
      ensures At(ring, i).id == (if i < |recs| then recs[i] else recs[0]).id
      ensures At(ring, i).state == (if i < |recs| then recs[i] else recs[0]).state
    {
    }

    static lemma AtCurrent(ring: seq<Task>, i: nat)
      requires Circle(ring) && 0 < i <= |ring|
      ensures At(ring, i) == ring[0] ==> i == |ring|
    {
    }

    /** Alone in the ring is only the kernel task, whose pid is 0. */
    static lemma NotLone(s: Sched)
      requires Inv(s)
      ensures |s.ring| == 1 ==> s.ring[0].id == 0
    {
    }

    /** Hand back what a task holds. */
    method FreeTask(t: Task)
      modifies `freed
      ensures freed == old(freed) + Resources(t.Rec())
    {
      Free(Heap(t.stack));
      if t.isUser {
        Free(Frame(t.userStack));
        Free(Frame(t.dir));
      }
      Free(Heap(t.mem));
    }

    /** Take t out of the circle and free what it holds. */
    method Unlink(prev: Task, t: Task, ghost i: nat)
      requires Valid() && 0 < i < |ring| && t == ring[i] && prev == ring[i - 1] && t.id != 0
      modifies `ring, `recs, `freed, prev`next
      ensures Valid() && State() == Reap(old(State()), i) && |ring| == |old(ring)| - 1 && Members(ring) <= Members(old(ring))
      ensures forall j {:trigger ring[j]} :: 0 <= j < |ring| ==> ring[j] == old(ring)[if j < i then j else j + 1]
    {
      hide Inv, Resources;
      ghost var s := State();
      ReapKeeps(s, i);
      prev.next := t.next;
      FreeTask(t);
      ghost var less := ring[..i] + ring[i + 1..];
      assert forall j :: 0 <= j < |less| ==> less[j] == ring[if j < i then j else j + 1];
      assert old(LinkAt(ring, i));
      forall j: nat | j < |less|
        ensures LinkAt(less, j)
      {
        assert old(LinkAt(ring, if j < i then j else j + 1));
      }
      WithoutAt(recs, i);
      ring, recs := less, Without(recs, i);
    }

    /** The body of the loop of task_timer_tick. */
    method WakeOne(t: Task, ghost tasks: seq<Task>, ghost before: seq<Rec>, ghost i: nat)
      requires Circle(tasks) && i < |tasks| == |before| && t == tasks[i] && HalfWoken(tasks, before, tick, i)
      modifies t`state
      ensures HalfWoken(tasks, before, tick, i + 1)
    {
      hide Circle;
      forall k | 0 <= k < |tasks| && k != i
        ensures tasks[k] != t
      {
        DistinctTasks(tasks, k, i);
      }
      if t.state.Sleeping? && tick >= t.wakeTick {
        t.state := Ready;
      }
    }

    /** task_timer_tick, after the interrupt handler has counted the tick. */
    method TimerTick()
      requires Valid()
      modifies `tick, `recs, Members(ring)`state
      ensures Valid() && State() == Tick(old(State()))
    {
      hide Inv, Circle, HalfWoken, Shows, WakeAll;
      ghost var s := State();
      TickKeeps(s);
      AfterFirst(ring);
      HalfStart(ring, recs, tick + 1);
      tick := tick + 1;
      var t := current;
      ghost var i: nat := 0;
      var first := true;
      while first || t != current
        invariant Circle(ring) && 0 <= i <= |ring| == |s.ring| && t == At(ring, i) && (first <==> i == 0)
        invariant HalfWoken(ring, s.ring, tick, i)
        decreases |ring| - i
        modifies Members(ring)`state
      {
        After(ring, i);
        WakeOne(t, ring, s.ring, i);
        t := t.next;
        first := false;
        i := i + 1;
      }
      AtCurrent(ring, i);
      HalfEnd(ring, s.ring, tick);
      recs := WakeAll(s.ring, tick);
    }

    static lemma HalfStart(ring: seq<Task>, recs: seq<Rec>, tick: nat)
      requires Shows(ring, recs)
      ensures |ring| == |recs| && HalfWoken(ring, recs, tick, 0)
    {
    }

    static lemma HalfEnd(ring: seq<Task>, recs: seq<Rec>, tick: nat)
      requires |ring| == |recs| && HalfWoken(ring, recs, tick, |ring|)
      ensures Shows(ring, WakeAll(recs, tick))
    {
    }

    /** Move on from a task that is not READY, reaping it if it is dead: the body of the
        walk in schedule. */
    method WalkOn(next: Task, ghost i: nat) returns (after: Task, ghost j: nat)
      requires Valid() && 0 < i < |ring| && next == ring[i] && !next.state.Ready?
      modifies `ring, `recs, `freed, Members(ring)`next
      ensures Valid() && Members(ring) <= Members(old(ring))
      ensures 0 < j <= |ring| && after == At(ring, j) && |ring| - j < |old(ring)| - i
      ensures Walk(State(), j) == Walk(old(State()), i)
    {
      hide Inv, Circle, Shows, Members;
      ghost var s := State();
      SameLength(ring, recs);
      IdAt(ring, recs, i);
      After(ring, i);
      if next.state.Dead? {
        var temp: Task := next.next;
        KillsIt(s, i);
        var code := KillTask(next.id);
        after := temp;
        j := if code == -1 then i + 1 else i;
      } else {
        after := next.next;
        j := i + 1;
      }
    }

    /** Killing the pid of a dead task met on the walk removes that task, unless it is the
        kernel task. */
    static lemma KillsIt(s: Sched, i: nat)
      requires Inv(s) && 0 < i < |s.ring|
      ensures Find(s.ring, s.ring[i].id, 1) == i
      ensures s.ring[i].id != 0 ==> KillCode(s, s.ring[i].id) != -1 && Kill(s, s.ring[i].id) == Reap(s, i)
    {
      assert forall k :: 1 <= k < i ==> s.ring[k].id != s.ring[i].id;
    }

    /** schedule: the register and stack switch is the change of `current`. */
    method Schedule()
      requires Valid()
      modifies this, Members(ring)
      ensures Valid() && State() == SchedSpec.Schedule(old(State()))
    {
      hide Inv, Circle, Walk, Shows;
      ghost var s, all := State(), Members(ring);
      SameLength(ring, recs);
      AfterFirst(ring);
      if current.next == current {
        return;
      }
      var prev := current;
      var next: Task := current.next;
      ghost var i: nat := 1;
      while !next.state.Ready? && next != prev
        invariant Valid() && current == prev && Members(ring) <= all && |ring| == |recs|
        invariant 0 < i <= |ring| && next == At(ring, i) && Walk(State(), i) == Walk(s, 1)
        decreases |ring| - i
      {
        next, i := WalkOn(next, i);
        SameLength(ring, recs);
      }
      SameLength(ring, recs);
      IdAt(ring, recs, i);
      AtCurrent(ring, i);
      WalkEnds(State(), i);
      if !next.state.Ready? {
        return;
      }
      SwitchTo(prev, next, if i < |ring| then i else 0);
    }

    static lemma WalkEnds(s: Sched, i: nat)
      requires i <= |s.ring| && (i == |s.ring| || s.ring[i].state.Ready?)
      ensures Walk(s, i) == (s, i)
    {
    }

    /** The end of schedule: leave prev, run next. */
    method SwitchTo(prev: Task, next: Task, ghost p: nat)
      requires Valid() && prev == current && p < |ring| && next == ring[p] && next.state.Ready?
      modifies `current, `ring, `recs, prev`state, next`state
      ensures Valid() && State() == old(State()).(ring := Switch(old(State()).ring, p))
    {
      hide Inv, Rotated, Switch, Members, Circle;
      ghost var s, r := State(), Rotated(ring, p);
      SwitchKeeps(s, p);
      SwitchAt(s.ring, p);
      RotatedCircle(ring, p);
      forall k | 0 <= k < |ring|
        ensures (ring[k] == prev <==> k == 0) && (ring[k] == next <==> k == p)
      {
        if k != 0 {
          DistinctTasks(ring, k, 0);
        }
        if k != p {
          DistinctTasks(ring, k, p);
        }
      }
      if prev.state.Running? {
        prev.state := Ready;
      }
      next.state := Running;
      current := next;
      ring, recs := r, Switch(s.ring, p);
    }

    /** Set the current task's state and wake-up tick. */
    method Mark(state: TaskState, wake: nat)
      requires Valid()
      modifies `recs, current`state, current`wakeTick
      ensures Valid() && State() == old(State()).(ring := old(State()).ring[0 := old(State()).ring[0].(state := state, wake := wake)])
    {
      hide Inv;
      ghost var s, r := State(), recs[0].(state := state, wake := wake);
      SetFirstKeeps(s, r);
      current.wakeTick := wake;
      current.state := state;
      recs := recs[0 := r];
    }

    /** task_sleep up to and including its first call of schedule. */
    method Sleep(ms: nat)
      requires Valid() && ms < 0x1_0000_0000
      modifies this, Members(ring)
      ensures Valid() && State() == SchedSpec.Sleep(old(State()), ms)
    {
      hide Inv, Circle, SchedSpec.Schedule, Shows;
      AfterFirst(ring);
      var ticks := ms * TIMER_FREQ % 0x1_0000_0000 / 1000;
      if ms > 0 && ticks == 0 {
        ticks := 1;
      }
      Mark(Sleeping, tick + ticks);
      Schedule();
    }

    /** exit_task up to and including schedule. */
    method Exit()
      requires Valid()
      modifies this, Members(ring)
      ensures Valid() && State() == SchedSpec.Exit(old(State()))
    {
      hide Inv, Circle, SchedSpec.Schedule;
      AfterFirst(ring);
      Mark(Dead, current.wakeTick);
      Schedule();
    }
  }
}
