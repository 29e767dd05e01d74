/**
 What each step of the scheduler does to each task, and what a task goes through over runs.
 */
module SchedTasks {
  import opened SchedSpec
  import opened SchedRuns

  // ---- schedule

  /** The task schedule leaves, if it leaves one: READY in place of RUNNING, else as it is. */
  function Left(r: Rec): Rec {
    if r.state.Running? then r.(state := Ready) else r
  }

  /** schedule without its walk: the first READY task behind the current one comes to the
      front, RUNNING, the tasks behind it keep their order, and the one left goes behind
      them with what survives of those passed over.  With no such task the current one
      stays, RUNNING if it was READY and is not alone. */
  lemma ScheduleRing(s: Sched)
    requires s.ring != []
    ensures var ring, k := s.ring, FirstReady(s.ring, 1);
      Schedule(s) == s.(freed := s.freed + Released(ring[1..k]), ring :=
        if k < |ring| then [ring[k].(state := Running)] + ring[k + 1..] + [Left(ring[0])] + Survivors(ring[1..k])
        else [if |ring| > 1 && ring[0].state.Ready? then ring[0].(state := Running) else ring[0]] + Survivors(ring[1..]))
  {
    hide Walk, Survivors, Released, Switch;
    var ring, n, k := s.ring, |s.ring|, FirstReady(s.ring, 1);
    if n == 1 {
      NoneSurvive(ring[1..1]);
      assert ring == [ring[0]] + [] && s.freed == s.freed + [];
    } else {
      WalkClosed(s, 1);
      var (m, p) := Walk(s, 1);
      var mid := Survivors(ring[1..k]);
      assert m.ring == [ring[0]] + mid + ring[k..];
      if k < n {
        SwitchMid(m.ring, ring[0], mid, ring[k..]);
      } else {
        assert ring[1..k] == ring[1..] && m.ring == [ring[0]] + mid;
        SwitchSelf(m.ring);
      }
    }
  }

  lemma SwitchMid(ring: seq<Rec>, cur: Rec, mid: seq<Rec>, rest: seq<Rec>)
    requires rest != [] && ring == [cur] + mid + rest
    ensures Switch(ring, 1 + |mid|) == [rest[0].(state := Running)] + rest[1..] + [Left(cur)] + mid
  {
    var p := 1 + |mid|;
    assert ring[p + 1..] == rest[1..] && ring[1..p] == mid;
  }

  lemma SwitchSelf(ring: seq<Rec>)
    requires ring != []
    ensures Switch(ring, 0) == [ring[0].(state := Running)] + ring[1..]
  {
  }

  lemma NoneSurvive(rs: seq<Rec>)
    requires rs == []
    ensures Survivors(rs) == [] && Released(rs) == []
  {
  }

  lemma {:induction false} SurvivorsAre(rs: seq<Rec>, r: Rec)
    ensures r in Survivors(rs) <==> r in rs && !(r.state.Dead? && r.id != 0)
    decreases |rs|
  {
    if rs != [] {
      SurvivorsAre(rs[1..], r);
      assert rs == [rs[0]] + rs[1..];
    }
  }

  /** A task behind the current one that schedule neither dispatches nor unlinks is as it
      was: all but the first READY one and the dead in front of it. */
  lemma OthersStay(s: Sched, i: nat)
    requires Inv(s) && 0 < i < |s.ring|
    ensures var k := FirstReady(s.ring, 1);
      i != k && (i > k || !(s.ring[i].state.Dead? && s.ring[i].id != 0)) ==> s.ring[i] in Schedule(s).ring
  {
    hide Survivors, Released, Schedule, Inv;
    ScheduleRing(s);
    var ring, k := s.ring, FirstReady(s.ring, 1);
    if i < k {
      SurvivorsAre(ring[1..k], ring[i]);
      assert ring[1..k][i - 1] == ring[i];
      assert k == |ring| ==> ring[1..k] == ring[1..];
    } else if i > k {
      assert ring[k + 1..][i - k - 1] == ring[i];
    }
  }

  /** Every task after schedule is one from before, and none of those unlinked. */
  lemma Origin(s: Sched, q: Rec) returns (j: nat)
    requires Inv(s) && q in Schedule(s).ring
    ensures j < |s.ring| && s.ring[j].id == q.id
    ensures 0 < j < FirstReady(s.ring, 1) ==> !(s.ring[j].state.Dead? && s.ring[j].id != 0)
  {
    hide Survivors, Released, Schedule, Inv;
    NotEmpty(s);
    ScheduleRing(s);
    var ring, k := s.ring, FirstReady(s.ring, 1);
    SurvivorsAre(ring[1..k], q);
    if q in Survivors(ring[1..k]) {
      j :| 1 <= j < k && ring[j] == q;
    } else if k < |ring| && q in ring[k + 1..] {
      j :| k < j < |ring| && ring[j] == q;
    } else {
      assert k == |ring| ==> ring[1..k] == ring[1..];
      j := if k < |ring| && q == ring[k].(state := Running) then k else 0;
    }
  }

  /** schedule task by task: only two tasks change, and only their states; the dead are gone
      that stand in front of the first READY one, the kernel task excepted; nothing else
      comes or goes. */
  lemma ScheduleTasks(s: Sched, i: nat)
    requires Inv(s) && i < |s.ring|
    ensures Schedule(s).ring != []
    ensures var ring, t, k, r := s.ring, Schedule(s).ring, FirstReady(s.ring, 1), s.ring[i];
      && t[0] == (if k < |ring| then ring[k].(state := Running)
                  else if |ring| > 1 && ring[0].state.Ready? then ring[0].(state := Running) else ring[0])
      && (i == 0 && k < |ring| ==> (if r.state.Running? then r.(state := Ready) else r) in t)
      && (0 < i && i != k && (i > k || !(r.state.Dead? && r.id != 0)) ==> r in t)
      && (0 < i < k && r.state.Dead? && r.id != 0 ==> !HasPid(t, r.id))
    ensures forall q :: q in Schedule(s).ring ==> HasPid(s.ring, q.id)
  {
    hide Survivors, Released, Schedule, Inv, HasPid;
    ScheduleRing(s);
    if i > 0 {
      OthersStay(s, i);
    }
    forall q | q in Schedule(s).ring
      ensures HasPid(s.ring, q.id) && (0 < i < FirstReady(s.ring, 1) && s.ring[i].state.Dead? && s.ring[i].id != 0 ==> q.id != s.ring[i].id)
    {
      var j := Origin(s, q);
      PidAt(s, i, j);
    }
    PidIn(Schedule(s).ring, s.ring[i].id);
  }

  lemma PidAt(s: Sched, i: nat, j: nat)
    requires Inv(s) && i < |s.ring| && j < |s.ring|
    ensures HasPid(s.ring, s.ring[j].id) && (i != j ==> s.ring[i].id != s.ring[j].id)
  {
  }

  lemma PidIn(ring: seq<Rec>, t: nat)
    ensures HasPid(ring, t) <==> exists q :: q in ring && q.id == t
  {
    if HasPid(ring, t) {
      var i :| 0 <= i < |ring| && ring[i].id == t;
      assert ring[i] in ring;
    }
  }

  // ---- one step

  lemma ScheduleTask(s: Sched, i: nat) returns (q: Rec)
    requires Inv(s) && i < |s.ring| && !s.ring[i].state.Dead?
    ensures q in Schedule(s).ring && q == s.ring[i].(state := q.state)
    ensures q.state == s.ring[i].state || (q.state.Ready? && s.ring[i].state.Running?) || (q.state.Running? && s.ring[i].state.Ready?)
  {
    hide Schedule, Inv, HasPid;
    ScheduleTasks(s, i);
    var r, k, t := s.ring[i], FirstReady(s.ring, 1), Schedule(s).ring;
    if i == 0 && k < |s.ring| {
      q := if r.state.Running? then r.(state := Ready) else r;
    } else if i == k || i == 0 {
      q := t[0];
    } else {
      q := r;
    }
  }

  lemma MarkedTask(s: Sched, first: Rec, i: nat) returns (q: Rec)
    requires Inv(s) && 0 < i < |s.ring| && !s.ring[i].state.Dead? && first.id == s.ring[0].id
    ensures var m := s.(ring := s.ring[0 := first]);
      q in Schedule(m).ring && q == s.ring[i].(state := q.state)
    ensures q.state == s.ring[i].state || (q.state.Ready? && s.ring[i].state.Running?) || (q.state.Running? && s.ring[i].state.Ready?)
  {
    hide Schedule, Inv;
    SetFirstKeeps(s, first);
    q := ScheduleTask(s.(ring := s.ring[0 := first]), i);
  }

  /** kill_task succeeds exactly for the pid of a task behind the current one, but not for 0;
      then that task is gone, the others are as they were, and what was obtained for it is
      given back; else nothing changes. */
  lemma KillIff(s: Sched, pid: nat) returns (k: nat)
    requires Inv(s)
    ensures s.ring != [] && KillCode(s, pid) == if pid != 0 && HasPid(s.ring[1..], pid) then pid else -1
    ensures KillCode(s, pid) == -1 ==> Kill(s, pid) == s
    ensures KillCode(s, pid) == pid ==>
      && 0 < k < |s.ring| && s.ring[k].id == pid && !HasPid(Kill(s, pid).ring, pid)
      && s.freed <= Kill(s, pid).freed && multiset(Kill(s, pid).freed[|s.freed|..]) == Obtained(s.ring[k])
    ensures forall i {:trigger s.ring[i]} :: 0 <= i < |s.ring| && s.ring[i].id != pid ==> s.ring[i] in Kill(s, pid).ring
  {
    hide Inv, DistinctIds, Without, Obtained, Resources;
    NotEmpty(s);
    k := Find(s.ring, pid, 1);
    BehindFirst(s.ring, pid);
    if k < |s.ring| {
      RemovedOnly(s, k);
      assert (s.freed + Resources(s.ring[k]))[|s.freed|..] == Resources(s.ring[k]);
      GivesBack(s.ring[k]);
    }
  }

  lemma GivesBack(r: Rec)
    ensures multiset(Resources(r)) == Obtained(r)
  {
  }

  lemma BehindFirst(ring: seq<Rec>, pid: nat)
    requires ring != []
    ensures HasPid(ring[1..], pid) <==> Find(ring, pid, 1) < |ring|
  {
    var k := Find(ring, pid, 1);
    assert forall j :: 0 <= j < |ring| - 1 ==> ring[1..][j] == ring[j + 1];
    assert k < |ring| ==> ring[1..][k - 1].id == pid;
  }

  lemma RemovedOnly(s: Sched, k: nat)
    requires Inv(s) && k < |s.ring|
    ensures !HasPid(Without(s.ring, k), s.ring[k].id)
    ensures forall i {:trigger s.ring[i]} :: 0 <= i < |s.ring| && i != k ==> s.ring[i] in Without(s.ring, k)
  {
    hide Without, OnlyFirstRuns, HasPid;
    var ring, less := s.ring, Without(s.ring, k);
    WithoutAt(ring, k);
    forall i | 0 <= i < |ring| && i != k
      ensures ring[i] in less
    {
      assert less[if i < k then i else i - 1] == ring[i];
    }
    forall j | 0 <= j < |less|
      ensures less[j].id != ring[k].id
    {
      DistinctAt(ring, if j < k then j else j + 1, k);
    }
    PidIn(less, ring[k].id);
  }

  /** create_task: the new task is READY, has the next pid and waits right behind the current
      one; the others are as they were, in their order. */
  lemma CreateTasks(s: Sched, r: Rec)
    requires s.ring != []
    ensures Waits(Create(s, r), s.nextPid, 1) && Create(s, r).ring[1] == r.(id := s.nextPid, state := Ready, wake := 0)
    ensures [Create(s, r).ring[0]] + Create(s, r).ring[2..] == s.ring && Create(s, r).nextPid == s.nextPid + 1
    ensures Create(s, r).tick == s.tick && Create(s, r).freed == s.freed
  {
    assert Create(s, r).ring[2..] == s.ring[1..];
  }

  /** After exit_task the caller is DEAD, and stays in the ring until somebody else's walk. */
  lemma ExitTasks(s: Sched)
    requires Inv(s)
    ensures s.ring != [] && s.ring[0].(state := Dead) in Exit(s).ring
    ensures FirstReady(s.ring, 1) < |s.ring| ==> Exit(s).ring != [] && Exit(s).ring[0].id == s.ring[FirstReady(s.ring, 1)].id
  {
    hide Schedule, Inv;
    NotEmpty(s);
    var r := s.ring[0].(state := Dead);
    var m := s.(ring := s.ring[0 := r]);
    SetFirstKeeps(s, r);
    ScheduleTasks(m, 0);
    SameReady(s.ring, m.ring);
    assert Schedule(m).ring[0] in Schedule(m).ring;
  }

  lemma SameReady(a: seq<Rec>, b: seq<Rec>)
    requires |a| == |b| > 0 && a[1..] == b[1..]
    ensures FirstReady(a, 1) == FirstReady(b, 1)
  {
    assert forall i :: 1 <= i < |a| ==> a[i] == a[1..][i - 1] && b[i] == b[1..][i - 1];
    var j, k := FirstReady(a, 1), FirstReady(b, 1);
    assert j < |a| ==> a[j] == b[j];
    assert k < |b| ==> a[k] == b[k];
  }

  /** One step and one task that is not dead: unless it is killed, or puts itself to sleep or
      exits, it is still there, and only its state can differ, as the table of states says.
      Only schedule and the waking tick change it. */
  lemma StepTask(s: Sched, op: Op, i: nat) returns (q: Rec)
    requires Inv(s) && Enabled(s, op) && i < |s.ring| && !s.ring[i].state.Dead?
    requires op != KillPid(s.ring[i].id) && (i == 0 ==> !op.SleepFor? && !op.ExitNow?)
    ensures q in Step(s, op).ring && q == s.ring[i].(state := q.state)
    ensures match s.ring[i].state
      case Running => q.state.Running? || (Yields(op) == 1 && q.state.Ready?)
      case Ready => q.state.Ready? || (Yields(op) == 1 && q.state.Running?)
      case Sleeping => q.state.Sleeping? || (op.TimerTick? && q.state.Ready?)
      case Dead => false
  {
    hide Schedule, Inv, Create, Kill, WakeAll;
    match op
    case NewTask(r) =>
      CreateTasks(s, r);
      q := s.ring[i];
      assert q in [Create(s, r).ring[0]] + Create(s, r).ring[2..];
    case SleepFor(ms) => q := MarkedTask(s, s.ring[0].(state := Sleeping, wake := s.tick + SleepTicks(ms)), i);
    case KillPid(pid) =>
      var k := KillIff(s, pid);
      q := s.ring[i];
    case ExitNow => q := MarkedTask(s, s.ring[0].(state := Dead), i);
    case TimerTick =>
      q := Tick(s).ring[i];
    case Yield => q := ScheduleTask(s, i);
  }

  // ---- runs

  /** The task with this record, but for its state, is there and RUNNING or READY. */
  ghost predicate Runnable(s: Sched, r: Rec) {
    exists q :: q in s.ring && q == r.(state := q.state) && (q.state.Running? || q.state.Ready?)
  }

  /** Nobody kills t, and t itself neither sleeps nor exits in this step. */
  predicate Spares(s: Sched, op: Op, t: nat) {
    op != KillPid(t) && (s.ring != [] && s.ring[0].id == t ==> !op.SleepFor? && !op.ExitNow?)
  }

  /** Over every run a task that is RUNNING or READY, is not killed and neither sleeps nor
      exits, is RUNNING or READY in every state. */
  lemma {:induction false} RunnableStays(states: seq<Sched>, ops: seq<Op>, r: Rec)
    requires IsRun(states, ops) && Inv(states[0]) && Runnable(states[0], r)
    requires forall k {:trigger ops[k]} :: 0 <= k < |ops| ==> Spares(states[k], ops[k], r.id)
    ensures |states| == |ops| + 1 && Runnable(states[|ops|], r)
    decreases |ops|
  {
    hide Inv, Step, Enabled, IsRun, Runnable, Spares;
    RunLength(states, ops);
    if ops != [] {
      var n := |ops| - 1;
      RunPrefix(states, ops);
      forall k | 0 <= k < n
        ensures Spares(states[..n + 1][k], ops[..n][k], r.id)
      {
        assert Spares(states[k], ops[k], r.id);
      }
      RunnableStays(states[..n + 1], ops[..n], r);
      RunsKeepInv(states[..n + 1], ops[..n]);
      assert Spares(states[n], ops[n], r.id);
      RunnableStep(states[n], ops[n], r);
    }
  }

  lemma RunnableStep(s: Sched, op: Op, r: Rec)
    requires Inv(s) && Enabled(s, op) && Runnable(s, r) && Spares(s, op, r.id)
    ensures Runnable(Step(s, op), r)
  {
    hide Inv, Step, Enabled;
    var q :| q in s.ring && q == r.(state := q.state) && (q.state.Running? || q.state.Ready?);
    var i :| 0 <= i < |s.ring| && s.ring[i] == q;
    var q' := StepTask(s, op, i);
  }

  /** A RUNNING task that calls schedule runs again: at once if nobody else is READY, else
      within as many further calls of schedule as the ring then has other tasks, plus one
      for each task created meanwhile. */
  lemma RunsAgain(states: seq<Sched>, ops: seq<Op>, t: nat) returns (j: nat)
    requires IsRun(states, ops) && Inv(states[0]) && ops != [] && ops[0] == Yield && IsCurrent(states[0], t) && KillPid(t) !in ops
    requires |states| == |ops| + 1 && CountYields(ops[1..]) + 1 >= |states[1].ring| + CountCreates(ops[1..])
    ensures 0 < j <= |ops| && IsCurrent(states[j], t)
  {
    hide Inv, Schedule, IsRun, CountYields, CountCreates, Waits, Enabled;
    RunTail(states, ops);
    var s := states[0];
    StepKeeps(s, Yield);
    ScheduleTasks(s, 0);
    if FirstReady(s.ring, 1) == |s.ring| {
      j := 1;
    } else {
      var d := LeftWaits(s, t);
      assert forall op :: op in ops[1..] ==> op in ops;
      j := BoundedWaiting(states[1..], ops[1..], t, d);
      j := j + 1;
    }
  }

  lemma LeftWaits(s: Sched, t: nat) returns (d: nat)
    requires Inv(s) && IsCurrent(s, t) && FirstReady(s.ring, 1) < |s.ring|
    ensures d < |Schedule(s).ring| && Waits(Schedule(s), t, d)
  {
    hide Schedule, Inv;
    ScheduleTasks(s, 0);
    var ring, k := Schedule(s).ring, FirstReady(s.ring, 1);
    d :| 0 <= d < |ring| && ring[d] == s.ring[0].(state := Ready);
    PidAt(s, 0, k);
  }
}
