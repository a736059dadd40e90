/** The steps of kernel/process/scheduler.c. Processes are slots; a slot is reused for a
    new process once its old one has stopped, while entries for the old one may still be
    in the ready queue. Queue and sleep list are sequences, head first. */
module Scheduler {
  import opened Wrappers

  datatype Phase = Stopped | Ready | Running | Blocked

  /** loaded: program counter, stack pointer and address space are in place. */
  datatype Proc = Proc(pid: nat, phase: Phase, inQueue: bool, sleeping: bool, wakeAt: nat, loaded: bool, refs: nat)

  type Procs = map<nat, Proc>

  /** The process list has no repeats, and process ids none either. */
  ghost predicate Known(procs: Procs, list: seq<nat>, idle: nat, nextPid: nat) {
    && Distinct(list) && idle !in list && idle in procs && nextPid > 0
    && (forall p :: p in list ==> p in procs && 0 < procs[p].pid < nextPid)
    && (forall p, q :: p in list && q in list && procs[p].pid == procs[q].pid ==> p == q)
  }

  /** Exactly the ready processes are marked as queued; they have an entry in the queue
      and can run. The queue may hold stale entries as well. */
  ghost predicate Queued(procs: Procs, list: seq<nat>, queue: seq<nat>) {
    && (forall i :: 0 <= i < |queue| ==> queue[i] in list)
    && (forall p :: p in list && p in procs ==> (procs[p].inQueue <==> procs[p].phase.Ready?))
    && (forall p :: p in list && p in procs && procs[p].phase.Ready? ==> p in queue && procs[p].loaded)
  }

  ghost predicate ByWakeUp(procs: Procs, s: seq<nat>)
    requires forall i :: 0 <= i < |s| ==> s[i] in procs
  {
    forall i, j :: 0 <= i < j < |s| ==> procs[s[i]].wakeAt <= procs[s[j]].wakeAt
  }

  /** The sleep list is sorted by wake-up time, without repeats, and holds exactly the
      sleeping processes, all of them blocked; nobody else has a wake-up time. */
  ghost predicate Asleep(procs: Procs, list: seq<nat>, sleepers: seq<nat>) {
    && Distinct(sleepers)
    && (forall i :: 0 <= i < |sleepers| ==> sleepers[i] in list && sleepers[i] in procs)
    && ByWakeUp(procs, sleepers)
    && (forall p :: p in list && p in procs ==> (procs[p].sleeping <==> p in sleepers))
    && (forall p :: p in list && p in procs && procs[p].sleeping ==> procs[p].phase.Blocked? && procs[p].loaded)
    && (forall p :: p in list && p in procs && !procs[p].sleeping ==> procs[p].wakeAt == 0)
  }

  /** Only the current process is running; the idle process can always run. */
  ghost predicate OneRuns(procs: Procs, list: seq<nat>, current: nat, idle: nat) {
    && (current in list || current == idle)
    && (forall p :: p in procs && (p in list || p == idle) && procs[p].phase.Running? ==>
              p == current && procs[p].loaded)
    && idle in procs && procs[idle].loaded && !procs[idle].sleeping && !procs[idle].inQueue
    && (procs[idle].phase.Blocked? || procs[idle].phase.Running?)
  }

  /** process_can_run */
  predicate CanRun(procs: Procs, list: seq<nat>, idle: nat, p: nat) {
    p in procs && (p in list || p == idle) && !procs[p].phase.Stopped? && !procs[p].sleeping && procs[p].loaded
  }

  /** The number of queue entries before the first one of p. */
  function Ahead(queue: seq<nat>, p: nat): (k: nat)
    ensures k <= |queue| && (forall i :: 0 <= i < k ==> queue[i] != p) && (k < |queue| ==> queue[k] == p)
  {
    if queue == [] || queue[0] == p then 0 else 1 + Ahead(queue[1..], p)
  }

  lemma {:induction false} AheadIs(queue: seq<nat>, p: nat, k: nat)
    requires k < |queue| && queue[k] == p && forall i :: 0 <= i < k ==> queue[i] != p
    ensures Ahead(queue, p) == k
  {
  }

  lemma AheadAppend(queue: seq<nat>, more: seq<nat>, p: nat)
    requires p in queue
    ensures Ahead(queue + more, p) == Ahead(queue, p) < |queue|
  {
    var k := Ahead(queue, p);
    AheadIs(queue + more, p, k);
  }

  lemma AheadDrop(queue: seq<nat>, n: nat, p: nat)
    requires p in queue && n <= Ahead(queue, p)
    ensures n <= |queue| && p in queue[n..] && Ahead(queue[n..], p) == Ahead(queue, p) - n
  {
    var k := Ahead(queue, p);
    assert queue[n..][k - n] == p;
    AheadIs(queue[n..], p, k - n);
  }

  class Sched {
    const idle: nat
    const kernel: nat
    var procs: Procs
    var list: seq<nat>
    var queue: seq<nat>
    var sleepers: seq<nat>
    var current: nat
    var nextPid: nat
    ghost var switches: nat

    /** init_main_process: the kernel process is current but not running yet. */
    constructor (kernel: nat, idle: nat)
      requires kernel != idle
      ensures Valid() && Active() && list == [kernel] && current == kernel && queue == [] && sleepers == []
      ensures this.kernel == kernel && this.idle == idle && procs.Keys == {kernel, idle} && switches == 0
    {
      this.kernel, this.idle := kernel, idle;
      procs := map[kernel := Proc(1, Blocked, false, false, 0, false, 0),
                   idle := Proc(0, Blocked, false, false, 0, true, 0)];
      list, queue, sleepers, current, nextPid, switches := [kernel], [], [], kernel, 2, 0;
    }

    ghost predicate Valid()
      reads this
    {
      && Known(procs, list, idle, nextPid) && Queued(procs, list, queue) && Asleep(procs, list, sleepers)
      && OneRuns(procs, list, current, idle)
    }

    /** enqueue_ready_process */
    method Enqueue(p: nat)
      requires p in procs
      modifies this`procs, this`queue
      ensures if p == idle || old(procs)[p].inQueue then procs == old(procs) && queue == old(queue)
              else queue == old(queue) + [p] && procs == old(procs)[p := Queueing(old(procs)[p])]
    {
      if p == idle || procs[p].inQueue { return; }
      queue := queue + [p];
      procs := procs[p := Queueing(procs[p])];
    }

    /** ready_process. The queue stays in order exactly when a process that is put there
        has been loaded, and the running process goes on running exactly when it is not
        the one. */
    method ReadyProcess(p: nat)
      requires Valid() && p in list
      modifies this`procs, this`queue
      ensures old(Startable(procs[p])) ==>
                queue == old(queue) + [p] && procs == old(procs)[p := Queueing(old(procs)[p])]
      ensures !old(Startable(procs[p])) ==> procs == old(procs) && queue == old(queue)
      ensures Valid() <==> (old(Startable(procs[p])) ==> old(procs)[p].loaded)
      ensures old(Active()) ==> (Active() <==> (old(Startable(procs[p])) ==> p != current))
    {
      if procs[p].pid == 0 || procs[p].phase.Stopped? || procs[p].sleeping || procs[p].inQueue { return; }
      Enqueue(p);
      if old(procs)[p].loaded {
        QueuedMore(old(procs), list, old(queue), p);
        KeepKnown(old(procs), list, idle, nextPid, p, procs[p]);
        KeepAsleep(old(procs), list, sleepers, p, procs[p]);
      } else {
        assert procs[p].phase.Ready? && !procs[p].loaded;
      }
    }

    /** The process that was running goes to the end of the queue. */
    method Preempt()
      requires Valid()
      modifies this`procs, this`queue
      ensures Valid() && forall p :: p in procs && (p in list || p == idle) ==> !procs[p].phase.Running?
      ensures queue == QueueAfter(old(procs), old(queue), old(current), idle)
      ensures procs == ProcsAfter(old(procs), old(current), idle)
    {
      hide Distinct, Known, Asleep, Queued;
      KnownHas(procs, list, idle, nextPid, current);
      if procs[current].phase.Running? {
        ghost var x := Preempted(procs[current], current == idle);
        KeepKnown(procs, list, idle, nextPid, current, x);
        RunningAwake(procs, list, queue, sleepers, current);
        KeepAsleep(procs, list, sleepers, current, x);
        if current == idle {
          KeepQueued(procs, list, queue, idle, x);
          procs := procs[idle := procs[idle].(phase := Blocked)];
        } else {
          Enqueue(current);
          QueuedMore(old(procs), list, old(queue), current);
        }
      }
    }

    /** The loop that looks for the first entry of a process that can run. */
    method NextReady() returns (found: bool, next: nat)
      requires Valid()
      modifies this`procs, this`queue
      ensures found ==>
                && First(old(procs), list, old(queue), next, queue)
                && procs == old(procs)[next := old(procs)[next].(inQueue := false)]
      ensures !found ==>
                && procs == old(procs) && queue == [] && Queued(procs, list, queue)
                && forall p :: p in list ==> !procs[p].phase.Ready?
    {
      hide Distinct, OneRuns;
      ghost var i := 0;
      while queue != []
        invariant i <= |old(queue)| && queue == old(queue)[i..] && procs == old(procs) && Queued(procs, list, queue)
        invariant forall j :: 0 <= j < i ==> old(queue)[j] in procs && !procs[old(queue)[j]].phase.Ready?
        decreases |queue|
      {
        var q := queue[0];
        queue := queue[1..];
        assert q in list && q in procs;
        var was := procs[q];
        procs := procs[q := procs[q].(inQueue := false)];
        if was.phase.Ready? && CanRun(procs, list, idle, q) {
          Dispatched(old(procs), list, old(queue)[i..], q);
          return true, q;
        }
        assert !was.phase.Ready?;
        assert procs == old(procs);
        StaleGone(procs, list, old(queue)[i..]);
        i := i + 1;
      }
      return false, 0;
    }

    /** switch_proc: the first process in the queue that can run, and otherwise the idle
        process, becomes the running one. */
    method Switch()
      requires Valid()
      modifies this`procs, this`queue, this`current, this`switches
      ensures Valid() && switches == old(switches) + 1
      ensures current in procs && procs[current].phase.Running?
      ensures Switched(old(procs), old(queue), old(current), procs, queue, current, list, idle)
    {
      hide Known, Asleep, Queued, Distinct, Ahead;
      ghost var prev := current;
      KnownHas(procs, list, idle, nextPid, current);
      Preempt();
      ghost var procs1, queue1 := procs, queue;
      assert procs1 == ProcsAfter(old(procs), prev, idle) && queue1 == QueueAfter(old(procs), old(queue), prev, idle);
      var found, next := NextReady();
      if found {
        MovesUp(procs1, list, queue1, next, queue);
      } else {
        next := idle;
      }
      ghost var x := procs1[next].(inQueue := false, phase := Running);
      // The source tests once more that its choice can run, which it always can.
      KeepKnown(procs1, list, idle, nextPid, next, x);
      KeepAsleep(procs1, list, sleepers, next, x);
      procs := procs[next := procs[next].(phase := Running)];
      assert procs == procs1[next := x];
      if !found { KeepQueued(procs1, list, queue, idle, x); }
      current := next;
      switches := switches + 1;
    }

    /** A process runs, or the scheduler has not been started. */
    ghost predicate Active()
      reads this
    {
      && current in procs
      && (procs[current].phase.Running?
          || (current == kernel && procs[current].phase.Blocked? && !procs[current].loaded))
    }

    /** The scan of sleep_process for the first sleeper who wakes later. */
    method WakeUpPos(at: nat) returns (k: nat)
      requires forall i :: 0 <= i < |sleepers| ==> sleepers[i] in procs
      ensures k <= |sleepers| && (forall i :: 0 <= i < k ==> procs[sleepers[i]].wakeAt <= at)
      ensures k < |sleepers| ==> procs[sleepers[k]].wakeAt > at
    {
      k := 0;
      while k < |sleepers| && procs[sleepers[k]].wakeAt <= at
        invariant k <= |sleepers| && forall i :: 0 <= i < k ==> procs[sleepers[i]].wakeAt <= at
      {
        k := k + 1;
      }
    }

    /** sleep_process; only a running process that is not the idle one goes to sleep. */
    method Sleep(msec: nat, now: nat)
      requires Valid() && current in procs && (msec > 0 ==> procs[current].phase.Running? && current != idle)
      modifies this`procs, this`queue, this`sleepers, this`current, this`switches
      ensures Valid() && Active() && switches == old(switches) + 1
      ensures msec == 0 ==>
                && Switched(old(procs), old(queue), old(current), procs, queue, current, list, idle)
                && sleepers == old(sleepers)
      ensures msec > 0 ==>
          Switched(FellAsleep(old(procs), old(current), now + msec), old(queue), old(current), procs, queue, current,
                   list, idle)
      ensures msec > 0 ==> sleepers == InOrder(old(procs), old(sleepers), old(current), now + msec)
    {
      hide Known, Queued, Distinct, Asleep, Switched, InOrder;
      if msec == 0 {
        Switch();
        return;
      }
      var p, at := current, now + msec;
      KnownHas(procs, list, idle, nextPid, p);
      AsleepHas(procs, list, sleepers);
      var k := WakeUpPos(at);
      InOrderAt(procs, sleepers, p, at, k);
      FallAsleep(procs, list, sleepers, queue, p, at, k);
      KeepKnown(procs, list, idle, nextPid, p, Sleeper(procs[p], at));
      sleepers := sleepers[..k] + [p] + sleepers[k..];
      procs := procs[p := Sleeper(procs[p], at)];
      Switch();
    }

    /** remove_sleeping_process */
    method RemoveSleeper(p: nat, pid: nat) returns (removed: bool)
      requires Known(procs, list, idle, nextPid) && Asleep(procs, list, sleepers) && p in list && procs[p].pid == pid
      modifies this`sleepers
      ensures sleepers == Minus(old(sleepers), p) && (removed <==> p in old(sleepers))
    {
      hide Distinct, ByWakeUp;
      var kept: seq<nat> := [];
      removed := false;
      var i := 0;
      assert sleepers[..0] == [];
      while i < |sleepers|
        invariant sleepers == old(sleepers) && i <= |sleepers| && kept == Minus(sleepers[..i], p)
        invariant (removed <==> p in sleepers[..i])
      {
        var q := sleepers[i];
        MinusSnoc(sleepers[..i], q, p);
        assert sleepers[..i + 1] == sleepers[..i] + [q];
        if q == p || procs[q].pid == pid { removed := true; } else { kept := kept + [q]; }
        i := i + 1;
      }
      assert sleepers[..i] == sleepers;
      sleepers := kept;
    }

    /** stop_process. A process that stops itself gives way to another. */
    method Stop(pid: nat)
      requires Valid() && Active()
      modifies this`procs, this`queue, this`sleepers, this`current, this`switches
      ensures Valid() && Active() && switches <= old(switches) + 1
      ensures (forall p :: p in list && old(procs)[p].pid == pid ==> old(procs)[p].phase.Stopped?) ==>
                && procs == old(procs) && queue == old(queue) && sleepers == old(sleepers) && current == old(current)
                && switches == old(switches)
      ensures forall p :: p in list && old(procs)[p].pid == pid && !old(procs)[p].phase.Stopped? ==>
                && sleepers == Minus(old(sleepers), p)
                && if p == old(current)
                   then && Switched(old(procs)[p := Halted(old(procs)[p])], old(queue), p,
                                    procs, queue, current, list, idle)
                        && switches == old(switches) + 1
                   else && procs == old(procs)[p := Halted(old(procs)[p])] && queue == old(queue)
                        && current == old(current) && switches == old(switches)
    {
      hide Asleep, Queued, Distinct, ByWakeUp, Switched, Minus;
      var found, p := ByPid(pid);
      if !found || procs[p].phase.Stopped? { return; }
      assert forall q :: q in list && procs[q].pid == pid ==> q == p;
      ghost var x, procs0 := Halted(procs[p]), procs;
      StopOk(procs, list, queue, sleepers, p);
      KeepKnown(procs, list, idle, nextPid, p, x);
      var removed := RemoveSleeper(p, pid);
      procs := procs[p := Halted(procs[p])];
      if p != current { return; }
      Switch();
    }

    /** get_proc_by_pid */
    method ByPid(pid: nat) returns (found: bool, p: nat)
      requires forall q :: q in list ==> q in procs
      ensures found ==> p in list && procs[p].pid == pid
      ensures !found ==> forall q :: q in list ==> procs[q].pid != pid
    {
      var i := 0;
      while i < |list|
        invariant i <= |list| && forall j :: 0 <= j < i ==> procs[list[j]].pid != pid
      {
        if procs[list[i]].pid == pid { return true, list[i]; }
        i := i + 1;
      }
      return false, 0;
    }

    /** wake_process: a sleeping process becomes ready, any other stays as it is. */
    method Wake(p: nat)
      requires Valid() && p in list
      modifies this`procs, this`queue, this`sleepers
      ensures Valid()
      ensures if old(procs)[p].sleeping
              then procs == old(procs)[p := Woken(old(procs)[p])] && queue == old(queue) + [p]
                  && sleepers == Minus(old(sleepers), p)
              else procs == old(procs) && queue == old(queue) && sleepers == old(sleepers)
    {
      hide Known, Asleep, Queued, Distinct, ByWakeUp, Minus;
      KnownHas(procs, list, idle, nextPid, p);
      MinusNone(sleepers, p);
      WakeOk(procs, list, queue, sleepers, p);
      if procs[p].phase.Stopped? { return; }
      KeepKnown(procs, list, idle, nextPid, p, Woken(procs[p]));
      var removed := RemoveSleeper(p, procs[p].pid);
      if removed {
        procs := procs[p := procs[p].(sleeping := false, wakeAt := 0)];
        if procs[p].phase.Blocked? { Enqueue(p); }
        assert procs == old(procs)[p := Woken(old(procs)[p])];
      }
    }

    /** wake_processes: exactly the processes that are due become ready, in the order of
        their wake-up times. */
    method WakeAll(now: nat)
      requires Valid()
      modifies this`procs, this`queue, this`sleepers
      ensures Valid() && |sleepers| <= |old(sleepers)|
      ensures var n := |old(sleepers)| - |sleepers|;
                sleepers == old(sleepers)[n..] && queue == old(queue) + old(sleepers)[..n]
      ensures procs.Keys == old(procs).Keys
      ensures forall p :: p in old(procs) && p in list ==>
                procs[p] == if old(procs)[p].sleeping && old(procs)[p].wakeAt <= now then Woken(old(procs)[p])
                    else old(procs)[p]
      ensures forall p :: p in procs && p !in list ==> procs[p] == old(procs)[p]
    {
      hide Known, Asleep, Queued, Distinct, ByWakeUp, Minus, WokenAll;
      ghost var i := 0;
      WokenNone(procs);
      while sleepers != []
        invariant Valid() && i <= |old(sleepers)| && sleepers == old(sleepers)[i..]
        invariant queue == old(queue) + old(sleepers)[..i]
        invariant procs == WokenAll(old(procs), old(sleepers)[..i])
        invariant forall j :: 0 <= j < i ==>
                  old(sleepers)[j] in old(procs) && old(procs)[old(sleepers)[j]].wakeAt <= now
        decreases |sleepers|
      {
        var p := sleepers[0];
        Sleeping(procs, list, sleepers, p);
        StillAsleep(old(procs), old(sleepers), i, p);
        if procs[p].wakeAt > now { break; }
        WakeOk(procs, list, queue, sleepers, p);
        KeepKnown(procs, list, idle, nextPid, p, Woken(procs[p]));
        MinusHead(procs, list, sleepers);
        ghost var procs1 := procs;
        sleepers := sleepers[1..];
        procs := procs[p := procs[p].(sleeping := false, wakeAt := 0)];
        if !procs[p].phase.Stopped? { Enqueue(p); }
        assert procs == procs1[p := Woken(procs1[p])];
        OneMoreWoken(old(procs), old(sleepers), i);
        i := i + 1;
      }
      WokenAre(old(procs), list, old(sleepers), i, now);
    }

    /** init_process: the slot of a stopped process nobody holds on to, or a new one. */
    method Init(memory: nat) returns (p: nat)
      requires Valid() && Active() && memory !in list && memory != idle
      modifies this`procs, this`list, this`nextPid
      ensures Valid() && Active() && p in list && p != current && nextPid == old(nextPid) + 1
      ensures procs == old(procs)[p := Created(old(nextPid))]
      ensures procs[p] == Proc(old(nextPid), Blocked, false, false, 0, false, 0)
      ensures Chosen(old(procs), old(list), kernel, memory, p)
      ensures list == if p in old(list) then old(list) else old(list) + [p]
    {
      hide Known, Queued, Asleep;
      AllKnown(procs, list, idle, nextPid);
      var found;
      found, p := FindStopped();
      if found {
        ReuseOk(procs, list, queue, sleepers, idle, nextPid, p);
        procs := procs[p := Created(nextPid)];
      } else {
        p := memory;
        NewOk(procs, list, queue, sleepers, idle, nextPid, p);
        procs := procs[p := Created(nextPid)];
        list := list + [p];
      }
      nextPid := nextPid + 1;
    }

    /** The scan of init_process for a slot to use again. */
    method FindStopped() returns (found: bool, p: nat)
      requires forall q :: q in list ==> q in procs
      ensures found ==> FirstFree(procs, list, kernel, p)
      ensures !found ==> forall q :: q in list ==> !FreeSlot(procs, kernel, q)
    {
      var i := 0;
      while i < |list|
        invariant i <= |list|
        invariant forall j :: 0 <= j < i ==> !FreeSlot(procs, kernel, list[j])
      {
        p := list[i];
        if p != kernel && procs[p].phase.Stopped? && procs[p].refs == 0 { return true, p; }
        i := i + 1;
      }
      return false, 0;
    }

    /** The loaders: a new process gets its image, stack and entry point. */
    method Load(p: nat)
      requires Valid() && p in list && procs[p].phase.Blocked? && !procs[p].sleeping
      modifies this`procs
      ensures Valid() && procs == old(procs)[p := old(procs)[p].(loaded := true)]
    {
      hide Known, Asleep, Queued;
      KnownHas(procs, list, idle, nextPid, p);
      var x := procs[p].(loaded := true);
      KeepKnown(procs, list, idle, nextPid, p, x);
      KeepAsleep(procs, list, sleepers, p, x);
      LoadQueued(procs, list, queue, p);
      procs := procs[p := x];
    }

    ghost function Now(): Moment
      reads this
    {
      Moment(procs, list, queue, sleepers, current, nextPid, switches)
    }

    /** One step of the system, where its caller could make it. */
    method Do(step: Step)
      requires Valid() && Active()
      modifies this
      ensures Valid() && Active() && Did(old(Now()), step, Now(), kernel, idle)
    {
      hide Known, Asleep, Queued, OneRuns, Distinct, ByWakeUp, Switched, Minus, InOrder;
      AllKnown(procs, list, idle, nextPid);
      SleepersBlocked(procs, list, sleepers);
      BlockedUnqueued(procs, list, queue);
      match step {
        case Yield => Switch();
        case SleepFor(msec, now) =>
          if current != idle && procs[current].phase.Running? { Sleep(msec, now); }
        case StopPid(pid) =>
          ghost var m := Now();
          Stop(pid);
          assert (forall p :: p in m.list ==> !Named(m, p, pid)) ==> Now() == m;
        case WakeOne(p) =>
          if p in list { Wake(p); }
        case WakeDue(now) => WakeAll(now);
        case Create(memory) =>
          if memory !in list && memory != idle {
            var p := Init(memory);
            assert Spawned(old(Now()), memory, Now(), kernel, p);
          }
        case LoadInto(p) =>
          if p in list && p != kernel && procs[p].phase.Blocked? && !procs[p].sleeping { Load(p); }
        case Start(p) =>
          if p in list && procs[p].phase.Blocked? && procs[p].loaded { ReadyProcess(p); }
      }
    }
  }

  /** The scheduler between two steps. */
  datatype Moment = Moment(procs: Procs, list: seq<nat>, queue: seq<nat>, sleepers: seq<nat>, current: nat,
                           nextPid: nat, switches: nat)

  ghost predicate Orderly(m: Moment, idle: nat) {
    && Known(m.procs, m.list, idle, m.nextPid) && Queued(m.procs, m.list, m.queue)
    && Asleep(m.procs, m.list, m.sleepers)
    && OneRuns(m.procs, m.list, m.current, idle)
  }

  /** A process runs, or the scheduler has not been started. */
  ghost predicate Going(m: Moment, kernel: nat) {
    && m.current in m.procs
    && var c := m.procs[m.current]; c.phase.Running? || (m.current == kernel && c.phase.Blocked? && !c.loaded)
  }

  ghost predicate IsReady(m: Moment, w: nat) { w in m.list && w in m.procs && m.procs[w].phase.Ready? }

  /** w runs, or has been stopped. */
  ghost predicate Settled(m: Moment, w: nat) {
    w in m.procs && (m.procs[w].phase.Stopped? || (m.current == w && m.procs[w].phase.Running?))
  }

  /** w is still ready, and further up by at least as many places as there were switches. */
  ghost predicate MovedUp(m: Moment, m': Moment, w: nat) {
    IsReady(m', w) && Ahead(m'.queue, w) + (m'.switches - m.switches) <= Ahead(m.queue, w)
  }

  /** A switch away from m, whose processes and sleepers have become procs and sleepers. */
  ghost predicate SwitchedTo(m: Moment, procs: Procs, sleepers: seq<nat>, m': Moment, idle: nat) {
    && Switched(procs, m.queue, m.current, m'.procs, m'.queue, m'.current, m.list, idle)
    && m'.list == m.list && m'.sleepers == sleepers && m'.nextPid == m.nextPid && m'.switches == m.switches + 1
  }

  ghost predicate Spawned(m: Moment, memory: nat, m': Moment, kernel: nat, p: nat) {
    && m' == m.(procs := m.procs[p := Created(m.nextPid)], list := m'.list, nextPid := m.nextPid + 1)
    && p != m.current && Chosen(m.procs, m.list, kernel, memory, p)
    && m'.list == if p in m.list then m.list else m.list + [p]
  }

  /** A process other than the kernel's has stopped, and nobody refers to it any more. */
  ghost predicate FreeSlot(procs: Procs, kernel: nat, p: nat) {
    p in procs && p != kernel && procs[p].phase.Stopped? && procs[p].refs == 0
  }

  /** p is the first such slot of the list. */
  ghost predicate FirstFree(procs: Procs, list: seq<nat>, kernel: nat, p: nat) {
    exists i :: 0 <= i < |list| && list[i] == p && FreeSlot(procs, kernel, p)
                && forall j :: 0 <= j < i ==> !FreeSlot(procs, kernel, list[j])
  }

  /** The slot of a new process: the first one nobody refers to, and new memory exactly
      when there is none. */
  ghost predicate Chosen(procs: Procs, list: seq<nat>, kernel: nat, memory: nat, p: nat) {
    if p in list then FirstFree(procs, list, kernel, p)
    else p == memory && forall q :: q in list ==> !FreeSlot(procs, kernel, q)
  }

  /** What each step makes of m. */
  ghost predicate Did(m: Moment, step: Step, m': Moment, kernel: nat, idle: nat) {
    match step
    case Yield => SwitchedTo(m, m.procs, m.sleepers, m', idle)
    case SleepFor(msec, now) =>
      var c := m.current;
      if c == idle || c !in m.procs || !m.procs[c].phase.Running? then m' == m
      else if msec == 0 then SwitchedTo(m, m.procs, m.sleepers, m', idle)
      else SwitchedTo(m, FellAsleep(m.procs, c, now + msec), InOrder(m.procs, m.sleepers, c, now + msec), m', idle)
    case StopPid(pid) =>
      && (m' == m || exists p :: Named(m, p, pid))
      && forall p :: Named(m, p, pid) ==>
           var procs, sleepers := m.procs[p := Halted(m.procs[p])], Minus(m.sleepers, p);
           if p == m.current then SwitchedTo(m, procs, sleepers, m', idle)
           else m' == m.(procs := procs, sleepers := sleepers)
    case WakeOne(p) =>
      if p in m.list && p in m.procs && m.procs[p].sleeping
      then m' == m.(procs := m.procs[p := Woken(m.procs[p])], queue := m.queue + [p], sleepers := Minus(m.sleepers, p))
      else m' == m
    case WakeDue(now) => AllWoken(m, now, m')
    case Create(memory) =>
      if memory in m.list || memory == idle then m' == m else exists p :: Spawned(m, memory, m', kernel, p)
    case LoadInto(p) =>
      if p in m.list && p != kernel && p in m.procs && m.procs[p].phase.Blocked? && !m.procs[p].sleeping
      then m' == m.(procs := m.procs[p := m.procs[p].(loaded := true)])
      else m' == m
    case Start(p) =>
      if p in m.list && p in m.procs && m.procs[p].phase.Blocked? && m.procs[p].loaded && !m.procs[p].sleeping
      then m' == m.(procs := m.procs[p := Queueing(m.procs[p])], queue := m.queue + [p])
      else m' == m
  }

  /** p goes by this id and has not stopped. */
  ghost predicate Named(m: Moment, p: nat, pid: nat) {
    p in m.list && p in m.procs && m.procs[p].pid == pid && !m.procs[p].phase.Stopped?
  }

  ghost predicate AllWoken(m: Moment, now: nat, m': Moment) {
    && m' == m.(procs := m'.procs, queue := m'.queue, sleepers := m'.sleepers) && |m'.sleepers| <= |m.sleepers|
    && (var n := |m.sleepers| - |m'.sleepers|; m'.sleepers == m.sleepers[n..] && m'.queue == m.queue + m.sleepers[..n])
    && m'.procs.Keys == m.procs.Keys
    && (forall p :: p in m.procs && p in m.list ==>
          m'.procs[p] == if m.procs[p].sleeping && m.procs[p].wakeAt <= now then Woken(m.procs[p]) else m.procs[p])
    && (forall p :: p in m.procs && p !in m.list ==> m'.procs[p] == m.procs[p])
  }

  /** The moments before, between and after the steps of a run. */
  ghost predicate Traced(trace: seq<Moment>, steps: seq<Step>, kernel: nat, idle: nat) {
    && |trace| == |steps| + 1
    && (forall i :: 0 <= i < |trace| ==> Orderly(trace[i], idle) && Going(trace[i], kernel))
    && (forall i :: 0 <= i < |steps| ==> Did(trace[i], steps[i], trace[i + 1], kernel, idle))
  }

  /** Any run of steps, with every moment of it: each is in order, one process runs, and
      each follows from the one before by its step. */
  method Run(s: Sched, steps: seq<Step>) returns (ghost trace: seq<Moment>)
    requires s.Valid() && s.Active()
    modifies s
    ensures s.Valid() && s.Active()
    ensures Traced(trace, steps, s.kernel, s.idle) && trace[0] == old(s.Now()) && trace[|steps|] == s.Now()
  {
    hide Known, Asleep, Queued, OneRuns, Did;
    trace := [s.Now()];
    var i := 0;
    while i < |steps|
      invariant i <= |steps| && s.Valid() && s.Active()
      invariant Traced(trace, steps[..i], s.kernel, s.idle) && trace[0] == old(s.Now()) && trace[i] == s.Now()
    {
      s.Do(steps[i]);
      Extended(trace, steps[..i], steps[i], s.Now(), s.kernel, s.idle);
      assert steps[..i] + [steps[i]] == steps[..i + 1];
      trace := trace + [s.Now()];
      i := i + 1;
    }
    assert steps[..i] == steps;
  }

  lemma Extended(trace: seq<Moment>, steps: seq<Step>, step: Step, m: Moment, kernel: nat, idle: nat)
    requires Traced(trace, steps, kernel, idle) && Orderly(m, idle) && Going(m, kernel)
    requires Did(trace[|steps|], step, m, kernel, idle)
    ensures Traced(trace + [m], steps + [step], kernel, idle)
  {
    hide Did, Orderly, Going;
  }

  /** In every run, a process that is ready behind k queue entries runs or is stopped
      before there have been more than k switches. */
  lemma BoundedWait(trace: seq<Moment>, steps: seq<Step>, kernel: nat, idle: nat, i: nat, j: nat, w: nat)
    requires Traced(trace, steps, kernel, idle) && i <= j < |trace| && IsReady(trace[i], w)
    requires trace[j].switches - trace[i].switches > Ahead(trace[i].queue, w)
    ensures exists k :: i < k <= j && Settled(trace[k], w)
  {
    hide Traced, Ahead, Settled;
    if forall k :: i < k <= j ==> !Settled(trace[k], w) {
      Waiting(trace, steps, kernel, idle, i, j, w);
    }
  }

  /** Until then it stays ready and moves up with every switch. */
  lemma {:induction false} Waiting(trace: seq<Moment>, steps: seq<Step>, kernel: nat, idle: nat, i: nat, j: nat, w: nat)
    requires Traced(trace, steps, kernel, idle) && i <= j < |trace| && IsReady(trace[i], w)
    requires forall k :: i < k <= j ==> !Settled(trace[k], w)
    ensures MovedUp(trace[i], trace[j], w)
    decreases j - i
  {
    hide Orderly, Going, Did, Settled, IsReady, Ahead;
    if i < j {
      Waiting(trace, steps, kernel, idle, i, j - 1, w);
      Progress(trace[j - 1], steps[j - 1], trace[j], kernel, idle, w);
    }
  }

  datatype Step =
    | Yield
    | SleepFor(msec: nat, now: nat)
    | StopPid(pid: nat)
    | WakeOne(p: nat)
    | WakeDue(now: nat)
    | Create(memory: nat)
    | LoadInto(p: nat)
    | Start(p: nat)

  /** A step leaves a ready process running, stopped, or ready and further up by at
      least one place for a switch. */
  lemma Progress(m: Moment, step: Step, m': Moment, kernel: nat, idle: nat, w: nat)
    requires Orderly(m, idle) && Going(m, kernel) && Did(m, step, m', kernel, idle) && IsReady(m, w)
    ensures Settled(m', w) || MovedUp(m, m', w)
  {
    hide Known, Asleep, Distinct, ByWakeUp, Switched, Minus, InOrder, Ahead, Spawned, AllWoken, Named, MovedUp;
    AllKnown(m.procs, m.list, idle, m.nextPid);
    SleepersBlocked(m.procs, m.list, m.sleepers);
    assert w in m.queue && w != m.current;
    match step
    case Yield => SwitchWatch(m, m.procs, m.sleepers, m', idle, w);
    case SleepFor(msec, now) =>
      var c := m.current;
      if c == idle || !m.procs[c].phase.Running? {
        StillReady(m, m', w, []);
      } else if msec == 0 {
        SwitchWatch(m, m.procs, m.sleepers, m', idle, w);
      } else {
        SwitchWatch(m, FellAsleep(m.procs, c, now + msec), InOrder(m.procs, m.sleepers, c, now + msec), m', idle, w);
      }
    case StopPid(pid) => StopWatch(m, pid, m', kernel, idle, w);
    case WakeOne(p) => StillReady(m, m', w, m'.queue[|m.queue|..]);
    case WakeDue(now) => WakeWatch(m, now, m', w);
    case Create(memory) => CreateWatch(m, memory, m', kernel, idle, w);
    case LoadInto(p) => StillReady(m, m', w, []);
    case Start(p) => StillReady(m, m', w, m'.queue[|m.queue|..]);
  }

  lemma StillReady(m: Moment, m': Moment, w: nat, more: seq<nat>)
    requires IsReady(m', w) && w in m.queue && m'.queue == m.queue + more && m'.switches == m.switches
    ensures MovedUp(m, m', w)
  {
    hide Ahead;
    AheadAppend(m.queue, more, w);
  }

  lemma StopWatch(m: Moment, pid: nat, m': Moment, kernel: nat, idle: nat, w: nat)
    requires Did(m, StopPid(pid), m', kernel, idle) && IsReady(m, w) && w in m.queue && w != m.current && w != idle
    ensures Settled(m', w) || MovedUp(m, m', w)
  {
    hide Switched, Minus, Ahead, MovedUp;
    if p :| Named(m, p, pid) {
      if p == m.current {
        SwitchWatch(m, m.procs[p := Halted(m.procs[p])], Minus(m.sleepers, p), m', idle, w);
      } else if p != w {
        StillReady(m, m', w, []);
      }
    } else {
      StillReady(m, m', w, []);
    }
  }

  lemma WakeWatch(m: Moment, now: nat, m': Moment, w: nat)
    requires AllWoken(m, now, m') && IsReady(m, w) && w in m.queue
    ensures MovedUp(m, m', w)
  {
    hide Ahead, MovedUp;
    StillReady(m, m', w, m.sleepers[..|m.sleepers| - |m'.sleepers|]);
  }

  lemma CreateWatch(m: Moment, memory: nat, m': Moment, kernel: nat, idle: nat, w: nat)
    requires Did(m, Create(memory), m', kernel, idle) && IsReady(m, w) && w in m.queue
    ensures MovedUp(m, m', w)
  {
    hide Ahead, MovedUp, Switched;
    StillReady(m, m', w, []);
  }

  lemma SwitchWatch(m: Moment, procs: Procs, sleepers: seq<nat>, m': Moment, idle: nat, w: nat)
    requires SwitchedTo(m, procs, sleepers, m', idle) && w in m.list && w in procs && procs[w].phase.Ready?
    requires w in m.queue
    requires w != idle
    ensures Settled(m', w) || MovedUp(m, m', w)
  {
    hide Ahead;
    var q := QueueAfter(procs, m.queue, m.current, idle);
    AheadAppend(m.queue, q[|m.queue|..], w);
    assert q == m.queue + q[|m.queue|..];
  }

  lemma SleepersBlocked(procs: Procs, list: seq<nat>, sleepers: seq<nat>)
    requires Asleep(procs, list, sleepers)
    ensures forall p :: p in list && p in procs && procs[p].sleeping ==> procs[p].phase.Blocked? && procs[p].loaded
  {
  }

  lemma BlockedUnqueued(procs: Procs, list: seq<nat>, queue: seq<nat>)
    requires Queued(procs, list, queue)
    ensures forall p :: p in list && p in procs && procs[p].phase.Blocked? ==> !procs[p].inQueue
  {
  }

  lemma AllKnown(procs: Procs, list: seq<nat>, idle: nat, nextPid: nat)
    requires Known(procs, list, idle, nextPid)
    ensures idle !in list && idle in procs && forall p :: p in list ==> p in procs
  {
  }

  function Created(pid: nat): Proc { Proc(pid, Blocked, false, false, 0, false, 0) }

  lemma LoadQueued(procs: Procs, list: seq<nat>, queue: seq<nat>, p: nat)
    requires Queued(procs, list, queue) && p in procs
    ensures Queued(procs[p := procs[p].(loaded := true)], list, queue)
  {
  }

  lemma ReuseOk(procs: Procs, list: seq<nat>, queue: seq<nat>, sleepers: seq<nat>, idle: nat, nextPid: nat, p: nat)
    requires Known(procs, list, idle, nextPid) && Queued(procs, list, queue) && Asleep(procs, list, sleepers)
    requires p in list && procs[p].phase.Stopped?
    ensures var procs' := procs[p := Created(nextPid)];
            Known(procs', list, idle, nextPid + 1) && Queued(procs', list, queue) && Asleep(procs', list, sleepers)
  {
    hide Distinct;
    var procs' := procs[p := Created(nextPid)];
    assert p !in sleepers;
    KeepQueued(procs, list, queue, p, Created(nextPid));
    forall i | 0 <= i < |sleepers| ensures procs'[sleepers[i]] == procs[sleepers[i]] { }
  }

  lemma NewOk(procs: Procs, list: seq<nat>, queue: seq<nat>, sleepers: seq<nat>, idle: nat, nextPid: nat, p: nat)
    requires Known(procs, list, idle, nextPid) && Queued(procs, list, queue) && Asleep(procs, list, sleepers)
    requires p !in list && p != idle
    ensures var procs', list' := procs[p := Created(nextPid)], list + [p];
            Known(procs', list', idle, nextPid + 1) && Queued(procs', list', queue) && Asleep(procs', list', sleepers)
  {
    var procs', list' := procs[p := Created(nextPid)], list + [p];
    assert p !in sleepers;
    forall i | 0 <= i < |sleepers| ensures sleepers[i] in list' && procs'[sleepers[i]] == procs[sleepers[i]] { }
    forall i | 0 <= i < |queue| ensures queue[i] in list' { assert queue[i] in list; }
    forall q ensures q in list' <==> q in list || q == p { }
  }

  /** Everyone of s woken. */
  ghost function WokenAll(procs: Procs, s: seq<nat>): Procs {
    map p | p in procs :: if p in s then Woken(procs[p]) else procs[p]
  }

  lemma WokenNone(procs: Procs)
    ensures forall s: seq<nat> :: WokenAll(procs, s[..0]) == procs
  {
  }

  lemma Sleeping(procs: Procs, list: seq<nat>, sleepers: seq<nat>, p: nat)
    requires Asleep(procs, list, sleepers) && p in sleepers
    ensures p in procs && p in list && procs[p].sleeping && procs[p].phase.Blocked?
  {
  }

  lemma StillAsleep(procs: Procs, sleepers: seq<nat>, i: nat, p: nat)
    requires i < |sleepers| && sleepers[i] == p && p in WokenAll(procs, sleepers[..i])
    requires WokenAll(procs, sleepers[..i])[p].sleeping
    ensures p in procs && p !in sleepers[..i] && WokenAll(procs, sleepers[..i])[p] == procs[p]
  {
  }

  lemma MinusHead(procs: Procs, list: seq<nat>, sleepers: seq<nat>)
    requires Asleep(procs, list, sleepers) && sleepers != []
    ensures Minus(sleepers, sleepers[0]) == sleepers[1..]
  {
    MinusNone(sleepers[1..], sleepers[0]);
  }

  lemma OneMoreWoken(procs: Procs, sleepers: seq<nat>, i: nat)
    requires i < |sleepers| && sleepers[i] in procs && sleepers[i] !in sleepers[..i]
    ensures var w, p := WokenAll(procs, sleepers[..i]), sleepers[i];
            p in w && WokenAll(procs, sleepers[..i + 1]) == w[p := Woken(w[p])]
  {
    assert sleepers[..i + 1] == sleepers[..i] + [sleepers[i]];
  }

  lemma WokenAre(procs: Procs, list: seq<nat>, sleepers: seq<nat>, i: nat, now: nat)
    requires Asleep(procs, list, sleepers) && i <= |sleepers|
    requires forall j :: 0 <= j < i ==> sleepers[j] in procs && procs[sleepers[j]].wakeAt <= now
    requires i < |sleepers| ==> procs[sleepers[i]].wakeAt > now
    ensures WokenAll(procs, sleepers[..i]).Keys == procs.Keys
    ensures forall p :: p in procs && p in list ==>
              WokenAll(procs, sleepers[..i])[p] == if procs[p].sleeping && procs[p].wakeAt <= now then Woken(procs[p])
                  else procs[p]
    ensures forall p :: p in procs && p !in list ==> WokenAll(procs, sleepers[..i])[p] == procs[p]
  {
    hide Distinct;
    forall p | p in procs && p in list ensures p in sleepers[..i] <==> procs[p].sleeping && procs[p].wakeAt <= now {
      if p in sleepers {
        var j :| 0 <= j < |sleepers| && sleepers[j] == p;
        assert j < i ==> p == sleepers[..i][j];
        assert i < j ==> procs[sleepers[i]].wakeAt <= procs[sleepers[j]].wakeAt;
      }
    }
    forall p | p in sleepers[..i] ensures p in list { }
  }

  /** What ready_process asks of a process with an id. */
  predicate Startable(p: Proc) { !p.phase.Stopped? && !p.sleeping && !p.inQueue }

  function Queueing(p: Proc): Proc { p.(inQueue := true, phase := Ready) }

  function Halted(p: Proc): Proc { p.(phase := Stopped, inQueue := false, sleeping := false, wakeAt := 0) }

  function Woken(p: Proc): Proc { p.(phase := Ready, inQueue := true, sleeping := false, wakeAt := 0) }

  /** s without p. */
  function Minus(s: seq<nat>, p: nat): seq<nat> {
    if s == [] then [] else if s[0] == p then Minus(s[1..], p) else [s[0]] + Minus(s[1..], p)
  }

  lemma {:induction false} MinusSnoc(s: seq<nat>, q: nat, p: nat)
    ensures Minus(s + [q], p) == Minus(s, p) + if q == p then [] else [q]
  {
    if s != [] {
      MinusSnoc(s[1..], q, p);
      assert (s + [q])[1..] == s[1..] + [q];
    }
  }

  lemma {:induction false} MinusIn(s: seq<nat>, p: nat)
    ensures forall q :: q in Minus(s, p) <==> q in s && q != p
  {
    if s != [] {
      MinusIn(s[1..], p);
      assert s == [s[0]] + s[1..];
    }
  }

  lemma {:induction false} MinusNone(s: seq<nat>, p: nat)
    ensures p !in s ==> Minus(s, p) == s
  {
    if s != [] {
      MinusNone(s[1..], p);
      assert s == [s[0]] + s[1..];
    }
  }

  lemma {:induction false} MinusKeeps(procs: Procs, s: seq<nat>, p: nat)
    requires Distinct(s) && (forall i :: 0 <= i < |s| ==> s[i] in procs) && ByWakeUp(procs, s)
    ensures Distinct(Minus(s, p)) && (forall i :: 0 <= i < |Minus(s, p)| ==> Minus(s, p)[i] in procs)
    ensures ByWakeUp(procs, Minus(s, p))
  {
    if s != [] {
      var r := s[1..];
      forall q | q in r ensures procs[s[0]].wakeAt <= procs[q].wakeAt && q != s[0] {
        var i :| 0 <= i < |r| && r[i] == q;
        assert r[i] == s[i + 1];
      }
      MinusKeeps(procs, r, p);
      MinusIn(r, p);
      var m := Minus(r, p);
      forall i | 0 <= i < |m| ensures m[i] in r { assert m[i] in m; }
    }
  }

  /** A process that is not asleep any more leaves the sleep list. */
  lemma AwakeOk(procs: Procs, list: seq<nat>, sleepers: seq<nat>, p: nat, x: Proc)
    requires Asleep(procs, list, sleepers) && p in procs && !x.sleeping && x.wakeAt == 0
    ensures Asleep(procs[p := x], list, Minus(sleepers, p))
  {
    hide Minus, Distinct;
    MinusKeeps(procs, sleepers, p);
    MinusIn(sleepers, p);
    var m := Minus(sleepers, p);
    forall i | 0 <= i < |m| ensures m[i] in sleepers && m[i] != p { assert m[i] in m; }
  }

  lemma StopOk(procs: Procs, list: seq<nat>, queue: seq<nat>, sleepers: seq<nat>, p: nat)
    requires Asleep(procs, list, sleepers) && Queued(procs, list, queue) && p in procs
    ensures Asleep(procs[p := Halted(procs[p])], list, Minus(sleepers, p))
    ensures Queued(procs[p := Halted(procs[p])], list, queue)
  {
    hide Asleep, Minus;
    AwakeOk(procs, list, sleepers, p, Halted(procs[p]));
  }

  lemma WakeOk(procs: Procs, list: seq<nat>, queue: seq<nat>, sleepers: seq<nat>, p: nat)
    requires Asleep(procs, list, sleepers) && Queued(procs, list, queue) && p in procs && p in list
    ensures (procs[p].sleeping <==> p in sleepers)
    ensures (procs[p].sleeping ==> procs[p].phase.Blocked? && !procs[p].inQueue)
    ensures procs[p].sleeping ==> Asleep(procs[p := Woken(procs[p])], list, Minus(sleepers, p))
    ensures procs[p].sleeping ==> Queued(procs[p := Woken(procs[p])], list, queue + [p])
  {
    hide Minus, Distinct, ByWakeUp;
    if procs[p].sleeping {
      AwakeOk(procs, list, sleepers, p, Woken(procs[p]));
      forall q | q in list && q in procs && q != p && procs[q].phase.Ready?
        ensures q in queue + [p]
      {
        assert q in queue;
      }
    }
  }

  function Sleeper(p: Proc, at: nat): Proc { p.(phase := Blocked, sleeping := true, wakeAt := at) }

  ghost function FellAsleep(procs: Procs, p: nat, at: nat): Procs
    requires p in procs
  {
    procs[p := Sleeper(procs[p], at)]
  }

  /** The sleep list with p after everyone who wakes no later. */
  function InOrder(procs: Procs, s: seq<nat>, p: nat, at: nat): seq<nat> {
    if s == [] || s[0] !in procs || procs[s[0]].wakeAt > at then [p] + s else [s[0]] + InOrder(procs, s[1..], p, at)
  }

  lemma {:induction false} InOrderAt(procs: Procs, s: seq<nat>, p: nat, at: nat, k: nat)
    requires k <= |s| && (forall i :: 0 <= i < |s| ==> s[i] in procs)
    requires (forall i :: 0 <= i < k ==> procs[s[i]].wakeAt <= at)
    requires k < |s| ==> procs[s[k]].wakeAt > at
    ensures InOrder(procs, s, p, at) == s[..k] + [p] + s[k..]
  {
    if k > 0 {
      InOrderAt(procs, s[1..], p, at, k - 1);
      assert s[..k] == [s[0]] + s[1..][..k - 1] && s[k..] == s[1..][k - 1..];
    }
  }

  lemma AsleepHas(procs: Procs, list: seq<nat>, sleepers: seq<nat>)
    requires Asleep(procs, list, sleepers)
    ensures forall i :: 0 <= i < |sleepers| ==> sleepers[i] in list && sleepers[i] in procs
  {
  }

  lemma InsertDistinct(s: seq<nat>, p: nat, k: nat)
    requires Distinct(s) && p !in s && k <= |s|
    ensures Distinct(s[..k] + [p] + s[k..]) && forall q :: q in s[..k] + [p] + s[k..] <==> q in s || q == p
  {
    var t := s[..k] + [p] + s[k..];
    assert s == s[..k] + s[k..];
    forall i | 0 <= i < |t| ensures t[i] == if i < k then s[i] else if i == k then p else s[i - 1] { }
  }

  lemma InsertByWakeUp(procs: Procs, s: seq<nat>, p: nat, at: nat, k: nat)
    requires k <= |s| && p in procs && p !in s && (forall i :: 0 <= i < |s| ==> s[i] in procs) && ByWakeUp(procs, s)
    requires forall i :: 0 <= i < k ==> procs[s[i]].wakeAt <= at
    requires k < |s| ==> procs[s[k]].wakeAt > at
    ensures var t, procs' := s[..k] + [p] + s[k..], procs[p := Sleeper(procs[p], at)];
            (forall i :: 0 <= i < |t| ==> t[i] in procs') && ByWakeUp(procs', t)
  {
    var t, procs' := s[..k] + [p] + s[k..], procs[p := Sleeper(procs[p], at)];
    forall i | 0 <= i < |t| ensures t[i] in procs' && t[i] == if i < k then s[i] else if i == k then p else s[i - 1] { }
    forall i | 0 <= i < |s| ensures procs'[s[i]] == procs[s[i]] { }
    forall i, j | 0 <= i < j < |t| ensures procs'[t[i]].wakeAt <= procs'[t[j]].wakeAt {
      if j > k && k < |s| && i <= k { assert procs[s[k]].wakeAt <= procs[s[j - 1]].wakeAt || k == j - 1; }
    }
  }

  lemma FallAsleep(procs: Procs, list: seq<nat>, sleepers: seq<nat>, queue: seq<nat>, p: nat, at: nat, k: nat)
    requires Asleep(procs, list, sleepers) && Queued(procs, list, queue) && p in procs && p in list
    requires procs[p].phase.Running? && procs[p].loaded && k <= |sleepers|
    requires forall i :: 0 <= i < k ==> procs[sleepers[i]].wakeAt <= at
    requires k < |sleepers| ==> procs[sleepers[k]].wakeAt > at
    ensures var procs' := procs[p := Sleeper(procs[p], at)];
            Asleep(procs', list, sleepers[..k] + [p] + sleepers[k..]) && Queued(procs', list, queue)
  {
    hide Queued, Distinct, ByWakeUp;
    RunningAwake(procs, list, queue, sleepers, p);
    var procs', s' := procs[p := Sleeper(procs[p], at)], sleepers[..k] + [p] + sleepers[k..];
    InsertDistinct(sleepers, p, k);
    InsertByWakeUp(procs, sleepers, p, at, k);
    forall i | 0 <= i < |s'| ensures s'[i] in list && s'[i] in procs' { assert s'[i] in s'; }
    KeepQueued(procs, list, queue, p, Sleeper(procs[p], at));
  }

  /** next is the first of the queue that is ready, and rest what comes after it. */
  ghost predicate First(procs: Procs, list: seq<nat>, queue: seq<nat>, next: nat, rest: seq<nat>) {
    && next in list && next in procs && procs[next].phase.Ready? && procs[next].loaded && !procs[next].sleeping
    && Queued(procs[next := procs[next].(inQueue := false, phase := Running)], list, rest)
    && exists i :: 0 <= i < |queue| && queue[i] == next && rest == queue[i + 1..]
                   && forall j :: 0 <= j < i ==> queue[j] in procs && !procs[queue[j]].phase.Ready?
  }

  lemma MovesUp(procs: Procs, list: seq<nat>, queue: seq<nat>, next: nat, rest: seq<nat>)
    requires First(procs, list, queue, next, rest) && Queued(procs, list, queue)
    ensures forall p :: p in list && p in procs && procs[p].phase.Ready? && p != next ==>
              p in rest && p in queue && Ahead(rest, p) < Ahead(queue, p)
  {
    hide Ahead;
    var i :| 0 <= i < |queue| && queue[i] == next && rest == queue[i + 1..]
             && forall j :: 0 <= j < i ==> queue[j] in procs && !procs[queue[j]].phase.Ready?;
    forall p | p in list && p in procs && procs[p].phase.Ready? && p != next
      ensures p in rest && p in queue && Ahead(rest, p) < Ahead(queue, p)
    {
      assert p in queue;
      AheadPast(queue, i, p);
    }
  }

  lemma AheadPast(queue: seq<nat>, i: nat, p: nat)
    requires i < |queue| && p in queue && forall j :: 0 <= j <= i ==> queue[j] != p
    ensures p in queue[i + 1..] && Ahead(queue[i + 1..], p) < Ahead(queue, p)
  {
    assert Ahead(queue, p) > i;
    AheadDrop(queue, i + 1, p);
  }

  lemma RunningAwake(procs: Procs, list: seq<nat>, queue: seq<nat>, sleepers: seq<nat>, p: nat)
    requires Queued(procs, list, queue) && Asleep(procs, list, sleepers) && p in procs && procs[p].phase.Running?
    ensures p in list ==> !procs[p].sleeping && !procs[p].inQueue
  {
  }

  lemma KnownHas(procs: Procs, list: seq<nat>, idle: nat, nextPid: nat, p: nat)
    requires Known(procs, list, idle, nextPid) && (p in list || p == idle)
    ensures p in procs && idle !in list
  {
  }

  /** A process that keeps its id, its sleep or its place in the queue keeps the lists in order. */
  lemma KeepKnown(procs: Procs, list: seq<nat>, idle: nat, nextPid: nat, p: nat, x: Proc)
    requires Known(procs, list, idle, nextPid) && p in procs && x.pid == procs[p].pid
    ensures Known(procs[p := x], list, idle, nextPid)
  {
    hide Distinct;
  }

  lemma KeepAsleep(procs: Procs, list: seq<nat>, sleepers: seq<nat>, p: nat, x: Proc)
    requires Asleep(procs, list, sleepers) && p in procs && x.sleeping == procs[p].sleeping
    requires x.wakeAt == procs[p].wakeAt
    requires p in list && x.sleeping ==> x.phase.Blocked? && x.loaded
    ensures Asleep(procs[p := x], list, sleepers)
  {
    hide Distinct;
  }

  lemma KeepQueued(procs: Procs, list: seq<nat>, queue: seq<nat>, p: nat, x: Proc)
    requires Queued(procs, list, queue) && p in procs && !x.inQueue && !x.phase.Ready?
    requires p !in list || !procs[p].phase.Ready?
    ensures Queued(procs[p := x], list, queue)
  {
  }

  function Preempted(p: Proc, isIdle: bool): Proc {
    if isIdle then p.(phase := Blocked) else p.(inQueue := true, phase := Ready)
  }

  lemma StaleGone(procs: Procs, list: seq<nat>, queue: seq<nat>)
    requires Queued(procs, list, queue) && queue != [] && queue[0] in procs && !procs[queue[0]].phase.Ready?
    ensures Queued(procs, list, queue[1..])
  {
    assert queue == [queue[0]] + queue[1..];
  }

  lemma Dispatched(procs: Procs, list: seq<nat>, queue: seq<nat>, q: nat)
    requires Queued(procs, list, queue) && queue != [] && queue[0] == q && q in procs && procs[q].phase.Ready?
    ensures Queued(procs[q := procs[q].(inQueue := false, phase := Running)], list, queue[1..])
  {
    assert queue == [q] + queue[1..];
  }

  /** The state with the previous process put back, as the search finds it. */
  ghost function QueueAfter(procs: Procs, queue: seq<nat>, current: nat, idle: nat): seq<nat>
    requires current in procs
  {
    queue + if procs[current].phase.Running? && current != idle then [current] else []
  }

  ghost function ProcsAfter(procs: Procs, current: nat, idle: nat): Procs
    requires current in procs
  {
    if procs[current].phase.Running? then procs[current := Preempted(procs[current], current == idle)] else procs
  }

  /** What a switch does: of the ready processes, counting the one that was running, the
      first in the queue is dispatched; the others move up; nobody else is touched. */
  ghost predicate Switched(procs0: Procs, queue0: seq<nat>, prev: nat, procs: Procs, queue: seq<nat>, current: nat,
                           list: seq<nat>, idle: nat) {
    && prev in procs0
    && var q, ps := QueueAfter(procs0, queue0, prev, idle), ProcsAfter(procs0, prev, idle);
       && current in ps && procs == ps[current := ps[current].(inQueue := false, phase := Running)]
       && (current == idle <==> forall p :: p in list && p in ps ==> !ps[p].phase.Ready?)
       && (current != idle ==> ps[current].phase.Ready? && First(ps, list, q, current, queue))
       && (current == idle ==> queue == [])
       && forall p :: p in list && p in ps && ps[p].phase.Ready? && p != current ==>
            p in queue && p in q && Ahead(queue, p) < Ahead(q, p)
  }

  lemma QueuedMore(procs: Procs, list: seq<nat>, queue: seq<nat>, p: nat)
    requires Queued(procs, list, queue) && p in list && p in procs && procs[p].loaded
    ensures Queued(procs[p := Queueing(procs[p])], list, queue + [p])
  {
    var procs' := procs[p := Queueing(procs[p])];
    forall q | q in list && q in procs' && procs'[q].phase.Ready? ensures q in queue + [p] && procs'[q].loaded {
      assert q == p || q in queue;
    }
  }
}
