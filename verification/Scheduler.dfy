/** The scheduler over linked thread objects, proved to do what `SchedulerSpec` says. */
module Scheduler {
  import opened Bits
  import opened SchedulerSpec

  class Thread {
    var state: Registers
    var joined: bool
    var asleep: bool
    var done: bool
    var joinTarget: Thread?
    var sleepTimeout: nat
    var next: Thread?
    const pid: nat
    const dpl: nat
    const name: string
    const entry: nat
    /** The word on top of its stack, where a return from `entry` goes. */
    const returnAddress: nat
    const dir: nat
    const heap: nat

    /** `stack`, `dir` and `heap` are what the allocators have returned, `kill` is the address of `_kill`. */
    constructor (pid: nat, entry: nat, name: string, user: bool, kill: nat, stack: nat, dir: nat, heap: nat)
      ensures state == Initial(entry, user, stack) && returnAddress == kill
      ensures StartsWith(state, entry, dpl, stack)
      ensures !joined && !asleep && !done && next == null && joinTarget == null
      ensures this.pid == pid && this.entry == entry && this.name == name && dpl == if user then 3 else 0
      ensures this.dir == dir && this.heap == heap
    {
      this.pid, this.entry, this.name := pid, entry, name;
      dpl := if user then 3 else 0;
      InitialExact(entry, user, stack);
      state := Initial(entry, user, stack);
      returnAddress := kill;
      joined, asleep, done := false, false, false;
      joinTarget, next := null, null;
      this.dir, this.heap := dir, heap;
    }
  }

  ghost function Position(q: seq<Thread>, t: Thread?): (i: nat)
    ensures t != null && t in q ==> i < |q| && q[i] == t
    ensures q != [] ==> i < |q|
  {
    if t != null && t in q then var i: nat :| i < |q| && q[i] == t; i else 0
  }

  ghost function TaskOf(q: seq<Thread>, t: Thread): Task
    reads t
  {
    Task(t.state, t.joined, t.asleep, t.done, Position(q, t.joinTarget), t.sleepTimeout, t.dir, t.heap)
  }

  ghost function TasksOf(q: seq<Thread>): (r: seq<Task>)
    reads q
    ensures |r| == |q| && forall i :: 0 <= i < |q| ==> r[i] == TaskOf(q, q[i])
  {
    seq(|q|, i requires 0 <= i < |q| reads q => TaskOf(q, q[i]))
  }

  ghost predicate Distinct(q: seq<Thread>) {
    forall i, j :: 0 <= i < j < |q| ==> q[i] != q[j]
  }

  /** `next` leads through the queue in order and ends in NULL. */
  ghost predicate Linked(q: seq<Thread>)
    reads q`next
  {
    && (forall i :: 0 <= i < |q| - 1 ==> q[i].next == q[i + 1])
    && (q != [] ==> q[|q| - 1].next == null)
  }

  lemma LinkedNext(q: seq<Thread>, k: nat)
    requires Linked(q) && k < |q|
    ensures k + 1 < |q| ==> q[k].next == q[k + 1]
    ensures k + 1 == |q| ==> q[k].next == null
  {
  }

  ghost predicate Joins(q: seq<Thread>)
    reads q`joined, q`joinTarget
  {
    forall i :: 0 <= i < |q| ==> (q[i].joinTarget == null && !q[i].joined) || q[i].joinTarget in q
  }

  twostate lemma JoinsLeft(q: seq<Thread>)
    requires old(Joins(q))
    requires forall t :: t in q ==> t.joinTarget == old(t.joinTarget) && (t.joined ==> old(t.joined))
    ensures Joins(q)
  {
  }

  ghost predicate LinkedButEnd(q: seq<Thread>)
    reads q`next
  {
    forall i :: 0 <= i < |q| - 1 ==> q[i].next == q[i + 1]
  }

  lemma LinkedEnd(q: seq<Thread>)
    requires Linked(q) && Distinct(q) && q != []
    ensures LinkedButEnd(q[..|q| - 1]) && (|q| > 1 ==> q[|q| - 2].next == q[|q| - 1]) && q[|q| - 1] !in q[..|q| - 1]
  {
  }

  lemma LinkedSnoc(q: seq<Thread>, t: Thread)
    requires q != [] && LinkedButEnd(q[..|q| - 1]) && (|q| > 1 ==> q[|q| - 2].next == q[|q| - 1]) &&
      q[|q| - 1].next == t && t.next == null
    requires Distinct(q) && t !in q && Joins(q) && ((t.joinTarget == null && !t.joined) || t.joinTarget in q + [t])
    ensures Linked(q + [t]) && Distinct(q + [t]) && Joins(q + [t])
  {
    hide Distinct, Joins;
    forall i | 0 <= i < |q| ensures (q + [t])[i].next == (q + [t])[i + 1] {
      if i < |q| - 2 { assert q[..|q| - 1][i].next == q[..|q| - 1][i + 1]; }
    }
    OneMoreThread(q, t);
  }

  lemma OneMoreThread(q: seq<Thread>, t: Thread)
    requires Distinct(q) && t !in q && Joins(q) && ((t.joinTarget == null && !t.joined) || t.joinTarget in q + [t])
    ensures Distinct(q + [t]) && Joins(q + [t])
  {
  }

  lemma TasksSnoc(q: seq<Thread>, t: Thread, tasks: seq<Task>)
    requires Distinct(q) && t !in q && Joins(q) && |tasks| == |q|
    requires forall i :: 0 <= i < |q| ==> TaskOf(q, q[i]) == tasks[i]
    ensures TasksOf(q + [t]) == tasks + [TaskOf(q + [t], t)]
  {
    forall i | 0 <= i < |q| ensures TaskOf(q + [t], q[i]) == tasks[i] {
      PositionSnoc(q, t, q[i].joinTarget);
    }
  }

  lemma PositionSnoc(q: seq<Thread>, t: Thread, x: Thread?)
    requires Distinct(q) && t !in q && (x == null || x in q)
    ensures Position(q + [t], x) == Position(q, x)
  {
  }

  class RoundRobin {
    var running: Thread
    var queue: Thread
    var scheduledCounter: nat
    var nextPID: nat
    var currentDirectory: nat
    var currentHeap: nat
    /** The threads in link order, and the position of `running`. */
    ghost var threads: seq<Thread>
    ghost var cur: nat

    ghost predicate Valid()
      reads this, threads
    {
      cur < |threads| && queue == threads[0] && running == threads[cur] && Distinct(threads) && Linked(threads) &&
        Joins(threads)
    }

    ghost function View(): (r: Sched)
      requires Valid()
      reads this, threads
      ensures r.Valid()
    {
      Sched(TasksOf(threads), cur, scheduledCounter)
    }

    /**
     * `initializeScheduler`: one kernel thread with entry 0, its own stack, a clone of the kernel directory and a
     * heap of its own; the current directory and heap stay as they are.
     */
    constructor (kill: nat, stack: nat, clone: nat, heap: nat, directory: nat, current: nat)
      ensures Valid() && threads == [running] && fresh(running) && scheduledCounter == 0
      ensures nextPID == 1 && running.pid == 0 && running.returnAddress == kill
      ensures running.dpl == 0 && StartsWith(running.state, 0, 0, stack)
      ensures var head := Task(Initial(0, false, stack), false, false, false, 0, running.sleepTimeout, clone, heap);
        View() == Sched([head], 0, 0)
      ensures Runnable(View())
      ensures currentDirectory == directory && currentHeap == current
    {
      var head := new Thread(0, 0, "KERNEL", false, kill, stack, clone, heap);
      running, queue := head, head;
      scheduledCounter, nextPID := 0, 1;
      currentDirectory, currentHeap := directory, current;
      threads, cur := [head], 0;
      new;
      assert TasksOf(threads) == [TaskOf(threads, head)];
      assert Ready(View(), 0);
    }

    /** The constructor of a thread, which takes the next process number. */
    method NewThread(entry: nat, name: string, user: bool, kill: nat, stack: nat, kernelDirectory: nat, heap: nat)
      returns (t: Thread)
      requires Valid()
      modifies this`nextPID
      ensures Valid() && View() == old(View()) && fresh(t) && t.pid == old(nextPID) && nextPID == t.pid + 1
      ensures t.next == null && t.joinTarget == null && !t.joined && t.returnAddress == kill
      ensures t.dpl == (if user then 3 else 0) && StartsWith(t.state, entry, t.dpl, stack)
      ensures TaskOf(threads, t) ==
        Task(Initial(entry, user, stack), false, false, false, 0, t.sleepTimeout, kernelDirectory, heap)
    {
      hide Linked, Distinct, Joins, Initial, StartsWith;
      t := new Thread(nextPID, entry, name, user, kill, stack, kernelDirectory, heap);
      nextPID := nextPID + 1;
    }

    /** `schedule`: the registers of the interrupted thread are saved, and `out` is what the interrupt returns to. */
    method Schedule(regs: Registers) returns (out: Registers)
      requires Valid() && Runnable(View())
      modifies this`running, this`cur, this`scheduledCounter, this`currentDirectory, this`currentHeap
      modifies threads`joined, threads`asleep, threads`state
      ensures Valid() && threads == old(threads) && View() == Tick(old(View()), regs)
      ensures out == running.state && currentDirectory == running.dir && currentHeap == running.heap
    {
      hide Linked, Distinct, Joins, Search, Ready, Save;
      ghost var s := View();
      ghost var i :| 0 <= i < |s.tasks| && Ready(s, i);
      SavedReady(s, regs, i);
      SaveState(regs);
      FindThread(i);
      out := Dispatch();
    }

    method Dispatch() returns (out: Registers)
      requires Valid()
      modifies this`scheduledCounter, this`currentDirectory, this`currentHeap
      ensures Valid() && View() == old(View()).(counter := old(View()).counter + 1)
      ensures out == running.state && currentDirectory == running.dir && currentHeap == running.heap
    {
      hide Linked, Distinct, Joins, Position;
      scheduledCounter := scheduledCounter + 1;
      currentDirectory := running.dir;
      currentHeap := running.heap;
      out := running.state;
    }

    method SaveState(regs: Registers)
      requires Valid()
      modifies running`state
      ensures Valid()
      ensures View() == Save(old(View()), regs)
    {
      ghost var s := View();
      running.state := regs;
      forall i | 0 <= i < |threads| && i != cur ensures TaskOf(threads, threads[i]) == s.tasks[i] {
        assert threads[i] != running;
        assert old(TaskOf(threads, threads[i])) == s.tasks[i];
      }
      TasksExcept(threads, s.tasks, cur);
    }

    /** The retry loop; i is a task that some pass will accept. */
    method FindThread(ghost i: nat)
      requires Valid() && i < |View().tasks| && Ready(View(), i)
      modifies this`running, this`cur, threads`joined, threads`asleep
      ensures Valid() && threads == old(threads) && View() == Search(old(View()), |threads|)
    {
      hide Linked, Distinct, Joins, Ready, Search, Advance, Successor, Finding, Position, TaskOf;
      ghost var end := Search(View(), |threads|);
      ghost var left: nat := |threads|;
      FindingStarts(View(), i);
      var found := false;
      while !found
        invariant Valid() && threads == old(threads)
        invariant if found then View() == end else Finding(View(), i, left, end)
        decreases !found, left
      {
        FindingStep(View(), i, left, end);
        found := FindPass();
        left := left - 1;
      }
    }

    /**
     * A thread is created and added, and then timer interrupts arrive, `regs` being the registers that each of them
     * interrupts. When the thread is dispatched, at the latest by the one that completes a round of the queue, the
     * interrupt returns to the entry of the thread, on top of its own stack, where `_kill` is to return to.
     */
    method StartThread(entry: nat, name: string, user: bool, kill: nat, stack: nat, kernelDirectory: nat, heap: nat,
            regs: seq<Registers>) returns (t: Thread, out: Registers, started: bool)
      requires Valid() && !queue.done
      modifies this, threads`next, threads`joined, threads`asleep, threads`state
      ensures Valid() && threads == old(threads) + [t] && fresh(t) && t.returnAddress == kill
      ensures started ==> running == t && currentDirectory == kernelDirectory && currentHeap == heap
      ensures started ==> StartsWith(out, entry, if user then 3 else 0, stack)
      ensures |regs| >= |threads| ==> started
    {
      hide Linked, Distinct, Joins, StartsWith, Initial, Position, Starting;
      t := NewThread(entry, name, user, kill, stack, kernelDirectory, heap);
      ghost var task := TaskOf(threads, t);
      AddFresh(t, task);
      ghost var i, enough := |threads| - 1, |regs| >= |threads|;
      StartingFirst(View(), i, task, enough, regs);
      out, started := UntilStarted(t, regs, i, task, enough);
    }

    /** Timer interrupts until task i is dispatched or `regs` runs out. */
    method UntilStarted(t: Thread, regs: seq<Registers>, ghost i: nat, ghost task: Task, ghost enough: bool)
      returns (out: Registers, started: bool)
      requires Valid() && Starting(View(), i, task, enough, regs) && i < |threads| && t == threads[i]
      modifies this`running, this`cur, this`scheduledCounter, this`currentDirectory, this`currentHeap
      modifies threads`joined, threads`asleep, threads`state
      ensures Valid() && threads == old(threads) && (enough ==> started)
      ensures started ==> running == t && out == task.regs && currentDirectory == task.dir && currentHeap == task.heap
    {
      hide Linked, Distinct, Joins, Position, Starting;
      out := t.state;
      started := false;
      var n := 0;
      assert regs[0..] == regs;
      while n < |regs| && !started
        invariant Valid() && threads == old(threads) && n <= |regs|
        invariant !started ==> Starting(View(), i, task, enough, regs[n..])
        invariant started ==> running == t && out == task.regs
        invariant started ==> currentDirectory == task.dir && currentHeap == task.heap
      {
        out, started := StartTick(t, regs[n..], i, task, enough);
        assert regs[n..][1..] == regs[n + 1..];
        n := n + 1;
      }
      if !started { StartingLast(View(), i, task, enough, regs[n..]); }
    }

    method AddFresh(t: Thread, ghost task: Task)
      requires Valid() && !queue.done && t !in threads && t.next == null && t.joinTarget == null && !t.joined
      requires task == TaskOf(threads, t)
      modifies this`threads, threads`next
      ensures Valid() && threads == old(threads) + [t] && !View().tasks[0].done && cur < |threads| - 1
      ensures View().tasks[|threads| - 1] == task
    {
      hide Linked, Joins;
      ghost var s := View();
      assert s.tasks[0] == TaskOf(threads, threads[0]);
      AddThread(t);
      assert View().tasks[|threads| - 1] == TaskOf(threads, t);
      assert View().tasks[0] == s.tasks[0];
    }

    /** One timer interrupt while task i has not been dispatched yet. */
    method StartTick(t: Thread, regs: seq<Registers>, ghost i: nat, ghost task: Task, ghost enough: bool)
      returns (out: Registers, started: bool)
      requires Valid() && Starting(View(), i, task, enough, regs) && regs != [] && i < |threads| && t == threads[i]
      modifies this`running, this`cur, this`scheduledCounter, this`currentDirectory, this`currentHeap
      modifies threads`joined, threads`asleep, threads`state
      ensures Valid() && threads == old(threads) && started == (running == t)
      ensures !started ==> Starting(View(), i, task, enough, regs[1..])
      ensures started ==> out == task.regs && currentDirectory == task.dir && currentHeap == task.heap
    {
      hide Linked, Joins, Starting, Position, Tick;
      StartingStep(View(), i, task, enough, regs);
      out := Schedule(regs[0]);
      started := running == t;
      assert View().tasks[cur] == TaskOf(threads, running);
    }

    /** `sleep`, up to its waiting loop, which only spends timer ticks. */
    method Sleep(millis: nat)
      requires Valid()
      modifies running`sleepTimeout, running`asleep
      ensures Valid() && View() == Happen(old(View()), Event.Sleep(millis))
    {
      hide Linked, Joins;
      ghost var s := View();
      running.sleepTimeout := (millis + scheduledCounter) % WORD;
      running.asleep := true;
      forall i | 0 <= i < |threads| && i != cur ensures TaskOf(threads, threads[i]) == s.tasks[i] {
        assert threads[i] != running;
        assert old(TaskOf(threads, threads[i])) == s.tasks[i];
      }
      TasksExcept(threads, s.tasks, cur);
    }

    /** `_kill`, up to its endless loop. */
    method Kill()
      requires Valid()
      modifies running`done
      ensures Valid() && View() == Happen(old(View()), Exit)
    {
      hide Linked, Joins;
      ghost var s := View();
      running.done := true;
      forall i | 0 <= i < |threads| && i != cur ensures TaskOf(threads, threads[i]) == s.tasks[i] {
        assert threads[i] != running;
        assert old(TaskOf(threads, threads[i])) == s.tasks[i];
      }
      TasksExcept(threads, s.tasks, cur);
    }

    /**
     * `sleep` with its waiting loop, through which timer interrupts arrive: `regs` are the registers that each of them
     * interrupts. Nothing else happens meanwhile. Once there have been as many as were asked for and one round of the
     * queue the sleeper has left the loop, and never before its timeout.
     */
    method SleepAndWait(millis: nat, regs: seq<Registers>) returns (awake: bool)
      requires Valid() && !queue.done && !running.done && !running.joined && millis + scheduledCounter < WORD
      modifies this`running, this`cur, this`scheduledCounter, this`currentDirectory, this`currentHeap
      modifies threads`joined, threads`asleep, threads`state, threads`sleepTimeout
      ensures Valid() && threads == old(threads)
      ensures awake ==> running == old(running) && scheduledCounter >= old(scheduledCounter) + millis
      ensures |regs| >= millis + |threads| ==> awake
      ensures !awake ==> scheduledCounter == old(scheduledCounter) + |regs|
    {
      hide Linked, Distinct, Joins, Dozing, Position;
      var me := running;
      ghost var i, timeout, enough := cur, millis + scheduledCounter, |regs| >= millis + |threads|;
      BeginSleep(millis, enough, regs);
      var n := 0;
      assert regs[0..] == regs;
      while n < |regs| && !(running == me && running.sleepTimeout <= scheduledCounter)
        invariant Valid() && threads == old(threads) && me == threads[i] && n <= |regs|
        invariant scheduledCounter == old(scheduledCounter) + n && Dozing(View(), i, timeout, enough, regs[n..])
      {
        WaitTick(regs[n..], i, timeout, enough);
        assert regs[n..][1..] == regs[n + 1..];
        n := n + 1;
      }
      DozingView(this, i, timeout, enough, regs[n..]);
      awake := running == me && running.sleepTimeout <= scheduledCounter;
    }

    /** The first two lines of `sleep`. */
    method BeginSleep(millis: nat, ghost enough: bool, ghost regs: seq<Registers>)
      requires Valid() && !queue.done && !running.done && !running.joined && millis + scheduledCounter < WORD
      requires enough ==> |regs| >= millis + |threads|
      modifies running`sleepTimeout, running`asleep
      ensures Valid() && Dozing(View(), cur, millis + scheduledCounter, enough, regs)
    {
      hide Linked, Distinct, Joins, Leaves, Sleeper, Position;
      ghost var s := View();
      assert s.tasks[0] == TaskOf(threads, threads[0]) && s.tasks[cur] == TaskOf(threads, threads[cur]);
      if enough { SleepLeaves(s, millis, regs); }
      Sleep(millis);
      SleepStarts(s, millis);
    }

    /** One timer interrupt while task i sleeps and has not left its loop. */
    method WaitTick(regs: seq<Registers>, ghost i: nat, ghost timeout: nat, ghost enough: bool)
      requires Valid() && Dozing(View(), i, timeout, enough, regs) && regs != [] && i < |threads|
      requires !(running == threads[i] && running.sleepTimeout <= scheduledCounter)
      modifies this`running, this`cur, this`scheduledCounter, this`currentDirectory, this`currentHeap
      modifies threads`joined, threads`asleep, threads`state
      ensures Valid() && threads == old(threads) && Dozing(View(), i, timeout, enough, regs[1..])
      ensures scheduledCounter == old(scheduledCounter) + 1
    {
      hide Linked, Distinct, Joins, Tick, Leaves, Sleeper, Position;
      ghost var before := View();
      SleeperView(this, i, timeout);
      LeavesStep(before, regs, i, timeout);
      TickSleeper(before, regs[0], i, timeout);
      HeadStays(before, regs[0]);
      TickCounts(before, regs[0]);
      var out := Schedule(regs[0]);
    }

    /** `_kill` with its endless loop: from the first timer interrupt on another thread runs. */
    method KillAndWait(regs: seq<Registers>)
      requires Valid() && !queue.done && running != queue
      modifies this`running, this`cur, this`scheduledCounter, this`currentDirectory, this`currentHeap
      modifies threads`joined, threads`asleep, threads`state, threads`done
      ensures Valid() && threads == old(threads) && old(running).done
      ensures regs != [] ==> running != old(running)
    {
      hide Linked, Joins, Tick;
      ghost var me, i := running, cur;
      Kill();
      var n := 0;
      while n < |regs|
        invariant Valid() && threads == old(threads) && me == threads[i] && n <= |regs|
        invariant !View().tasks[0].done && View().tasks[i].done && (n > 0 ==> cur != i)
      {
        DoneElsewhere(View(), regs[n], i);
        HeadStays(View(), regs[n]);
        var out := Schedule(regs[n]);
        n := n + 1;
      }
      assert View().tasks[i] == TaskOf(threads, threads[i]);
    }

    /** The end of the `next` links. */
    method LastThread() returns (t: Thread)
      requires Valid()
      ensures t == threads[|threads| - 1]
    {
      hide Linked, Distinct, Joins;
      t := queue;
      ghost var k := 0;
      while t.next != null
        invariant k < |threads| && t == threads[k]
        decreases |threads| - k
      {
        LinkedNext(threads, k);
        t := t.next;
        k := k + 1;
      }
      LinkedNext(threads, k);
    }

    method AddThread(thread: Thread)
      requires Valid() && thread !in threads && thread.next == null
      requires (thread.joinTarget == null && !thread.joined) || thread.joinTarget in threads + [thread]
      modifies this`threads, threads`next
      ensures Valid() && threads == old(threads) + [thread]
      ensures Enabled(old(View()), Add(TaskOf(threads, thread)))
      ensures View() == Happen(old(View()), Add(TaskOf(threads, thread)))
    {
      hide Linked, Joins, Distinct, Position;
      ghost var s := View();
      ghost var q := threads;
      AppendThread(thread);
      TasksSnoc(q, thread, s.tasks);
    }

    method AppendThread(thread: Thread)
      requires Valid() && thread !in threads && thread.next == null
      requires (thread.joinTarget == null && !thread.joined) || thread.joinTarget in threads + [thread]
      modifies this`threads, threads`next
      ensures Valid() && threads == old(threads) + [thread]
      ensures TasksOf(old(threads)) == old(TasksOf(threads))
    {
      hide Linked, Distinct, Joins, Position;
      LinkAtEnd(thread);
      threads := threads + [thread];
    }

    method LinkAtEnd(thread: Thread)
      requires Valid() && thread !in threads && thread.next == null
      requires (thread.joinTarget == null && !thread.joined) || thread.joinTarget in threads + [thread]
      modifies threads`next
      ensures Linked(threads + [thread]) && Distinct(threads + [thread]) && Joins(threads + [thread])
      ensures TasksOf(threads) == old(TasksOf(threads))
    {
      hide Linked, Distinct, Joins, Position;
      var t := LastThread();
      LinkedEnd(threads);
      t.next := thread;
      LinkedSnoc(threads, thread);
      assert TasksOf(threads) == old(TasksOf(threads));
    }

    method MoveOn()
      requires Valid()
      modifies this`running, this`cur
      ensures Valid() && cur == Successor(old(View()))
    {
      ghost var k := Successor(View());
      LinkedNext(threads, cur);
      if running.next != null {
        running := running.next;
      } else {
        running := queue;
      }
      cur := k;
    }

    /** One pass from `find_thread`; `found` is false when control goes back to it. */
    method FindPass() returns (found: bool)
      requires Valid()
      modifies this`running, this`cur, threads`joined, threads`asleep
      ensures Valid() && threads == old(threads)
      ensures View() == Advance(old(View())) && found == Ready(old(View()), Successor(old(View())))
    {
      hide Linked, Distinct, Joins, Ready, Look;
      ghost var s := View();
      MoveOn();
      found := LookAtRunning(s);
    }

    /** The tests on `running` after it has moved, in a state that differs from s only in having moved. */
    method LookAtRunning(ghost s: Sched) returns (found: bool)
      requires Valid() && s.Valid() && View() == s.(running := cur)
      modifies running`joined, running`asleep
      ensures Valid() && View() == s.(running := cur, tasks := s.tasks[cur := Look(s, cur)]) && found == Ready(s, cur)
    {
      hide Linked, Position, Joins;
      RunningView(this, s);
      assert forall i :: 0 <= i < |threads| ==> TaskOf(threads, threads[i]) == View().tasks[i];
      found := LookAt(running, running == queue, scheduledCounter);
      JoinsLeft(threads);
      forall i | 0 <= i < |threads| && i != cur ensures TaskOf(threads, threads[i]) == s.tasks[i] {
        assert threads[i] != running;
      }
      TasksExcept(threads, s.tasks, cur);
    }
  }

  lemma SleepStarts(s: Sched, millis: nat)
    requires s.Valid() && !s.tasks[0].done && !s.tasks[s.running].done && !s.tasks[s.running].joined
    requires millis + s.counter < WORD
    ensures var s1 := Happen(s, Event.Sleep(millis));
      !s1.tasks[0].done && Sleeper(s1, s.running, millis + s.counter) && s1.counter == s.counter
  {
  }

  lemma TickCounts(s: Sched, regs: Registers)
    requires s.Valid()
    ensures Tick(s, regs).counter == s.counter + 1
  {
  }

  /** What the loop of `sleep` tests is what the specification tests. */
  lemma SleeperView(r: RoundRobin, i: nat, timeout: nat)
    requires r.Valid() && Sleeper(r.View(), i, timeout)
    ensures i < |r.threads| && r.threads[i].sleepTimeout == timeout && (r.running == r.threads[i] <==> r.cur == i)
  {
    assert r.View().tasks[i] == TaskOf(r.threads, r.threads[i]);
  }

  lemma DozingView(r: RoundRobin, i: nat, timeout: nat, enough: bool, regs: seq<Registers>)
    requires r.Valid() && Dozing(r.View(), i, timeout, enough, regs)
    ensures i < |r.threads| && r.threads[i].sleepTimeout == timeout
    ensures enough && regs == [] ==> r.running == r.threads[i] && timeout <= r.scheduledCounter
  {
    hide Leaves, Sleeper, Linked, Distinct, Joins;
    SleeperView(r, i, timeout);
    LeavesStep(r.View(), regs, i, timeout);
  }

  lemma TasksExcept(q: seq<Thread>, tasks: seq<Task>, k: nat)
    requires |tasks| == |q| && k < |q| && forall i :: 0 <= i < |q| && i != k ==> TaskOf(q, q[i]) == tasks[i]
    ensures TasksOf(q) == tasks[k := TaskOf(q, q[k])]
  {
  }

  ghost predicate Waits(t: Thread)
    requires t.joined ==> t.joinTarget != null
    reads t, t.joinTarget
  {
    t.joined && !t.joinTarget.done
  }

  /** The tests read through pointers what the specification reads by position. */
  lemma RunningView(r: RoundRobin, s: Sched)
    requires r.Valid() && s.Valid() && r.View() == s.(running := r.cur)
    ensures s.tasks[r.cur] == TaskOf(r.threads, r.running)
    ensures r.running.joined ==> r.running.joinTarget in r.threads
    ensures Waits(r.running) == Waiting(s, r.cur)
    ensures r.running == r.queue <==> r.cur == 0
  {
    assert s.tasks[r.cur] == TaskOf(r.threads, r.running);
    if r.running.joined {
      assert r.running.joinTarget == r.threads[s.tasks[r.cur].target];
      assert s.tasks[s.tasks[r.cur].target] == TaskOf(r.threads, r.threads[s.tasks[r.cur].target]);
    }
  }

  method LookAt(t: Thread, isHead: bool, counter: nat) returns (found: bool)
    requires t.joined ==> t.joinTarget != null
    modifies t`joined, t`asleep
    ensures if old(Waits(t)) && !isHead then t.joined == old(t.joined) && t.asleep == old(t.asleep)
            else t.joined == old(Waits(t)) && t.asleep == (old(t.asleep) && counter < t.sleepTimeout)
    ensures found == (!t.done && (isHead || (!old(Waits(t)) && (old(t.asleep) ==> t.sleepTimeout <= counter))))
  {
    if t.joined {
      if t.joinTarget.done {
        t.joined := false;
      } else if !isHead {
        return false;
      }
    }
    if t.asleep {
      if t.sleepTimeout <= counter {
        t.asleep := false;
      } else if !isHead {
        return false;
      }
    }
    return !t.done;
  }
}
