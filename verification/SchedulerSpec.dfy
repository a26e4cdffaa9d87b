/** The round-robin scheduler on values: what one timer tick does, and what holds over whole runs. */
module SchedulerSpec {
  import opened Bits

  /** The saved `CPURegisters`; `general` is r15 down to rax. */
  datatype Registers = Registers(gs: nat, es: nat, fs: nat, ds: nat, general: seq<nat>, num: nat, code: nat, rip: nat,
    cs: nat, rflags: nat, rsp: nat, ss: nat)

  /** The registers of a thread that has not run yet: it will start at `entry`, on top of its own stack page. */
  function Initial(entry: nat, user: bool, stack: nat): Registers {
    var data := if user then 0x23 else 0x10;
    var code := if user then 0x1B else 0x8;
    Registers(data, data, data, data, seq(15, _ => 0), 0, 0, entry, code, 0x202, stack + 0xFF8, data)
  }

  /**
   * What a thread must find in its registers when it starts: its entry, the last word of its own stack page, the
   * selectors of its privilege level, interrupts enabled, and zeros.
   */
  predicate StartsWith(r: Registers, entry: nat, dpl: nat, stack: nat) {
    && r.rip == entry && r.rsp == stack + 4096 - 8
    && r.cs % 4 == dpl && r.ss % 4 == dpl
    && (dpl == 0 ==> r.cs == 0x08 && r.ss == 0x10) && (dpl == 3 ==> r.cs == 0x1B && r.ss == 0x23)
    && r.ds == r.ss && r.es == r.ss && r.fs == r.ss && r.gs == r.ss
    && r.rflags == 512 + 2
    && |r.general| == 15 && (forall k :: 0 <= k < 15 ==> r.general[k] == 0) && r.num == 0 && r.code == 0
  }

  lemma InitialExact(entry: nat, user: bool, stack: nat)
    ensures StartsWith(Initial(entry, user, stack), entry, if user then 3 else 0, stack)
  {
  }

  /** A thread: `target` is the queue position of the thread it joins. */
  datatype Task = Task(regs: Registers, joined: bool, asleep: bool, done: bool, target: nat, timeout: nat, dir: nat,
    heap: nat)

  /** The queue in link order, the position of `running`, and `scheduledCounter`. */
  datatype Sched = Sched(tasks: seq<Task>, running: nat, counter: nat) {
    predicate Valid() {
      running < |tasks| && forall i :: 0 <= i < |tasks| && tasks[i].joined ==> tasks[i].target < |tasks|
    }
  }

  function Successor(s: Sched): nat {
    if s.running + 1 < |s.tasks| then s.running + 1 else 0
  }

  /** The thread that task i waits for has not finished. */
  predicate Waiting(s: Sched, i: nat)
    requires s.Valid() && i < |s.tasks|
  {
    s.tasks[i].joined && !s.tasks[s.tasks[i].target].done
  }

  /** The scheduler accepts task i: it is not done, and unless it is the head it neither waits nor sleeps. */
  predicate Ready(s: Sched, i: nat)
    requires s.Valid() && i < |s.tasks|
  {
    && !s.tasks[i].done
    && (i != 0 ==> !Waiting(s, i) && (s.tasks[i].asleep ==> s.tasks[i].timeout <= s.counter))
  }

  /**
   * Looking at task i clears the flags whose reason has passed; a waiting non-head task is skipped before its sleep
   * is looked at.
   */
  function Look(s: Sched, i: nat): Task
    requires s.Valid() && i < |s.tasks|
  {
    var t := s.tasks[i];
    if Waiting(s, i) && i != 0 then t
    else t.(joined := Waiting(s, i), asleep := t.asleep && s.counter < t.timeout)
  }

  /** One pass from `find_thread`: move to the successor and look at it. */
  function Advance(s: Sched): (r: Sched)
    requires s.Valid()
    ensures r.Valid() && |r.tasks| == |s.tasks| && r.counter == s.counter
  {
    var i := Successor(s);
    s.(tasks := s.tasks[i := Look(s, i)], running := i)
  }

  /** At most n passes, stopping at the first task that is accepted. */
  function Search(s: Sched, n: nat): (r: Sched)
    requires s.Valid()
    ensures r.Valid() && |r.tasks| == |s.tasks| && r.counter == s.counter
    decreases n
  {
    if n == 0 then s
    else if Ready(s, Successor(s)) then Advance(s)
    else Search(Advance(s), n - 1)
  }

  function Save(s: Sched, regs: Registers): (r: Sched)
    requires s.Valid()
    ensures r.Valid() && |r.tasks| == |s.tasks| && r.counter == s.counter
  {
    s.(tasks := s.tasks[s.running := s.tasks[s.running].(regs := regs)])
  }

  lemma SavedReady(s: Sched, regs: Registers, i: nat)
    requires s.Valid() && i < |s.tasks|
    ensures Ready(Save(s, regs), i) <==> Ready(s, i)
  {
  }

  /** A timer tick: save, search, count. */
  function Tick(s: Sched, regs: Registers): (r: Sched)
    requires s.Valid()
    ensures r.Valid() && |r.tasks| == |s.tasks|
  {
    Search(Save(s, regs), |s.tasks|).(counter := s.counter + 1)
  }

  /** How many passes it takes from `running` to reach task i, from 1 to the length of the queue. */
  function Distance(s: Sched, i: nat): (d: nat)
    requires s.running < |s.tasks| && i < |s.tasks|
    ensures 1 <= d <= |s.tasks|
  {
    if i > s.running then i - s.running else i + |s.tasks| - s.running
  }

  // ----- one tick ----------------------------------------------------------

  /** The fields that passes may change in a task are its two waiting flags, each for its reason. */
  ghost predicate FlagsOnly(t: Task, t': Task, counter: nat) {
    && t' == t.(joined := t'.joined, asleep := t'.asleep) && (t'.joined ==> t.joined)
    && (t'.asleep != t.asleep ==> t.asleep && t.timeout <= counter)
  }

  /** Looking at a task makes no task ready or unready and touches no registers. */
  lemma AdvanceKeeps(s: Sched)
    requires s.Valid()
    ensures forall j :: 0 <= j < |s.tasks| ==> (Ready(Advance(s), j) <==> Ready(s, j))
    ensures forall j :: 0 <= j < |s.tasks| ==> FlagsOnly(s.tasks[j], Advance(s).tasks[j], s.counter)
  {
  }

  /** i is the first ready task in cyclic order after `running`. */
  ghost predicate FirstReady(s: Sched, i: nat)
    requires s.Valid()
  {
    i < |s.tasks| && Ready(s, i) && forall j :: 0 <= j < |s.tasks| && Ready(s, j) ==> Distance(s, i) <= Distance(s, j)
  }

  /** The retry loop: it stops within the distance of any ready task, and stops at the first one. */
  lemma {:induction false} SearchExact(s: Sched, n: nat, i: nat)
    requires s.Valid() && i < |s.tasks| && Ready(s, i) && Distance(s, i) <= n
    ensures FirstReady(s, Search(s, n).running)
    ensures forall j :: 0 <= j < |s.tasks| ==> FlagsOnly(s.tasks[j], Search(s, n).tasks[j], s.counter)
    decreases n
  {
    var k := Successor(s);
    AdvanceKeeps(s);
    if !Ready(s, k) {
      var s1 := Advance(s);
      hide Advance, Ready, Distance, FlagsOnly;
      forall j | 0 <= j < |s.tasks| && j != k ensures Distance(s1, j) == Distance(s, j) - 1 { DistanceOn(s, j); }
      DistanceOn(s, k);
      SearchExact(s1, n - 1, i);
    }
  }

  /** Task i, which is ready, is within n passes, and these end in state `end`. */
  predicate Finding(s: Sched, i: nat, n: nat, end: Sched) {
    s.Valid() && i < |s.tasks| && Ready(s, i) && Distance(s, i) <= n && Search(s, n) == end
  }

  lemma FindingStarts(s: Sched, i: nat)
    requires s.Valid() && i < |s.tasks| && Ready(s, i)
    ensures Finding(s, i, |s.tasks|, Search(s, |s.tasks|))
  {
  }

  /** One pass of the retry loop, which a ready task within reach keeps from running out. */
  lemma FindingStep(s: Sched, i: nat, n: nat, end: Sched)
    requires Finding(s, i, n, end)
    ensures s.Valid() && n > 0 && Successor(s) < |s.tasks|
    ensures if Ready(s, Successor(s)) then Advance(s) == end else Finding(Advance(s), i, n - 1, end)
  {
    AdvanceKeeps(s);
  }

  /** When no task is ready no number of passes finds one: the loop does not end. */
  lemma {:induction false} SearchHopeless(s: Sched, n: nat)
    requires s.Valid() && forall j :: 0 <= j < |s.tasks| ==> !Ready(s, j)
    ensures forall j :: 0 <= j < |s.tasks| ==> !Ready(Search(s, n), j)
    decreases n
  {
    if n > 0 {
      AdvanceKeeps(s);
      SearchHopeless(Advance(s), n - 1);
    }
  }

  /** The scheduler finds a task within one round exactly when some task is ready; a head that is not done is enough. */
  lemma TickStops(s: Sched, regs: Registers)
    requires s.Valid()
    ensures Runnable(s) <==> Ready(s, Tick(s, regs).running)
    ensures !s.tasks[0].done ==> Runnable(s)
    ensures Ready(s, Tick(s, regs).running) ==> FirstReady(s, Tick(s, regs).running)
  {
    var saved := Save(s, regs);
    assert forall j :: 0 <= j < |s.tasks| ==> Ready(saved, j) == Ready(s, j) && Distance(saved, j) == Distance(s, j);
    assert Ready(s, 0) <==> !s.tasks[0].done;
    if i :| 0 <= i < |s.tasks| && Ready(s, i) {
      SearchExact(saved, |s.tasks|, i);
    }
  }

  /**
   * Task i can go on: it is not done, and unless it is the head the task it joins is done, if it joins one, and its
   * timeout has come, if it sleeps.
   */
  predicate CanGoOn(s: Sched, i: nat)
    requires s.Valid() && i < |s.tasks|
  {
    var t := s.tasks[i];
    !t.done && (i == 0 || ((!t.joined || s.tasks[t.target].done) && (!t.asleep || t.timeout <= s.counter)))
  }

  /** How many places after place a in the circle of n places is b, the place itself coming last. */
  function PlacesAfter(n: nat, a: nat, b: nat): nat
    requires a < n && b < n
  {
    if a < b then b - a else b + n - a
  }

  /** A tick dispatches exactly the first task in the circle after the running one that can go on. */
  lemma TickExact(s: Sched, regs: Registers, i: nat)
    requires s.Valid() && i < |s.tasks| && exists j :: 0 <= j < |s.tasks| && CanGoOn(s, j)
    ensures Tick(s, regs).running == i <==>
      CanGoOn(s, i) && forall j :: 0 <= j < |s.tasks| && CanGoOn(s, j) ==>
        PlacesAfter(|s.tasks|, s.running, i) <= PlacesAfter(|s.tasks|, s.running, j)
  {
    assert forall j :: 0 <= j < |s.tasks| ==> (CanGoOn(s, j) <==> Ready(s, j));
    hide Tick, Ready, CanGoOn;
    TickStops(s, regs);
    assert Runnable(s);
  }

  /**
   * What a tick leaves of task j: its registers, unless it has been preempted; its flag for a join until the task
   * joined is done; its flag for a sleep until its timeout, unless it is not the head and still joins. A task behind
   * the one dispatched is not looked at.
   */
  lemma TickFlags(s: Sched, regs: Registers, j: nat)
    requires s.Valid() && j < |s.tasks| && exists i :: 0 <= i < |s.tasks| && CanGoOn(s, i)
    ensures var n, s' := |s.tasks|, Tick(s, regs);
      var t, t' := s.tasks[j], s'.tasks[j];
      var waits := t.joined && !s.tasks[t.target].done;
      var seen := PlacesAfter(n, s.running, j) <= PlacesAfter(n, s.running, s'.running);
      && t' == t.(regs := t'.regs, joined := t'.joined, asleep := t'.asleep)
      && t'.regs == (if j == s.running then regs else t.regs)
      && t'.joined == (if seen then waits else t.joined)
      && t'.asleep == (t.asleep && (!seen || s.counter < t.timeout || (j > 0 && waits)))
    ensures Tick(s, regs).counter == s.counter + 1
  {
    var saved := Save(s, regs);
    var k :| 0 <= k < |s.tasks| && CanGoOn(s, k);
    assert Ready(saved, k);
    SearchTasks(saved, |s.tasks|, k, j);
  }

  /** The search has looked at the tasks up to the one where it stops, each as it was at the start. */
  lemma {:induction false} SearchTasks(s: Sched, n: nat, i: nat, j: nat)
    requires s.Valid() && i < |s.tasks| && j < |s.tasks| && Ready(s, i) && Distance(s, i) <= n
    ensures var s' := Search(s, n);
      s'.tasks[j] == if Distance(s, j) <= Distance(s, s'.running) then Look(s, j) else s.tasks[j]
    decreases n
  {
    hide Advance, Ready, Distance, Look, Successor;
    var k, s1 := Successor(s), Advance(s);
    DistanceOn(s, j);
    DistanceOn(s, k);
    AdvanceTasks(s, j);
    if !Ready(s, k) {
      AdvanceKeeps(s);
      DistanceOn(s, i);
      SearchExact(s1, n - 1, i);
      SearchTasks(s1, n - 1, i, j);
      DistanceOn(s, Search(s1, n - 1).running);
    }
  }

  /** Having moved on to a task the search comes to it again only after all others, and to these one pass sooner. */
  lemma DistanceOn(s: Sched, m: nat)
    requires s.Valid() && m < |s.tasks|
    ensures Successor(s) < |s.tasks| && Advance(s).running == Successor(s)
    ensures Distance(s, m) == 1 <==> m == Successor(s)
    ensures Distance(Advance(s), m) == if m == Successor(s) then |s.tasks| else Distance(s, m) - 1
  {
  }

  lemma AdvanceTasks(s: Sched, j: nat)
    requires s.Valid() && j < |s.tasks|
    ensures j == Successor(s) ==> Advance(s).tasks[j] == Look(s, j)
    ensures j != Successor(s) ==> Look(Advance(s), j) == Look(s, j) && Advance(s).tasks[j] == s.tasks[j]
  {
  }

  /**
   * What a tick does to every task: the preempted one keeps the registers it was interrupted with, the others theirs.
   */
  lemma TickTasks(s: Sched, regs: Registers, j: nat)
    requires s.Valid() && j < |s.tasks| && Runnable(s)
    ensures var t := if j == s.running then s.tasks[j].(regs := regs) else s.tasks[j];
      FlagsOnly(t, Tick(s, regs).tasks[j], s.counter)
  {
    var saved := Save(s, regs);
    assert forall j :: 0 <= j < |s.tasks| ==> Ready(saved, j) == Ready(s, j);
    var i :| 0 <= i < |s.tasks| && Ready(s, i);
    SearchExact(saved, |s.tasks|, i);
  }

  // ----- whole runs --------------------------------------------------------

  /**
   * What changes the scheduler: a timer interrupt with the interrupted registers, `sleep` and the end of the running
   * thread, `addThread`, and the running thread starting to wait for another one.
   */
  datatype Event = Timer(regs: Registers) | Sleep(millis: nat) | Exit | Add(task: Task) | Join(target: nat)

  /** Some task can be dispatched; a head that is not done is enough, see `TickStops`. */
  predicate Runnable(s: Sched)
    requires s.Valid()
  {
    exists i :: 0 <= i < |s.tasks| && Ready(s, i)
  }

  /** A tick comes to an end, and joins stay inside the queue. */
  predicate Enabled(s: Sched, e: Event)
    requires s.Valid()
  {
    match e
    case Timer(_) => Runnable(s)
    case Sleep(_) => true
    case Exit => true
    case Add(t) => t.joined ==> t.target < |s.tasks| + 1
    case Join(target) => target < |s.tasks|
  }

  function Happen(s: Sched, e: Event): (r: Sched)
    requires s.Valid() && Enabled(s, e)
    ensures r.Valid()
  {
    var t := s.tasks[s.running];
    match e
    case Timer(regs) => Tick(s, regs)
    case Sleep(millis) => s.(tasks := s.tasks[s.running := t.(timeout := (millis + s.counter) % WORD, asleep := true)])
    case Exit => s.(tasks := s.tasks[s.running := t.(done := true)])
    case Add(task) => s.(tasks := s.tasks + [task])
    case Join(target) => s.(tasks := s.tasks[s.running := t.(joined := true, target := target)])
  }

  predicate EnabledRun(s: Sched, es: seq<Event>)
    requires s.Valid()
    decreases |es|
  {
    es == [] || (Enabled(s, es[0]) && EnabledRun(Happen(s, es[0]), es[1..]))
  }

  function RunEvents(s: Sched, es: seq<Event>): (r: Sched)
    requires s.Valid() && EnabledRun(s, es)
    ensures r.Valid()
    decreases |es|
  {
    if es == [] then s else RunEvents(Happen(s, es[0]), es[1..])
  }

  /** Task i runs at no point of the run. */
  predicate Idle(s: Sched, es: seq<Event>, i: nat)
    requires s.Valid() && EnabledRun(s, es)
    decreases |es|
  {
    s.running != i && (es == [] || Idle(Happen(s, es[0]), es[1..], i))
  }

  /** Queue positions, the queue length and the counter only grow. */
  lemma HappenGrows(s: Sched, e: Event)
    requires s.Valid() && Enabled(s, e)
    ensures |s.tasks| <= |Happen(s, e).tasks| && s.counter <= Happen(s, e).counter
  {
  }

  lemma {:induction false} RunGrows(s: Sched, es: seq<Event>)
    requires s.Valid() && EnabledRun(s, es)
    ensures |s.tasks| <= |RunEvents(s, es).tasks| && s.counter <= RunEvents(s, es).counter
    decreases |es|
  {
    if es != [] {
      HappenGrows(s, es[0]);
      RunGrows(Happen(s, es[0]), es[1..]);
    }
  }

  /** What any event does to a task that is not running: only its waiting flags may change, each for its reason. */
  lemma HappenElsewhere(s: Sched, e: Event, i: nat)
    requires s.Valid() && Enabled(s, e) && i < |s.tasks| && i != s.running
    ensures i < |Happen(s, e).tasks| && FlagsOnly(s.tasks[i], Happen(s, e).tasks[i], s.counter)
  {
    if e.Timer? {
      TickStops(s, e.regs);
      TickTasks(s, e.regs, i);
    }
  }

  /**
   * Context conservation: a thread preempted with some registers still has exactly those registers after any run in
   * which it does not run, so that is what it resumes with when it is dispatched next.
   */
  lemma {:induction false} RegistersKept(s: Sched, es: seq<Event>, i: nat)
    requires s.Valid() && EnabledRun(s, es) && i < |s.tasks| && Idle(s, es, i)
    ensures i < |RunEvents(s, es).tasks| && RunEvents(s, es).tasks[i].regs == s.tasks[i].regs
    decreases |es|
  {
    if es != [] {
      HappenElsewhere(s, es[0], i);
      RegistersKept(Happen(s, es[0]), es[1..], i);
    }
  }

  lemma ResumesWhereInterrupted(s: Sched, regs: Registers, es: seq<Event>, last: Registers)
    requires s.Valid() && EnabledRun(s, [Timer(regs)] + es + [Timer(last)])
    requires EnabledRun(Happen(s, Timer(regs)), es) && Idle(Happen(s, Timer(regs)), es, s.running)
    ensures var s1 := RunEvents(Happen(s, Timer(regs)), es);
      Enabled(s1, Timer(last)) &&
        (Happen(s1, Timer(last)).running == s.running ==> Happen(s1, Timer(last)).tasks[s.running].regs == regs)
  {
    var all := [Timer(regs)] + es + [Timer(last)];
    assert all[0] == Timer(regs) && all[1..] == es + [Timer(last)];
    var s0 := Happen(s, Timer(regs));
    TickStops(s, regs);
    TickTasks(s, regs, s.running);
    RegistersKept(s0, es, s.running);
    RunPrefix(s0, es, Timer(last));
    var s1 := RunEvents(s0, es);
    IdleEnd(s0, es, s.running);
    HappenElsewhere(s1, Timer(last), s.running);
  }

  lemma {:induction false} IdleEnd(s: Sched, es: seq<Event>, i: nat)
    requires s.Valid() && EnabledRun(s, es) && Idle(s, es, i)
    ensures RunEvents(s, es).running != i
    decreases |es|
  {
    if es != [] { IdleEnd(Happen(s, es[0]), es[1..], i); }
  }

  lemma {:induction false} RunPrefix(s: Sched, es: seq<Event>, e: Event)
    requires s.Valid() && EnabledRun(s, es + [e])
    ensures EnabledRun(s, es) && Enabled(RunEvents(s, es), e)
    decreases |es|
  {
    if es != [] {
      assert (es + [e])[0] == es[0] && (es + [e])[1..] == es[1..] + [e];
      RunPrefix(Happen(s, es[0]), es[1..], e);
    } else {
      assert es + [e] == [e];
    }
  }

  /** Whoever a tick dispatches, if it is not the head, is not done, does not wait, and has slept long enough. */
  lemma DispatchedReady(s: Sched, regs: Registers)
    requires s.Valid() && Enabled(s, Timer(regs))
    ensures var i := Happen(s, Timer(regs)).running;
      i < |s.tasks| && !s.tasks[i].done &&
        (i != 0 ==> !Waiting(s, i) && (s.tasks[i].asleep ==> s.tasks[i].timeout <= s.counter))
  {
    TickStops(s, regs);
  }

  /** A sleeping non-head thread does not run again while the counter has not passed its timeout. */
  lemma {:induction false} NoEarlyWake(s: Sched, es: seq<Event>, i: nat)
    requires s.Valid() && EnabledRun(s, es) && 0 < i < |s.tasks| && i != s.running && s.tasks[i].asleep
    ensures RunEvents(s, es).counter <= s.tasks[i].timeout ==> RunEvents(s, es).running != i && Idle(s, es, i)
    decreases |es|
  {
    if es != [] && RunEvents(s, es).counter <= s.tasks[i].timeout {
      var s1 := Happen(s, es[0]);
      HappenElsewhere(s, es[0], i);
      RunGrows(s1, es[1..]);
      if es[0].Timer? { DispatchedReady(s, es[0].regs); }
      NoEarlyWake(s1, es[1..], i);
    }
  }

  /**
   * A thread that calls `sleep` and is not the head does not run from the next tick on until its timeout has passed.
   */
  lemma SleepsThrough(s: Sched, millis: nat, regs: Registers, es: seq<Event>)
    requires s.Valid() && s.running > 0
    requires var s1 := Happen(s, Sleep(millis)); Enabled(s1, Timer(regs)) && EnabledRun(Happen(s1, Timer(regs)), es)
    ensures var s2 := Happen(Happen(s, Sleep(millis)), Timer(regs));
      RunEvents(s2, es).counter <= (millis + s.counter) % WORD ==> Idle(s2, es, s.running)
  {
    var i, s1 := s.running, Happen(s, Sleep(millis));
    var s2 := Happen(s1, Timer(regs));
    if RunEvents(s2, es).counter <= s1.tasks[i].timeout {
      RunGrows(s2, es);
      DispatchedReady(s1, regs);
      TickStops(s1, regs);
      TickTasks(s1, regs, i);
      NoEarlyWake(s2, es, i);
    }
  }

  /** A thread that is done is never dispatched again. */
  lemma {:induction false} DoneForever(s: Sched, es: seq<Event>, i: nat)
    requires s.Valid() && EnabledRun(s, es) && i < |s.tasks| && s.tasks[i].done
    ensures !Dispatched(s, es, i)
    decreases |es|
  {
    if es != [] {
      match es[0] {
        case Timer(regs) =>
          DispatchedReady(s, regs);
          TickStops(s, regs);
          TickTasks(s, regs, i);
        case _ =>
      }
      DoneForever(Happen(s, es[0]), es[1..], i);
    }
  }

  /** A new thread that has not run yet starts with the registers it was added with. */
  lemma StartsAtEntry(s: Sched, task: Task, es: seq<Event>, last: Registers)
    requires s.Valid() && Enabled(s, Add(task)) && EnabledRun(Happen(s, Add(task)), es)
    requires Idle(Happen(s, Add(task)), es, |s.tasks|)
    requires Enabled(RunEvents(Happen(s, Add(task)), es), Timer(last))
    ensures var s2 := Happen(RunEvents(Happen(s, Add(task)), es), Timer(last));
      |s.tasks| < |s2.tasks| && s2.tasks[|s.tasks|].regs == task.regs
  {
    var s1, i := Happen(s, Add(task)), |s.tasks|;
    RegistersKept(s1, es, i);
    IdleEnd(s1, es, i);
    HappenElsewhere(RunEvents(s1, es), Timer(last), i);
  }

  // ----- bounded waiting ---------------------------------------------------

  function Timers(es: seq<Event>): nat {
    if es == [] then 0 else (if es[0].Timer? then 1 else 0) + Timers(es[1..])
  }

  /** Task i is ready at every timer tick of the run. */
  predicate ReadyThroughout(s: Sched, es: seq<Event>, i: nat)
    requires s.Valid() && EnabledRun(s, es) && i < |s.tasks|
    decreases |es|
  {
    es == [] || ((es[0].Timer? ==> Ready(s, i)) &&
      (HappenGrows(s, es[0]); ReadyThroughout(Happen(s, es[0]), es[1..], i)))
  }

  /** Some timer tick of the run dispatches task i. */
  predicate Dispatched(s: Sched, es: seq<Event>, i: nat)
    requires s.Valid() && EnabledRun(s, es)
    decreases |es|
  {
    es != [] && ((es[0].Timer? && Happen(s, es[0]).running == i) || Dispatched(Happen(s, es[0]), es[1..], i))
  }

  /** Every tick that does not dispatch a ready task brings it closer. */
  lemma TickCloser(s: Sched, regs: Registers, i: nat)
    requires s.Valid() && Enabled(s, Timer(regs)) && i < |s.tasks| && Ready(s, i)
    ensures var s' := Tick(s, regs); s'.running == i || Distance(s', i) < Distance(s, i)
  {
    TickStops(s, regs);
  }

  /** A thread that stays ready is dispatched within as many ticks as the queue is long at the end of the run. */
  lemma {:induction false} BoundedWait(s: Sched, es: seq<Event>, i: nat)
    requires s.Valid() && EnabledRun(s, es) && i < |s.tasks| && ReadyThroughout(s, es, i)
    ensures !Dispatched(s, es, i) ==> Timers(es) + |s.tasks| < Distance(s, i) + |RunEvents(s, es).tasks|
    ensures Timers(es) >= |RunEvents(s, es).tasks| ==> Dispatched(s, es, i)
    decreases |es|
  {
    if es != [] {
      var s1 := Happen(s, es[0]);
      HappenGrows(s, es[0]);
      if es[0].Timer? { TickCloser(s, es[0].regs, i); }
      BoundedWait(s1, es[1..], i);
    }
  }

  // ----- how long `sleep` takes ------------------------------------------------

  /** While task i runs it does nothing but spin in the loop of `sleep`. */
  predicate Spins(s: Sched, es: seq<Event>, i: nat)
    requires s.Valid() && EnabledRun(s, es)
    decreases |es|
  {
    es == [] || ((s.running == i ==> es[0].Timer?) && Spins(Happen(s, es[0]), es[1..], i))
  }

  /** At some point of the run task i runs and finds the loop condition of `sleep` false. */
  predicate LeavesLoop(s: Sched, es: seq<Event>, i: nat, timeout: nat)
    requires s.Valid() && EnabledRun(s, es)
    decreases |es|
  {
    (s.running == i && timeout <= s.counter) || (es != [] && LeavesLoop(Happen(s, es[0]), es[1..], i, timeout))
  }

  predicate Sleeper(s: Sched, i: nat, timeout: nat) {
    i < |s.tasks| && !s.tasks[i].done && !s.tasks[i].joined && s.tasks[i].timeout == timeout
  }

  lemma SleeperStays(s: Sched, e: Event, i: nat, timeout: nat)
    requires s.Valid() && Enabled(s, e) && Sleeper(s, i, timeout) && (s.running == i ==> e.Timer?)
    ensures Sleeper(Happen(s, e), i, timeout)
  {
    if s.running == i {
      TickStops(s, e.regs);
      TickTasks(s, e.regs, i);
    } else {
      HappenElsewhere(s, e, i);
    }
  }

  /** Once the timeout has come the sleeper is dispatched within a round. */
  lemma {:induction false} WakesSoon(s: Sched, es: seq<Event>, i: nat, timeout: nat)
    requires s.Valid() && EnabledRun(s, es) && Sleeper(s, i, timeout) && Spins(s, es, i) && timeout <= s.counter
    ensures !LeavesLoop(s, es, i, timeout) ==> Timers(es) + |s.tasks| < Distance(s, i) + |RunEvents(s, es).tasks|
    decreases |es|
  {
    if es != [] && s.running != i {
      var s1 := Happen(s, es[0]);
      SleeperStays(s, es[0], i, timeout);
      HappenGrows(s, es[0]);
      if es[0].Timer? { TickCloser(s, es[0].regs, i); }
      WakesSoon(s1, es[1..], i, timeout);
      assert LeavesLoop(s, es, i, timeout) == LeavesLoop(s1, es[1..], i, timeout);
      assert es[0].Timer? && s1.running == i ==> LeavesLoop(s1, es[1..], i, timeout);
      assert !es[0].Timer? ==> Distance(s1, i) + |s.tasks| <= Distance(s, i) + |s1.tasks|;
    }
  }

  lemma {:induction false} Wakes(s: Sched, es: seq<Event>, i: nat, timeout: nat)
    requires s.Valid() && EnabledRun(s, es) && Sleeper(s, i, timeout) && Spins(s, es, i)
    ensures s.counter + Timers(es) >= timeout + |RunEvents(s, es).tasks| && Timers(es) >= |RunEvents(s, es).tasks| ==>
      LeavesLoop(s, es, i, timeout)
    decreases |es|
  {
    RunGrows(s, es);
    if timeout <= s.counter {
      WakesSoon(s, es, i, timeout);
    } else if es != [] {
      var s1 := Happen(s, es[0]);
      SleeperStays(s, es[0], i, timeout);
      RunGrows(s1, es[1..]);
      Wakes(s1, es[1..], i, timeout);
    }
  }

  /**
   * `sleep` returns within as many ticks as it was asked to wait for and one round of the queue, for the head as for
   * any other thread.
   */
  lemma SleepReturns(s: Sched, millis: nat, es: seq<Event>)
    requires s.Valid() && !s.tasks[s.running].done && !s.tasks[s.running].joined && millis + s.counter < WORD
    requires EnabledRun(Happen(s, Sleep(millis)), es) && Spins(Happen(s, Sleep(millis)), es, s.running)
    ensures var s1 := Happen(s, Sleep(millis));
      Timers(es) >= millis + |RunEvents(s1, es).tasks| ==> LeavesLoop(s1, es, s.running, millis + s.counter)
  {
    Wakes(Happen(s, Sleep(millis)), es, s.running, millis + s.counter);
  }

  // ----- a thread that only spins ----------------------------------------------

  /** Timer ticks and nothing else. */
  function Ticks(regs: seq<Registers>): (es: seq<Event>)
    ensures |es| == |regs| && forall k :: 0 <= k < |regs| ==> es[k] == Timer(regs[k])
  {
    seq(|regs|, k requires 0 <= k < |regs| => Timer(regs[k]))
  }

  lemma TicksCons(regs: seq<Registers>)
    requires regs != []
    ensures Ticks(regs)[0] == Timer(regs[0]) && Ticks(regs)[1..] == Ticks(regs[1..])
  {
  }

  /** With a head that is not done ticks can go on for ever. */
  lemma {:induction false} TicksEnabled(s: Sched, regs: seq<Registers>, i: nat)
    requires s.Valid() && !s.tasks[0].done
    ensures EnabledRun(s, Ticks(regs)) && Spins(s, Ticks(regs), i) && Timers(Ticks(regs)) == |regs|
    ensures |RunEvents(s, Ticks(regs)).tasks| == |s.tasks|
    decreases |regs|
  {
    if regs != [] {
      HeadStays(s, regs[0]);
      TicksCons(regs);
      TicksEnabled(Tick(s, regs[0]), regs[1..], i);
    }
  }

  lemma HeadStays(s: Sched, regs: Registers)
    requires s.Valid() && !s.tasks[0].done
    ensures Runnable(s) && !Tick(s, regs).tasks[0].done
  {
    TickStops(s, regs);
    TickTasks(s, regs, 0);
  }

  /** Whether the sleeper has got out of its loop at the latest after these ticks. */
  predicate Leaves(s: Sched, regs: seq<Registers>, i: nat, timeout: nat)
    requires s.Valid() && !s.tasks[0].done
  {
    TicksEnabled(s, regs, i);
    LeavesLoop(s, Ticks(regs), i, timeout)
  }

  /** Task i sleeps, with `regs` still to be interrupted, which are enough to wake it if they were at the start. */
  predicate Dozing(s: Sched, i: nat, timeout: nat, enough: bool, regs: seq<Registers>) {
    s.Valid() && !s.tasks[0].done && Sleeper(s, i, timeout) && (enough ==> Leaves(s, regs, i, timeout))
  }

  lemma LeavesStep(s: Sched, regs: seq<Registers>, i: nat, timeout: nat)
    requires s.Valid() && !s.tasks[0].done
    ensures regs == [] ==> (Leaves(s, regs, i, timeout) <==> s.running == i && timeout <= s.counter)
    ensures regs != [] ==> !Tick(s, regs[0]).tasks[0].done
    ensures regs != [] && !(s.running == i && timeout <= s.counter) ==>
      Leaves(s, regs, i, timeout) == Leaves(Tick(s, regs[0]), regs[1..], i, timeout)
  {
    if regs != [] {
      HeadStays(s, regs[0]);
      TicksCons(regs);
    }
  }

  /** A tick that finds the sleeper still asleep leaves it a sleeper. */
  lemma TickSleeper(s: Sched, regs: Registers, i: nat, timeout: nat)
    requires s.Valid() && !s.tasks[0].done && Sleeper(s, i, timeout)
    ensures Sleeper(Tick(s, regs), i, timeout)
  {
    HeadStays(s, regs);
    SleeperStays(s, Timer(regs), i, timeout);
  }

  /** `sleep` has returned after as many ticks as it was asked for and one round of the queue. */
  lemma SleepLeaves(s: Sched, millis: nat, regs: seq<Registers>)
    requires s.Valid() && !s.tasks[0].done && !s.tasks[s.running].done && !s.tasks[s.running].joined
    requires millis + s.counter < WORD && |regs| >= millis + |s.tasks|
    ensures !Happen(s, Sleep(millis)).tasks[0].done
    ensures Leaves(Happen(s, Sleep(millis)), regs, s.running, millis + s.counter)
  {
    TicksEnabled(Happen(s, Sleep(millis)), regs, s.running);
    SleepReturns(s, millis, Ticks(regs));
  }

  /** A thread that is done is not running after any further tick. */
  lemma DoneElsewhere(s: Sched, regs: Registers, i: nat)
    requires s.Valid() && !s.tasks[0].done && i < |s.tasks| && s.tasks[i].done
    ensures Tick(s, regs).running != i && Tick(s, regs).tasks[i].done
  {
    HeadStays(s, regs);
    DispatchedReady(s, regs);
    TickTasks(s, regs, i);
  }

  // ----- a thread that starts --------------------------------------------------

  /** Task i has not run yet, and within `regs` it will if there were enough of them at the start. */
  predicate Starting(s: Sched, i: nat, task: Task, enough: bool, regs: seq<Registers>) {
    && s.Valid() && !s.tasks[0].done && i < |s.tasks| && s.running != i
    && s.tasks[i] == task && !task.done && !task.joined && !task.asleep
    && (enough ==> Distance(s, i) <= |regs|)
  }

  lemma StartingFirst(s: Sched, i: nat, task: Task, enough: bool, regs: seq<Registers>)
    requires s.Valid() && !s.tasks[0].done && i < |s.tasks| && s.running != i && s.tasks[i] == task
    requires !task.done && !task.joined && !task.asleep && (enough ==> |regs| >= |s.tasks|)
    ensures Starting(s, i, task, enough, regs)
  {
  }

  lemma StartingStep(s: Sched, i: nat, task: Task, enough: bool, regs: seq<Registers>)
    requires Starting(s, i, task, enough, regs) && regs != []
    ensures s.Valid() && Runnable(s) && i < |Tick(s, regs[0]).tasks| && Tick(s, regs[0]).tasks[i] == task
    ensures Tick(s, regs[0]).running != i ==> Starting(Tick(s, regs[0]), i, task, enough, regs[1..])
  {
    HeadStays(s, regs[0]);
    TickTasks(s, regs[0], i);
    TickCloser(s, regs[0], i);
  }

  lemma StartingLast(s: Sched, i: nat, task: Task, enough: bool, regs: seq<Registers>)
    requires Starting(s, i, task, enough, regs) && regs == []
    ensures !enough
  {
  }

  // ----- a thread that joins another ---------------------------------------------

  /** A thread can always sleep and end, a tick needs a task that can go on, and joins stay inside the queue. */
  lemma EnabledExact(s: Sched, regs: Registers, millis: nat, task: Task, target: nat)
    requires s.Valid()
    ensures Enabled(s, Sleep(millis)) && Enabled(s, Exit)
    ensures Enabled(s, Timer(regs)) <==> exists i :: 0 <= i < |s.tasks| && CanGoOn(s, i)
    ensures Enabled(s, Add(task)) <==> (task.joined ==> task.target <= |s.tasks|)
    ensures Enabled(s, Join(target)) <==> target < |s.tasks|
  {
    assert forall i :: 0 <= i < |s.tasks| ==> (CanGoOn(s, i) <==> Ready(s, i));
  }

  /** Once done, a task stays done. */
  lemma DoneStays(s: Sched, e: Event, i: nat)
    requires s.Valid() && Enabled(s, e) && i < |s.tasks| && s.tasks[i].done
    ensures i < |Happen(s, e).tasks| && Happen(s, e).tasks[i].done
  {
    if e.Timer? {
      TickStops(s, e.regs);
      TickTasks(s, e.regs, i);
    }
  }

  lemma {:induction false} DoneThroughout(s: Sched, es: seq<Event>, i: nat)
    requires s.Valid() && EnabledRun(s, es) && i < |s.tasks| && s.tasks[i].done
    ensures i < |RunEvents(s, es).tasks| && RunEvents(s, es).tasks[i].done
    decreases |es|
  {
    if es != [] {
      DoneStays(s, es[0], i);
      DoneThroughout(Happen(s, es[0]), es[1..], i);
    }
  }

  /** Task i waits for task j, which is not done. */
  predicate JoinsTask(s: Sched, i: nat, j: nat) {
    i < |s.tasks| && j < |s.tasks| && s.tasks[i].joined && s.tasks[i].target == j && !s.tasks[j].done
  }

  lemma JoinStays(s: Sched, e: Event, i: nat, j: nat)
    requires s.Valid() && Enabled(s, e) && JoinsTask(s, i, j) && i > 0 && s.running != i
    ensures Happen(s, e).running != i
    ensures j < |Happen(s, e).tasks| && (Happen(s, e).tasks[j].done || JoinsTask(Happen(s, e), i, j))
  {
    if e.Timer? {
      EnabledExact(s, e.regs, 0, s.tasks[0], 0);
      TickExact(s, e.regs, i);
      TickFlags(s, e.regs, i);
      TickFlags(s, e.regs, j);
    } else {
      HappenElsewhere(s, e, i);
    }
  }

  /** A thread that waits for another, and is neither running nor the head, does not run while the other is not done. */
  lemma {:induction false} NoEarlyJoin(s: Sched, es: seq<Event>, i: nat, j: nat)
    requires s.Valid() && EnabledRun(s, es) && JoinsTask(s, i, j) && i > 0 && s.running != i
    ensures j < |RunEvents(s, es).tasks| && (!RunEvents(s, es).tasks[j].done ==> Idle(s, es, i))
    decreases |es|
  {
    if es != [] {
      var s1 := Happen(s, es[0]);
      JoinStays(s, es[0], i, j);
      if s1.tasks[j].done { DoneThroughout(s1, es[1..], j); } else { NoEarlyJoin(s1, es[1..], i, j); }
    }
  }

  /** From the call on: after the next tick it does not run while the other is not done. */
  lemma JoinsThrough(s: Sched, target: nat, regs: Registers, es: seq<Event>)
    requires s.Valid() && s.running > 0 && target < |s.tasks| && Enabled(s, Join(target))
    requires var s1 := Happen(s, Join(target)); Enabled(s1, Timer(regs)) && EnabledRun(Happen(s1, Timer(regs)), es)
    ensures var s2 := Happen(Happen(s, Join(target)), Timer(regs));
      target < |RunEvents(s2, es).tasks| && (!RunEvents(s2, es).tasks[target].done ==> Idle(s2, es, s.running))
  {
    var i, s1 := s.running, Happen(s, Join(target));
    var s2 := Happen(s1, Timer(regs));
    EnabledExact(s1, regs, 0, s1.tasks[0], 0);
    TickFlags(s1, regs, i);
    TickFlags(s1, regs, target);
    TickExact(s1, regs, i);
    if s2.tasks[target].done { DoneThroughout(s2, es, target); } else { NoEarlyJoin(s2, es, i, target); }
  }
}
