/** The round-robin scheduler of sys/task.c as a machine of steps, and the linked queue that
    carries it out. */
module Tasking {
  import opened Memory
  import opened Options

  const CODE_START := 0x10_0000  // link.ld: where the kernel's code begins
  const SENTINEL := 0x12345      // what a resumed read_eip returns

  datatype Regs = Regs(esp: u32, ebp: u32, eip: u32)

  const NO_REGS := Regs(0, 0, 0)

  // task_t without its link. dir names the task's page directory.
  datatype TaskRec = TaskRec(id: int, regs: Regs, dir: int)

  // queue[cur] is the running task; before initialise_tasking the queue is empty. While a
  // fork is under way its child stands last in the queue and interrupts are off.
  datatype Kernel = Kernel(queue: seq<TaskRec>, cur: nat, nextPid: int, interrupts: bool, forking: bool)

  const BOOT := Kernel([], 0, 1, true, false)

  // The steps: initialise_tasking, a timer interrupt that reaches switch_task with the
  // running task's registers, and fork before and after its child gets its registers.
  datatype Event = Init(dir: int) | Timer(regs: Regs) | ForkBegin(dir: int) | ForkEnd(regs: Regs)

  predicate Enabled(k: Kernel, e: Event) {
    match e
    case Init(_) => k.queue == [] && k.interrupts
    case Timer(regs) => k.interrupts && regs.eip >= CODE_START
    case ForkBegin(_) => k.queue != [] && k.interrupts
    case ForkEnd(regs) => k.forking && regs.eip >= CODE_START
  }

  function Step(k: Kernel, e: Event): Kernel
    requires Enabled(k, e) && (k.queue != [] ==> k.cur < |k.queue|)
  {
    match e
    case Init(dir) => Kernel([TaskRec(k.nextPid, NO_REGS, dir)], 0, k.nextPid + 1, true, false)
    case Timer(regs) =>
      if k.queue == [] then k
      else k.(queue := k.queue[k.cur := k.queue[k.cur].(regs := regs)],
              cur := if k.cur + 1 < |k.queue| then k.cur + 1 else 0)
    case ForkBegin(dir) =>
      k.(queue := k.queue + [TaskRec(k.nextPid, NO_REGS, dir)], nextPid := k.nextPid + 1, interrupts := false, forking := true)
    case ForkEnd(regs) =>
      if k.queue == [] then k
      else
        var last := |k.queue| - 1;
        k.(queue := k.queue[last := k.queue[last].(regs := regs)], interrupts := true, forking := false)
  }

  // Ids grow along the queue; a task that is neither running nor just being built has an
  // entry point in the kernel's code; interrupts are off exactly while a fork is under way.
  ghost predicate Inv(k: Kernel) {
    && (k.queue != [] ==> k.cur < |k.queue|)
    && (forall i, j :: 0 <= i < j < |k.queue| ==> k.queue[i].id < k.queue[j].id)
    && (forall i :: 0 <= i < |k.queue| ==> k.queue[i].id < k.nextPid)
    && (forall i :: 0 <= i < |k.queue| && i != k.cur && !(k.forking && i == |k.queue| - 1) ==> k.queue[i].regs.eip >= CODE_START)
    && (k.interrupts <==> !k.forking)
    && (k.forking ==> |k.queue| >= 2 && k.cur < |k.queue| - 1)
  }

  lemma StepKeepsInv(k: Kernel, e: Event)
    requires Inv(k) && Enabled(k, e)
    ensures Inv(Step(k, e))
  {
  }

  lemma ForkBegins(k: Kernel, directory: int)
    requires Inv(k) && Enabled(k, ForkBegin(directory))
    ensures k.queue != [] && Inv(Step(k, ForkBegin(directory)))
    ensures Step(k, ForkBegin(directory)) ==
            Kernel(k.queue + [TaskRec(k.nextPid, NO_REGS, directory)], k.cur, k.nextPid + 1, false, true)
  {
    StepKeepsInv(k, ForkBegin(directory));
  }

  // ---------------------------------------------------------------- runs

  ghost predicate Runnable(k: Kernel, es: seq<Event>)
    decreases |es|
  {
    && (k.queue != [] ==> k.cur < |k.queue|)
    && (es != [] ==> Enabled(k, es[0]) && Runnable(Step(k, es[0]), es[1..]))
  }

  ghost function After(k: Kernel, es: seq<Event>): (k': Kernel)
    requires Runnable(k, es)
    ensures k'.queue != [] ==> k'.cur < |k'.queue|
    decreases |es|
  {
    if es == [] then k else After(Step(k, es[0]), es[1..])
  }

  lemma {:induction false} RunKeepsInv(k: Kernel, es: seq<Event>)
    requires Inv(k) && Runnable(k, es)
    ensures Inv(After(k, es))
    decreases |es|
  {
    if es != [] {
      StepKeepsInv(k, es[0]);
      RunKeepsInv(Step(k, es[0]), es[1..]);
    }
  }

  // The directories that a run hands to initialise_tasking and to fork, in order.
  ghost function Directories(es: seq<Event>): seq<int> {
    if es == [] then []
    else (if es[0].Init? || es[0].ForkBegin? then [es[0].dir] else []) + Directories(es[1..])
  }

  // q' is q, as far as ids and directories go, and behind it a task for each of ds, numbered
  // from pid on.
  ghost predicate Extends(q: seq<TaskRec>, pid: int, q': seq<TaskRec>, ds: seq<int>) {
    && |q'| == |q| + |ds|
    && (forall i :: 0 <= i < |q| ==> q'[i].id == q[i].id && q'[i].dir == q[i].dir)
    && forall i :: |q| <= i < |q'| ==> q'[i].id == pid + (i - |q|) && q'[i].dir == ds[i - |q|]
  }

  lemma ExtendsTwice(q0: seq<TaskRec>, pid: int, q1: seq<TaskRec>, ds: seq<int>, q2: seq<TaskRec>, es: seq<int>)
    requires Extends(q0, pid, q1, ds) && Extends(q1, pid + |ds|, q2, es)
    ensures Extends(q0, pid, q2, ds + es)
  {
    forall i | |q0| <= i < |q2| ensures q2[i].id == pid + (i - |q0|) && q2[i].dir == (ds + es)[i - |q0|] {
      if i < |q1| { assert q2[i].dir == q1[i].dir; }
    }
  }

  lemma StepKeepsTasks(k: Kernel, e: Event)
    requires Inv(k) && Enabled(k, e)
    ensures var ds := if e.Init? || e.ForkBegin? then [e.dir] else [];
      Extends(k.queue, k.nextPid, Step(k, e).queue, ds) && Step(k, e).nextPid == k.nextPid + |ds|
  {
  }

  // A run adds one task for each of those, behind the tasks it starts with, and no task ever
  // loses its place, its id or its directory.
  lemma {:induction false} RunKeepsTasks(k: Kernel, es: seq<Event>)
    requires Inv(k) && Runnable(k, es)
    ensures Extends(k.queue, k.nextPid, After(k, es).queue, Directories(es))
    ensures After(k, es).nextPid == k.nextPid + |Directories(es)|
    decreases |es|
  {
    if es != [] {
      hide Inv, Step, Enabled, Extends;
      StepKeepsInv(k, es[0]);
      StepKeepsTasks(k, es[0]);
      RunKeepsTasks(Step(k, es[0]), es[1..]);
      var ds := if es[0].Init? || es[0].ForkBegin? then [es[0].dir] else [];
      ExtendsTwice(k.queue, k.nextPid, Step(k, es[0]).queue, ds, After(k, es).queue, Directories(es[1..]));
    }
  }

  // From boot, the tasks are numbered from 1 on as they were made, each with the directory it
  // was made with.
  lemma TasksAreThoseMade(es: seq<Event>)
    requires Runnable(BOOT, es)
    ensures var q, ds := After(BOOT, es).queue, Directories(es);
      |q| == |ds| && forall i :: 0 <= i < |q| ==> q[i].id == 1 + i && q[i].dir == ds[i]
  {
    RunKeepsTasks(BOOT, es);
  }

  // What a run has last saved for each task: a timer saves the running task's registers,
  // the end of a fork the child's. saved is what was saved before the run.
  ghost function Saved(k: Kernel, es: seq<Event>, saved: map<int, Regs>): map<int, Regs>
    requires Runnable(k, es)
    decreases |es|
  {
    if es == [] then saved
    else
      var e := es[0];
      var saved' :=
        if e.Timer? && k.queue != [] then saved[k.queue[k.cur].id := e.regs]
        else if e.ForkEnd? && k.queue != [] then saved[k.queue[|k.queue| - 1].id := e.regs]
        else saved;
      Saved(Step(k, e), es[1..], saved')
  }

  // saved speaks the truth about every task that is not running and not being built.
  ghost predicate Truthful(k: Kernel, saved: map<int, Regs>) {
    forall i :: 0 <= i < |k.queue| && i != k.cur && !(k.forking && i == |k.queue| - 1) ==>
      k.queue[i].id in saved && saved[k.queue[i].id] == k.queue[i].regs
  }

  lemma {:induction false} SavedIsTruthful(k: Kernel, es: seq<Event>, saved: map<int, Regs>)
    requires Inv(k) && Runnable(k, es) && Truthful(k, saved)
    ensures Truthful(After(k, es), Saved(k, es, saved))
    decreases |es|
  {
    if es != [] {
      StepKeepsInv(k, es[0]);
      var k' := Step(k, es[0]);
      assert Runnable(k', es[1..]);
      if es[0].Timer? && k.queue != [] {
        SavedIsTruthful(k', es[1..], saved[k.queue[k.cur].id := es[0].regs]);
      } else if es[0].ForkEnd? && k.queue != [] {
        SavedIsTruthful(k', es[1..], saved[k.queue[|k.queue| - 1].id := es[0].regs]);
      } else {
        SavedIsTruthful(k', es[1..], saved);
      }
    }
  }

  // In every run from boot, a timer resumes the next task with exactly the registers last
  // saved for it; it is never a half-built task, and no entry point can be mistaken for the
  // sentinel. A task alone in the queue gets back what was saved just now.
  lemma DispatchResumesLastSave(es: seq<Event>, regs: Regs)
    requires Runnable(BOOT, es) && After(BOOT, es).queue != [] && Enabled(After(BOOT, es), Timer(regs))
    ensures var k := After(BOOT, es);
      && Inv(k) && k.cur < |k.queue| && Runnable(BOOT, es + [Timer(regs)])
      && var k' := After(BOOT, es + [Timer(regs)]);
      && |k'.queue| == |k.queue| && k'.cur == (if k.cur + 1 < |k.queue| then k.cur + 1 else 0)
      && var t, saved := k'.queue[k'.cur], Saved(BOOT, es + [Timer(regs)], map[]);
      && t.id in saved && saved[t.id] == t.regs && t.regs.eip >= 0x10_0000 && t.regs.eip != 0x12345
  {
    hide Inv, Truthful, After, Saved, Step;
    RunKeepsInv(BOOT, es) by { BootIsGood(); }
    SavedIsTruthful(BOOT, es, map[]) by { BootIsGood(); }
    RunExtends(BOOT, es, Timer(regs), map[]) by { BootIsGood(); }
    NextIsReady(After(BOOT, es), regs, Saved(BOOT, es, map[]));
  }

  lemma BootIsGood()
    ensures Inv(BOOT) && Truthful(BOOT, map[])
  {
  }

  lemma NextIsReady(k: Kernel, regs: Regs, saved: map<int, Regs>)
    requires Inv(k) && k.queue != [] && Enabled(k, Timer(regs)) && Truthful(k, saved)
    ensures var k' := Step(k, Timer(regs));
      && |k'.queue| == |k.queue| && k'.cur == (if k.cur + 1 < |k.queue| then k.cur + 1 else 0)
      && var t, saved' := k'.queue[k'.cur], saved[k.queue[k.cur].id := regs];
      && t.id in saved' && saved'[t.id] == t.regs && t.regs.eip >= CODE_START
  {
  }

  // One more event at the end of a run.
  lemma {:induction false} RunExtends(k: Kernel, es: seq<Event>, e: Event, saved: map<int, Regs>)
    requires Runnable(k, es) && Enabled(After(k, es), e) && Inv(k)
    ensures var k' := After(k, es);
      && Runnable(k, es + [e]) && After(k, es + [e]) == Step(k', e)
      && (e.Timer? && k'.queue != [] ==> Saved(k, es + [e], saved) == Saved(k, es, saved)[k'.queue[k'.cur].id := e.regs])
    decreases |es|
  {
    hide Inv;
    var fs := es + [e];
    if es == [] {
      StepKeepsInv(k, e);
      assert fs[1..] == [];
      assert Runnable(Step(k, e), []) by { InvInRange(Step(k, e)); }
    } else {
      StepKeepsInv(k, es[0]);
      assert fs[1..] == es[1..] + [e];
      var saved' :=
        if es[0].Timer? && k.queue != [] then saved[k.queue[k.cur].id := es[0].regs]
        else if es[0].ForkEnd? && k.queue != [] then saved[k.queue[|k.queue| - 1].id := es[0].regs]
        else saved;
      RunExtends(Step(k, es[0]), es[1..], e, saved');
    }
  }

  lemma InvInRange(k: Kernel)
    requires Inv(k)
    ensures k.queue != [] ==> k.cur < |k.queue|
  {
  }

  // ---------------------------------------------------------------- fairness

  ghost function Timers(es: seq<Event>): nat {
    if es == [] then 0 else (if es[0].Timer? then 1 else 0) + Timers(es[1..])
  }

  ghost function Forks(es: seq<Event>): nat {
    if es == [] then 0 else (if es[0].ForkBegin? then 1 else 0) + Forks(es[1..])
  }

  // How many switches away position j is from cur in a queue of n tasks.
  function Distance(n: nat, cur: nat, j: nat): nat
    requires cur < n && j < n
  {
    if j > cur then j - cur else n - cur + j
  }

  // The positions that the timers of a run dispatch, in order.
  ghost function Trace(k: Kernel, es: seq<Event>): seq<nat>
    requires Runnable(k, es)
    decreases |es|
  {
    if es == [] then []
    else
      var k' := Step(k, es[0]);
      (if es[0].Timer? then [k'.cur] else []) + Trace(k', es[1..])
  }

  // Round robin is fair: a task waits at most its distance, plus one switch for each fork
  // meanwhile, so at most the length of the queue plus the forks.
  lemma {:induction false} EveryTaskGetsItsTurn(k: Kernel, es: seq<Event>, j: nat)
    requires Inv(k) && k.queue != [] && j < |k.queue| && Runnable(k, es)
    requires Timers(es) >= Distance(|k.queue|, k.cur, j) + Forks(es)
    ensures j in Trace(k, es)
    ensures Distance(|k.queue|, k.cur, j) <= |k.queue|
    decreases |es|
  {
    var e := es[0];
    var k' := Step(k, e);
    StepKeepsInv(k, e);
    if !(e.Timer? && k'.cur == j) {
      EveryTaskGetsItsTurn(k', es[1..], j);
    }
  }

  // From one wrap to the next, with forks in between, every position of the queue is
  // dispatched exactly once, in order.
  lemma {:induction false} RoundVisitsAllOnce(k: Kernel, es: seq<Event>, regs: Regs)
    requires Inv(k) && k.queue != [] && k.cur == 0
    requires Runnable(k, es) && 0 !in Trace(k, es)
    requires Enabled(After(k, es), Timer(regs)) && Step(After(k, es), Timer(regs)).cur == 0
    ensures var n := |After(k, es).queue|;
      |Trace(k, es)| == n - 1 && forall i :: 0 <= i < n - 1 ==> Trace(k, es)[i] == 1 + i
  {
    NoWrapIsConsecutive(k, es);
    RunKeepsInv(k, es);
  }

  lemma {:induction false} NoWrapIsConsecutive(k: Kernel, es: seq<Event>)
    requires Inv(k) && k.queue != [] && Runnable(k, es) && 0 !in Trace(k, es)
    ensures var t := Trace(k, es);
      && After(k, es).queue != [] && After(k, es).cur == k.cur + |t|
      && forall i :: 0 <= i < |t| ==> t[i] == k.cur + 1 + i
    decreases |es|
  {
    if es != [] {
      StepKeepsInv(k, es[0]);
      NoWrapIsConsecutive(Step(k, es[0]), es[1..]);
    }
  }

  // ---------------------------------------------------------------- the linked queue

  class Task {
    var id: int
    var esp: u32
    var ebp: u32
    var eip: u32
    var pageDirectory: int
    var next: Task?

    constructor (id: int, pageDirectory: int)
      ensures this.id == id && esp == ebp == eip == 0 && this.pageDirectory == pageDirectory && next == null
    {
      this.id, esp, ebp, eip, this.pageDirectory, next := id, 0, 0, 0, pageDirectory, null;
    }

    ghost function Rec(): TaskRec
      reads this
    {
      TaskRec(id, Regs(esp, ebp, eip), pageDirectory)
    }
  }

  ghost predicate Linked(ts: seq<Task>)
    reads ts
  {
    && (forall i, j :: 0 <= i && j == i + 1 < |ts| ==> ts[i].next == ts[j])
    && (ts != [] ==> ts[|ts| - 1].next == null)
    && (forall i, j :: 0 <= i < j < |ts| ==> ts[i] != ts[j])
  }

  lemma NextIn(ts: seq<Task>, i: nat)
    requires Linked(ts) && i < |ts|
    ensures if i + 1 < |ts| then ts[i].next == ts[i + 1] else ts[i].next == null
  {
  }

  lemma AloneIsLinked(t: Task)
    requires t.next == null
    ensures Linked([t])
  {
  }

  ghost function Recs(ts: seq<Task>): (rs: seq<TaskRec>)
    reads ts
    ensures |rs| == |ts| && forall i :: 0 <= i < |ts| ==> rs[i] == ts[i].Rec()
  {
    if ts == [] then [] else Recs(ts[..|ts| - 1]) + [ts[|ts| - 1].Rec()]
  }

  class Scheduler {
    var currentTask: Task?
    var readyQueue: Task?
    var nextPid: int
    var interrupts: bool
    var dispatched: Regs  // the registers last loaded by the jump that ends switch_task
    ghost var tasks: seq<Task>
    ghost var at: nat
    ghost var forking: bool

    ghost predicate Valid()
      reads this, tasks
    {
      && (readyQueue == null <==> tasks == []) && (currentTask == null <==> tasks == [])
      && (tasks != [] ==> readyQueue == tasks[0] && at < |tasks| && currentTask == tasks[at])
      && Linked(tasks)
      && Inv(State())
    }

    ghost function State(): Kernel
      reads this, tasks
    {
      Kernel(Recs(tasks), at, nextPid, interrupts, forking)
    }

    constructor ()
      ensures Valid() && State() == BOOT
    {
      currentTask, readyQueue, nextPid, interrupts, dispatched := null, null, 1, true, NO_REGS;
      tasks, at, forking := [], 0, false;
    }

    method InitialiseTasking(directory: int)
      requires Valid() && Enabled(State(), Init(directory))
      modifies this
      ensures Valid() && State() == Step(old(State()), Init(directory)) && fresh(tasks)
    {
      hide Inv, Recs, Linked;
      ghost var k := State();
      StepKeepsInv(k, Init(directory));
      interrupts := false;
      var t := new Task(nextPid, directory);
      currentTask, readyQueue := t, t;
      nextPid := nextPid + 1;
      tasks, at, forking := [t], 0, false;
      interrupts := true;
      AloneIsLinked(t);
      assert State().queue == [t.Rec()];
      assert State() == Step(k, Init(directory));
    }

    // switch_task, reached with a genuine read_eip value. The resumed call, which sees the
    // sentinel instead, only returns.
    method SwitchTask(esp: u32, ebp: u32, eip: u32)
      requires Valid()
      requires eip != SENTINEL ==> Enabled(State(), Timer(Regs(esp, ebp, eip)))
      modifies this, tasks
      ensures Valid() && tasks == old(tasks)
      ensures eip == SENTINEL || tasks == [] ==> State() == old(State()) && dispatched == old(dispatched)
      ensures eip != SENTINEL ==> State() == Step(old(State()), Timer(Regs(esp, ebp, eip)))
      // The running task keeps the registers, and the one behind it, or the first, is resumed.
      ensures eip != SENTINEL && tasks != [] ==>
        && currentTask != null && old(currentTask) != null
        && currentTask == (if old(currentTask.next) == null then readyQueue else old(currentTask.next))
        && old(currentTask).esp == esp && old(currentTask).ebp == ebp && old(currentTask).eip == eip
        && dispatched == Regs(currentTask.esp, currentTask.ebp, currentTask.eip)
    {
      if currentTask != null && eip != SENTINEL {
        Switch(esp, ebp, eip);
      }
    }

    // switch_task past its two early returns.
    method Switch(esp: u32, ebp: u32, eip: u32)
      requires Valid() && tasks != [] && Enabled(State(), Timer(Regs(esp, ebp, eip)))
      modifies this, tasks
      ensures Valid() && tasks == old(tasks)
      ensures State() == Step(old(State()), Timer(Regs(esp, ebp, eip)))
      ensures
        && currentTask != null && old(currentTask) != null
        && currentTask == (if old(currentTask.next) == null then readyQueue else old(currentTask.next))
        && old(currentTask).esp == esp && old(currentTask).ebp == ebp && old(currentTask).eip == eip
        && dispatched == Regs(currentTask.esp, currentTask.ebp, currentTask.eip)
    {
      hide Inv, Recs, Linked;
      ghost var k := State();
      StepKeepsInv(k, Timer(Regs(esp, ebp, eip)));
      Save(currentTask, at, esp, ebp, eip);
      NextIn(tasks, at);
      currentTask := currentTask.next;
      at := at + 1;
      if currentTask == null {
        currentTask := readyQueue;
        at := 0;
      }
      dispatched := Regs(currentTask.esp, currentTask.ebp, currentTask.eip);
      assert State() == Step(k, Timer(Regs(esp, ebp, eip)));
    }

    method Save(t: Task, ghost i: nat, esp: u32, ebp: u32, eip: u32)
      requires Linked(tasks) && i < |tasks| && t == tasks[i]
      modifies t
      ensures Linked(tasks) && t.next == old(t.next) && t.esp == esp && t.ebp == ebp && t.eip == eip
      ensures Recs(tasks) == old(Recs(tasks))[i := old(t.Rec()).(regs := Regs(esp, ebp, eip))]
    {
      t.eip := eip;
      t.esp := esp;
      t.ebp := ebp;
    }

    // fork, up to the child's place in the queue.
    method BeginFork(directory: int) returns (newTask: Task)
      requires Valid() && Enabled(State(), ForkBegin(directory))
      modifies this, tasks
      ensures Valid() && State() == Step(old(State()), ForkBegin(directory))
      ensures fresh(newTask) && tasks == old(tasks) + [newTask] && dispatched == old(dispatched)
    {
      hide Inv, Recs, Linked, Step, Enabled;
      ghost var k, ts := State(), tasks;
      ForkBegins(k, directory);
      interrupts := false;
      newTask := new Task(nextPid, directory);
      nextPid := nextPid + 1;
      Append(newTask);
      tasks, forking := ts + [newTask], true;
      assert Recs(tasks) == k.queue + [TaskRec(k.nextPid, NO_REGS, directory)];
      assert State() == Step(k, ForkBegin(directory));
    }

    // Walks to the end of the queue and hangs newTask there.
    method Append(newTask: Task)
      requires tasks != [] && readyQueue == tasks[0] && Linked(tasks) && newTask !in tasks && newTask.next == null
      modifies tasks
      ensures Linked(tasks + [newTask])
      ensures Recs(tasks + [newTask]) == old(Recs(tasks)) + [newTask.Rec()]
    {
      hide Recs;
      var tmp := readyQueue;
      ghost var i := 0;
      while tmp.next != null
        invariant i < |tasks| && tmp == tasks[i]
        decreases |tasks| - i
        modifies {}
      {
        NextIn(tasks, i);
        tmp := tmp.next;
        i := i + 1;
      }
      NextIn(tasks, i);
      ghost var ts := tasks + [newTask];
      tmp.next := newTask;
      assert forall j :: 0 <= j < |tasks| ==> ts[j].Rec() == old(tasks[j].Rec());
    }

    // fork, after read_eip, in the parent.
    method EndFork(newTask: Task, esp: u32, ebp: u32, eip: u32) returns (pid: int)
      requires Valid() && Enabled(State(), ForkEnd(Regs(esp, ebp, eip))) && tasks != [] && newTask == tasks[|tasks| - 1]
      modifies this, newTask
      ensures Valid() && State() == Step(old(State()), ForkEnd(Regs(esp, ebp, eip)))
      ensures pid == newTask.id && tasks == old(tasks) && dispatched == old(dispatched)
    {
      ghost var k := State();
      StepKeepsInv(k, ForkEnd(Regs(esp, ebp, eip)));
      newTask.esp := esp;
      newTask.ebp := ebp;
      newTask.eip := eip;
      interrupts := true;
      forking := false;
      pid := newTask.id;
      assert State().queue == k.queue[|k.queue| - 1 := k.queue[|k.queue| - 1].(regs := Regs(esp, ebp, eip))];
      assert State() == Step(k, ForkEnd(Regs(esp, ebp, eip)));
    }
  }
}
