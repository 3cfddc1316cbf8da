/** The per-core `Processor` and one iteration of the dispatch loop
    (`run_tasks`), plus the helpers that act on the task installed as
    current.

    The kernel's global scheduling state, which the source keeps in two
    exclusive-access singletons, is one `Kernel` value here. The context
    switch into the dispatched task is not modelled: a dispatch step ends
    with the task installed as current. The timer is a parameter `now`. */
module Processor {
  import opened Machine
  import opened Tasks
  import opened Manager

  /** The task currently executing on this core, if any. */
  datatype Processor = Processor(current: Option<Task>)

  /** The ready queue and the processor slot. */
  datatype Kernel = Kernel(manager: TaskManager, processor: Processor)

  /** Result of `take_current`: the detached task and the emptied slot. */
  datatype Taken = Taken(task: Option<Task>, processor: Processor)

  /** `Processor::take_current`: detaches whatever occupies the slot. */
  function TakeCurrent(p: Processor): (r: Taken)
    ensures r.task == p.current
    ensures r.processor.current.None?
  {
    Taken(p.current, Processor(None))
  }

  /** `Processor::current`: a shared handle on the slot's task, the one
      `take_current` would detach; being a function of the processor it
      cannot change the slot. */
  function Current(p: Processor): (r: Option<Task>)
    ensures r == TakeCurrent(p).task
  {
    p.current
  }

  /** Looking at the slot and then detaching its task yields the same task,
      and the slot is empty afterwards, so a second detach yields nothing. */
  lemma TakeCurrentAfterCurrent(p: Processor)
    ensures TakeCurrent(p).task == Current(p)
    ensures Current(TakeCurrent(p).processor).None?
    ensures TakeCurrent(TakeCurrent(p).processor).task.None?
  {
  }

  /** The bookkeeping `run_tasks` does on a task it has just fetched: mark
      it Running, stamp the first-dispatch time once, advance its pass by
      one stride of its current priority. */
  function Dispatched(stride: (nat, nat) -> nat, t: Task, now: Usize): (d: Task)
    ensures d.status == Running && d.started
    ensures d.pass == stride(t.pass, t.prio)
    ensures t.started ==> d.startTime == t.startTime
    ensures !t.started ==> d.startTime == now
    ensures d.(status := t.status, started := t.started, startTime := t.startTime, pass := t.pass) == t
  {
    t.(status := Running,
       startTime := if t.started then t.startTime else now,
       started := true,
       pass := stride(t.pass, t.prio))
  }

  /** One iteration of the `run_tasks` loop: fetch a task from the ready
      queue; if there is one, dispatch it and install it as current. */
  function RunTasksStep(le: (nat, nat) -> bool, stride: (nat, nat) -> nat,
                        k: Kernel, now: Usize): (k': Kernel)
    requires TotalOrder(le)
    ensures |k.manager.readyQueue| == 0 ==> k' == k
    ensures |k.manager.readyQueue| > 0 ==>
      && k'.processor.current.Some?
      && var t := k'.processor.current.value;
         exists f: Task ::
           && IsGreatest(le, k.manager.readyQueue, f)
           && multiset(k'.manager.readyQueue) + multiset{f} == multiset(k.manager.readyQueue)
           && t == Dispatched(stride, f, now)
  {
    var fetched := Fetch(le, k.manager);
    match fetched.task
    case None => k
    case Some(t) => Kernel(fetched.manager, Processor(Some(Dispatched(stride, t, now))))
  }

  /** No task waiting in the ready queue is marked Running. */
  ghost predicate NoneRunningQueued(k: Kernel) {
    forall t :: t in k.manager.readyQueue ==> t.status != Running
  }

  /** A dispatch step keeps the queued tasks away from Running: the only
      task it marks Running is the one it takes out and installs. */
  lemma RunTasksStepKeepsQueueReady(le: (nat, nat) -> bool, stride: (nat, nat) -> nat, k: Kernel, now: Usize)
    requires TotalOrder(le)
    requires NoneRunningQueued(k)
    ensures NoneRunningQueued(RunTasksStep(le, stride, k, now))
  {
    var fetched := Fetch(le, k.manager);
    if fetched.task.Some? {
      forall t | t in fetched.manager.readyQueue
        ensures t.status != Running
      {
        assert t in multiset(fetched.manager.readyQueue);
        assert t in multiset(k.manager.readyQueue);
      }
    }
  }

  /** When the ready queue holds exactly one task, a dispatch step runs it
      and leaves the queue empty. */
  lemma OnlyQueuedTaskRuns(le: (nat, nat) -> bool, stride: (nat, nat) -> nat, k: Kernel, t: Task, now: Usize)
    requires TotalOrder(le)
    requires multiset(k.manager.readyQueue) == multiset{t}
    ensures RunTasksStep(le, stride, k, now).processor.current == Some(Dispatched(stride, t, now))
    ensures |RunTasksStep(le, stride, k, now).manager.readyQueue| == 0
  {
    var q := k.manager.readyQueue;
    assert |q| == |multiset(q)| == 1;
    var k' := RunTasksStep(le, stride, k, now);
    var f :| && IsGreatest(le, q, f)
             && multiset(k'.manager.readyQueue) + multiset{f} == multiset(q)
             && k'.processor.current.value == Dispatched(stride, f, now);
    assert f in multiset(q);
    assert f == t;
    assert |multiset(k'.manager.readyQueue)| == 0;
  }

  /** The first-dispatch time is stamped once: dispatching a task again,
      at any later time, keeps the time of its first dispatch, while its
      pass advances by a further stride. */
  lemma StartTimeStampedOnce(stride: (nat, nat) -> nat, t: Task, first: Usize, later: Usize)
    ensures Dispatched(stride, Dispatched(stride, t, first), later).startTime
         == (if t.started then t.startTime else first)
    ensures Dispatched(stride, Dispatched(stride, t, first), later).pass
         == stride(stride(t.pass, t.prio), t.prio)
  {
  }

  /** `inc_task_syscall_times`: bumps the current task's counter for one
      syscall. Panics when no task is current or the id is out of range. */
  function IncTaskSyscallTimes(k: Kernel, id: nat): (r: Checked<Kernel>)
    ensures r.Panic? <==>
      k.processor.current.None? || id >= |k.processor.current.value.syscallTimes|
    ensures r.Ok? ==>
      var t := k.processor.current.value;
      && r.value.manager == k.manager
      && r.value.processor.current.Some?
      && var t' := r.value.processor.current.value;
         && |t'.syscallTimes| == |t.syscallTimes|
         && t'.syscallTimes[id] == WrappingIncU32(t.syscallTimes[id])
         && (forall j :: 0 <= j < |t.syscallTimes| && j != id ==> t'.syscallTimes[j] == t.syscallTimes[j])
         && t'.(syscallTimes := t.syscallTimes) == t
  {
    match k.processor.current
    case None => Panic
    case Some(t) =>
      if id < |t.syscallTimes| then
        var times := t.syscallTimes[id := WrappingIncU32(t.syscallTimes[id])];
        Ok(k.(processor := Processor(Some(t.(syscallTimes := times)))))
      else Panic
  }

  /** `n` successive calls of `inc_task_syscall_times(id)`. */
  function IncRepeated(k: Kernel, id: nat, n: nat): Checked<Kernel>
    decreases n
  {
    if n == 0 then Ok(k)
    else match IncTaskSyscallTimes(k, id)
      case Panic => Panic
      case Ok(k1) => IncRepeated(k1, id, n - 1)
  }

  /** After `n` invocations of a syscall the current task's counter for it
      has grown by exactly `n` modulo 2^32 (the `u32` counter wraps), and
      every other counter and field is as before. */
  lemma {:induction false} IncRepeatedCounts(k: Kernel, id: nat, n: nat)
    requires k.processor.current.Some?
    requires id < |k.processor.current.value.syscallTimes|
    ensures IncRepeated(k, id, n).Ok?
    ensures var t := k.processor.current.value;
      && IncRepeated(k, id, n).value.manager == k.manager
      && IncRepeated(k, id, n).value.processor.current
         == Some(t.(syscallTimes := t.syscallTimes[id := (t.syscallTimes[id] + n) % U32_MODULUS]))
    decreases n
  {
    var t := k.processor.current.value;
    if n == 0 {
      assert t.syscallTimes[id := t.syscallTimes[id] % U32_MODULUS] == t.syscallTimes;
    } else {
      var k1 := IncTaskSyscallTimes(k, id).value;
      var t1 := k1.processor.current.value;
      assert t1 == t.(syscallTimes := t.syscallTimes[id := (t.syscallTimes[id] + 1) % U32_MODULUS]);
      IncRepeatedCounts(k1, id, n - 1);
      var c: nat := t.syscallTimes[id] as nat + 1;
      ModAddAssoc(c, n - 1);
      assert t1.syscallTimes[id := (t1.syscallTimes[id] + (n - 1)) % U32_MODULUS]
          == t.syscallTimes[id := (t.syscallTimes[id] + n) % U32_MODULUS];
    }
  }

  /** Reducing before adding does not change a sum modulo 2^32. */
  lemma ModAddAssoc(a: nat, b: nat)
    ensures (a % U32_MODULUS + b) % U32_MODULUS == (a + b) % U32_MODULUS
  {
  }

  /** `get_current_task_info`: status and counters copied from the current
      task, elapsed whole milliseconds since its first dispatch; the
      difference of the two clock readings wraps modulo 2^64 when the
      clock reads less than the start time. Panics
      when no task is current or the counter table does not have exactly
      `MAX_SYSCALL_NUM` entries (the fixed-size array conversion fails). */
  function GetCurrentTaskInfo(k: Kernel, now: Usize): (r: Checked<TaskInfo>)
    ensures r.Panic? <==>
      k.processor.current.None? || |k.processor.current.value.syscallTimes| != MAX_SYSCALL_NUM
    ensures r.Ok? ==>
      var t := k.processor.current.value;
      && r.value.status == t.status
      && r.value.syscallTimes == t.syscallTimes
      && (t.startTime <= now ==>
            r.value.time * 1000 <= now - t.startTime < r.value.time * 1000 + 1000)
      && (now < t.startTime ==>
            r.value.time * 1000 <= now + USIZE_MODULUS - t.startTime < r.value.time * 1000 + 1000)
  {
    match k.processor.current
    case None => Panic
    case Some(t) =>
      if |t.syscallTimes| != MAX_SYSCALL_NUM then Panic
      else Ok(TaskInfo(t.status, t.syscallTimes, WrappingSub(now, t.startTime) / 1000))
  }

  /** `set_current_task_prio`: overwrites the current task's priority and
      nothing else. Panics when no task is current. */
  function SetCurrentTaskPrio(k: Kernel, prio: nat): (r: Checked<Kernel>)
    ensures r.Panic? <==> k.processor.current.None?
    ensures r.Ok? ==>
      && r.value.manager == k.manager
      && r.value.processor.current.Some?
      && r.value.processor.current.value.prio == prio
      && r.value.processor.current.value.(prio := k.processor.current.value.prio)
         == k.processor.current.value
  {
    match k.processor.current
    case None => Panic
    case Some(t) => Ok(k.(processor := Processor(Some(t.(prio := prio)))))
  }

  /** `mmap` of the processor module: forwards to the current task's
      address space, whose `MemorySet::map` is the parameter `mapRange`.
      Panics when no task is current. */
  function MmapCurrent(k: Kernel, mapRange: (Usize, Usize, nat) -> Isize,
                       start: Usize, end: Usize, port: nat): (r: Checked<Isize>)
    ensures r.Panic? <==> k.processor.current.None?
    ensures r.Ok? ==> r.value == mapRange(start, end, port)
  {
    if k.processor.current.None? then Panic else Ok(mapRange(start, end, port))
  }

  /** `munmap` of the processor module: forwards to the current task's
      address space, whose `MemorySet::unmap` is the parameter `unmapRange`.
      Panics when no task is current. */
  function MunmapCurrent(k: Kernel, unmapRange: (Usize, Usize) -> Isize,
                         start: Usize, end: Usize): (r: Checked<Isize>)
    ensures r.Panic? <==> k.processor.current.None?
    ensures r.Ok? ==> r.value == unmapRange(start, end)
  {
    if k.processor.current.None? then Panic else Ok(unmapRange(start, end))
  }
}
