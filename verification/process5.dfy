/** The process-management syscalls of the kernel stage with processes
    and stride scheduling (os5): `waitpid`, `get_time`, `task_info`,
    `set_priority`, `mmap`/`munmap` argument checks, `getpid`, and the
    result codes of `fork`, `exec` and `spawn`.

    Every syscall starts by asking the processor for the current task, and
    `unwrap()`s it: with no current task the kernel panics (`Panic`).
    Writes into user memory (the exit code of `waitpid`, the `TimeVal`,
    the `TaskInfo`) are returned as values instead of going through pointer
    translation. The timer reading, the program loader, the address
    space's `map`/`unmap`, and `TaskControlBlock::fork`/`exec`/`spawn` are
    parameters. */
module Process5 {
  import opened Machine
  import opened Tasks
  import opened Manager
  import opened Processor
  import opened UserArgs

  /** A syscall's return value together with the kernel state after it. */
  datatype SysReturn = SysReturn(ret: Isize, kernel: Kernel)

  // ---------------------------------------------------------------- waitpid

  /** Child `c` is selected by the `pid` argument of `waitpid`: `-1` selects
      every child, anything else is cast to `usize` and compared. */
  predicate Selects(pid: Isize, c: Child) {
    pid == -1 || UsizeOf(pid) == c.pid
  }

  /** Some child is selected by `pid`. */
  ghost predicate AnySelected(children: seq<Child>, pid: Isize) {
    exists i :: 0 <= i < |children| && Selects(pid, children[i])
  }

  /** Child `c` is selected and has exited: `waitpid` may reap it. */
  predicate Reapable(pid: Isize, c: Child) {
    c.zombie && Selects(pid, c)
  }

  /** Index of the first reapable child in list order, if any. */
  function FirstReapable(children: seq<Child>, pid: Isize): (r: Option<nat>)
    ensures r.None? <==> forall i :: 0 <= i < |children| ==> !Reapable(pid, children[i])
    ensures r.Some? ==>
      && r.value < |children|
      && Reapable(pid, children[r.value])
      && forall j :: 0 <= j < r.value ==> !Reapable(pid, children[j])
  {
    if |children| == 0 then None
    else if Reapable(pid, children[0]) then Some(0)
    else match FirstReapable(children[1..], pid)
      case None => None
      case Some(i) => Some(i + 1)
  }

  /** The three non-fatal outcomes of `waitpid` on a child list. */
  datatype WaitOutcome =
    | NoSuchChild
    | NotYetZombie
    | Reaped(child: Child, remaining: seq<Child>)

  /** The value `waitpid` returns for an outcome. */
  function WaitCode(o: WaitOutcome): Isize {
    match o
    case NoSuchChild => -1
    case NotYetZombie => -2
    case Reaped(c, _) => IsizeOf(c.pid)
  }

  /** `sys_waitpid` on the caller's child list: no selected child gives
      `NoSuchChild`; selected children none of which has exited give
      `NotYetZombie`; otherwise the first reapable child is removed from the
      list and returned. Removing it must drop its last owner: a strong
      count other than 1 is a failed assertion. */
  function Waitpid(children: seq<Child>, pid: Isize): (r: Checked<WaitOutcome>)
    ensures r == Ok(NoSuchChild) <==> !AnySelected(children, pid)
    ensures r == Ok(NotYetZombie) <==>
      AnySelected(children, pid) && FirstReapable(children, pid).None?
    ensures r.Panic? <==>
      && FirstReapable(children, pid).Some?
      && children[FirstReapable(children, pid).value].strongCount != 1
    ensures r.Ok? && r.value.Reaped? ==>
      && FirstReapable(children, pid).Some?
      && var i := FirstReapable(children, pid).value;
         && r.value.child == children[i]
         && r.value.remaining == children[..i] + children[i + 1..]
  {
    if !exists i :: 0 <= i < |children| && Selects(pid, children[i]) then Ok(NoSuchChild)
    else match FirstReapable(children, pid)
      case None => Ok(NotYetZombie)
      case Some(i) =>
        if children[i].strongCount != 1 then Panic
        else Ok(Reaped(children[i], children[..i] + children[i + 1..]))
  }

  /** A reaped child was a child at call time, it was selected and a
      zombie, exactly one entry is gone, and the rest keep their order. */
  lemma WaitpidReapsOneChild(children: seq<Child>, pid: Isize)
    requires Waitpid(children, pid).Ok? && Waitpid(children, pid).value.Reaped?
    ensures var o := Waitpid(children, pid).value;
      && o.child in children
      && o.child.zombie
      && Selects(pid, o.child)
      && |o.remaining| == |children| - 1
      && multiset(o.remaining) + multiset{o.child} == multiset(children)
  {
    var i := FirstReapable(children, pid).value;
    assert children == children[..i] + [children[i]] + children[i + 1..];
  }

  /** With a specific pid, the value returned on success is that pid. */
  lemma WaitpidReturnsRequestedPid(children: seq<Child>, pid: Isize)
    requires pid != -1
    requires Waitpid(children, pid).Ok? && Waitpid(children, pid).value.Reaped?
    ensures WaitCode(Waitpid(children, pid).value) == pid
  {
    CastRoundTrip(pid, 0);
  }

  /** Waiting with no children at all reports no such child; waiting for
      any child when none has exited reports that none is a zombie yet. */
  lemma WaitpidWithoutZombies(children: seq<Child>)
    ensures Waitpid([], -1) == Ok(NoSuchChild)
    ensures |children| > 0 && (forall i :: 0 <= i < |children| ==> !children[i].zombie) ==>
      Waitpid(children, -1) == Ok(NotYetZombie)
  {
    if |children| > 0 {
      assert Selects(-1, children[0]);
    }
  }

  /** When every exited child's handle is its last owner, `waitpid` never
      panics. */
  lemma WaitpidSoleOwnerNoPanic(children: seq<Child>, pid: Isize)
    requires forall i :: 0 <= i < |children| && children[i].zombie ==> children[i].strongCount == 1
    ensures Waitpid(children, pid).Ok?
  {
  }

  /** What `sys_waitpid` hands back: the return value, the new kernel
      state, and the exit code stored through the caller's pointer. */
  datatype WaitReturn = WaitReturn(ret: Isize, kernel: Kernel, exitCode: Option<I32>)

  /** `sys_waitpid` on the current task. Unless a child is reaped, nothing
      changes and nothing is written. A reaped child is the first reapable
      entry of the current task's child list; that entry alone leaves the
      list, its pid is returned and its exit code written out. The ready
      queue is never touched. */
  function SysWaitpid(k: Kernel, pid: Isize): (r: Checked<WaitReturn>)
    ensures r.Panic? <==>
      k.processor.current.None? || Waitpid(k.processor.current.value.children, pid).Panic?
    ensures r.Ok? ==> r.value.kernel.manager == k.manager && r.value.kernel.processor.current.Some?
    ensures r.Ok? ==>
      var o := Waitpid(k.processor.current.value.children, pid).value;
      && r.value.ret == WaitCode(o)
      && (r.value.exitCode.Some? <==> o.Reaped?)
    ensures r.Ok? && r.value.exitCode.None? ==>
      && r.value.kernel == k
      && (r.value.ret == -1 <==> !AnySelected(k.processor.current.value.children, pid))
      && (r.value.ret == -1 || r.value.ret == -2)
    ensures r.Ok? && r.value.exitCode.Some? ==>
      var t := k.processor.current.value;
      exists i :: 0 <= i < |t.children| && Reapable(pid, t.children[i])
        && (forall j :: 0 <= j < i ==> !Reapable(pid, t.children[j]))
        && r.value.ret == IsizeOf(t.children[i].pid)
        && r.value.exitCode == Some(t.children[i].exitCode)
        && r.value.kernel.processor.current == Some(t.(children := t.children[..i] + t.children[i + 1..]))
  {
    match k.processor.current
    case None => Panic
    case Some(t) =>
      match Waitpid(t.children, pid)
      case Panic => Panic
      case Ok(Reaped(c, rest)) =>
        var k' := k.(processor := Processor(Some(t.(children := rest))));
        Ok(WaitReturn(IsizeOf(c.pid), k', Some(c.exitCode)))
      case Ok(o) => Ok(WaitReturn(WaitCode(o), k, None))
  }

  // ------------------------------------------------------- time and info

  /** `sys_get_time`: returns 0 and writes the clock reading `now` split into
      seconds and microseconds. */
  function SysGetTime(k: Kernel, now: Usize): (r: Checked<(Isize, TimeVal)>)
    ensures r.Panic? <==> k.processor.current.None?
    ensures r.Ok? ==>
      && r.value.0 == 0
      && r.value.1.usec < 1_000_000
      && r.value.1.sec * 1_000_000 + r.value.1.usec == now
  {
    if k.processor.current.None? then Panic else Ok((0, SplitMicros(now)))
  }

  /** `sys_task_info`: returns 0 and writes the current task's info. */
  function SysTaskInfo(k: Kernel, now: Usize): (r: Checked<(Isize, TaskInfo)>)
    ensures r.Panic? <==> GetCurrentTaskInfo(k, now).Panic?
    ensures r.Ok? ==>
      && r.value.0 == 0
      && r.value.1 == GetCurrentTaskInfo(k, now).value
      && r.value.1.status == k.processor.current.value.status
      && r.value.1.syscallTimes == k.processor.current.value.syscallTimes
  {
    match GetCurrentTaskInfo(k, now)
    case Panic => Panic
    case Ok(info) => Ok((0, info))
  }

  /** `sys_getpid`: the current task's pid, cast to `isize`. */
  function SysGetpid(k: Kernel): (r: Checked<Isize>)
    ensures r.Panic? <==> k.processor.current.None?
    ensures r.Ok? ==> UsizeOf(r.value) == k.processor.current.value.pid
  {
    match k.processor.current
    case None => Panic
    case Some(t) => Ok(IsizeOf(t.pid))
  }

  // ----------------------------------------------------------- priority

  /** `sys_set_priority`: a priority of 1 or less is refused with -1 and
      nothing changes (the current task is not even looked up); otherwise
      the current task's priority becomes `prio`, which is returned. */
  function SysSetPriority(k: Kernel, prio: Isize): (r: Checked<SysReturn>)
    ensures prio <= 1 ==> r == Ok(SysReturn(-1, k))
    ensures 1 < prio ==> (r.Panic? <==> k.processor.current.None?)
    ensures 1 < prio && r.Ok? ==>
      && r.value.ret == prio
      && r.value.kernel.manager == k.manager
      && r.value.kernel.processor.current == Some(k.processor.current.value.(prio := prio))
  {
    if prio <= 1 then Ok(SysReturn(-1, k))
    else match SetCurrentTaskPrio(k, prio)
      case Panic => Panic
      case Ok(k') => Ok(SysReturn(prio, k'))
  }

  /** The stride step needs a priority of at least 2, and `set_priority`
      keeps it so: a task that starts with such a priority still has one
      afterwards, whatever was asked, and its next dispatch advances its
      pass by one stride of the priority now in force. */
  lemma SetPriorityKeepsStrideSafe(stride: (nat, nat) -> nat, k: Kernel, prio: Isize, now: Usize)
    requires k.processor.current.Some? && k.processor.current.value.prio >= 2
    ensures SysSetPriority(k, prio).Ok?
    ensures var t := SysSetPriority(k, prio).value.kernel.processor.current.value;
      var t0 := k.processor.current.value;
      && t.prio >= 2
      && t.prio == (if prio <= 1 then t0.prio else prio)
      && Dispatched(stride, t, now).pass == stride(t0.pass, t.prio)
  {
  }

  // ------------------------------------------------------- mmap / munmap

  /** The arguments `sys_mmap` forwards to the address space, if its checks
      pass: start, end (`start + len`, wrapping), and the permission bits. */
  datatype MapRequest = MapRequest(start: Usize, end: Usize, port: nat)

  /** The checks of `sys_mmap`: a start with a non-zero page offset, an
      empty permission set, or a permission word with bits outside the low
      three are refused; otherwise the range `[start, start + len)` is
      requested with the permission word unchanged. */
  function MmapRequest(start: Usize, len: Usize, port: Usize): (r: Option<MapRequest>)
    ensures r.None? <==> start % PAGE_SIZE != 0 || port == 0 || port >= 8
    ensures r.Some? ==> r.value == MapRequest(start, WrappingAdd(start, len), port)
  {
    if !PageAligned(start) then None
    else if !PermissionOk(port) then None
    else Some(MapRequest(start, WrappingAdd(start, len), PermissionBits(port)))
  }

  /** `sys_mmap`: -1 when the checks refuse, without touching the address
      space; otherwise whatever the address space's `map` returns. */
  function SysMmap(k: Kernel, mapRange: (Usize, Usize, nat) -> Isize,
                   start: Usize, len: Usize, port: Usize): (r: Checked<Isize>)
    ensures MmapRequest(start, len, port).None? ==> r == Ok(-1)
    ensures MmapRequest(start, len, port).Some? ==>
      && (r.Panic? <==> k.processor.current.None?)
      && (r.Ok? ==> r.value == mapRange(start, WrappingAdd(start, len), port))
  {
    match MmapRequest(start, len, port)
    case None => Ok(-1)
    case Some(req) => MmapCurrent(k, mapRange, req.start, req.end, req.port)
  }

  /** `sys_munmap`: -1 for a start with a non-zero page offset, otherwise
      whatever the address space's `unmap` of `[start, start + len)` returns. */
  function SysMunmap(k: Kernel, unmapRange: (Usize, Usize) -> Isize,
                     start: Usize, len: Usize): (r: Checked<Isize>)
    ensures start % PAGE_SIZE != 0 ==> r == Ok(-1)
    ensures start % PAGE_SIZE == 0 ==>
      && (r.Panic? <==> k.processor.current.None?)
      && (r.Ok? ==> r.value == unmapRange(start, WrappingAdd(start, len)))
  {
    if !PageAligned(start) then Ok(-1)
    else MunmapCurrent(k, unmapRange, start, WrappingAdd(start, len))
  }

  // ------------------------------------------------ fork / exec / spawn

  /** `sys_fork`: `forked` is the control block `TaskControlBlock::fork`
      built for the child. Its saved a0 is set to 0, so the child sees 0;
      it joins the ready queue; the parent gets the child's pid. */
  function SysFork(k: Kernel, forked: Task): (r: Checked<SysReturn>)
    ensures r.Panic? <==> k.processor.current.None?
    ensures r.Ok? ==>
      && r.value.ret == IsizeOf(forked.pid)
      && r.value.kernel.processor == k.processor
      && multiset(r.value.kernel.manager.readyQueue)
         == multiset(k.manager.readyQueue) + multiset{forked.(trapA0 := 0)}
  {
    if k.processor.current.None? then Panic
    else Ok(SysReturn(IsizeOf(forked.pid), k.(manager := Add(k.manager, forked.(trapA0 := 0)))))
  }

  /** `sys_exec`: if the loader knows `path`, the current task is replaced
      in place by `exec` (the control block's own `exec`) and 0 returned;
      otherwise -1 and nothing changes. */
  function SysExec(k: Kernel, programs: map<string, seq<U8>>,
                   exec: (Task, seq<U8>) -> Task, path: string): (r: Checked<SysReturn>)
    ensures r.Panic? <==> k.processor.current.None?
    ensures r.Ok? && path !in programs ==> r.value == SysReturn(-1, k)
    ensures r.Ok? && path in programs ==>
      && r.value.ret == 0
      && r.value.kernel == k.(processor := Processor(Some(exec(k.processor.current.value, programs[path]))))
  {
    match k.processor.current
    case None => Panic
    case Some(t) =>
      if path in programs then Ok(SysReturn(0, k.(processor := Processor(Some(exec(t, programs[path]))))))
      else Ok(SysReturn(-1, k))
  }

  /** `sys_spawn`: if the loader knows `path`, `spawn` (the control block's
      own `spawn`) builds a new child straight from the image, it joins the
      ready queue and its pid is returned; otherwise -1 and nothing changes. */
  function SysSpawn(k: Kernel, programs: map<string, seq<U8>>,
                    spawn: (Task, seq<U8>) -> Task, path: string): (r: Checked<SysReturn>)
    ensures r.Panic? <==> k.processor.current.None?
    ensures r.Ok? && path !in programs ==> r.value == SysReturn(-1, k)
    ensures r.Ok? && path in programs ==>
      var child := spawn(k.processor.current.value, programs[path]);
      && r.value.ret == IsizeOf(child.pid)
      && r.value.kernel.processor == k.processor
      && multiset(r.value.kernel.manager.readyQueue) == multiset(k.manager.readyQueue) + multiset{child}
  {
    match k.processor.current
    case None => Panic
    case Some(t) =>
      if path in programs then
        var child := spawn(t, programs[path]);
        Ok(SysReturn(IsizeOf(child.pid), k.(manager := Add(k.manager, child))))
      else Ok(SysReturn(-1, k))
  }

  /** A forked child is queued exactly once, with a0 = 0; on an otherwise
      empty ready queue it is the task the next dispatch step runs, so the
      child resumes seeing 0. */
  lemma ForkedChildRunsNext(le: (nat, nat) -> bool, stride: (nat, nat) -> nat,
                            k: Kernel, forked: Task, now: Usize)
    requires TotalOrder(le)
    requires k.processor.current.Some? && |k.manager.readyQueue| == 0
    ensures SysFork(k, forked).Ok?
    ensures var q := SysFork(k, forked).value.kernel.manager.readyQueue;
      multiset(q)[forked.(trapA0 := 0)] == 1
    ensures var k' := RunTasksStep(le, stride, SysFork(k, forked).value.kernel, now);
      && k'.processor.current == Some(Dispatched(stride, forked.(trapA0 := 0), now))
      && k'.processor.current.value.trapA0 == 0
      && |k'.manager.readyQueue| == 0
  {
    var child := forked.(trapA0 := 0);
    var k1 := SysFork(k, forked).value.kernel;
    assert multiset(k1.manager.readyQueue) == multiset{child};
    OnlyQueuedTaskRuns(le, stride, k1, child, now);
  }

  /** A spawned child is queued exactly once; on an otherwise empty ready
      queue it is the task the next dispatch step runs. */
  lemma SpawnedChildRunsNext(le: (nat, nat) -> bool, stride: (nat, nat) -> nat, k: Kernel,
                             programs: map<string, seq<U8>>, spawn: (Task, seq<U8>) -> Task,
                             path: string, now: Usize)
    requires TotalOrder(le)
    requires k.processor.current.Some? && |k.manager.readyQueue| == 0 && path in programs
    ensures SysSpawn(k, programs, spawn, path).Ok?
    ensures var child := spawn(k.processor.current.value, programs[path]);
      var k1 := SysSpawn(k, programs, spawn, path).value.kernel;
      && multiset(k1.manager.readyQueue)[child] == 1
      && RunTasksStep(le, stride, k1, now).processor.current == Some(Dispatched(stride, child, now))
  {
    var child := spawn(k.processor.current.value, programs[path]);
    var k1 := SysSpawn(k, programs, spawn, path).value.kernel;
    assert multiset(k1.manager.readyQueue) == multiset{child};
    OnlyQueuedTaskRuns(le, stride, k1, child, now);
  }
}
