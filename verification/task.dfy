/** The task control block as the scheduler, the dispatcher and the
    process syscalls see it. */
module Tasks {
  import opened Machine

  /** Lifecycle state of a task. */
  datatype TaskStatus = UnInit | Ready | Running | Zombie

  /** A parent's owning handle on one child task: the child's pid, whether it
      has exited, its exit code, and the strong count of the handle
      (how many owners the child's control block has). */
  datatype Child = Child(pid: Usize, zombie: bool, exitCode: I32, strongCount: nat)

  /** The mutable part of a task control block that this model tracks.
      `pass` is the stride scheduler's accumulated pass value; its ordering
      and the stride step are parameters of the modules that use them.
      `trapA0` is register a0 of the saved trap context (the value a
      syscall appears to return when the task resumes). */
  datatype Task = Task(
    pid: Usize,
    status: TaskStatus,
    prio: nat,
    pass: nat,
    started: bool,
    startTime: Usize,
    syscallTimes: seq<U32>,
    children: seq<Child>,
    trapA0: int
  )

  /** What `sys_task_info` hands back to user space. */
  datatype TaskInfo = TaskInfo(status: TaskStatus, syscallTimes: seq<U32>, time: Usize)

  /** Seconds and microseconds, as written by `sys_get_time`. */
  datatype TimeVal = TimeVal(sec: Usize, usec: Usize)

  /** Number of syscall identifiers the per-task counter table covers. */
  const MAX_SYSCALL_NUM: nat := 500
}
