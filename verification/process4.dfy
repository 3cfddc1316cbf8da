/** The process syscalls of the earlier kernel stage with address spaces but
    no processes (os4). Its `set_priority` refuses everything and its
    `mmap`/`munmap` only check their arguments: they map nothing. */
module Process4 {
  import opened Machine
  import opened Tasks
  import opened UserArgs
  import Process5

  /** `sys_get_time`: returns 0 and writes the clock reading `now` split into
      seconds and microseconds. */
  function SysGetTime(now: Usize): (r: (Isize, TimeVal))
    ensures r.0 == 0
    ensures r.1.usec < 1_000_000
    ensures r.1.sec * 1_000_000 + r.1.usec == now
  {
    (0, SplitMicros(now))
  }

  /** `sys_set_priority`: this stage has no scheduler priorities. */
  function SysSetPriority(prio: Isize): (r: Isize)
    ensures r == -1
  {
    -1
  }

  /** `sys_mmap`: -1 for a misaligned start or a permission word that is
      zero or has bits outside read/write/execute; 0 otherwise. The length
      is rounded up and then ignored. */
  function SysMmap(start: Usize, len: Usize, port: Usize): (r: Isize)
    ensures r == -1 <==> start % PAGE_SIZE != 0 || port == 0 || port >= 8
    ensures r != -1 ==> r == 0
  {
    if !PageAligned(start) then -1
    else if !PermissionOk(port) then -1
    else 0
  }

  /** `sys_munmap`: -1 for a misaligned start, 0 otherwise. */
  function SysMunmap(start: Usize, len: Usize): (r: Isize)
    ensures r == -1 <==> start % PAGE_SIZE != 0
    ensures r != -1 ==> r == 0
  {
    if !PageAligned(start) then -1 else 0
  }

  /** The stub `mmap` refuses exactly the arguments the later stage refuses
      before reaching the address space, and it accepts the rest. */
  lemma MmapChecksAgreeAcrossStages(start: Usize, len: Usize, port: Usize)
    ensures SysMmap(start, len, port) == -1 <==> Process5.MmapRequest(start, len, port).None?
  {
  }
}
