# rCore teaching kernel: process syscalls, stride scheduling, easy-fs links

This project models the sequential core of a rCore-based teaching kernel in
Dafny and proves properties of it. The kernel is a Rust, RISC-V kernel built
up in lab stages (os4, os5, ...), with the easy-fs file system beneath it.

The model covers four parts:

- **Process syscalls of stage os5** (`process5.dfy`, `user_args.dfy`):
  - `sys_waitpid` over the current task's ordered child list;
  - `sys_get_time`, which splits microseconds into seconds and microseconds;
  - `sys_task_info` and `sys_getpid`;
  - `sys_set_priority`, which rejects a priority of 1 or less;
  - the argument checks of `sys_mmap` and `sys_munmap`: page alignment and
    the three permission bits. The address-space call they delegate to is a
    parameter;
  - the result codes and scheduler effect of `sys_fork`, `sys_exec` and
    `sys_spawn`.
- **The stub syscalls of stage os4** (`process4.dfy`): `get_time`,
  `set_priority` (always -1), and `mmap`/`munmap`, which only validate their
  arguments.
- **The stride scheduler** (`manager.dfy`, `processor.dfy`):
  - the ready queue, a max-heap keyed on each task's `pass`, with
    `add`/`fetch`. The order on passes is a parameter, required only to be a
    total order;
  - the processor slot, with `take_current` and `current`;
  - one iteration of the `run_tasks` dispatch loop;
  - the syscall counter bump;
  - the `task_info` elapsed-time computation;
  - priority setting;
  - forwarding `mmap`/`munmap` to the current address space.
- **The easy-fs VFS layer over the root directory** (`vfs.dfy`,
  `vfs_links.dfy`, `vfs_invariant.dfy`):
  - the directory is a sequence of `(name, inode number)` slots, and disk
    inodes are a map;
  - operations: `find_inode_id`, `add_new_entry`, `create`, `ls`, `clear`,
    the guard in `increase_size`, `stat`, `linkat` and `unlinkat`, with the
    link-count bookkeeping and data freeing of `unlinkat`;
  - when `add_new_entry` appends a slot, the root directory (inode 0) grows
    through `increase_size`, and the blocks the data allocator hands out
    leave the free set;
  - `VfsInvariant.Valid` is a directory invariant: the root (inode 0) is a
    directory with at least one link, free slots are all zeros, live names
    are non-empty and unique, and each inode other than the root has an
    `nlink` equal to the number of slots that refer to it. The model proves
    that three operations preserve it:
    - `create` of a non-empty name;
    - the corrected `linkat` to a non-empty new name, from any old name, in
      a directory with fewer than 2^32 - 1 slots;
    - the corrected `unlinkat`, for every name.

    As written in the source, `linkat` breaks the invariant in two cases:
    when the new name already exists, and when the old name is empty. An
    empty name resolves through a freed slot to the root. `unlinkat` breaks
    the invariant when given the empty name. See "## Findings".

Machine integers are subset types (`Usize`, `Isize`, `U32`, `I32`). The
wrapping arithmetic and two's-complement casts of the source are written out
in `common.dfy`. Integer overflow is modelled as a release build of the
kernel behaves: the arithmetic wraps, where a debug build would panic. This
applies to `start + len` in `sys_mmap`/`sys_munmap`, to `now - start_time`
in `get_current_task_info`, to the syscall counter in
`inc_task_syscall_times`, and to `nlink` in `link`/`unlink`. A Rust `unwrap` of `None`, an out-of-range index and a
failed `assert_eq!` are modelled as `Checked.Panic`. Hardware and foreign
calls become parameters:

- the microsecond timer is `now`;
- the program loader is a map from names to images;
- the address space's `map`/`unmap` are functions returning `isize`;
- the control block's `fork`/`exec`/`spawn` are supplied tasks or functions;
- the inode allocator supplies a fresh inode number, and the data allocator
  supplies the blocks a growing directory receives.

## Model

| member | source | states |
|---|---|---|
| Machine.UsizeOf | os5/src/syscall/process.rs:75 | `pid as usize` is the two's-complement reinterpretation: non-negative values are kept and negative ones are shifted by 2^64 |
| Machine.IsizeOf | os5/src/syscall/process.rs:94 | `found_pid as isize` reinterprets a `usize` in two's complement and is inverse to `UsizeOf` |
| Machine.CastRoundTrip | os5/src/syscall/process.rs:75-94 | casting `isize` to `usize` and back, or `usize` to `isize` and back, is the identity |
| UserArgs.PermissionOkExactly | os5/src/syscall/process.rs:140-143 | the `port & 7` check accepts exactly the permission words 1 to 7, i.e. non-zero with no bits above the low three |
| UserArgs.SplitMicros | os5/src/syscall/process.rs:111-114 | the time split gives `usec < 1_000_000` and `sec * 1_000_000 + usec == us` |
| UserArgs.SplitMicrosRoundTrip | os5/src/syscall/process.rs:111-114 | the split is the only pair with those two properties, so it is recovered from any valid `TimeVal` of the same microseconds |
| Process5.FirstReapable | os5/src/syscall/process.rs:80-84 | the `find` over children returns the first index whose child is a zombie and matches the pid, or nothing when no child is both |
| Process5.Waitpid | os5/src/syscall/process.rs:66-99 | returns -1 exactly when no child matches the pid; -2 exactly when children match but none is a zombie; otherwise removes the first matching zombie, keeping the others in order. It panics exactly when the removed child is still shared (strong count not 1) |
| Process5.WaitpidReapsOneChild | os5/src/syscall/process.rs:80-94 | a reap shortens the child list by exactly one, and the multiset of remaining children is the original minus the reaped one |
| Process5.WaitpidReturnsRequestedPid | os5/src/syscall/process.rs:75-94 | for `pid != -1` a reaped child's pid is `pid` as `usize` |
| Process5.WaitpidWithoutZombies | os5/src/syscall/process.rs:72-97 | with `pid == -1`, no children gives -1; children of which none is a zombie give -2 |
| Process5.WaitpidSoleOwnerNoPanic | os5/src/syscall/process.rs:88 | when every zombie child is held only by its parent, waitpid never panics |
| Process5.SysWaitpid | os5/src/syscall/process.rs:66-99 | on the kernel state, the return value is the one `Waitpid` decides for the current task's children, and an exit code is written exactly when a child is reaped. -1/-2 leave everything unchanged; a reap returns the pid, writes the exit code and removes that child only; the ready queue is never touched |
| Process5.SysGetTime | os5/src/syscall/process.rs:102-116 | returns 0 with `usec < 1_000_000` and `sec * 1_000_000 + usec == now`; panics only without a current task |
| Process5.SysTaskInfo | os5/src/syscall/process.rs:119-123 | returns 0 and writes exactly the `TaskInfo` that `get_current_task_info` reports: the current task's status and syscall counters unchanged, and the elapsed time |
| Process5.SysGetpid | os5/src/syscall/process.rs:32-34 | returns the current task's pid, cast so that casting back gives the pid |
| Process5.SysSetPriority | os5/src/syscall/process.rs:126-132 | a priority of 1 or less returns -1 and changes nothing; otherwise the current task's priority becomes `prio`, which is returned, and nothing else changes |
| Process5.SetPriorityKeepsStrideSafe | os5/src/syscall/process.rs:126-132 | a task whose priority is at least 2 keeps a priority of at least 2 after any `set_priority` call, namely the new one when it is accepted and the old one otherwise; its next dispatch strides by that priority |
| Process5.MmapRequest | os5/src/syscall/process.rs:135-145 | refused exactly when the start is misaligned, the port is 0 or the port has bits above the low three; otherwise it forwards `[start, start + len)` with the port unchanged |
| Process5.SysMmap | os5/src/syscall/process.rs:135-146 | -1 without consulting the address space when the checks refuse; otherwise exactly the address space's answer for the forwarded range |
| Process5.SysMunmap | os5/src/syscall/process.rs:148-155 | -1 for a misaligned start; otherwise exactly the address space's answer for `[start, start + len)` |
| Process5.SysFork | os5/src/syscall/process.rs:37-49 | the child joins the ready queue with saved a0 = 0, so the child sees 0 while the parent gets the child's pid; the processor slot is unchanged |
| Process5.SysExec | os5/src/syscall/process.rs:52-62 | an unknown path returns -1 and changes nothing; a known one replaces the current task with the exec'd image and returns 0 |
| Process5.SysSpawn | os5/src/syscall/process.rs:160-173 | an unknown path returns -1 and changes nothing; a known one adds the spawned child to the ready queue and returns its pid |
| Process5.ForkedChildRunsNext | os5/src/syscall/process.rs:37-49 | the forked child is queued exactly once with a0 = 0; on an otherwise empty ready queue the next dispatch step runs it and empties the queue |
| Process5.SpawnedChildRunsNext | os5/src/syscall/process.rs:160-173 | the spawned child is queued exactly once; on an otherwise empty ready queue the next dispatch step runs it |
| Process4.SysGetTime | os4/src/syscall/process.rs:35-51 | returns 0 with `usec < 1_000_000` and `sec * 1_000_000 + usec == now` |
| Process4.SysSetPriority | os4/src/syscall/process.rs:54-56 | every priority is refused with -1 |
| Process4.SysMmap | os4/src/syscall/process.rs:59-70 | -1 exactly for a misaligned start, port 0 or a port with bits above the low three; 0 otherwise |
| Process4.SysMunmap | os4/src/syscall/process.rs:72-79 | -1 exactly for a misaligned start; 0 otherwise |
| Process4.MmapChecksAgreeAcrossStages | os4/src/syscall/process.rs:59-67 | the stub refuses exactly the arguments that the os5 `sys_mmap` refuses before reaching the address space |
| Manager.HeapOrdLaws | os5/src/task/manager.rs:16-39 | the heap order compares passes only; `cmp` says Equal exactly when `eq` holds; and `cmp` is antisymmetric when the pass order is total |
| Manager.NewManager | os5/src/task/manager.rs:49-53 | a new manager has an empty ready queue |
| Manager.Add | os5/src/task/manager.rs:55-57 | the queue grows by exactly the given task, and every other element stays |
| Manager.MaxIndex | os5/src/task/manager.rs:59-61 | picks an index whose task's pass is at least every other task's pass under the order |
| Manager.Fetch | os5/src/task/manager.rs:59-61 | an empty queue gives None and stays empty; otherwise a task with the greatest pass is returned and the remaining multiset is the original minus that task |
| Manager.AddThenFetchEmpty | os5/src/task/manager.rs:55-61 | `add(t)` then `fetch()` on an empty queue returns `t` and leaves the queue empty |
| Manager.FetchTwiceOrdered | os5/src/task/manager.rs:59-61 | two successive fetches come out in non-increasing pass order |
| Manager.FetchKeepsOthers | os5/src/task/manager.rs:59-61 | every queued task other than the fetched one is still queued afterwards |
| Processor.TakeCurrent | os5/src/task/processor.rs:37-39 | returns the slot's previous content and leaves the slot empty |
| Processor.Current | os5/src/task/processor.rs:40-42 | returns the task that `take_current` would detach, without emptying the slot |
| Processor.TakeCurrentAfterCurrent | os5/src/task/processor.rs:37-42 | `current` returns what `take_current` then detaches, and a second `take_current` returns nothing |
| Processor.Dispatched | os5/src/task/processor.rs:60-68 | the dispatched task is Running and started; the start time is stamped only if the task had not started; the pass advances by one stride of its priority; no other field changes |
| Processor.RunTasksStep | os5/src/task/processor.rs:54-79 | an empty ready queue changes nothing; otherwise a greatest-pass task leaves the queue and is installed as current, dispatched |
| Processor.RunTasksStepKeepsQueueReady | os5/src/task/processor.rs:57-71 | if no queued task is Running before a dispatch step, none is after it |
| Processor.OnlyQueuedTaskRuns | os5/src/task/processor.rs:54-79 | with exactly one task ready, a dispatch step installs that task, dispatched, and leaves the queue empty |
| Processor.StartTimeStampedOnce | os5/src/task/processor.rs:63-68 | a second dispatch keeps the first dispatch's start time, and the pass advances by one more stride |
| Processor.IncTaskSyscallTimes | os5/src/task/processor.rs:106-111 | panics exactly without a current task or for an id out of range; otherwise only `syscall_times[id]` grows by one and everything else is unchanged |
| Processor.IncRepeatedCounts | os5/src/task/processor.rs:106-111 | n bumps of the same counter add n (mod 2^32) to it and leave the other counters alone |
| Processor.GetCurrentTaskInfo | os5/src/task/processor.rs:113-128 | panics exactly without a current task or when the counter vector does not have MAX_SYSCALL_NUM entries; otherwise reports status and counters unchanged, and `time` is the number of whole milliseconds in `now - start_time`, or in `now + 2^64 - start_time` when the clock reads less than the start time |
| Processor.SetCurrentTaskPrio | os5/src/task/processor.rs:146-148 | only the current task's priority changes |
| Processor.MmapCurrent | os5/src/task/processor.rs:130-136 | panics exactly without a current task; otherwise returns what the address space's `map` returns |
| Processor.MunmapCurrent | os5/src/task/processor.rs:138-144 | panics exactly without a current task; otherwise returns what the address space's `unmap` returns |
| Vfs.FindIndex | easy-fs/src/vfs.rs:49-60 | the index of the first slot with the name, or none exactly when no slot has it |
| Vfs.FindInodeId | easy-fs/src/vfs.rs:46-61 | the inode number of the first slot named `name`, or None exactly when no slot carries the name |
| Vfs.FirstFree | easy-fs/src/vfs.rs:98-106 | the first slot whose inode number is 0, or none exactly when every slot is in use |
| Vfs.AddNewEntry | easy-fs/src/vfs.rs:94-112 | reuses the first free slot with the directory unchanged; with no free slot, grows the directory by exactly one slot and returns the old slot count; earlier slots are kept |
| Vfs.InsertEntry | easy-fs/src/vfs.rs:137-142 | the chosen slot holds `(name, id)` and every other slot is as `add_new_entry` left it |
| Vfs.InsertEntryFindNew | easy-fs/src/vfs.rs:137-142 | an absent name, once inserted, resolves to the inode written with it |
| Vfs.InsertEntryFindOther | easy-fs/src/vfs.rs:137-142 | inserting a name does not change what another name with a live first slot resolves to |
| Vfs.Create | easy-fs/src/vfs.rs:114-154 | an existing name returns None and allocates nothing; otherwise the fresh inode becomes an empty File and `(name, id)` is written into the slot `add_new_entry` picked. Reusing a free slot leaves the root and the free set alone; appending one grows the root through `increase_size` with the allocated blocks; no other inode changes |
| Vfs.CreateThenFind | easy-fs/src/vfs.rs:114-154 | after a successful create the name resolves to the new inode, which is a File with one link, and empty unless it is the root's own number |
| Vfs.StatAfterCreate | easy-fs/src/vfs.rs:129-136 | `stat` of a freshly created inode reports a regular file with one link |
| Vfs.Ls | easy-fs/src/vfs.rs:156-173 | the loop collects the names of the slots with non-zero inode number, in slot order |
| Vfs.LiveNamesExactly | easy-fs/src/vfs.rs:161-170 | a name is listed exactly when some in-use slot carries it, and the list is no longer than the directory |
| Vfs.LiveNamesAppend | easy-fs/src/vfs.rs:161-170 | listing keeps slot order across concatenation of slot ranges |
| Vfs.ClearData | easy-fs/src/vfs.rs:193-198 | the size drops to 0, the inode owns no blocks, and every block it owned is free |
| Vfs.Clear | easy-fs/src/vfs.rs:190-201 | only the cleared inode's size and blocks change (to 0 and none); its type and link count stay; exactly its blocks join the free set |
| Vfs.IncreaseSize | easy-fs/src/vfs.rs:78-93 | a request below the current size changes nothing and allocates nothing; otherwise the size becomes the request, the existing blocks stay as a prefix followed by the allocated blocks, and those leave the free set |
| Vfs.IncreaseSizeMonotone | easy-fs/src/vfs.rs:84-92 | `increase_size` never shrinks an inode and never returns blocks to the free set |
| Vfs.GrowRoot | easy-fs/src/vfs.rs:94-112 | reusing a free slot changes nothing; appending a slot grows the root to the new slot count times `DIRENT_SZ` through `increase_size`; no other inode changes |
| Vfs.StatOf | easy-fs/src/vfs.rs:202-219 | the mode is DIR exactly for a directory and FILE exactly for a file; `dev` is 0, `ino` is the inode number, and `nlink` is copied |
| VfsLinks.Link | easy-fs/src/vfs.rs:220-224 | only the linked inode's count changes, by one (wrapping `u32`) |
| VfsLinks.LinkatAsWritten | easy-fs/src/vfs.rs:231-253 | a missing old name returns -1 and changes nothing; otherwise the slot `add_new_entry` picks gets `(new, id)`, the root grows as `add_new_entry` demands, inode `id` gains a link, and 0 is returned |
| VfsLinks.Linkat | easy-fs/src/vfs.rs:231-253 | as written, except that an old name resolving to the root directory and an already existing new name are also refused with -1; the root's link count never changes |
| VfsLinks.LinkatThenFind | easy-fs/src/vfs.rs:231-253 | after a link to a fresh name, both names resolve to the same inode, whose count has grown by one |
| VfsLinks.ZeroNamed | easy-fs/src/vfs.rs:265-281 | every slot carrying the name becomes all zeros and every other slot is kept |
| VfsLinks.Unlink | easy-fs/src/vfs.rs:225-230 | the count drops by one (wrapping); at 0 the data is cleared and the blocks freed; the inode number stays allocated |
| VfsLinks.UnlinkLastIsClear | easy-fs/src/vfs.rs:282-290 | unlinking an inode with one link has the same effect as `clear` on that inode with its count at 0 |
| VfsLinks.UnlinkatAsWritten | easy-fs/src/vfs.rs:254-298 | a missing name returns -1 and changes nothing; otherwise every slot with the name is zeroed, the inode it resolves to loses one link (and its data at 0), and 0 is returned |
| VfsLinks.Unlinkat | easy-fs/src/vfs.rs:254-298 | as written, except that a name resolving to the root directory is also refused with -1; the root inode never changes |
| VfsLinks.UnlinkatRemovesName | easy-fs/src/vfs.rs:265-281 | after unlinking a non-empty name, it neither resolves nor is listed: always as written, and whenever the corrected version returns 0 |
| VfsInvariant.RefsBound | easy-fs/src/vfs.rs:220-230 | the number of slots referring to an inode is at most the directory length |
| VfsInvariant.RefsUpdate | easy-fs/src/vfs.rs:243-245 | overwriting one slot changes each inode's reference count by exactly what the old and new slot contributed |
| VfsInvariant.InsertEntryRefs | easy-fs/src/vfs.rs:137-142 | inserting `(name, id)` raises `id`'s reference count by one and leaves other inodes' counts unchanged |
| VfsInvariant.CreatePreservesValid | easy-fs/src/vfs.rs:114-154 | create with a non-empty name and an unused inode number keeps the root a linked directory, free slots zeroed, live names non-empty and unique, and link counts equal to reference counts |
| VfsInvariant.LinkatPreservesValid | easy-fs/src/vfs.rs:231-253 | the corrected linkat keeps the directory invariant for every old name, when the new name is non-empty and the directory has fewer than 2^32 - 1 slots |
| VfsInvariant.ZeroNamedSingle | easy-fs/src/vfs.rs:265-281 | under the invariant, the zeroing loop of unlinkat clears exactly the one slot that lookup found |
| VfsInvariant.ResolvesOffRoot | easy-fs/src/vfs.rs:46-61 | under the invariant, a name that resolves to an inode other than the root is non-empty |
| VfsInvariant.UnlinkatPreservesValid | easy-fs/src/vfs.rs:254-298 | the corrected unlinkat keeps the directory invariant for every name, the empty one included |
| VfsInvariant.UnlinkLastNameFreesData | easy-fs/src/vfs.rs:282-290 | under the invariant, unlinking the last name of a file frees every one of its blocks |
| VfsInvariant.LinkatExistingNameLeaks | easy-fs/src/vfs.rs:231-253 | linkat as written, given an existing new name, breaks the invariant and leads to a nameless file whose blocks are never freed; the corrected linkat refuses the call |
| VfsInvariant.UnlinkatEmptyNameClearsRoot | easy-fs/src/vfs.rs:254-298 | in a consistent root with a freed slot, unlinkat as written of the empty name returns 0, drops the root's link count to 0, clears its data and frees its block, breaking the invariant; the corrected unlinkat refuses the call |
| VfsInvariant.LinkatEmptyNameLinksRoot | easy-fs/src/vfs.rs:231-253 | in a consistent root with a freed slot, linkat as written from the empty name returns 0, writes the new name with inode number 0 into the freed slot so that it resolves to the root, raises the root's link count to 2, and breaks the invariant; the corrected linkat refuses the call |

## Left out

- The bodies of `MemorySet::map`/`unmap` are not part of this model: the address-space calls are parameters returning `isize`, so overlap and "fully mapped" checks are not verified.
- `VirtAddr::page_offset`: alignment is `start % PAGE_SIZE == 0`, with `PAGE_SIZE = 0x1000` assumed, because the configuration file is not part of this model.
- `VirtAddr::from` in `sys_mmap`/`sys_munmap` is taken as the identity on addresses: the address type is not part of this model, so `start` and `start + len` are passed on as plain numbers.
- The permission mask `port & 7` is written as `port % 8`; the two agree on every non-negative integer, but the bit-level identity is not proved.
- `Pass::stride`, the `Ord` of `Pass` and `BIG_STRIDE` are not part of this model. The stride step is a parameter, the pass order is a parameter required to be total, and pass wrap-around is not modelled. The stride fairness property (passes stay within one `BIG_STRIDE`) is therefore not stated.
- Manager.Fetch: `BinaryHeap::pop` may return any greatest element; the model returns the earliest-added greatest one, and the contract promises only "some greatest", which is what the heap guarantees.
- `__switch`, `TaskContext`, `TrapContext` and `schedule`: the context switch is assembly. A dispatch step ends with the task installed as current.
- `sys_exit`, `sys_yield` and `exit_current_and_run_next`/`suspend_current_and_run_next`: they switch context, and the task-exit code is not part of this model.
- `UPSafeCell`, `lazy_static` and exclusive access: the two global singletons are one `Kernel` value.
- `Arc` reference counting: a child's strong count is a field, and the `assert_eq!` on it is a panic outcome.
- `fork`'s parent–child linking: it happens inside `TaskControlBlock::fork`, which is not part of this model. The forked task is an input.
- Process5.SysFork and Process5.SysSpawn do not record the new child in the parent's child list, because that is done by the control block's own `fork`/`spawn`.
- Pointer translation (`translated_refmut`, `translated_str`, `virtual_pointer_to_physical_pointer`): the written value is part of the result instead.
- The loader `get_app_data_by_name` is a map from names to images.
- The timer `get_time_us` is the parameter `now`.
- `MAX_SYSCALL_NUM = 500` is assumed, because the configuration file is not part of this model.
- Overflow panics of a debug build are not modelled: every overflowing operation wraps, as listed above the model table.
- The stage os4 `sys_task_info` and `sys_exit`/`sys_yield`: they only forward to task code that is not part of this model. The os5 `sys_exit`/`sys_yield` are left out for the same reason; the os5 `sys_task_info` is modelled. `len_ceil` in the os4 stubs is not modelled because its result is unused.
- Block cache, `BlockDevice` and `DiskInode` internals: `block_cache_sync_all`, byte-level `read_at`/`write_at`, `blocks_num_needed`, `alloc_data`/`alloc_inode` and `get_disk_inode_pos`. The allocators are parameters: they supply the fresh inode number and the blocks a growing inode receives, and how many blocks a size needs is not checked. An inode's blocks are one list with index blocks included.
- `DIRENT_SZ = 32` is assumed, because the on-disk layout file is not part of this model. The name-length limit of `DirEntry::new` is not modelled: names are whole strings.
- The root's byte size is not tied to its slot count, neither in the data model nor by the invariant. `add_new_entry` reads the slot count from the size, and the model reads it from the slot list, so the two agree only for roots whose size is the slot count times `DIRENT_SZ`.
- The `assert!(disk_inode.is_dir())` of `find_inode_id` and `create` is not modelled as a panic: lookups are always made in the root, and `VfsInvariant.Valid` states that the root is a directory.
- VfsInvariant.LinkatPreservesValid requires a non-empty new name and a directory with fewer than 2^32 - 1 slots. An empty new name becomes a live slot with no name, and with 2^32 - 1 slots a link count could wrap.
- VfsInvariant.CreatePreservesValid requires a non-empty name, because an empty one would become a live slot with no name.
- `INITIAL_NLINK = 1` is assumed for `DiskInode::initialize`, because the on-disk layout file is not part of this model.
- `Inode::find`, `read_at` and `write_at`: they only wrap lookup or byte-level I/O around the modelled operations.
- Only the root directory is modelled; easy-fs has no subdirectories.
- The `Stat` struct layout and padding.
- `os3/src/task/task.rs` (type declarations only; `TaskStatus` and `TaskInfo` follow it) and `os6/src/fs/mod.rs` (a trait declaration and re-exports).

## Findings

| source | as written | input that shows it | evidently intended | confidence | as-written member | corrected member |
|---|---|---|---|---|---|---|
| easy-fs/src/vfs.rs:231-253 | `linkat` never checks whether `new_name` already names a slot | a root holding one file "a" (nlink 1, one data block): `linkat("a", "a")` returns 0 and leaves two slots "a" with nlink 2; `unlinkat("a")` then zeroes both slots but drops nlink only to 1, so the file has no name and its block is never freed | refuse an existing `new_name` with -1, as `create` does for an existing name | low–medium, not executed (callers outside this model may check first) | VfsLinks.LinkatAsWritten (shown by VfsInvariant.LinkatExistingNameLeaks) | VfsLinks.Linkat (VfsInvariant.LinkatPreservesValid) |
| easy-fs/src/vfs.rs:254-298 | `unlinkat` does not refuse a name that resolves to inode 0; `find_inode_id` (lines 46-61) matches the empty name against any zeroed slot, whose inode number is 0, the root | a root holding file "a" in its first slot and a freed second slot, with the root at nlink 1 owning block 3: `unlinkat("")` returns 0, drops the root's nlink to 0, clears the root's size and frees block 3, so the whole directory is lost | refuse with -1 a name that resolves to the root, as a missing name is refused | low–medium, not executed (the syscall layer above may reject empty paths) | VfsLinks.UnlinkatAsWritten (shown by VfsInvariant.UnlinkatEmptyNameClearsRoot) | VfsLinks.Unlinkat (VfsInvariant.UnlinkatPreservesValid) |
| easy-fs/src/vfs.rs:231-253 | `linkat` does not refuse an old name that resolves to inode 0; as in `unlinkat`, an empty old name matches a zeroed slot | the same root with a freed second slot: `linkat("", "b")` returns 0, writes `("b", 0)` into the freed slot, so "b" resolves to the root, and raises the root's nlink to 2 | refuse with -1 an old name that resolves to the root, as a missing old name is refused | low–medium, not executed (the syscall layer above may reject empty paths) | VfsLinks.LinkatAsWritten (shown by VfsInvariant.LinkatEmptyNameLinksRoot) | VfsLinks.Linkat (VfsInvariant.LinkatPreservesValid) |
