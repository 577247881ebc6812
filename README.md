# Task table and process syscalls of an rCore teaching kernel

This project models two parts of a RISC-V teaching kernel. Each is proved in Dafny.

**The round-robin task table** (`os/src/task/mod.rs`, module `TaskManagement`). `TaskManager` is a class with these fields:
- a fixed list of task control blocks, each with a status (Ready, Running or Exited), a syscall counter array and a stored time;
- the index of the current task;
- `vecForAlloc`, a list of `(start, end)` ranges handed out through `push`.

The methods change these fields in place, as the kernel does. Each scheduling method stops at the state update that comes before the context switch. The proofs cover the following:
- The next-task search picks the first Ready task in cyclic order, with the current task checked last.
- Suspending never leaves the system without a task to run.
- "The current task is the only Running task" is established by run-first and preserved by suspend-and-run-next and exit-and-run-next.
- `push` keeps the recorded ranges pairwise disjoint.
- `pay_back` is modelled exactly as written. The function `PayBackOn` replays its steps: reverse, inspect the first range, `remove(1)` from the reversed list, reverse back. Its contract gives the closed form:
  - The list is unchanged unless its first range is exactly `(start, end)`.
  - With one entry, that match panics.
  - Otherwise the match removes the second-to-last range, which is not the matched one once there are three or more ranges.

**The process-control syscalls** (`os/src/syscall/process.rs`, module `ProcessSyscalls`):
- `sys_mmap` and `sys_munmap` argument validation: the bit test on the permission number (modelled on `bv64`), the page rounding of the length, the alignment check, the R/W/X/U permission set, and the inclusive end passed to the region layer.
- The `sys_waitpid` poll over the children list: -1, -2, or the reap of the first matching Zombie child.
- The second/microsecond split of `sys_get_time` and the millisecond time of `sys_task_info`.
- The bound of `sys_set_priority`.
- How `sys_sbrk`, `sys_exec`, `sys_spawn` and `sys_fork` map their results to return values, including the child's `x[10] = 0`.

The region layer, the loader and the clock are parameters. Writes through user pointers are returned as out-values.

`SeqOps` holds `Vec::reverse` and `Vec::remove`. `MachineInts` holds the 64-bit integer types, the `as` casts between `usize` and `isize`, and the wrapping `u32` increment.

The two source files come from different revisions of the kernel: `mod.rs` calls the terminal status `Exited`, `process.rs` calls it `Zombie`. They are modelled as independent components.

Where the code and the design description differ, the model follows the code:
- The scheduler in `mod.rs` (`find_next_task`) is pure round-robin and has no priority weighting. Whether priority weights scheduling in the revision that `process.rs` belongs to is not decided here (see `SetPriority` under "## Left out").
- `push` has its own overlap test. It accepts a range only if the range lies entirely before or entirely after each recorded range. It also rejects some empty ranges that intersect nothing (see `SeparateIffDisjoint`).
- Giving back a range (`pay_back`) compares only the first recorded range. On an exact match, a one-entry list panics, a two-entry list loses the matched range as intended, and a list of three or more loses its second-to-last range instead (see above).
- `sys_mmap` and `sys_munmap` pass an inclusive end, `start + rounded_len - 1`, to the region layer.

## Model

| member | source | states |
|---|---|---|
| `TaskManagement.FindNextTask` | os/src/task/mod.rs:118-124 | a found id is a Ready task below `num_app`, reached at some step k of 1..n with no Ready task at steps 1..k-1 (first Ready in cyclic order) |
| `TaskManagement.FindNextTaskNoneIffNoReady` | os/src/task/mod.rs:118-124 | the search returns None exactly when no task at all is Ready, because its n steps visit every id |
| `TaskManagement.CurrentCheckedLast` | os/src/task/mod.rs:121-123 | the current task is picked again only when no other task is Ready |
| `TaskManagement.TaskManager.constructor` | os/src/task/mod.rs:64-77 | the initial table holds the loaded tasks, current task 0 and no recorded ranges |
| `TaskManagement.TaskManager.RunFirstTask` | os/src/task/mod.rs:87-92 | task 0 becomes Running and nothing else changes; from the initial state, task 0 is then the only Running task |
| `TaskManagement.TaskManager.MarkCurrentSuspended` | os/src/task/mod.rs:102-106 | only the current task's status changes, to Ready; other tasks, the current index and the ranges are unchanged |
| `TaskManagement.TaskManager.MarkCurrentExited` | os/src/task/mod.rs:109-113 | only the current task's status changes, to Exited; other tasks, the current index and the ranges are unchanged |
| `TaskManagement.TaskManager.RunNextTask` | os/src/task/mod.rs:204-219 | with a next task, that task becomes Running and current; the outgoing task's status is untouched; with none (the "All applications completed!" panic) nothing changes |
| `TaskManagement.TaskManager.SuspendCurrentAndRunNext` | os/src/task/mod.rs:269-272 | a suspension always finds a task to run: with m the table where the current task is set Ready, the new current task is FindNextTask over m and the new table is m with only that task set Running; "the current task is the only Running task" is kept |
| `TaskManagement.TaskManager.ExitCurrentAndRunNext` | os/src/task/mod.rs:275-278 | with m the table where the current task is set Exited: the kernel halts exactly when no other task is Ready, leaving the table m and the current index as they were; otherwise the new current task is FindNextTask over m, the new table is m with only that task set Running, and it is the only Running one |
| `TaskManagement.TaskManager.SetTcbSyscallTimes` | os/src/task/mod.rs:239-243 | for an id below MAX_SYSCALL_NUM, exactly one counter of the current task goes up by one (wrapping at 2^32); all other state is unchanged |
| `TaskManagement.TaskManager.GetCurrentTaskState` | os/src/task/mod.rs:222-226 | returns the current task's status without changing anything |
| `TaskManagement.TaskManager.GetTcbSyscallTimes` | os/src/task/mod.rs:233-237 | returns the current task's MAX_SYSCALL_NUM counters without changing anything |
| `TaskManagement.TaskManager.GetInitTime` | os/src/task/mod.rs:228-231 | returns task 0's stored time, whichever task is current |
| `TaskManagement.TaskManager.Push` | os/src/task/mod.rs:151-168 | succeeds exactly when the new range passes the test against every recorded range; then it appends exactly that range, otherwise the list is unchanged; the ranges stay pairwise disjoint |
| `TaskManagement.SeparateIffDisjoint` | os/src/task/mod.rs:159 | a range that passes the test (the predicate `Separate`, which is the condition at this line) shares no address with the recorded range, and every disjoint non-empty range passes |
| `TaskManagement.AppendSeparateKeepsDisjoint` | os/src/task/mod.rs:157-163 | appending a range that passed the test against all recorded ranges keeps them pairwise disjoint |
| `TaskManagement.PayBackOn` | os/src/task/mod.rs:170-187 | only the first recorded range is inspected: no exact match leaves the list unchanged, a match on a one-entry list panics, and a match on a longer list removes the second-to-last entry |
| `TaskManagement.TaskManager.PayBack` | os/src/task/mod.rs:170-187 | the range list afterwards is what `PayBackOn` gives, and the method panics exactly where `PayBackOn` is None; disjointness and the task table are kept |
| `TaskManagement.PayBackKeepsMatchedRange` | os/src/task/mod.rs:179-184 | with three or more ranges and an exact match on the first, the matched range stays first, the last range stays last, and the second-to-last range is the one removed |
| `TaskManagement.PayBackTwoRanges` | os/src/task/mod.rs:179-184 | with exactly two ranges and an exact match on the first, the matched range is removed and the other one stays |
| `TaskManagement.PayBackRemovesWrongRange` | os/src/task/mod.rs:179-184 | an example: giving back the first of three ranges removes the second range and keeps the matched one |
| `TaskManagement.PayBackKeepsDisjoint` | os/src/task/mod.rs:170-187 | pay_back keeps the recorded ranges pairwise disjoint |
| `TaskManagement.CyclicCover` | os/src/task/mod.rs:121-122 | every id below n is `(current + k) % n` for some k in 1..n |
| `SeqOps.Reverse` | os/src/task/mod.rs:174-175 | the reversed list has the same length and position i holds the element at position len-1-i |
| `SeqOps.RemoveAt` | os/src/task/mod.rs:181 | removing position i keeps the elements before i and shifts those after i down by one |
| `MachineInts.WrappingIncrement` | os/src/task/mod.rs:242 | a counter goes up by one, and the largest u32 value wraps to 0 |
| `MachineInts.UsizeAsIsize` | os/src/syscall/process.rs:115 | `as isize` keeps the 64-bit pattern; the result is non-negative exactly when the value is below 2^63 |
| `MachineInts.IsizeAsUsize` | os/src/syscall/process.rs:96 | `as usize` keeps the 64-bit pattern and leaves non-negative values unchanged |
| `MachineInts.CastRoundTrip` | os/src/syscall/process.rs:96 | the two casts undo each other |
| `ProcessSyscalls.PortValidRange` | os/src/syscall/process.rs:172-174 | the bit test (the predicate `PortValid`, written on `bv64` as at line 172) accepts exactly the permission numbers 1..7 |
| `ProcessSyscalls.PermissionOf` | os/src/syscall/process.rs:185-197 | the set always holds U and only R, W, X, U; for a valid number it holds at least one of R/W/X, and R, W, X encode bits 0, 1, 2 back to the number exactly |
| `ProcessSyscalls.PageRoundUp` | os/src/syscall/process.rs:176 | the rounded length is a multiple of 4096, at least len and less than len + 4096 |
| `ProcessSyscalls.PageRoundUpIsLeast` | os/src/syscall/process.rs:213 | no smaller multiple of 4096 holds len bytes |
| `ProcessSyscalls.MmapRequest` | os/src/syscall/process.rs:172-197 | a region is requested exactly when the number is 1..7 and start is page-aligned; it starts at start, has the port's permission and spans the rounded length up to an inclusive end |
| `ProcessSyscalls.SysMmap` | os/src/syscall/process.rs:167-205 | returns 0 or -1, and 0 exactly when the number is 1..7, start is aligned and the region operation succeeds |
| `ProcessSyscalls.MunmapRequest` | os/src/syscall/process.rs:213-220 | a region is requested exactly when start is page-aligned; it spans the rounded length up to an inclusive end |
| `ProcessSyscalls.SysMunmap` | os/src/syscall/process.rs:208-228 | returns 0 or -1, and 0 exactly when start is aligned and the region operation succeeds |
| `ProcessSyscalls.MmapMunmapSameRegion` | os/src/syscall/process.rs:176-183 | for a valid permission, mmap and munmap with the same start and length address the same inclusive range |
| `ProcessSyscalls.SplitTime` | os/src/syscall/process.rs:130-135 | usec is below 1_000_000 and sec * 1_000_000 + usec is the clock reading |
| `ProcessSyscalls.SplitTimeUnique` | os/src/syscall/process.rs:132-135 | that split is the only pair with usec below one second that adds back to the reading |
| `ProcessSyscalls.ElapsedMicros` | os/src/syscall/process.rs:150-153 | a Zombie reports its stored time; any other task reports the time since its stored start |
| `ProcessSyscalls.TaskInfoOf` | os/src/syscall/process.rs:147-158 | status and counters are copied; the time is the elapsed microseconds in whole milliseconds, rounded down |
| `ProcessSyscalls.TaskInfoTimeMonotone` | os/src/syscall/process.rs:150-157 | a live task's reported time never decreases as the clock advances; a Zombie's is frozen |
| `ProcessSyscalls.SysSbrk` | os/src/syscall/process.rs:231-238 | -1 when the break cannot move; otherwise the old break as `isize` (unchanged below 2^63) |
| `ProcessSyscalls.SysExec` | os/src/syscall/process.rs:67-78 | 0 exactly when the loader finds the program, -1 exactly when it does not |
| `ProcessSyscalls.SysSpawn` | os/src/syscall/process.rs:242-260 | -1 when the program is not found; otherwise the new pid as `isize` |
| `ProcessSyscalls.SysFork` | os/src/syscall/process.rs:52-65 | the parent gets the child's pid; the child's register x10 becomes 0 and its other registers are unchanged |
| `ProcessSyscalls.AnyMatch` | os/src/syscall/process.rs:93-97 | true exactly when some child matches pid (the predicate `Matches`, the closure at line 96), where -1 matches every child |
| `ProcessSyscalls.FirstZombie` | os/src/syscall/process.rs:101-105 | the first matching Zombie child in list order (the predicate `Reapable`, the closure at line 103); None exactly when no matching child is a Zombie |
| `ProcessSyscalls.ReapableImpliesMatch` | os/src/syscall/process.rs:93-117 | a list with a matching Zombie child always has a matching child, so -1 and a reap exclude each other |
| `ProcessSyscalls.ReapedChildNoLongerMatches` | os/src/syscall/process.rs:101-115 | with distinct pids, once child pid has been reaped no child matches pid, so the next poll for it returns -1 |
| `ProcessSyscalls.TaskControlBlockInner.Waitpid` | os/src/syscall/process.rs:82-120 | -1 with no matching child and -2 with no matching Zombie, both leaving the children unchanged; otherwise the first matching Zombie is removed, other children keep their order, and its pid is returned and its exit code written out |
| `ProcessSyscalls.TaskControlBlockInner.SetPriority` | os/src/syscall/process.rs:263-276 | below 2: -1 and nothing changes; otherwise the priority becomes the value, which is returned; a priority of at least 2 stays so |

## Left out

- The context switch (`__switch`), `TaskContext` values, and the non-returning control flow of `run_first_task`/`run_next_task`. The scheduling methods stop at the state update before the switch.
- `UPSafeCell` exclusive-access checking and the rule to `drop(inner)` before the switch. These are about re-entrancy, not about the data.
- The global `lazy_static` initialisation and the loader (`get_num_app`, `get_app_data`, `get_app_data_by_name`). The constructor takes the loaded task blocks, and a lookup is an `Option` parameter.
- Logging (`println!`, `trace!`, `error!`).
- Page tables and memory sets: `insert_framed_area`, `append_to_memset`, `remove_from_memset`, `memory_map`, `memory_unmap`, `change_program_brk`, `get_current_token`, `get_current_trap_cx`. Their success or failure is an input, so the one-to-one match between tracked ranges and installed mappings is not modelled. `push`'s permission argument only reaches `insert_framed_area` and is dropped.
- `TaskManagement.TaskManager.Push`: `vec_for_alloc` belongs to the manager, not to a task, so its disjointness covers the ranges of all tasks together. This matches the code.
- User-pointer translation (`translated_refmut`, `translated_str`). Writes are returned as out-values.
- `get_time_us`: the clock reading is a natural-number parameter.
- `TaskControlBlock::new`, `fork`, `exec`, `spawn`, `add_task`, `current_task`, and the `Priority` type behind `set_prio`. Their files (task.rs, manager.rs, processor.rs) are not part of this model. Only the syscall-level return mapping is kept.
- `sys_exit`, `sys_yield` and `sys_getpid` only delegate to the task layer of the other revision (or return a pid). They are not modelled.
- The `Arc::strong_count(&child) == 1` assertion in `sys_waitpid` is about reference counting, which the model does not track.
- MAX_SYSCALL_NUM is taken as 500 and the page size as 4096. The configuration file that defines them is not part of this model.
- `TaskManagement.TaskManager.SetTcbSyscallTimes`: the counter wraps at 2^32, as in an optimised build without overflow checks. A debug build would panic instead.
- `ProcessSyscalls.MmapRequest`: requires `len > 0` once the permission test passes. With `len == 0` the source's `len - 1` in the page rounding underflows. A failing permission test returns -1 before the length is used, so any length is accepted there. `ProcessSyscalls.SysMmap` carries the same requires.
- `ProcessSyscalls.MunmapRequest`: requires `len > 0`, for the same underflow of `len - 1`.
- `ProcessSyscalls.SysMmap`: start and length are unbounded naturals. The 64-bit wrap-around of the rounded length and of `start + len - 1` within 4096 of 2^64 is not modelled. The 39-bit masking in the `VirtAddr` conversion (in mm) is not modelled either: it leaves the page offset unchanged.
- `ProcessSyscalls.SysMunmap`: requires `len > 0`. With `len == 0` the source's `len - 1` underflows. The same 64-bit limits as `SysMmap` apply.
- `ProcessSyscalls.TaskInfoOf`: requires the stored start time to be no later than the clock reading (a monotonic clock). Otherwise the source's subtraction underflows.
- `TaskManagement.TaskManager.constructor`: requires at least one task, since the source indexes task 0 unconditionally.
- `ProcessSyscalls.TaskControlBlockInner.SetPriority`: stores the value in a `priority` field. The `Priority` type and the body of `set_prio` are not part of this model. Neither is the scheduler of the revision that `process.rs` belongs to (reached through `add_task` and `current_task`). The model therefore does not capture whether priority weights scheduling there. It states only the bound test and the value that `set_prio` receives.
