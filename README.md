# Green-thread control table and dispatcher

A model of the thread control table of the osy-gthreads runtime (`gthr.c`)
and of the operations that work on it. The runtime keeps a fixed array of
`MaxGThreads` (10) control blocks, `g_gttbl`, each in one of the states
Unused, Running, Ready, Blocked or Suspended, and a cursor `g_gtcur` pointing
at the current block. `gt_init` installs the bootstrap thread in slot 0,
`gt_go` creates a thread in the first Unused slot, `gt_yield` scans the table
circularly from the cursor for a Ready slot and dispatches it, `gt_ret` /
`gt_stop` end a thread, and `gt_gettid` reads the current thread's id.

Two modules:

- `GThreadSpec` (`tables.dfy`) describes the table as a value, `seq<Slot>`,
  and every operation as a function from the old table and cursor to the new
  ones (`InitSpec`, `GoSpec`, `YieldSpec`, `ExitSpec`), with the lemmas that
  state what the runtime promises: first-fit creation, tid equal to slot
  index, first Ready slot in circular order, the exact negative count, and
  "at most one Running slot, and it is the cursor's".
- `GThreads` (`gthr.dfy`) holds the class `ThreadTable` with the array
  `slots` (`g_gttbl`) and the field `cur` (`g_gtcur`). Its methods are the C
  functions, written with the same loops and branches, and each is proved to
  leave exactly the table and cursor its `GThreadSpec` function gives.

Modelling decisions:

- The cursor is `Option<nat>`: `None` is the null pointer that `g_gtcur` holds
  until `gt_init`. `gt_yield`, `gt_ret`, `gt_stop` and `gt_gettid` dereference
  it, so they require it to be set. `gt_go` never reads it and may run before
  `gt_init`.
- The constructor is C static zero-initialisation: every slot Unused with tid
  0 (Unused is the first enumerator, `gthr.h:24`). `gt_init` itself touches only
  slot 0.
- The context switch `gt_swtch` / `gt_pree_swtch` is treated as opaque. Its
  only modelled effect is the change of cursor, after which `gt_yield`
  returns 1.
- `gt_go` takes `stackAllocated`, which says whether `malloc` returned a stack.
- `gt_ret` reports how it ends, as an `ExitOutcome`. `Stayed` means the
  bootstrap slot, where nothing happens. `SwitchedAway` means `gt_yield`
  switched to another thread, so control never comes back. `Aborted` means
  `gt_yield` returned without switching, so `assert(!"reachable")` fires
  (gthr.c:90). When NDEBUG is defined that assertion is compiled out and
  `gt_ret` returns to its caller instead; the model does not cover that build.
- Where the header and the implementation disagree, the model follows
  `gthr.c`, in three places:
  - `gt_go` takes only the entry function (`gthr.c:164`; the header also
    declares an argument).
  - `gt_go` returns 0 on success, not the new tid (`gthr.c:201`).
  - `gt_yield` returns 1 or minus the number of Blocked and Suspended slots,
    not 0 or 1 (`gthr.c:133`, `gthr.c:156`).
- The scan of `gt_yield` begins at the current slot itself (`p = g_gtcur`,
  gthr.c:114), not at the slot after it; this only matters when the current
  slot is Ready, and then it is dispatched to itself. `gt_init` (gthr.c:68-78)
  writes only slot 0 and leaves slots 1 and up as they were.

## Model

| member | source | states |
|---|---|---|
| `GThreads.ThreadTable.constructor` | gthr.c:14-17 | the table starts with every slot Unused with tid 0, and no current thread |
| `GThreads.ThreadTable.Init` | gthr.c:68-78 | the cursor becomes slot 0 and slot 0 becomes Running with tid 0, while the other slots keep their contents; afterwards only the cursor's slot is Running, provided no other slot was Running |
| `GThreadSpec.InitSpec` | gthr.c:68-78 | the table after `gt_init`: same size, slot 0 Running with tid 0 |
| `GThreadSpec.InitInstallsBootstrap` | gthr.c:68-78 | after `gt_init`, slot 0 is Running with tid 0 and the other slots are untouched; the tid invariant is kept, and slot 0 is the only Running slot if no other slot was Running |
| `GThreadSpec.FirstUnused` | gthr.c:169-182 | the for loop of `gt_go` finds the lowest-index Unused slot at or after the start, or reports that there is none |
| `GThreadSpec.GoSpec` | gthr.c:164-202 | the table and return value after `gt_go`: the result is 0 or -1, and the table changes exactly when the result is 0 |
| `GThreads.ThreadTable.Go` | gthr.c:164-202 | the loop and the writes of `gt_go` produce exactly the table and return value of `GoSpec`; both invariants are kept |
| `GThreadSpec.GoFailsClosed` | gthr.c:170-188 | `gt_go` returns -1 exactly when no slot is Unused or the stack allocation fails, and in that case the table is unchanged |
| `GThreadSpec.GoFirstFit` | gthr.c:170-201 | on success `gt_go` claims the lowest-index Unused slot, sets it Ready with tid equal to its index, returns 0, and changes no other slot |
| `GThreadSpec.GoKeepsInvariants` | gthr.c:196-199 | `gt_go` never adds a Running slot, and each slot it claims gets its own index as tid |
| `GThreadSpec.GoFillsTable` | gthr.c:164-201 | starting from the zero-initialised table after `gt_init`, creation k claims slot k, and once all slots are used the next creation returns -1 |
| `GThreadSpec.ReadyOffset` | gthr.c:114-135 | the scan's step count to the first Ready slot: that slot is Ready, and no slot at a smaller step count is Ready |
| `GThreadSpec.Pick` | gthr.c:114-135 | the scan finds no slot exactly when no slot is Ready; otherwise the slot it finds is the first Ready one in circular order from the cursor |
| `GThreadSpec.FirstReadyUnique` | gthr.c:114-135 | the first Ready slot in circular order is unique |
| `GThreadSpec.NotReady` | gthr.c:118-122 | the number of Blocked or Suspended slots is at most the table size, and it is 0 exactly when no slot is Blocked or Suspended |
| `GThreadSpec.Seen` | gthr.c:112-122 | the value of `l_no_ready` after k turns of the scan loop; it is at most k |
| `GThreadSpec.SeenAll` | gthr.c:112-134 | a full scan counts every Blocked or Suspended slot once, wherever it starts |
| `GThreadSpec.ScanFound` | gthr.c:114-156 | a scan that meets its first Ready slot after k steps dispatches that slot and returns 1 |
| `GThreadSpec.ScanExhausted` | gthr.c:114-135 | a scan that returns to the cursor without meeting a Ready slot returns minus what `l_no_ready` counted, and changes nothing |
| `GThreadSpec.Switch` | gthr.c:137-148 | the state writes of a dispatch: the chosen slot becomes Running, no tid changes, and no slot other than the old and the new current one changes |
| `GThreadSpec.YieldSpec` | gthr.c:107-157 | the table, cursor and return value after `gt_yield`: the table keeps its size, the cursor stays in range, and the result is 1 or between minus the table size and 0 |
| `GThreads.ThreadTable.Yield` | gthr.c:107-157 | the loop and the writes of `gt_yield` produce exactly the table, cursor and return value of `YieldSpec`; after a switch the new current slot is Running; the single-Running invariant is kept |
| `GThreadSpec.YieldIdle` | gthr.c:129-134 | with no slot Ready, `gt_yield` returns minus the number of Blocked or Suspended slots (0 exactly when there are none) and changes nothing; with some slot Ready it returns a positive value |
| `GThreadSpec.YieldDispatch` | gthr.c:114-156 | with some slot Ready, `gt_yield` returns 1 and makes the first Ready slot in circular order Running and current; it demotes the old current slot to Ready only if that slot was Running, and leaves every other slot unchanged |
| `GThreadSpec.YieldKeepsSingleRunning` | gthr.c:137-148 | if only the cursor's slot may be Running before `gt_yield`, the same holds after, and after a switch the new cursor's slot is the one Running slot |
| `GThreadSpec.YieldKeepsTids` | gthr.c:137-148 | `gt_yield` changes no slot's tid and makes no slot Unused, so the tid invariant is kept, and the newly current slot's tid is its index |
| `GThreadSpec.YieldKeeps` | gthr.c:137-148 | both table invariants survive `gt_yield` |
| `GThreadSpec.ExitSpec` | gthr.c:80-92 | the table, cursor and outcome after `gt_ret`: the table keeps its size, the cursor stays in range, and the outcome is `Stayed` exactly on the bootstrap slot |
| `GThreadSpec.ExitOnBootstrap` | gthr.c:82-84 | `gt_ret` on slot 0 changes nothing |
| `GThreadSpec.ExitSwitchesAway` | gthr.c:80-92 | a non-bootstrap exit leaves its slot Unused; it switches away exactly when another slot is Ready, and then the cursor moves to a different slot, which is the one Running slot; otherwise it ends at the unreachable assertion with the cursor unmoved |
| `GThreadSpec.ExitKeepsTids` | gthr.c:80-92 | `gt_ret` keeps the tid invariant, and the current slot's tid is still its index |
| `GThreads.ThreadTable.Ret` | gthr.c:80-92 | `gt_ret` produces exactly the table, cursor and outcome of `ExitSpec`, keeping both invariants |
| `GThreads.ThreadTable.Stop` | gthr.c:159-162 | `gt_stop` behaves as `gt_ret`: the same `ExitSpec` result, keeping both invariants |
| `GThreads.ThreadTable.GetTid` | gthr.c:249-252 | `gt_gettid` returns the current slot's tid, which equals the current slot's index |

## Left out

- SIGALRM preemption (`gt_sig_start`, `gt_sig_reset`, `gt_sig_handle`, gthr.c:19-66) is left out. It is asynchronous signal delivery and timer re-arming, and its timer management is only a comment in the code.
- The register swap `gt_swtch` / `gt_pree_swtch` is left out, because its assembly is not part of this model. Only the change of cursor is modelled, and the resumption of a switched-out thread is not.
- Stack priming in `gt_go` is left out: the `malloc` of `StackSize` bytes and the raw writes of `gt_stop`, `t_run` and `rsp` into the new stack. Only the success or failure of the allocation is kept, as a parameter. The register fields of `gt_regs`, the name and the argument of a control block are not modelled either.
- `gt_scheduler` (gthr.c:94-105) is left out. Its progress depends on other threads running between its calls of `gt_yield`, and on `usleep`. It loops while `gt_yield` returns nonzero, so a negative return also keeps it looping.
- `uninterruptibleNanoSleep` (gthr.c:204-247) is left out: it is OS sleep and `errno` handling.
- `gt_go_name`, `gt_getname`, `gt_getarg`, `gt_task_list`, `gt_suspend` and `gt_resume` are declared in `gthr.h` but have no body in `gthr.c`, so they are not modelled. The code has no priorities, tick counters or delay timers.
- The demo program `main.c` is not part of this model.
- `GThreads.ThreadTable.Ret` does not take an argument, although `gt_ret(int t_ret)` does: the source never uses `t_ret`.
- `GThreads.ThreadTable.Ret`: the build with NDEBUG defined, where `assert(!"reachable")` is compiled out and `gt_ret` returns to its caller, is not modelled; `Aborted` stands for the assertion firing.
- Integer widths (`unsigned int` tid, `int` return values) are unbounded here. With ten slots no value comes near a C limit.
