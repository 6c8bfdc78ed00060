# libpsched userland timers, modelled in Dafny

libpsched emulates POSIX `timer_*()` calls in userland when a host has no kernel timers.
This project models the core of that emulation:

- **`Timespec`** (`timespec.dfy`): the `(sec, nsec)` pair and `timespec_add`, the library's addition with a one-second carry. The timer code does not call it yet: the periodic re-arm that would add `it_interval` to the deadline is unimplemented (src/timer_ul.c:99).
- **`TimerUl`** (`timer_ul.dfy`): the table of timer control slots as a value `seq<Slot>`, and the calls `timer_create_ul`, `timer_settime_ul`, `timer_gettime_ul`, `timer_getoverrun_ul` and `timer_delete_ul`.
  - Each call is a pure transition. It returns the table it leaves behind and its status (a value, or an errno).
  - The table invariant is that each slot is either free (`id == 0`) or holds its own index plus one. It is proved to survive every call.
  - A run of creates with no frees in between is proved to hand out distinct, non-zero handles.
- **`TimerWorker`** (`timer_worker.dfy`): one wake of the worker thread `_timer_process`. This covers three things:
  - the sleep duration it picks, relative or absolute;
  - what an interrupted sleep records;
  - the flag checks that follow, in priority order INTR, then READ, then WRITE.

  Nothing in src/timer_ul.c sets INTR or WRITE; only ARMED (settime) and READ (gettime) are ever set. So the exit and wait-for-write outcomes never arise from these calls, and a worker ends only through gettime's `pthread_cancel`.
- **`TimerFindings`** (`timer_findings.dfy`): the four defects listed under Findings: handles, the mode word, the spawn error and the absolute deadline. Each one is exhibited on the code as written, next to a corrected definition with its intended property proved.

Inputs and constants:

- The clock read and the thread spawn are inputs to `SetTime` (`ClockRead`, `Spawn`).
- The outcome of `nanosleep` is an input to the worker step (`SleepOutcome`).
- The clock reading the worker takes before an absolute sleep is an input (`now`), and so is the subtraction `timespec_sub` performs (`sub`).
- Numeric constants follow the Linux headers: `CLOCK_REALTIME` through `CLOCK_THREAD_CPUTIME_ID` are 0 to 3, `TIMER_ABSTIME` is 1, `EINVAL` is 22 and `ENOSYS` is 38.
- A NULL `sevp` is `None`.

The three index-taking calls follow the code. They use the handle directly as a table index and require it to be in range, exactly as the C code indexes `_timers[timerid]` without a check.

The code does not reject arming a free slot or re-arming an armed one; a failed spawn leaves the new `arm` in the slot; no call checks the handle. The model does the same.

## Model

| member | source | states |
|---|---|---|
| Timespec.Add | src/timespec.c:30-35 | total nanoseconds are preserved for all inputs; normalised inputs give a normalised result; the seconds gain a carry of exactly 1 when the nanosecond sum reaches one second (a sum of exactly 1e9 included) and 0 otherwise |
| Timespec.AddIsNormalisedSum | src/timespec.c:31-34 | on normalised inputs the result equals the independent reference: the normalised form of the summed durations |
| Timespec.NormalisedUnique | src/timespec.c:33-34 | two normalised timespecs that denote the same duration are equal, so the carry-normalised result is the only normalised answer |
| Timespec.AddWithoutCarry | src/timespec.c:33-34 | when the nanosecond sum stays below one second, the result is the field-wise sum |
| Timespec.AddCarriesAtOneSecond | src/timespec.c:31-34 | a nanosecond sum of exactly one second carries, leaving nanoseconds 0 |
| Timespec.AddZeroIdentity | src/timespec.c:30-35 | adding the zero timespec leaves a normalised `dest` unchanged |
| Timespec.AddCommutative | src/timespec.c:31-34 | swapping `dest` and `src` gives identical fields |
| TimerUl.FirstFreeFrom | src/timer_ul.c:117-123 | returns the lowest index at or after `k` whose `id` is 0; returns none only if every slot from `k` on is in use |
| TimerUl.ChooseSlot | src/timer_ul.c:117-140 | the slot create uses is the lowest free index; if there is none, it is the old table length |
| TimerUl.Create | src/timer_ul.c:111-190 | the table grows by exactly one slot when none is free and is otherwise the same length; no slot except the chosen one changes; it succeeds iff the clock is one of the four known clocks and `sevp` is non-null; on success the handle is slot+1 and the slot holds that id, the clock, the copied `sevp` and zeroes elsewhere; on failure the errno is EINVAL and the slot is fully zeroed |
| TimerUl.CreateFreshHandle | src/timer_ul.c:173-174 | a successful create returns a non-zero handle that no slot in use carried before, and adds exactly that handle to the live set; a failed create leaves the live set unchanged |
| TimerUl.HandlesDistinct | src/timer_ul.c:174 | under the table invariant, two different in-use slots carry different handles |
| TimerUl.HandlesAreSlotIndices | src/timer_ul.c:174 | under the table invariant, the live handles are exactly the in-use indices plus one |
| TimerUl.CreatePreservesInv | src/timer_ul.c:143-174 | create keeps every slot free or holding its index plus one; the mode word and overrun count stay 0 |
| TimerUl.FailedCreateReusesSlot | src/timer_ul.c:126-189 | after a rejected clock or a NULL `sevp`, the chosen slot is zero and the next create picks the same index, even when the table grew |
| TimerUl.CreateAllDistinct | src/timer_ul.c:111-190 | in any run of creates, every handle returned is non-zero, distinct from the others, not live beforehand and live at the end; the table invariant holds throughout |
| TimerUl.HandlesMonotone | src/timer_ul.c:117-143 | creates never free a slot: handles live before a run of creates are live after it |
| TimerUl.SetTime | src/timer_ul.c:197-244 | only the indexed slot changes; if the clock read fails, the error is returned and the table is unchanged; otherwise `init_time` is the clock reading and `arm` equals `new_value`; ARMED is added exactly when the spawn succeeds; a failed spawn returns the errno in effect after it, not the error `pthread_create` returned; all other fields and flags are unchanged |
| TimerUl.SetTimePreservesInv | src/timer_ul.c:213-229 | settime keeps the table invariant, the zero mode word and the zero overrun count |
| TimerUl.GetTime | src/timer_ul.c:246-278 | returns `arm.it_interval` as the interval and `rem` as the value; afterwards READ is cleared and every other field and slot is unchanged |
| TimerUl.GetTimePreservesInv | src/timer_ul.c:252-266 | gettime keeps the table invariant |
| TimerUl.GetTimeIsStable | src/timer_ul.c:261-266 | a second gettime reports the same values and changes nothing more; the overrun count is unaffected |
| TimerUl.OverrunAlwaysZero | src/timer_ul.c:280-284 | getoverrun returns the slot's counter, which stays 0 because nothing in the code increments it |
| TimerUl.Delete | src/timer_ul.c:192-195 | delete always fails with ENOSYS and leaves the table unchanged |
| TimerWorker.Decide | src/timer_ul.c:73-95 | INTR means exit, whatever else is set; otherwise READ means wait for the read; otherwise WRITE means wait for the write; it falls through exactly when no flag except ARMED is set |
| TimerWorker.SleepDuration | src/timer_ul.c:56-64 | in relative mode the sleep is `it_value` itself; in absolute mode it is `it_value` minus the clock reading, as the subtraction computes it |
| TimerWorker.AfterSleep | src/timer_ul.c:66-71 | an interrupted sleep writes the time left to `rem`; in absolute mode it also replaces `it_value` with it; relative mode keeps `arm`; a completed or failed sleep changes nothing |
| TimerWorker.WakeDecidesOnCallerFlags | src/timer_ul.c:66-95 | the decision after a wake depends only on the flags set by callers, and the wake does not change them |
| TimerWorker.DecideIgnoresArmed | src/timer_ul.c:73-95 | adding or removing ARMED never changes the decision |
| TimerWorker.WakePreservesInv | src/timer_ul.c:66-71 | a wake keeps the table invariant |
| TimerWorker.RelativeInterruptRestarts | src/timer_ul.c:61-71 | in relative mode the next sleep after an interruption is the full `it_value` again |
| TimerWorker.AbsoluteInterruptKeepsRemaining | src/timer_ul.c:67-71 | in absolute mode an interruption sets `it_value` to the time left and keeps the interval; gettime then reports that time left (the designed handshake) |
| TimerWorker.GetTimeReleasesWorker | src/timer_ul.c:253-266 | by the flags alone (the designed handshake), after gettime the worker on that slot is never told to wait for the read; a pending INTR still makes it exit |
| TimerFindings.AbsoluteInterruptLosesDeadline | src/timer_ul.c:56-71 | latent behind the mode-word defect: a timer armed through the corrected settime in absolute mode, with deadline 100 s at 90 s, first sleeps 10 s; the wake as written, interrupted at 94 s with 6 s left, makes the next sleep 6 − 94 = −88 s, while 6 s remain until its deadline |
| TimerFindings.AfterSleepKeepingDeadline | src/timer_ul.c:66-71 | corrected wake: an interruption records the time left in `rem` and leaves `it_value` alone in both modes |
| TimerFindings.KeptDeadlineResumesFromRemaining | src/timer_ul.c:56-71 | with the deadline kept, the next absolute sleep aims at the same deadline; if the clock reads the arm time plus the elapsed part of the first sleep (that sleep minus `rem`), the next sleep equals the recorded time left |
| TimerWorker.SetTimeRelativeSleep | src/timer_ul.c:219-229 | after a successful relative arm, the worker's sleep is exactly the new `it_value`, whatever the arm time and the clock |
| TimerFindings.CreatedHandleMissesItsSlot | src/timer_ul.c:174-204 | read as an index, the handle create returns names the slot after the one it filled; when the table grew, that index is past the end |
| TimerFindings.FirstHandleOutOfBounds | src/timer_ul.c:126-174 | the first create on an empty table returns 1 on a one-slot table, so `_timers[1]` is out of bounds |
| TimerFindings.HandleReadsNeighbour | src/timer_ul.c:246-263 | with slot 0 free and timer 2 in slot 1, a create returns 1, and a gettime on handle 1 reports timer 2's values |
| TimerFindings.Resolve | src/timer_ul.c:204 | corrected lookup: handle `h` names slot `h-1`, only while that slot is in use under `h` |
| TimerFindings.ResolveLive | src/timer_ul.c:174 | under the table invariant, a handle resolves exactly when it is live |
| TimerFindings.CreateThenResolve | src/timer_ul.c:174 | the handle a create returns resolves to the slot it filled |
| TimerFindings.SetTimeByHandle | src/timer_ul.c:197-244 | an unknown handle fails with EINVAL and changes nothing; a known one arms its own slot through the corrected settime |
| TimerFindings.GetTimeByHandle | src/timer_ul.c:246-278 | an unknown handle fails with EINVAL and changes nothing; a known one behaves as gettime on its own slot: it reports that slot's interval and `rem`, clears READ there, and changes nothing else |
| TimerFindings.GetOverrunByHandle | src/timer_ul.c:280-284 | an unknown handle fails with EINVAL; a known one returns its own slot's overrun count |
| TimerFindings.SetTimeIgnoresFlags | src/timer_ul.c:197-244 | settime's result is the same whatever `flags` it is given |
| TimerFindings.AbsoluteArmSleepsRelative | src/timer_ul.c:197-229 | arming a fresh timer (addressed by its slot index, to keep the handle defect apart) with TIMER_ABSTIME succeeds, yet the worker sleeps for `it_value` itself rather than until it |
| TimerFindings.SpawnFailureReportsStaleErrno | src/timer_ul.c:222-226 | a spawn that fails while errno holds 0 makes settime fail with errno 0, whatever error the spawn returned |
| TimerFindings.SetTimeCorrected | src/timer_ul.c:197-244 | the same as the code's settime, except that once the clock is read the slot's mode word holds `flags`, and a failed spawn reports the spawn's own error |
| TimerFindings.CorrectedSpawnFailureReportsCode | src/timer_ul.c:222-226 | with the correction, a failed spawn reports the error the spawn returned, whatever errno held, and does not set ARMED |
| TimerFindings.ArmedHandleSleepsByMode | src/timer_ul.c:56-64 | after a create and an arm through the returned handle, the arm succeeds and ARMED is set; the worker sleeps for `it_value` minus the clock in absolute mode and for `it_value` in relative mode |

## Left out

- Locking and threads are not modelled: the table mutex, the per-slot mutex and condition variable, the condition waits in the worker, and thread creation and cancellation. Only the sequential net effect of each call is modelled. The spawn outcome is an input.
- `pthread_cancel` in gettime (src/timer_ul.c:256) is not modelled. Under default deferred cancellation, `nanosleep` and `pthread_cond_wait` are cancellation points, so the worker ends there. It still holds `t_mutex` (taken at line 52), so gettime's lock at line 259 waits on a dead owner. `TimerUl.GetTime`, `TimerWorker.GetTimeReleasesWorker` and the gettime half of `TimerWorker.AbsoluteInterruptKeepsRemaining` describe the designed handshake, not a worker that survives the cancel.
- Aliasing is not modelled. Each worker keeps a raw pointer `&_timers[slot]` (line 223). A later create that grows the table through `mm_realloc` (line 128) may move the array and leave every running worker with a dangling pointer. `TimerWorker.Wake` and `TimerWorker.WakePreservesInv` assume the worker writes back into its own table entry.
- `clock_gettime` and `nanosleep` are external. Their outcomes are inputs: `ClockRead`, `SleepOutcome`, and the worker's reading `now`. The worker does not check its clock read (line 59); a failed read is not modelled.
- TimerWorker.SleepDuration: `timespec_sub` is not part of this model, so the absolute-mode subtraction is the parameter `sub`, and nothing is promised about its result beyond being `sub(it_value, now)`. The exact subtraction `Timespec.Difference` stands in for it only in the deadline finding.
- `mm_realloc` (mm.h) is not part of this model. Growth is taken to add one slot. That reading is an assumption: line 128 passes `_nr_timers + 1` without `sizeof(struct timer_ul)`, and if `mm_realloc` takes a byte count as `realloc` does, the buffer holds n+1 bytes and the memset at line 143 writes past it (not modelled). The `abort()` on allocation failure is left out.
- The copies at lines 58, 63 and 70 use `sizeof(struct timeval)`. On Linux that equals `sizeof(struct timespec)`, so whole timespecs are copied, as modelled. A platform with a smaller timeval would copy only part of one; that is not modelled.
- Notification and periodic re-arming are unimplemented in the code and not invented here. Nothing increments `overruns`.
- `sig_handler` (src/sig.c) is left out. It only forwards the notification pointer to the external event processor.
- The overflow of the C `time_t` and `long` fields is left out. Integers are unbounded, and the timespec properties assume normalised inputs.
- `old_value` of settime is never written by the code, so it is not modelled.
- Create checks the clock before `sevp`. Both failures give EINVAL and the same zeroed slot, so the order cannot be observed.
- TimerUl.GetOverrun carries no contract of its own because it is a plain read. Its properties are stated by `TimerUl.OverrunAlwaysZero` and `TimerFindings.GetOverrunByHandle`.
- TimerWorker.Wake carries no contract of its own. Its properties are stated by `TimerWorker.WakeDecidesOnCallerFlags` and `TimerWorker.WakePreservesInv`.

## Findings

| source | as written | input that shows it | evidently intended | confidence | as-written member | corrected member |
|---|---|---|---|---|---|---|
| src/timer_ul.c:204 | settime, gettime (247) and getoverrun (281) index `_timers[timerid]`, but create returns `slot + 1` (174) | first create on an empty table returns 1, and the table has one slot, so `_timers[1]` is read out of bounds | index `timerid - 1`, after checking that the slot is in use | medium; not executed | TimerFindings.FirstHandleOutOfBounds | TimerFindings.Resolve |
| src/timer_ul.c:197-229 | the `flags` argument of settime is never stored, yet the worker tests the slot's `flags` for TIMER_ABSTIME (56) | create a timer, then settime with TIMER_ABSTIME: the worker sleeps for `it_value` itself rather than until it | store `flags` in the slot when arming | medium (timer_ul.h is not part of this model); not executed | TimerFindings.AbsoluteArmSleepsRelative | TimerFindings.SetTimeCorrected |
| src/timer_ul.c:223-224 | on a failed `pthread_create`, settime reports `errno`, but `pthread_create` returns its error and need not set errno | a spawn that fails while errno is 0: settime returns -1 with errno 0 | report the value `pthread_create` returned | medium; not executed | TimerFindings.SpawnFailureReportsStaleErrno | TimerFindings.SetTimeCorrected |
| src/timer_ul.c:69-70 | after an interrupted absolute sleep, the deadline `it_value` is overwritten with the time left, a duration; the next pass subtracts the clock from it (58-60) | latent, since no slot reaches absolute mode until the mode word is stored; once it is: deadline 100 s, armed at 90 s, interrupted at 94 s with 6 s left, next sleep is −88 s instead of 6 s | keep the deadline and record the time left only in `rem` | medium; not executed | TimerFindings.AbsoluteInterruptLosesDeadline | TimerFindings.AfterSleepKeepingDeadline |

The first correction is proved by `TimerFindings.CreateThenResolve`: a created handle resolves to its own slot. The second is proved by `TimerFindings.ArmedHandleSleepsByMode`: the worker sleeps as the mode asks. The third is proved by `TimerFindings.CorrectedSpawnFailureReportsCode`. The fourth is proved by `TimerFindings.KeptDeadlineResumesFromRemaining`: the next sleep aims at the kept deadline.
