/**
  The control-slot table of the userland timer emulation and the
  operations callers perform on it: create, arm (settime), query
  (gettime), read the overrun count, delete.

  The table is a value, `seq<Slot>`; each operation returns the table it
  leaves behind together with its status (the C return value and errno).
  The table-wide mutex, the per-slot mutex and condition variable, thread
  creation and cancellation are not modelled: only the sequential net
  effect of each call is. Clock reads and thread spawns are inputs.
 */
module TimerUl {
  import opened Timespec

  /** Clock identifiers as the Linux headers number them. */
  const CLOCK_REALTIME: int := 0
  const CLOCK_MONOTONIC: int := 1
  const CLOCK_PROCESS_CPUTIME_ID: int := 2
  const CLOCK_THREAD_CPUTIME_ID: int := 3

  /** The `TIMER_ABSTIME` bit of a `flags` word. */
  const TIMER_ABSTIME: int := 1

  /** errno values the emulation reports itself. */
  const EINVAL: int := 22
  const ENOSYS: int := 38

  /** The notification request a timer is created with. It is copied into
      the slot verbatim and never interpreted here. */
  datatype SigEvent = SigEvent(notify: int, signo: int, value: int)

  const ZeroSigEvent: SigEvent := SigEvent(0, 0, 0)

  /** `struct itimerspec`: reload interval and initial expiration. */
  datatype ITimerSpec = ITimerSpec(interval: Timespec, value: Timespec)

  const ZeroITimerSpec: ITimerSpec := ITimerSpec(Zero, Zero)

  /** The cooperative bits of a slot's `t_flags` word. */
  datatype ThreadFlag = Armed | Read | Write | Intr

  /** One timer control slot. `id` is the handle, 0 while the slot is free;
      `flags` is the word whose `TIMER_ABSTIME` bit selects absolute mode;
      `rem` is the time left when the worker's sleep was last interrupted. */
  datatype Slot = Slot(
    id: nat,
    clockid: int,
    sevp: SigEvent,
    flags: int,
    arm: ITimerSpec,
    initTime: Timespec,
    rem: Timespec,
    tFlags: set<ThreadFlag>,
    overruns: int)

  /** A slot after `memset(…, 0, …)`. */
  const ZeroSlot: Slot :=
    Slot(0, CLOCK_REALTIME, ZeroSigEvent, 0, ZeroITimerSpec, Zero, Zero, {}, 0)

  /** A value or its absence (a NULL pointer, no free slot). */
  datatype Option<T> = None | Some(value: T)

  /** The C return convention: success with a value, or -1 with errno. */
  datatype Status<T> = Ok(value: T) | Err(errno: int)

  /** The table an operation leaves behind, and what it returns. */
  datatype Reply<T> = Reply(timers: seq<Slot>, status: Status<T>)

  /** Outcome of `clock_gettime` on the slot's clock. */
  datatype ClockRead = ClockOk(now: Timespec) | ClockFailed(errno: int)

  /** Outcome of spawning the slot's worker thread. `pthread_create` reports
      a failure by its return value (`code`) and need not set errno;
      `errnoAfter` is whatever errno holds once the failed call returns. */
  datatype Spawn = Spawned | SpawnFailed(code: int, errnoAfter: int)

  /** The four clocks a timer may be created on. */
  predicate KnownClock(clockid: int) {
    clockid in {CLOCK_REALTIME, CLOCK_MONOTONIC, CLOCK_PROCESS_CPUTIME_ID, CLOCK_THREAD_CPUTIME_ID}
  }

  /** Whether a `flags` word has the `TIMER_ABSTIME` bit set (bit 0 of a
      two's complement word, hence oddness). */
  predicate AbsTime(flags: int) {
    flags % 2 == TIMER_ABSTIME
  }

  /** The table invariant: a slot is free or carries its own index plus one. */
  ghost predicate IdsMatchSlots(t: seq<Slot>) {
    forall i :: 0 <= i < |t| ==> t[i].id == 0 || t[i].id == i + 1
  }

  /** The handles of all slots in use. */
  ghost function Handles(t: seq<Slot>): set<nat> {
    set i | 0 <= i < |t| && t[i].id != 0 :: t[i].id
  }

  /** Lowest free slot at or after `k`, if any. */
  function FirstFreeFrom(t: seq<Slot>, k: nat): (r: Option<nat>)
    requires k <= |t|
    ensures r.Some? ==> k <= r.value < |t| && t[r.value].id == 0
    ensures r.Some? ==> forall j :: k <= j < r.value ==> t[j].id != 0
    ensures r.None? ==> forall j :: k <= j < |t| ==> t[j].id != 0
    decreases |t| - k
  {
    if k == |t| then None
    else if t[k].id == 0 then Some(k)
    else FirstFreeFrom(t, k + 1)
  }

  /** The slot `timer_create_ul` uses: the lowest free one, or the index one
      past the end when every slot is taken (the table then grows). */
  function ChooseSlot(t: seq<Slot>): (i: nat)
    ensures i <= |t|
    ensures i < |t| ==> t[i].id == 0
    ensures forall j :: 0 <= j < i ==> t[j].id != 0
  {
    match FirstFreeFrom(t, 0)
    case Some(i) => i
    case None => |t|
  }

  /** `timer_create_ul(clockid, sevp, &timerid)`; `None` stands for a NULL
      `sevp`. On success the status carries the handle stored in `*timerid`. */
  function Create(t: seq<Slot>, clockid: int, sevp: Option<SigEvent>): (r: Reply<nat>)
    ensures |r.timers| == if ChooseSlot(t) < |t| then |t| else |t| + 1
    ensures forall j :: 0 <= j < |t| && j != ChooseSlot(t) ==> r.timers[j] == t[j]
    ensures r.status.Ok? <==> KnownClock(clockid) && sevp.Some?
    ensures r.status.Err? ==> r.status.errno == EINVAL && r.timers[ChooseSlot(t)] == ZeroSlot
    ensures r.status.Ok? ==>
      && r.status.value == ChooseSlot(t) + 1
      && r.timers[ChooseSlot(t)] == ZeroSlot.(id := r.status.value, clockid := clockid, sevp := sevp.value)
  {
    var slot := ChooseSlot(t);
    var grown := if slot < |t| then t else t + [ZeroSlot];
    if !KnownClock(clockid) || sevp.None? then
      Reply(grown[slot := ZeroSlot], Err(EINVAL))
    else
      Reply(grown[slot := ZeroSlot.(id := slot + 1, clockid := clockid, sevp := sevp.value)], Ok(slot + 1))
  }

  /** `timer_settime_ul(timerid, flags, new_value, old_value)`. The handle is
      used as an index unchanged, `flags` is never stored, and a failed
      spawn reports the errno in effect rather than the spawn's own error:
      all as in the code. `old_value` is never written. */
  function SetTime(t: seq<Slot>, timerid: nat, flags: int, newValue: ITimerSpec,
                   clock: ClockRead, spawn: Spawn): (r: Reply<()>)
    requires timerid < |t|
    ensures |r.timers| == |t|
    ensures forall j :: 0 <= j < |t| && j != timerid ==> r.timers[j] == t[j]
    ensures r.status.Ok? <==> clock.ClockOk? && spawn.Spawned?
    ensures clock.ClockFailed? ==> r == Reply(t, Err(clock.errno))
    ensures clock.ClockOk? ==>
      var s := r.timers[timerid];
      && s.arm == newValue
      && s.initTime == clock.now
      && s.tFlags == (if spawn.Spawned? then t[timerid].tFlags + {Armed} else t[timerid].tFlags)
      && s == t[timerid].(arm := s.arm, initTime := s.initTime, tFlags := s.tFlags)
    ensures spawn.SpawnFailed? && clock.ClockOk? ==> r.status == Err(spawn.errnoAfter)
  {
    var s := t[timerid];
    match clock
    case ClockFailed(e) => Reply(t, Err(e))
    case ClockOk(now) =>
      var armed := s.(initTime := now, arm := newValue);
      match spawn
      // The code reports errno, not the value pthread_create returned.
      case SpawnFailed(_, e) => Reply(t[timerid := armed], Err(e))
      case Spawned => Reply(t[timerid := armed.(tFlags := armed.tFlags + {Armed})], Ok(()))
  }

  /** `timer_gettime_ul(timerid, curr_value)`: the reload interval and the
      remaining time, with the read request withdrawn afterwards. This is the
      net effect the handshake is designed to have; what `pthread_cancel`
      does to a sleeping worker is not modelled. */
  function GetTime(t: seq<Slot>, timerid: nat): (r: Reply<ITimerSpec>)
    requires timerid < |t|
    ensures r.status == Ok(ITimerSpec(t[timerid].arm.interval, t[timerid].rem))
    ensures |r.timers| == |t|
    ensures forall j :: 0 <= j < |t| && j != timerid ==> r.timers[j] == t[j]
    ensures r.timers[timerid].tFlags == t[timerid].tFlags - {Read}
    ensures r.timers[timerid] == t[timerid].(tFlags := r.timers[timerid].tFlags)
  {
    var s := t[timerid];
    // READ is raised for the handshake and cleared once the value is copied.
    var reading := s.(tFlags := s.tFlags + {Read});
    Reply(t[timerid := reading.(tFlags := reading.tFlags - {Read})],
          Ok(ITimerSpec(reading.arm.interval, reading.rem)))
  }

  /** `timer_getoverrun_ul(timerid)`: a plain read of the slot's counter. */
  function GetOverrun(t: seq<Slot>, timerid: nat): int
    requires timerid < |t|
  {
    t[timerid].overruns
  }

  /** `timer_delete_ul(timerid)`: unsupported, fails with ENOSYS. */
  function Delete(t: seq<Slot>, timerid: nat): (r: Reply<()>)
    ensures r.status.Err? && r.status.errno == ENOSYS
    ensures r.timers == t
  {
    Reply(t, Err(ENOSYS))
  }

  /** The fields nothing in this code ever sets stay at their `memset` value:
      the `TIMER_ABSTIME` word (settime ignores its `flags` argument) and the
      overrun counter (notification and re-arming are unimplemented). */
  ghost predicate Inv(t: seq<Slot>) {
    && IdsMatchSlots(t)
    && forall i :: 0 <= i < |t| ==> t[i].flags == 0 && t[i].overruns == 0
  }

  /** In-use slots carry distinct handles, each naming its own index. */
  lemma HandlesDistinct(t: seq<Slot>, i: nat, j: nat)
    requires IdsMatchSlots(t)
    requires i < |t| && j < |t| && i != j
    requires t[i].id != 0
    ensures t[i].id != t[j].id
  {
  }

  lemma HandlesAreSlotIndices(t: seq<Slot>)
    requires IdsMatchSlots(t)
    ensures Handles(t) == set i | 0 <= i < |t| && t[i].id != 0 :: i + 1
  {
  }

  /** A successful create returns a non-zero handle that no slot in use
      already carries, and adds exactly that handle. */
  lemma CreateFreshHandle(t: seq<Slot>, clockid: int, sevp: Option<SigEvent>)
    requires IdsMatchSlots(t)
    ensures var r := Create(t, clockid, sevp);
      r.status.Ok? ==>
        && r.status.value != 0
        && r.status.value !in Handles(t)
        && Handles(r.timers) == Handles(t) + {r.status.value}
    ensures var r := Create(t, clockid, sevp);
      r.status.Err? ==> Handles(r.timers) == Handles(t)
  {
    var r := Create(t, clockid, sevp);
    var slot := ChooseSlot(t);
    if r.status.Ok? {
      var h := r.status.value;
      forall x | x in Handles(r.timers) ensures x in Handles(t) + {h} {
        var i :| 0 <= i < |r.timers| && r.timers[i].id != 0 && r.timers[i].id == x;
        if i != slot {
          assert t[i] == r.timers[i];
        }
      }
      forall x | x in Handles(t) + {h} ensures x in Handles(r.timers) {
        if x != h {
          var i :| 0 <= i < |t| && t[i].id != 0 && t[i].id == x;
          assert r.timers[i] == t[i];
        } else {
          assert r.timers[slot].id == h;
        }
      }
    } else {
      forall x | x in Handles(r.timers) ensures x in Handles(t) {
        var i :| 0 <= i < |r.timers| && r.timers[i].id != 0 && r.timers[i].id == x;
        assert i != slot;
        assert t[i] == r.timers[i];
      }
      forall x | x in Handles(t) ensures x in Handles(r.timers) {
        var i :| 0 <= i < |t| && t[i].id != 0 && t[i].id == x;
        assert r.timers[i] == t[i];
      }
    }
  }

  lemma CreatePreservesInv(t: seq<Slot>, clockid: int, sevp: Option<SigEvent>)
    requires Inv(t)
    ensures Inv(Create(t, clockid, sevp).timers)
  {
  }

  lemma SetTimePreservesInv(t: seq<Slot>, timerid: nat, flags: int, newValue: ITimerSpec,
                            clock: ClockRead, spawn: Spawn)
    requires Inv(t) && timerid < |t|
    ensures Inv(SetTime(t, timerid, flags, newValue, clock, spawn).timers)
  {
  }

  lemma GetTimePreservesInv(t: seq<Slot>, timerid: nat)
    requires Inv(t) && timerid < |t|
    ensures Inv(GetTime(t, timerid).timers)
  {
  }

  /** A failed create leaves the table as good as unchanged: the same
      handles are in use, and the next create picks the same slot (a grown
      table keeps its new, free, last slot). */
  lemma FailedCreateReusesSlot(t: seq<Slot>, clockid: int, sevp: Option<SigEvent>)
    requires !KnownClock(clockid) || sevp.None?
    ensures var r := Create(t, clockid, sevp);
      && ChooseSlot(r.timers) == ChooseSlot(t)
      && r.timers[ChooseSlot(t)] == ZeroSlot
  {
  }

  /** Outcome of one `timer_create_ul` call in a run of calls. */
  function CreateAll(t: seq<Slot>, reqs: seq<(int, Option<SigEvent>)>): (r: (seq<Slot>, seq<nat>))
    decreases |reqs|
  {
    if |reqs| == 0 then (t, [])
    else
      var c := Create(t, reqs[0].0, reqs[0].1);
      var rest := CreateAll(c.timers, reqs[1..]);
      if c.status.Ok? then (rest.0, [c.status.value] + rest.1) else rest
  }

  /** Any run of creates without intervening frees hands out non-zero,
      pairwise distinct handles that were not in use before, keeps the table
      invariant, and leaves every handed-out handle in use. */
  lemma {:induction false} CreateAllDistinct(t: seq<Slot>, reqs: seq<(int, Option<SigEvent>)>)
    requires IdsMatchSlots(t)
    ensures var r := CreateAll(t, reqs);
      && IdsMatchSlots(r.0)
      && (forall k :: 0 <= k < |r.1| ==> r.1[k] != 0 && r.1[k] !in Handles(t) && r.1[k] in Handles(r.0))
      && (forall k, l :: 0 <= k < l < |r.1| ==> r.1[k] != r.1[l])
    decreases |reqs|
  {
    if |reqs| > 0 {
      var c := Create(t, reqs[0].0, reqs[0].1);
      CreateFreshHandle(t, reqs[0].0, reqs[0].1);
      assert IdsMatchSlots(c.timers);
      CreateAllDistinct(c.timers, reqs[1..]);
      var rest := CreateAll(c.timers, reqs[1..]);
      assert Handles(t) <= Handles(c.timers);
      if c.status.Ok? {
        var h := c.status.value;
        assert h in Handles(c.timers);
        var r := CreateAll(t, reqs);
        assert r.1 == [h] + rest.1;
        // Handles only grow along the run.
        HandlesMonotone(c.timers, reqs[1..]);
      }
    }
  }

  /** Handles in use before a run of creates are still in use after it. */
  lemma {:induction false} HandlesMonotone(t: seq<Slot>, reqs: seq<(int, Option<SigEvent>)>)
    requires IdsMatchSlots(t)
    ensures Handles(t) <= Handles(CreateAll(t, reqs).0)
    decreases |reqs|
  {
    if |reqs| > 0 {
      var c := Create(t, reqs[0].0, reqs[0].1);
      CreateFreshHandle(t, reqs[0].0, reqs[0].1);
      HandlesMonotone(c.timers, reqs[1..]);
    }
  }

  /** Successive queries see the same values: gettime changes nothing it
      reports, and the overrun count is untouched by it. */
  lemma GetTimeIsStable(t: seq<Slot>, timerid: nat)
    requires timerid < |t|
    ensures var r := GetTime(t, timerid);
      && GetTime(r.timers, timerid) == Reply(r.timers, r.status)
      && GetOverrun(r.timers, timerid) == GetOverrun(t, timerid)
  {
  }

  /** Under the invariant the overrun count read back is always zero, since
      nothing increments it. */
  lemma OverrunAlwaysZero(t: seq<Slot>, timerid: nat)
    requires Inv(t) && timerid < |t|
    ensures GetOverrun(t, timerid) == 0
  {
  }
}
