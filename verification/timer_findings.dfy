/**
  Four places where the timer code disagrees with its own intent, each
  shown on the code as written and paired with a corrected definition.

  1. `timer_create_ul` hands out `slot + 1` as the handle, but settime,
     gettime and getoverrun index the table with the handle itself, so a
     fresh handle names the slot after its own (or none at all).
  2. `timer_settime_ul` never stores its `flags` argument, so the slot's
     `TIMER_ABSTIME` bit stays as `memset` left it and the worker always
     sleeps in relative mode.
  3. When the worker cannot be spawned, `timer_settime_ul` reports errno,
     but `pthread_create` returns its error instead of setting errno, so
     the caller sees -1 with a stale errno, possibly 0.

  4. After an interrupted sleep in absolute mode, the worker overwrites
     the deadline `it_value` with the time left, a duration, so the next
     pass subtracts the clock from a duration and the deadline is lost.
     Because of 2 no slot is ever in absolute mode, so this defect is
     latent: it shows once the mode word is stored.

  The corrected calls resolve a handle to its slot, checking bounds and
  that the slot is in use, store the mode word when arming, and report
  the spawn's own error; the corrected wake keeps the deadline.
 */
module TimerFindings {
  import opened Timespec
  import opened TimerUl
  import opened TimerWorker

  // ---- 1. Handle versus index, as written --------------------------------

  /** The handle a successful create returns is one past the slot it filled:
      read as an index it names another slot, or lies past the end when the
      table had to grow. */
  lemma CreatedHandleMissesItsSlot(t: seq<Slot>, clockid: int, sevp: Option<SigEvent>)
    requires IdsMatchSlots(t)
    ensures var r := Create(t, clockid, sevp);
      r.status.Ok? ==>
        && r.status.value == ChooseSlot(t) + 1
        && (ChooseSlot(t) == |t| ==> r.status.value == |r.timers|)
        && (r.status.value < |r.timers| ==> r.timers[r.status.value].id != r.status.value)
  {
  }

  /** The first timer created on an empty table gets handle 1, and the
      table then has one slot: `_timers[1]` is out of bounds. */
  lemma FirstHandleOutOfBounds()
    ensures var r := Create([], CLOCK_REALTIME, Some(ZeroSigEvent));
      r.status == Ok(1) && |r.timers| == 1
  {
    assert ChooseSlot([]) == 0;
  }

  /** With slot 0 free and slot 1 holding timer 2, a create fills slot 0 and
      returns handle 1; a gettime on handle 1 then reports timer 2's values. */
  lemma HandleReadsNeighbour(other: Slot)
    requires other.id == 2
    ensures var t := [ZeroSlot, other];
      var r := Create(t, CLOCK_MONOTONIC, Some(ZeroSigEvent));
      && r.status == Ok(1)
      && GetTime(r.timers, 1).status == Ok(ITimerSpec(other.arm.interval, other.rem))
  {
    var t := [ZeroSlot, other];
    assert t[0].id == 0;
    assert ChooseSlot(t) == 0;
  }

  // ---- 1. Handle versus index, corrected ---------------------------------

  /** The slot a handle names: handle `h` is slot `h - 1`, valid only while
      that slot is in use under that handle. */
  function Resolve(t: seq<Slot>, h: nat): (r: Option<nat>)
    ensures r.Some? <==> 1 <= h <= |t| && t[h - 1].id == h
    ensures r.Some? ==> r.value + 1 == h
  {
    if 1 <= h <= |t| && t[h - 1].id == h then Some(h - 1) else None
  }

  /** Under the table invariant a handle resolves exactly when it is in use. */
  lemma ResolveLive(t: seq<Slot>, h: nat)
    requires IdsMatchSlots(t)
    ensures Resolve(t, h).Some? <==> h in Handles(t)
  {
    if h in Handles(t) {
      var i :| 0 <= i < |t| && t[i].id != 0 && t[i].id == h;
      assert i == h - 1;
    }
  }

  /** The handle a create returns resolves to the slot it filled. */
  lemma CreateThenResolve(t: seq<Slot>, clockid: int, sevp: Option<SigEvent>)
    ensures var r := Create(t, clockid, sevp);
      r.status.Ok? ==> Resolve(r.timers, r.status.value) == Some(ChooseSlot(t))
  {
  }

  /** settime addressed by handle; an unknown handle fails with EINVAL and
      changes nothing. */
  function SetTimeByHandle(t: seq<Slot>, h: nat, flags: int, newValue: ITimerSpec,
                           clock: ClockRead, spawn: Spawn): (r: Reply<()>)
    ensures Resolve(t, h).None? ==> r == Reply(t, Err(EINVAL))
    ensures Resolve(t, h).Some? ==> r == SetTimeCorrected(t, h - 1, flags, newValue, clock, spawn)
  {
    match Resolve(t, h)
    case None => Reply(t, Err(EINVAL))
    case Some(i) => SetTimeCorrected(t, i, flags, newValue, clock, spawn)
  }

  /** gettime addressed by handle. */
  function GetTimeByHandle(t: seq<Slot>, h: nat): (r: Reply<ITimerSpec>)
    ensures Resolve(t, h).None? ==> r == Reply(t, Err(EINVAL))
    ensures Resolve(t, h).Some? ==> r == GetTime(t, h - 1)
    ensures Resolve(t, h).Some? ==>
      && r.status == Ok(ITimerSpec(t[h - 1].arm.interval, t[h - 1].rem))
      && |r.timers| == |t|
      && r.timers[h - 1] == t[h - 1].(tFlags := t[h - 1].tFlags - {Read})
      && (forall j :: 0 <= j < |t| && j != h - 1 ==> r.timers[j] == t[j])
  {
    match Resolve(t, h)
    case None => Reply(t, Err(EINVAL))
    case Some(i) => GetTime(t, i)
  }

  /** getoverrun addressed by handle. */
  function GetOverrunByHandle(t: seq<Slot>, h: nat): (r: Status<int>)
    ensures Resolve(t, h).None? ==> r == Err(EINVAL)
    ensures Resolve(t, h).Some? ==> r == Ok(t[h - 1].overruns)
  {
    match Resolve(t, h)
    case None => Err(EINVAL)
    case Some(i) => Ok(GetOverrun(t, i))
  }

  // ---- 2. The mode word, as written --------------------------------------

  /** settime gives the same result whatever `flags` it is passed. */
  lemma SetTimeIgnoresFlags(t: seq<Slot>, timerid: nat, flags: int, newValue: ITimerSpec,
                            clock: ClockRead, spawn: Spawn)
    requires timerid < |t|
    ensures SetTime(t, timerid, flags, newValue, clock, spawn)
         == SetTime(t, timerid, 0, newValue, clock, spawn)
  {
  }

  /** Arming a freshly created timer with `TIMER_ABSTIME` still makes the
      worker sleep for `it_value` itself, not until it. To keep this apart
      from the handle defect, the arm addresses the created slot by its
      index (handle minus one), not by the handle as the code would. */
  lemma AbsoluteArmSleepsRelative(t: seq<Slot>, clockid: int, sevp: SigEvent, newValue: ITimerSpec,
                                  armTime: Timespec, now: Timespec,
                                  sub: (Timespec, Timespec) -> Timespec)
    requires KnownClock(clockid)
    ensures var c := Create(t, clockid, Some(sevp));
      var i := c.status.value - 1;
      var r := SetTime(c.timers, i, TIMER_ABSTIME, newValue, ClockOk(armTime), Spawned);
      && r.status.Ok?
      && SleepDuration(r.timers[i], now, sub) == newValue.value
  {
  }

  // ---- 3. The spawn error, as written ------------------------------------

  /** A spawn that fails with `code` while errno still holds 0 makes settime
      fail with errno 0: the spawn's error is lost. */
  lemma SpawnFailureReportsStaleErrno(t: seq<Slot>, timerid: nat, flags: int, newValue: ITimerSpec,
                                      armTime: Timespec, code: int)
    requires timerid < |t|
    ensures SetTime(t, timerid, flags, newValue, ClockOk(armTime), SpawnFailed(code, 0)).status == Err(0)
  {
  }

  // ---- 2 and 3, corrected ------------------------------------------------

  /** settime that records `flags` in the slot once the arm time is read, and
      reports a failed spawn by the error `pthread_create` returned;
      otherwise the same as the code's settime. */
  function SetTimeCorrected(t: seq<Slot>, timerid: nat, flags: int, newValue: ITimerSpec,
                            clock: ClockRead, spawn: Spawn): (r: Reply<()>)
    requires timerid < |t|
    ensures var w := SetTime(t, timerid, flags, newValue, clock, spawn);
      && r.status == (if clock.ClockOk? && spawn.SpawnFailed? then Err(spawn.code) else w.status)
      && |r.timers| == |w.timers|
      && (forall j :: 0 <= j < |t| && j != timerid ==> r.timers[j] == w.timers[j])
      && r.timers[timerid] == w.timers[timerid].(flags := r.timers[timerid].flags)
    ensures clock.ClockOk? ==> r.timers[timerid].flags == flags
    ensures clock.ClockFailed? ==> r.timers == t
  {
    var w := SetTime(t, timerid, flags, newValue, clock, spawn);
    match clock
    case ClockFailed(_) => w
    case ClockOk(_) =>
      var status := if spawn.SpawnFailed? then Err(spawn.code) else w.status;
      Reply(w.timers[timerid := w.timers[timerid].(flags := flags)], status)
  }

  /** With the correction a failed spawn reports its own error, whatever
      errno happened to hold, and leaves the timer unarmed. */
  lemma CorrectedSpawnFailureReportsCode(t: seq<Slot>, timerid: nat, flags: int, newValue: ITimerSpec,
                                         armTime: Timespec, code: int, errnoAfter: int)
    requires timerid < |t|
    ensures var r := SetTimeCorrected(t, timerid, flags, newValue, ClockOk(armTime), SpawnFailed(code, errnoAfter));
      && r.status == Err(code)
      && r.timers[timerid].tFlags == t[timerid].tFlags
  {
  }

  /** With the correction, a create followed by an arm through the returned
      handle succeeds and the worker sleeps as the mode asks: `it_value`
      minus the clock in absolute mode, `it_value` itself in relative mode. */
  lemma ArmedHandleSleepsByMode(t: seq<Slot>, clockid: int, sevp: SigEvent, flags: int,
                                newValue: ITimerSpec, armTime: Timespec, now: Timespec,
                                sub: (Timespec, Timespec) -> Timespec)
    requires KnownClock(clockid)
    ensures var c := Create(t, clockid, Some(sevp));
      var h := c.status.value;
      var r := SetTimeByHandle(c.timers, h, flags, newValue, ClockOk(armTime), Spawned);
      && r.status.Ok?
      && Armed in r.timers[h - 1].tFlags
      && r.timers[h - 1].arm == newValue
      && SleepDuration(r.timers[h - 1], now, sub)
         == (if AbsTime(flags) then sub(newValue.value, now) else newValue.value)
  {
    CreateThenResolve(t, clockid, Some(sevp));
  }

  // ---- 4. The absolute deadline on interruption, as written --------------

  /** Latent behind defect 2, so the slot is armed by the corrected settime
      with `TIMER_ABSTIME`, deadline 100 s, at 90 s: it first sleeps 10 s.
      The wake as written, interrupted at 94 s with 6 s left, replaces the
      deadline by 6 s, so the next sleep is 6 s minus 94 s, -88 s, where 6 s
      remain until the deadline. Exact subtraction stands in for
      `timespec_sub`. */
  lemma AbsoluteInterruptLosesDeadline(t: seq<Slot>, clockid: int, sevp: SigEvent, interval: Timespec)
    requires KnownClock(clockid)
    ensures var c := Create(t, clockid, Some(sevp));
      var i := c.status.value - 1;
      var deadline := Timespec(100, 0);
      var r := SetTimeCorrected(c.timers, i, TIMER_ABSTIME, ITimerSpec(interval, deadline),
                                ClockOk(Timespec(90, 0)), Spawned);
      var s := r.timers[i];
      var s' := AfterSleep(s, Interrupted(Timespec(6, 0)));
      && SleepDuration(s, Timespec(90, 0), Difference) == Timespec(10, 0)
      && SleepDuration(s', Timespec(94, 0), Difference) == Timespec(-88, 0)
      && Difference(deadline, Timespec(94, 0)) == Timespec(6, 0)
  {
    var c := Create(t, clockid, Some(sevp));
    var i := c.status.value - 1;
    var r := SetTimeCorrected(c.timers, i, TIMER_ABSTIME, ITimerSpec(interval, Timespec(100, 0)),
                              ClockOk(Timespec(90, 0)), Spawned);
    assert AbsTime(r.timers[i].flags);
    assert FromNanos(10 * NSEC_PER_SEC) == Timespec(10, 0);
    assert FromNanos(-88 * NSEC_PER_SEC) == Timespec(-88, 0);
    assert FromNanos(6 * NSEC_PER_SEC) == Timespec(6, 0);
  }

  // ---- 4. The absolute deadline on interruption, corrected ---------------

  /** The slot after the sleep, keeping `it_value` in both modes: an
      interruption only records the time left in `rem`. */
  function AfterSleepKeepingDeadline(s: Slot, o: SleepOutcome): (s': Slot)
    ensures o.Interrupted? ==> s' == s.(rem := o.rem)
    ensures !o.Interrupted? ==> s' == s
    ensures s'.arm == s.arm
  {
    match o
    case Interrupted(rem) => s.(rem := rem)
    case _ => s
  }

  /** With the deadline kept, the sleep after an interruption in absolute
      mode aims at the same deadline. If the worker slept from `armTime`
      and the clock now reads `armTime` plus the part of the first sleep
      that elapsed (the first sleep minus `rem`), the new sleep is exactly
      the recorded time left. */
  lemma KeptDeadlineResumesFromRemaining(s: Slot, rem: Timespec, armTime: Timespec, now: Timespec,
                                         sub: (Timespec, Timespec) -> Timespec)
    requires AbsTime(s.flags)
    ensures SleepDuration(AfterSleepKeepingDeadline(s, Interrupted(rem)), now, sub) == sub(s.arm.value, now)
    ensures Normalised(rem)
         && ToNanos(now) == ToNanos(armTime) + ToNanos(SleepDuration(s, armTime, Difference)) - ToNanos(rem)
         ==> SleepDuration(AfterSleepKeepingDeadline(s, Interrupted(rem)), now, Difference) == rem
  {
    if Normalised(rem)
       && ToNanos(now) == ToNanos(armTime) + ToNanos(SleepDuration(s, armTime, Difference)) - ToNanos(rem)
    {
      NormalisedUnique(Difference(s.arm.value, now), rem);
    }
  }
}
