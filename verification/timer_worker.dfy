/**
  One wake of the worker thread that `timer_settime_ul` spawns for a slot:
  how long it sleeps, what an interrupted sleep records, and which way the
  flag checks send it afterwards.

  The sleep itself and the condition-variable waits are not modelled. The
  clock reading taken before an absolute-mode sleep is an input (`now`), and
  so is the subtraction `timespec_sub` performs (`sub`), which is not part of
  this model.

  Nothing in the timer calls sets INTR or WRITE: only ARMED (settime) and
  READ (gettime) are ever raised. So `Exit` and `AwaitWrite` are decided
  here as the loop is written but never arise from these calls, and a
  worker ends only through the `pthread_cancel` in gettime.
 */
module TimerWorker {
  import opened Timespec
  import opened TimerUl

  /** Where the flag checks after a wake send the worker. */
  datatype WakeAction =
    | Exit          // INTR: leave the loop, the thread ends
    | AwaitRead     // wait until READ is cleared, then recompute the sleep
    | AwaitWrite    // wait until WRITE is cleared, then recompute the sleep
    | FallThrough   // no request pending: loop again (notification is unimplemented)

  /** The flag checks, in the order the loop tests them: INTR, then READ,
      then WRITE. */
  function Decide(f: set<ThreadFlag>): (a: WakeAction)
    ensures a == Exit <==> Intr in f
    ensures a == AwaitRead <==> Intr !in f && Read in f
    ensures a == AwaitWrite <==> Intr !in f && Read !in f && Write in f
    ensures a == FallThrough <==> f <= {Armed}
  {
    if Intr in f then Exit
    else if Read in f then AwaitRead
    else if Write in f then AwaitWrite
    else
      assert forall x | x in f :: x == Armed;
      FallThrough
  }

  /** The duration passed to `nanosleep`: `it_value` itself in relative
      mode; in absolute mode `it_value` minus the clock reading `now`, as
      `sub` computes it. */
  function SleepDuration(s: Slot, now: Timespec, sub: (Timespec, Timespec) -> Timespec): (d: Timespec)
    ensures !AbsTime(s.flags) ==> d == s.arm.value
    ensures AbsTime(s.flags) ==> d == sub(s.arm.value, now)
  {
    if AbsTime(s.flags) then sub(s.arm.value, now) else s.arm.value
  }

  /** How `nanosleep` returned. */
  datatype SleepOutcome =
    | Completed               // slept the whole duration
    | Interrupted(rem: Timespec)  // EINTR, with the time left written to `rem`
    | SleepFailed             // any other error; nothing is written

  /** The slot after the sleep: an interruption stores the time left in
      `rem`, and in absolute mode also replaces `it_value` by it. */
  function AfterSleep(s: Slot, o: SleepOutcome): (s': Slot)
    ensures o.Interrupted? ==> s'.rem == o.rem
    ensures !o.Interrupted? ==> s' == s
    ensures o.Interrupted? && AbsTime(s.flags) ==> s'.arm == s.arm.(value := o.rem)
    ensures !AbsTime(s.flags) ==> s'.arm == s.arm
    ensures s' == s.(rem := s'.rem, arm := s'.arm)
  {
    match o
    case Interrupted(rem) =>
      var s1 := s.(rem := rem);
      if AbsTime(s.flags) then s1.(arm := s1.arm.(value := rem)) else s1
    case _ => s
  }

  /** One wake: record the sleep's outcome, then choose by the flags. */
  function Wake(s: Slot, o: SleepOutcome): (r: (Slot, WakeAction))
  {
    var s' := AfterSleep(s, o);
    (s', Decide(s'.tFlags))
  }

  /** The sleep's outcome never changes the decision: it is made on the
      flags the control side set, which a wake does not touch. */
  lemma WakeDecidesOnCallerFlags(s: Slot, o: SleepOutcome)
    ensures Wake(s, o).1 == Decide(s.tFlags)
    ensures Wake(s, o).0.tFlags == s.tFlags
  {
  }

  /** ARMED plays no part in the decision. */
  lemma DecideIgnoresArmed(f: set<ThreadFlag>)
    ensures Decide(f + {Armed}) == Decide(f)
    ensures Decide(f - {Armed}) == Decide(f)
  {
  }

  /** A wake keeps the slot's identity, clock, notification request, mode
      word, arm time and overrun count, so the table invariant survives it. */
  lemma WakePreservesInv(t: seq<Slot>, i: nat, o: SleepOutcome)
    requires Inv(t) && i < |t|
    ensures Inv(t[i := Wake(t[i], o).0])
  {
  }

  /** In relative mode an interrupted sleep starts over with the full
      `it_value`: the partial progress is recorded in `rem` only. */
  lemma RelativeInterruptRestarts(s: Slot, rem: Timespec, now: Timespec,
                                  sub: (Timespec, Timespec) -> Timespec)
    requires !AbsTime(s.flags)
    ensures SleepDuration(Wake(s, Interrupted(rem)).0, now, sub) == s.arm.value
  {
  }

  /** In absolute mode an interruption overwrites `it_value` with the time
      left and keeps the interval; a later gettime reports that time left.
      (The next sleep then does not resume from it: see
      `TimerFindings.AbsoluteInterruptLosesDeadline`.) */
  lemma AbsoluteInterruptKeepsRemaining(s: Slot, rem: Timespec)
    requires AbsTime(s.flags)
    ensures Wake(s, Interrupted(rem)).0.arm.value == rem
    ensures Wake(s, Interrupted(rem)).0.arm.interval == s.arm.interval
    ensures GetTime([Wake(s, Interrupted(rem)).0], 0).status == Ok(ITimerSpec(s.arm.interval, rem))
  {
  }

  /** The read handshake, as designed, releases the worker: once gettime
      returns, a worker woken on that slot is no longer told to wait for the
      read. This is about the flags only; it assumes the worker survives
      the `pthread_cancel` gettime issues, which is not modelled. */
  lemma GetTimeReleasesWorker(t: seq<Slot>, timerid: nat, o: SleepOutcome)
    requires timerid < |t|
    ensures Wake(GetTime(t, timerid).timers[timerid], o).1 != AwaitRead
    ensures Intr in t[timerid].tFlags ==> Wake(GetTime(t, timerid).timers[timerid], o).1 == Exit
  {
  }

  /** A successful arm makes the worker's first relative sleep exactly the
      new `it_value`, whatever the arm time read from the clock. */
  lemma SetTimeRelativeSleep(t: seq<Slot>, timerid: nat, flags: int, newValue: ITimerSpec,
                             armTime: Timespec, now: Timespec,
                             sub: (Timespec, Timespec) -> Timespec)
    requires timerid < |t| && !AbsTime(t[timerid].flags)
    ensures var r := SetTime(t, timerid, flags, newValue, ClockOk(armTime), Spawned);
      SleepDuration(r.timers[timerid], now, sub) == newValue.value
  {
  }
}
