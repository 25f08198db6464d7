/**
 * The sleep blocker asserts that it is never asked more than a second late. It is only asked at ticks
 * that reschedule, so the assertion is not a local property: it holds as long as at most 200 processes
 * were ever started, and a chain of processes that start a successor and exit breaks it with 201.
 */
module SleepPunctuality {
  import opened Options
  import opened Sequences
  import opened Timer
  import opened Scheduling
  import opened SchedulerInvariant
  import opened BoundedWaiting

  predicate Busy(s: Sys) { s.current.Some? && s.current.value != s.idle }

  /** Ticks left before the running process can be preempted. */
  function SliceLeft(s: Sys): int { if Busy(s) then TIME_SLICE - s.ticks else 0 }

  function Count(s: Sys): nat { |s.runnable| + |s.blocked| + if Busy(s) then 1 else 0 }

  predicate Sleeps(s: Sys, p: Pid) {
    p in s.procs && s.procs[p].blocker.Some? && s.procs[p].blocker.value.Sleep?
  }

  /** How late a sleeper is; a deadline whose leftover of 1000 was not carried counts a millisecond more. */
  function Lateness(s: Sys, p: Pid): int
    requires Sleeps(s, p)
  {
    var until := s.procs[p].blocker.value.until;
    Timer.Total(s.clock) - Timer.Total(until) + if until.ms == 1000 then 1 else 0
  }

  /** However long the processes other than the sleeper hold the processor, it will not be later than they can run. */
  ghost predicate OnTime(s: Sys, p: Pid, left: int, started: nat) {
    Sleeps(s, p) ==> s.procs[p].blocker.value.until.ms <= 1000 && Lateness(s, p) + 5 * |s.runnable| + left <= 5 * (started - 1)
  }

  /** The invariant after `started` processes were started. */
  ghost predicate Punctual(s: Sys, started: nat) {
    && Count(s) <= started
    && forall p :: p in s.blocked ==> OnTime(s, p, SliceLeft(s), started)
  }

  lemma NotOverslept(s: Sys, p: Pid, started: nat)
    requires Inv(s) && !InSlice(s) && OnTime(s, p, SliceLeft(s), started) && started <= 200
    ensures !Overslept(s.(clock := Advance(s.clock)), p)
  {
  }

  lemma PunctualTick(s: Sys, ready: set<File>, started: nat)
    requires Inv(s) && Punctual(s, started) && started <= 200
    ensures Tick(s, ready).Next?
  {
    hide InPlace, BlockerOk, WaiterOk, OneWaitee, Overslept, OnTime;
    TickKeeps(s, ready);
    if !InSlice(s) {
      forall p | p in s.blocked
        ensures !Overslept(s.(clock := Advance(s.clock)), p)
      {
        NotOverslept(s, p, started);
      }
    }
  }

  /** Walking the blocked list moves processes but loses none; the sleepers it leaves are not yet due. */
  lemma {:induction false} UnblockLeaves(s: Sys, ps: seq<Pid>, ready: set<File>)
    requires Inv(s) && Distinct(ps) && (forall p :: p in ps ==> p in s.blocked) && Unblock(s, ps, ready).Next?
    ensures var t := Unblock(s, ps, ready).sys;
            && |t.runnable| + |t.blocked| == |s.runnable| + |s.blocked|
            && (forall p :: p in t.blocked ==> p in s.blocked && p in s.procs && p in t.procs && t.procs[p] == s.procs[p])
            && (forall p :: p in t.blocked && p in ps && s.procs[p].blocker.Some? && s.procs[p].blocker.value.Sleep? ==>
                  CanWake(s.clock, s.procs[p].blocker.value.until) == No)
    decreases |ps|
  {
    hide InPlace, BlockerOk, WaiterOk, OneWaitee, Overslept;
    if ps != [] {
      var p := ps[0];
      assert p in ps;
      AskBlocked(s, p, ready);
      assert forall x :: x in ps <==> x == p || x in ps[1..];
      assert forall x :: x in ps[1..] ==> x != p;
      var a := CanUnblock(s, s.procs[p].blocker.value, ready);
      if a.yes {
        WakeKeeps(s, p, ready);
        WakeFrame(s, p);
        UnblockLeaves(Wake(s, p), ps[1..], ready);
      } else {
        UnblockLeaves(s, ps[1..], ready);
      }
    }
  }

  /** Choosing the next process moves one process from the runnable list into charge. */
  lemma PickCounts(s: Sys)
    requires Inv(s.(current := None))
    ensures var t := Pick(s).sys;
            && Pick(s).Next? && t.blocked == s.blocked && t.clock == s.clock && t.idle == s.idle
            && Count(t) == |s.runnable| + |s.blocked|
            && 5 * |t.runnable| + SliceLeft(t) == 5 * |s.runnable|
            && (forall p :: p in t.blocked ==> p in s.procs && p in t.procs && t.procs[p].blocker == s.procs[p].blocker)
  {
    hide InPlace, BlockerOk, WaiterOk, OneWaitee;
    PickKeeps(s);
    HeadNotIdle(s.(current := None));
  }

  /** A tick that reschedules looks at every sleeper, so those it leaves are not late. */
  lemma WalkPunctual(s: Sys, ready: set<File>, started: nat)
    requires Inv(s) && s.current == None && |s.runnable| + |s.blocked| <= started
    requires Reschedule(s, ready).Next?
    requires forall p :: p in s.blocked && Sleeps(s, p) ==> s.procs[p].blocker.value.until.ms <= 1000
    ensures Punctual(Reschedule(s, ready).sys, started)
  {
    hide InPlace, BlockerOk, WaiterOk, OneWaitee, Overslept, CanWake;
    UnblockKeeps(s, s.blocked, ready);
    UnblockLeaves(s, s.blocked, ready);
    var u := Unblock(s, s.blocked, ready).sys;
    assert u.(current := None) == u;
    PickCounts(u);
    var t := Pick(u).sys;
    forall p | p in t.blocked
      ensures OnTime(t, p, SliceLeft(t), started)
    {
      if Sleeps(t, p) {
        NotYetDue(s.clock, t.procs[p].blocker.value.until);
      }
    }
  }

  lemma NotYetDue(now: Clock, until: Clock)
    requires ValidClock(now) && CanWake(now, until) == No
    ensures Timer.Total(now) < Timer.Total(until)
  {
  }

  /** The current process steps aside, and the rest of its slice is not used. */
  lemma BlockPunctual(s: Sys, t: Sys, started: nat)
    requires Inv(s) && Acting(s) && Punctual(s, started)
    requires Inv(t.(current := None)) && t.clock == s.clock && t.idle == s.idle && t.runnable == s.runnable
    requires |t.blocked| <= |s.blocked| + 1
    requires forall p :: p in t.blocked ==> OnTime(t, p, 0, started)
    ensures Pick(t).Next? && Punctual(Pick(t).sys, started)
  {
    hide Inv, Pick;
    PickCounts(t);
    var u := Pick(t).sys;
    forall p | p in u.blocked
      ensures OnTime(u, p, SliceLeft(u), started)
    {
      assert OnTime(t, p, 0, started);
    }
  }

  lemma InvTicks(s: Sys)
    requires Inv(s)
    ensures s.ticks <= TIME_SLICE && ValidClock(s.clock)
  {
  }

  /** A tick inside a slice uses it up by one; one outside a slice looks at every sleeper. */
  lemma TickPunctual(s: Sys, ready: set<File>, started: nat)
    requires Inv(s) && Punctual(s, started) && Tick(s, ready).Next?
    ensures Punctual(Tick(s, ready).sys, started)
  {
    hide InPlace, BlockerOk, WaiterOk, OneWaitee, Overslept, Reschedule;
    TickKeeps(s, ready);
    if InSlice(s) {
      var t := Tick(s, ready).sys;
      forall p | p in t.blocked
        ensures OnTime(t, p, SliceLeft(t), started)
      {
        assert OnTime(s, p, SliceLeft(s), started);
      }
    } else {
      var now := s.(clock := Advance(s.clock));
      ClockKeeps(s, now.clock, s.ticks);
      PreemptKeeps(now);
      PreemptFrame(now);
      TickReschedules(s, ready);
      forall p | p in now.blocked && Sleeps(Preempted(now), p)
        ensures Preempted(now).procs[p].blocker.value.until.ms <= 1000
      {
        assert OnTime(s, p, SliceLeft(s), started);
      }
      WalkPunctual(Preempted(now), ready, started);
    }
  }

  /** A sleeper that steps aside is not late, and only the others can make it so. */
  lemma AsidePunctual(s: Sys, b: Blocker, resume: Resume, started: nat)
    requires Inv(s) && Acting(s) && Punctual(s, started) && Allowed(s, s.current.value, b, resume)
    requires b.Sleep? ==>
               b.until.ms <= 1000 && Timer.Total(s.clock) + (if b.until.ms == 1000 then 1 else 0) <= Timer.Total(b.until)
    ensures Block(s, b, resume).Next? && Punctual(Block(s, b, resume).sys, started)
  {
    hide InPlace, BlockerOk, WaiterOk, OneWaitee;
    SetAsideKeeps(s, b, resume);
    InvTicks(s);
    var t := SetAside(s, b, resume);
    forall p | p in t.blocked
      ensures OnTime(t, p, 0, started)
    {
      if p != s.current.value { assert OnTime(s, p, SliceLeft(s), started); }
    }
    BlockPunctual(s, t, started);
  }

  lemma ExitPunctual(s: Sys, started: nat)
    requires Inv(s) && Acting(s) && Punctual(s, started)
    ensures Terminate(s).Next? && Punctual(Terminate(s).sys, started)
  {
    hide InPlace, BlockerOk, WaiterOk, OneWaitee;
    DeletedKeeps(s);
    InvTicks(s);
    var t := Deleted(s);
    assert t.(current := None) == t;
    forall p | p in t.blocked
      ensures OnTime(t, p, 0, started)
    {
      assert OnTime(s, p, SliceLeft(s), started);
    }
    BlockPunctual(s, t, started);
  }

  lemma WaitPunctual(s: Sys, p: Pid, started: nat)
    requires Inv(s) && Acting(s) && Punctual(s, started) && s.procs[s.current.value].resume.Free?
    requires Listed(s, p) && p in s.procs && s.procs[p].waiter.None?
    ensures Pick(WaitAside(s, p)).Next? && Punctual(Pick(WaitAside(s, p)).sys, started)
  {
    hide InPlace, BlockerOk, WaiterOk, OneWaitee;
    WaitAsideKeeps(s, p);
    InvTicks(s);
    var t := WaitAside(s, p);
    forall x | x in t.blocked
      ensures OnTime(t, x, 0, started)
    {
      if x != s.current.value { assert OnTime(s, x, SliceLeft(s), started); }
    }
    BlockPunctual(s, t, started);
  }

  /** Steps that leave the lists, the clock and the blockers alone. */
  lemma SamePunctual(s: Sys, t: Sys, started: nat)
    requires Inv(s) && Punctual(s, started)
    requires t == s.(procs := t.procs) && t.procs.Keys == s.procs.Keys
    requires forall p :: p in s.procs ==> t.procs[p].blocker == s.procs[p].blocker
    ensures Punctual(t, started)
  {
    forall p | p in t.blocked
      ensures OnTime(t, p, SliceLeft(t), started)
    {
      assert OnTime(s, p, SliceLeft(s), started);
    }
  }

  lemma StartPunctual(s: Sys, p: Pid, started: nat)
    requires Inv(s) && Punctual(s, started) && p !in s.procs
    ensures Punctual(Add(s, p), started + 1)
  {
    var t := Add(s, p);
    forall x | x in t.blocked
      ensures OnTime(t, x, SliceLeft(t), started + 1)
    {
      assert OnTime(s, x, SliceLeft(s), started);
    }
  }

  lemma PunctualStep(s: Sys, e: Event, started: nat)
    requires Inv(s) && Punctual(s, started) && Enabled(s, e) && Step(s, e).Next?
    ensures Punctual(Step(s, e).sys, started + if e.Start? then 1 else 0)
  {
    hide InPlace, BlockerOk, WaiterOk, OneWaitee, Overslept, Punctual, Tick, Block, Terminate, Add, Pick;
    match e {
      case TimerTick(ready) => TickPunctual(s, ready, started);
      case Start(p) => StartPunctual(s, p, started);
      case Exit => ExitPunctual(s, started);
      case SendTo(to, bytes) => SamePunctual(s, Step(s, e).sys, started);
      case Get(size) =>
        if s.procs[s.current.value].queue != [] {
          SamePunctual(s, Step(s, e).sys, started);
        } else {
          AsidePunctual(s, Message(s.current.value), Consume(size), started);
        }
      case Continue => SamePunctual(s, Step(s, e).sys, started);
      case WaitOn(p) =>
        WaitKeeps(s, p);
        if Listed(s, p) { WaitPunctual(s, p, started); }
      case SleepFor(ms) =>
        DeadlineTotal(s.clock, ms);
        AsidePunctual(s, Sleep(Deadline(s.clock, ms)), Free, started);
      case AwaitInput(files) => AsidePunctual(s, Input(s.current.value, files), Index(|files|), started);
      case AwaitFile(f) => AsidePunctual(s, Readable(f), Free, started);
    }
  }

  /** A leftover of 1000 only comes from a sleep of at least a millisecond. */
  lemma DeadlineTotal(now: Clock, ms: nat)
    requires ValidClock(now)
    ensures Deadline(now, ms).ms <= 1000 && Timer.Total(Deadline(now, ms)) == Timer.Total(now) + ms
    ensures Deadline(now, ms).ms == 1000 ==> ms > 0
  {
  }

  function Starts(es: seq<Event>): nat {
    if es == [] then 0 else (if es[0].Start? then 1 else 0) + Starts(es[1..])
  }

  lemma {:induction false} RunPunctual(s: Sys, es: seq<Event>, t: Sys, started: nat)
    requires Inv(s) && Punctual(s, started) && Runs(s, es, t)
    ensures Inv(t) && Punctual(t, started + Starts(es))
    decreases |es|
  {
    hide Inv, Punctual, Step, Enabled;
    if es != [] {
      StepKeeps(s, es[0]);
      PunctualStep(s, es[0], started);
      RunPunctual(Step(s, es[0]).sys, es[1..], t, started + if es[0].Start? then 1 else 0);
    }
  }

  /** In any run that starts at most 200 processes, no timer tick ever finds a sleeper more than a second late. */
  lemma SleepersOnTime(idle: Pid, es: seq<Event>, t: Sys, ready: set<File>)
    requires Runs(Boot(idle), es, t) && Starts(es) <= 200
    ensures ValidClock(t.clock) && Tick(t, ready).Next?
  {
    hide Tick;
    BootInv(idle);
    assert Punctual(Boot(idle), 0);
    RunPunctual(Boot(idle), es, t, 0);
    InvTicks(t);
    PunctualTick(t, ready, Starts(es));
  }

  // ----- the bound on started processes is needed

  lemma {:induction false} RunsConcat(s: Sys, a: seq<Event>, t: Sys, b: seq<Event>, u: Sys)
    requires Runs(s, a, t) && Runs(t, b, u)
    ensures Runs(s, a + b, u)
    decreases |a|
  {
    hide Step, Enabled;
    if a == [] {
      assert a + b == b;
    } else {
      assert (a + b)[0] == a[0] && (a + b)[1..] == a[1..] + b;
      RunsConcat(Step(s, a[0]).sys, a[1..], t, b, u);
    }
  }

  function Ticks(n: nat): seq<Event> {
    if n == 0 then [] else [TimerTick({})] + Ticks(n - 1)
  }

  /** Ticks inside a time slice only count. */
  lemma {:induction false} SliceTicks(s: Sys, n: nat)
    requires Inv(s) && Busy(s) && s.ticks + n <= TIME_SLICE
    ensures ValidClock(s.clock)
    ensures Runs(s, Ticks(n), s.(ticks := s.ticks + n, clock := AdvanceBy(s.clock, n)))
    decreases n
  {
    hide InPlace, BlockerOk, WaiterOk, OneWaitee, Overslept;
    if n == 0 {
      assert s.(ticks := s.ticks + 0, clock := AdvanceBy(s.clock, 0)) == s;
    } else {
      TickKeeps(s, {});
      var t := Tick(s, {}).sys;
      SliceTicks(t, n - 1);
      assert Ticks(n)[0] == TimerTick({}) && Ticks(n)[1..] == Ticks(n - 1);
    }
  }

  /** Process 1 sleeps, to the uncarried deadline of 1000 milliseconds, while process `i + 2` runs; all its predecessors are gone. */
  function Relay(i: nat): Sys {
    Sys([], [1], Some(i + 2), 0, 0,
        map[0 := FRESH,
            1 := FRESH.(state := Blocked, blocker := Some(Sleep(Clock(0, 1000)))),
            i + 2 := FRESH.(state := Running)],
        AdvanceBy(Clock(0, 999), 5 * i))
  }

  /** Start a successor, use up the slice, exit just before the scheduler would look at the sleepers. */
  function Handover(i: nat): seq<Event> { [Start(i + 3)] + Ticks(5) + [Exit] }

  lemma OneStep(s: Sys, e: Event, t: Sys)
    requires ValidClock(s.clock) && Enabled(s, e) && Step(s, e) == Next(t)
    ensures Runs(s, [e], t)
  {
  }

  /** The successor is started. */
  lemma StartHandover(i: nat)
    requires Inv(Relay(i))
    ensures var t := Add(Relay(i), i + 3);
            && Inv(t) && Busy(t) && t.ticks == 0 && t.clock == AdvanceBy(Clock(0, 999), 5 * i)
            && Runs(Relay(i), [Start(i + 3)], t)
  {
    hide Inv, Runs, AdvanceBy;
    AddKeeps(Relay(i), i + 3);
    OneStep(Relay(i), Start(i + 3), Add(Relay(i), i + 3));
  }

  /** The runner exits at the end of its slice and its successor takes over. */
  lemma ExitHandsOver(i: nat)
    ensures var u := Add(Relay(i), i + 3).(ticks := 5, clock := AdvanceBy(Clock(0, 999), 5 * i + 5));
            Runs(u, [Exit], Relay(i + 1))
  {
  }

  lemma HandoverRuns(i: nat)
    requires Inv(Relay(i))
    ensures Runs(Relay(i), Handover(i), Relay(i + 1))
  {
    hide Inv, Ticks, Runs, Relay, Add, AdvanceBy, Busy;
    StartHandover(i);
    var s, t := Relay(i), Add(Relay(i), i + 3);
    SliceTicks(t, 5);
    AdvanceByAdd(Clock(0, 999), 5 * i, 5);
    ExitHandsOver(i);
    var u := t.(ticks := 5, clock := AdvanceBy(t.clock, 5));
    RunsConcat(s, [Start(i + 3)], t, Ticks(5), u);
    RunsConcat(s, [Start(i + 3)] + Ticks(5), u, [Exit], Relay(i + 1));
  }

  lemma {:induction false} AdvanceByAdd(c: Clock, a: nat, b: nat)
    requires ValidClock(c)
    ensures AdvanceBy(AdvanceBy(c, a), b) == AdvanceBy(c, a + b)
    decreases a
  {
    hide Advance;
    if a > 0 {
      AdvanceByAdd(Advance(c), a - 1, b);
      assert AdvanceBy(c, a) == AdvanceBy(Advance(c), a - 1);
      assert AdvanceBy(c, a + b) == AdvanceBy(Advance(c), a - 1 + b);
    }
  }

  // ----- from boot to the relay

  /** Nobody was started yet, and idle runs at time `c`. */
  function Idling(c: Clock): Sys { Sys([], [], Some(0), 0, 0, map[0 := FRESH.(state := Running)], c) }

  lemma IdleTick(c: Clock)
    requires ValidClock(c)
    ensures Tick(Idling(c), {}) == Next(Idling(Advance(c)))
  {
    hide Advance, Reschedule, Tick, Preempted;
    TickOfIdle(Idling(c));
    IdleStops(Idling(c), Advance(c));
    IdlePick(Advance(c));
  }

  lemma BootTick()
    ensures Tick(Boot(0), {}) == Next(Idling(Clock(0, 1)))
  {
    hide Reschedule, Tick, Preempted;
    TickOfIdle(Boot(0));
    IdleStops(Boot(0), Clock(0, 1));
    IdlePick(Clock(0, 1));
  }

  lemma TickOfIdle(s: Sys)
    requires ValidClock(s.clock) && s.idle in s.procs && (s.current.None? || s.current.value == s.idle)
    ensures Tick(s, {}) == Reschedule(Preempted(s.(clock := Advance(s.clock), current := Some(s.idle))), {})
  {
    hide Reschedule, Preempted;
  }

  lemma IdleStops(s: Sys, c: Clock)
    requires s == Boot(0) || s == Idling(s.clock)
    ensures Preempted(s.(clock := c, current := Some(0))) == Boot(0).(clock := c)
  {
  }

  lemma IdlePick(c: Clock)
    ensures Reschedule(Boot(0).(clock := c), {}) == Next(Idling(c))
  {
  }

  lemma AdvanceOnce(c: Clock)
    requires ValidClock(c)
    ensures AdvanceBy(c, 1) == Advance(c)
  {
    AdvanceNone(Advance(c));
  }

  lemma AdvanceNone(c: Clock)
    requires ValidClock(c)
    ensures AdvanceBy(c, 0) == c
  {
  }

  lemma TicksNext(n: nat)
    ensures Ticks(n) + [TimerTick({})] == Ticks(n + 1) && Starts(Ticks(n)) == 0
  {
    if n > 0 {
      TicksNext(n - 1);
      assert Ticks(n) + [TimerTick({})] == [TimerTick({})] + (Ticks(n - 1) + [TimerTick({})]);
      assert Ticks(n)[1..] == Ticks(n - 1);
    }
  }

  lemma TickRuns(s: Sys, t: Sys)
    requires ValidClock(s.clock) && Tick(s, {}) == Next(t)
    ensures Runs(s, [TimerTick({})], t)
  {
    hide Tick;
    OneStep(s, TimerTick({}), t);
  }

  lemma {:induction false} IdleRuns(n: nat)
    requires n > 0
    ensures Runs(Boot(0), Ticks(n), Idling(AdvanceBy(Clock(0, 0), n)))
  {
    hide Runs, Tick, AdvanceBy, Idling, Ticks, Advance;
    if n == 1 {
      BootTick();
      OneTick();
      TickRuns(Boot(0), Idling(Clock(0, 1)));
    } else {
      IdleRuns(n - 1);
      IdleNext(n - 1);
    }
  }

  lemma IdleNext(n: nat)
    requires Runs(Boot(0), Ticks(n), Idling(AdvanceBy(Clock(0, 0), n)))
    ensures Runs(Boot(0), Ticks(n + 1), Idling(AdvanceBy(Clock(0, 0), n + 1)))
  {
    hide Runs, Tick, AdvanceBy, Idling, Ticks, Advance;
    var c := AdvanceBy(Clock(0, 0), n);
    TicksNext(n);
    IdleTick(c);
    IdlingClock(c);
    AdvanceByAdd(Clock(0, 0), n, 1);
    AdvanceOnce(c);
    TickRuns(Idling(c), Idling(Advance(c)));
    RunsConcat(Boot(0), Ticks(n), Idling(c), [TimerTick({})], Idling(Advance(c)));
  }

  lemma IdleRunsTo(n: nat)
    requires 0 < n < 1000
    ensures Runs(Boot(0), Ticks(n), Idling(Clock(0, n)))
  {
    hide Runs, AdvanceBy, Ticks, Idling;
    IdleRuns(n);
    assert AdvanceBy(Clock(0, 0), n) == Clock(0, n);
  }

  lemma OneTick()
    ensures Ticks(1) == [TimerTick({})] && AdvanceBy(Clock(0, 0), 1) == Clock(0, 1)
  {
  }

  lemma IdlingClock(c: Clock)
    ensures Idling(c).clock == c
  {
  }

  /** Processes 1 and 2 were started at 998 milliseconds; the next tick puts process 1 in charge. */
  function TwoStarted(): Sys {
    Sys([1, 2], [], Some(0), 0, 0, map[0 := FRESH.(state := Running), 1 := FRESH, 2 := FRESH], Clock(0, 998))
  }

  function FirstRuns(): Sys {
    Sys([2], [], Some(1), 0, 0, map[0 := FRESH, 1 := FRESH.(state := Running), 2 := FRESH], Clock(0, 999))
  }

  lemma FirstTick()
    ensures Tick(TwoStarted(), {}) == Next(FirstRuns())
  {
    hide Tick, Reschedule;
    var c := Clock(0, 999);
    TickOfIdle(TwoStarted());
    assert Preempted(TwoStarted().(clock := c)) == TwoWait(c);
    FirstPick(c);
  }

  function TwoWait(c: Clock): Sys { Sys([1, 2], [], None, 0, 0, map[0 := FRESH, 1 := FRESH, 2 := FRESH], c) }

  lemma FirstPick(c: Clock)
    ensures Reschedule(TwoWait(c), {}) == Next(FirstRuns().(clock := c))
  {
    assert Remove([1, 2], 1) == [2];
    assert TwoWait(c).procs[1 := FRESH.(state := Running)] == FirstRuns().procs;
  }

  lemma FirstSleep()
    ensures Block(FirstRuns(), Sleep(Deadline(Clock(0, 999), 1)), Free) == Next(Relay(0))
  {
    var s := FirstRuns();
    assert Deadline(Clock(0, 999), 1) == Clock(0, 1000);
    var t := SetAside(s, Sleep(Clock(0, 1000)), Free);
    assert Remove([2], 2) == [];
    assert t.procs[2 := FRESH.(state := Running)] == Relay(0).procs;
  }

  lemma {:induction false} StartsConcat(a: seq<Event>, b: seq<Event>)
    ensures Starts(a + b) == Starts(a) + Starts(b)
  {
    if a == [] {
      assert a + b == b;
    } else {
      assert (a + b)[0] == a[0] && (a + b)[1..] == a[1..] + b;
      StartsConcat(a[1..], b);
    }
  }

  lemma StartsOne(e: Event)
    ensures Starts([e]) == if e.Start? then 1 else 0
  {
  }

  /** From boot to the first runner: process 1 runs first, at 999 milliseconds, and sleeps for one. */
  lemma RelayStarts() returns (es: seq<Event>)
    ensures Runs(Boot(0), es, Relay(0)) && Starts(es) == 2
  {
    hide Runs, Tick, Block, AdvanceBy, Ticks, Starts, Relay, Idling, TwoStarted, FirstRuns, Add;
    var s0 := Idling(Clock(0, 998));
    var s1 := Add(s0, 1);
    var n := 998;
    IdleRunsTo(n);
    StartTwo();
    TickAndSleep();
    es := Append(Boot(0), Ticks(n), s0, Start(1), s1);
    es := Append(Boot(0), es, s1, Start(2), TwoStarted());
    es := Append(Boot(0), es, TwoStarted(), TimerTick({}), FirstRuns());
    es := Append(Boot(0), es, FirstRuns(), SleepFor(1), Relay(0));
    TicksNext(n);
  }

  lemma StartTwo()
    ensures var s := Idling(Clock(0, 998)); Runs(s, [Start(1)], Add(s, 1)) && Runs(Add(s, 1), [Start(2)], TwoStarted())
  {
    hide Runs;
    var s := Idling(Clock(0, 998));
    assert Add(Add(s, 1), 2) == TwoStarted();
    OneStep(s, Start(1), Add(s, 1));
    OneStep(Add(s, 1), Start(2), TwoStarted());
  }

  lemma TickAndSleep()
    ensures Runs(TwoStarted(), [TimerTick({})], FirstRuns()) && Runs(FirstRuns(), [SleepFor(1)], Relay(0))
  {
    hide Runs, Tick, Block, Relay;
    FirstTick();
    FirstSleep();
    TickRuns(TwoStarted(), FirstRuns());
    OneStep(FirstRuns(), SleepFor(1), Relay(0));
  }

  lemma Append(s: Sys, es: seq<Event>, t: Sys, e: Event, u: Sys) returns (r: seq<Event>)
    requires Runs(s, es, t) && Runs(t, [e], u)
    ensures Runs(s, r, u) && Starts(r) == Starts(es) + if e.Start? then 1 else 0
  {
    hide Runs;
    r := es + [e];
    RunsConcat(s, es, t, [e], u);
    StartsConcat(es, [e]);
    StartsOne(e);
  }

  lemma {:induction false} RelayRuns(n: nat) returns (es: seq<Event>)
    ensures Runs(Boot(0), es, Relay(n)) && Inv(Relay(n)) && Starts(es) == n + 2
  {
    hide Inv, Relay, Handover, Step, Enabled, Starts;
    if n == 0 {
      es := RelayStarts();
    } else {
      var before := RelayRuns(n - 1);
      HandoverRuns(n - 1);
      RunsConcat(Boot(0), before, Relay(n - 1), Handover(n - 1), Relay(n));
      es := before + Handover(n - 1);
      StartsConcat(before, Handover(n - 1));
      HandoverStarts(n - 1);
    }
    BootInv(0);
    RunsKeepInv(Boot(0), es, Relay(n));
  }

  lemma HandoverStarts(i: nat)
    ensures Starts(Handover(i)) == 1
  {
    hide Starts, Ticks;
    TicksNext(5);
    StartsOne(Start(i + 3));
    StartsOne(Exit);
    StartsConcat([Start(i + 3)], Ticks(5));
    StartsConcat([Start(i + 3)] + Ticks(5), [Exit]);
  }

  /** A relay of 200 processes keeps the scheduler from looking at the sleeper: with 201 processes the assertion can fail. */
  lemma RelayOversleeps() returns (es: seq<Event>, t: Sys)
    ensures Runs(Boot(0), es, t) && Starts(es) == 201 && TooLate(t, 202) && Tick(t, {}) == Failed(SleptTooLong)
  {
    hide Inv, Runs, Tick, AdvanceBy, Advance, Ticks, Starts;
    var before := RelayRuns(199);
    var s := Relay(199);
    SliceTicks(s, 5);
    t := s.(ticks := 5, clock := AdvanceBy(s.clock, 5));
    RunsConcat(Boot(0), before, s, Ticks(5), t);
    es := before + Ticks(5);
    StartsConcat(before, Ticks(5));
    TicksNext(5);
    ClockKeeps(s, t.clock, 5);
    assert Timer.Total(Advance(t.clock)) == 2000;
    TooLateFails(t, 202);
  }

  /** A sleeper is a second late and the next tick will look at it; all process numbers are below `n`. */
  ghost predicate TooLate(s: Sys, n: nat) {
    && Inv(s) && !InSlice(s) && (forall p :: p in s.procs ==> p < n)
    && 1 in s.blocked && Overslept(s.(clock := Advance(s.clock)), 1)
  }

  lemma TooLateFails(s: Sys, n: nat)
    requires TooLate(s, n)
    ensures Tick(s, {}) == Failed(SleptTooLong)
  {
    hide InPlace, BlockerOk, WaiterOk, OneWaitee, Overslept;
    TickKeeps(s, {});
  }

  /** Starting one more process in time does not help. */
  lemma StillTooLate(s: Sys, n: nat)
    requires TooLate(s, n)
    ensures TooLate(Add(s, n), n + 1) && Runs(s, [Start(n)], Add(s, n))
  {
    hide InPlace, BlockerOk, WaiterOk, OneWaitee;
    AddKeeps(s, n);
    OneStep(s, Start(n), Add(s, n));
  }

  lemma {:induction false} LateRuns(n: nat) returns (es: seq<Event>, t: Sys)
    requires n >= 201
    ensures Runs(Boot(0), es, t) && Starts(es) == n && TooLate(t, n + 1)
    decreases n
  {
    hide Runs, Starts, Inv, Overslept, Step, Tick;
    if n == 201 {
      es, t := RelayOversleeps();
    } else {
      var before, s := LateRuns(n - 1);
      StillTooLate(s, n);
      t := Add(s, n);
      es := Append(Boot(0), before, s, Start(n), t);
    }
  }

  predicate TickSucceeds(s: Sys, ready: set<File>) { ValidClock(s.clock) && Tick(s, ready).Next? }

  /** In every run that starts `n` processes, no tick fails. */
  ghost predicate AlwaysOnTime(n: nat) {
    forall es, t, ready :: Runs(Boot(0), es, t) && Starts(es) == n ==> TickSucceeds(t, ready)
  }

  /** The bound is exact. */
  lemma ExactBound(n: nat)
    ensures AlwaysOnTime(n) <==> n <= 200
  {
    hide Runs, Starts, Tick, TooLate;
    if n <= 200 {
      forall es, t, ready | Runs(Boot(0), es, t) && Starts(es) == n
        ensures TickSucceeds(t, ready)
      {
        SleepersOnTime(0, es, t, ready);
      }
    } else {
      var es, t := LateRuns(n);
      TooLateFails(t, n + 1);
      assert !TickSucceeds(t, {});
    }
  }
}
