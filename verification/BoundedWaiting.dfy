/** Whole runs of the scheduler: safety, message order, and a bound on how long a runnable process waits. */
module BoundedWaiting {
  import opened Options
  import opened Sequences
  import opened Timer
  import opened Scheduling
  import opened SchedulerInvariant

  /** A run: every event is enabled when it happens and no assertion fails. */
  ghost predicate Runs(s: Sys, es: seq<Event>, t: Sys)
    decreases |es|
  {
    if es == [] then s == t
    else
      && ValidClock(s.clock) && Enabled(s, es[0])
      && Step(s, es[0]).Next? && Runs(Step(s, es[0]).sys, es[1..], t)
  }

  /** Every state reached from boot is a good one. */
  lemma {:induction false} RunsKeepInv(s: Sys, es: seq<Event>, t: Sys)
    requires Inv(s) && Runs(s, es, t)
    ensures Inv(t)
    decreases |es|
  {
    if es != [] {
      StepKeeps(s, es[0]);
      RunsKeepInv(Step(s, es[0]).sys, es[1..], t);
    }
  }

  /** In every reachable state each live process other than idle is in exactly one place. */
  lemma OnePlace(idle: Pid, es: seq<Event>, t: Sys, p: Pid)
    requires Runs(Boot(idle), es, t) && p in t.procs && p != t.idle
    ensures (p in t.runnable && t.procs[p].state == Runnable && p !in t.blocked && t.current != Some(p))
            || (p in t.blocked && t.procs[p].state == Blocked && t.procs[p].blocker.Some? && p !in t.runnable && t.current != Some(p))
            || (t.current == Some(p) && t.procs[p].state == Running && p !in t.runnable && p !in t.blocked)
  {
    BootInv(idle);
    RunsKeepInv(Boot(idle), es, t);
    assert InPlace(t, p);
  }

  // ----- bounded waiting

  function TickCount(es: seq<Event>): nat {
    if es == [] then 0 else (if es[0].TimerTick? then 1 else 0) + TickCount(es[1..])
  }

  /** `p` is in charge now or at some later point of the run. */
  ghost predicate GetsTurn(s: Sys, es: seq<Event>, p: Pid)
    decreases |es|
  {
    || s.current == Some(p)
    || (es != [] && ValidClock(s.clock) && Enabled(s, es[0]) && Step(s, es[0]).Next?
        && GetsTurn(Step(s, es[0]).sys, es[1..], p))
  }

  /** Ticks that position `k` of the line still has to wait, at most. */
  function Waits(s: Sys, k: nat): int {
    6 * k + if s.current.Some? && s.current.value != s.idle then 6 - s.ticks else 1
  }

  /** The process at position `k` is in charge now, or at a position from which it waits less, by `ticks` at least. */
  predicate Served(s: Sys, t: Sys, k: nat, k': nat, ticks: nat)
    requires k < |s.runnable|
  {
    || t.current == Some(s.runnable[k])
    || (k' < |t.runnable| && t.runnable[k'] == s.runnable[k] && Waits(t, k') + ticks <= Waits(s, k))
  }

  /** When the head of the line takes over, everybody else moves up. */
  lemma LineMoves(s: Sys, t: Sys, k: nat)
    requires k < |s.runnable| && s.ticks <= TIME_SLICE
    requires t.current == Some(s.runnable[0]) && t.runnable == s.runnable[1..] && t.ticks == 0
    ensures Served(s, t, k, if k > 0 then k - 1 else 0, 0)
  {
  }

  lemma BlockServes(s: Sys, b: Blocker, resume: Resume, k: nat)
    requires Inv(s) && Acting(s) && Allowed(s, s.current.value, b, resume) && k < |s.runnable|
    ensures Block(s, b, resume).Next? && Served(s, Block(s, b, resume).sys, k, if k > 0 then k - 1 else 0, 0)
  {
    hide InPlace, BlockerOk, WaiterOk, OneWaitee, Block, Served;
    BlockKeeps(s, b, resume);
    LineMoves(s, Block(s, b, resume).sys, k);
  }

  lemma WaitServes(s: Sys, p: Pid, k: nat)
    requires Inv(s) && Acting(s) && s.procs[s.current.value].resume.Free? && Listed(s, p) && k < |s.runnable|
    requires WaitFor(s, p).Next?
    ensures Served(s, WaitFor(s, p).sys, k, if k > 0 then k - 1 else 0, 0)
  {
    hide InPlace, BlockerOk, WaiterOk, OneWaitee, Served, WaitFor;
    WaitKeeps(s, p);
    LineMoves(s, WaitFor(s, p).sys, k);
  }

  lemma ExitServes(s: Sys, k: nat)
    requires Inv(s) && Acting(s) && k < |s.runnable|
    ensures Terminate(s).Next? && Served(s, Terminate(s).sys, k, if k > 0 then k - 1 else 0, 0)
  {
    hide InPlace, BlockerOk, WaiterOk, OneWaitee, Served, Terminate;
    TerminateKeeps(s);
    LineMoves(s, Terminate(s).sys, k);
  }

  /** Every step keeps the place in line or improves it, and every tick brings the turn one tick closer. */
  lemma StepServes(s: Sys, e: Event, k: nat) returns (k': nat)
    requires Inv(s) && Enabled(s, e) && Step(s, e).Next? && k < |s.runnable|
    ensures Served(s, Step(s, e).sys, k, k', if e.TimerTick? then 1 else 0)
  {
    hide InPlace, BlockerOk, WaiterOk, OneWaitee, Overslept, Tick, Block, Terminate, Take, UseIndex;
    k' := k;
    var ahead := if k > 0 then k - 1 else 0;
    match e {
      case TimerTick(ready) => k' := TickServes(s, ready, k);
      case Start(p) =>
      case SendTo(to, bytes) =>
      case Continue => GoOnKeepsLine(s);
      case Exit =>
        ExitServes(s, k);
        k' := ahead;
      case Get(size) =>
        TakeKeepsLine(s, size);
        if s.procs[s.current.value].queue == [] {
          BlockServes(s, Message(s.current.value), Consume(size), k);
          k' := ahead;
        }
      case WaitOn(p) =>
        if Listed(s, p) {
          WaitServes(s, p, k);
          k' := ahead;
        }
      case SleepFor(ms) =>
        BlockServes(s, Sleep(Deadline(s.clock, ms)), Free, k);
        k' := ahead;
      case AwaitInput(files) =>
        BlockServes(s, Input(s.current.value, files), Index(|files|), k);
        k' := ahead;
      case AwaitFile(f) =>
        BlockServes(s, Readable(f), Free, k);
        k' := ahead;
    }
  }

  lemma TakeKeepsLine(s: Sys, size: nat)
    requires Acting(s)
    ensures Take(s, size).Next? ==> Take(s, size).sys == s.(procs := Take(s, size).sys.procs)
  {
  }

  lemma GoOnKeepsLine(s: Sys)
    requires Acting(s)
    ensures GoOn(s).Next? ==> GoOn(s).sys == s.(procs := GoOn(s).sys.procs)
  {
  }

  lemma TickServes(s: Sys, ready: set<File>, k: nat) returns (k': nat)
    requires Inv(s) && Tick(s, ready).Next? && k < |s.runnable|
    ensures Served(s, Tick(s, ready).sys, k, k', 1)
  {
    hide InPlace, BlockerOk, WaiterOk, OneWaitee, Overslept;
    k' := k;
    HeadNotIdle(s);
    TickKeeps(s, ready);
    if !InSlice(s) && k > 0 {
      k' := k - 1;
      assert Line(s)[k] == s.runnable[k] && Line(s)[0] == s.runnable[0];
      assert Line(s)[1..][k'] == s.runnable[k];
    }
  }

  lemma HeadNotIdle(s: Sys)
    requires Inv(s)
    ensures s.runnable != [] ==> s.runnable[0] != s.idle
  {
  }

  lemma {:induction false} TurnComes(s: Sys, es: seq<Event>, t: Sys, k: nat)
    requires Inv(s) && Runs(s, es, t) && k < |s.runnable| && Waits(s, k) <= TickCount(es)
    ensures GetsTurn(s, es, s.runnable[k])
    decreases |es|
  {
    hide Inv, Step, Enabled;
    WaitsPositive(s, k);
    if es != [] {
      var k' := StepServes(s, es[0], k);
      StepKeeps(s, es[0]);
      var u := Step(s, es[0]).sys;
      if u.current != Some(s.runnable[k]) {
        TurnComes(u, es[1..], t, k');
      }
    }
  }

  lemma WaitsPositive(s: Sys, k: nat)
    requires Inv(s)
    ensures 1 <= Waits(s, k) <= 6 * (k + 1)
  {
  }

  /**
   * Bounded waiting: whatever is interleaved, a process at position `k` of the runnable list gets the
   * processor within `6 * (k + 1)` timer ticks.
   */
  lemma BoundedWait(s: Sys, es: seq<Event>, t: Sys, k: nat)
    requires Inv(s) && Runs(s, es, t) && k < |s.runnable| && 6 * (k + 1) <= TickCount(es)
    ensures GetsTurn(s, es, s.runnable[k])
  {
    WaitsPositive(s, k);
    TurnComes(s, es, t, k);
  }
}
