/** Who blocks, who is woken, and by what, said without the walk over the blocked list. */
module Wakeups {
  import opened Options
  import opened Sequences
  import opened Timer
  import opened Scheduling
  import opened SchedulerInvariant
  import opened BoundedWaiting

  // ----- waking

  /** What a blocked process waits for has come by the time `now`; `ready` are the files with data. */
  ghost predicate MayGoOn(q: Proc, now: Clock, ready: set<File>) {
    && q.blocker.Some?
    && match q.blocker.value
       case Message(_) => q.queue != []
       case Wait(finished) => finished
       case Readable(f) => f in ready
       case Input(_, files) => q.queue != [] || exists f :: f in files && f in ready
       case Sleep(until) => Total(now) >= Total(until)
  }

  /** Those of `ps` that may go on, or may not, in their order. */
  ghost function Chosen(procs: map<Pid, Proc>, ps: seq<Pid>, now: Clock, ready: set<File>, goOn: bool): (r: seq<Pid>)
    requires forall p :: p in ps ==> p in procs
    ensures forall p :: p in r <==> p in ps && MayGoOn(procs[p], now, ready) == goOn
  {
    if ps == [] then []
    else
      var rest := Chosen(procs, ps[1..], now, ready, goOn);
      if MayGoOn(procs[ps[0]], now, ready) == goOn then [ps[0]] + rest else rest
  }

  /** Processes and clock as they were when the walk began, for those it has not reached. */
  ghost predicate AsBefore(s0: Sys, s: Sys, ps: seq<Pid>) {
    s.clock == s0.clock && forall p :: p in ps ==> p in s0.procs && p in s.procs && s.procs[p] == s0.procs[p]
  }

  /** What a blocker answers. */
  lemma AnswerMeans(s: Sys, p: Pid, ready: set<File>)
    requires Inv(s) && p in s.blocked
    ensures p in s.procs && s.procs[p].blocker.Some?
    ensures var a := CanUnblock(s, s.procs[p].blocker.value, ready);
            a.Says? ==> a.yes == MayGoOn(s.procs[p], s.clock, ready)
  {
    AskBlocked(s, p, ready);
    assert BlockerOk(s, p);
  }

  /** The lists after waking one process. */
  lemma WakeLists(s: Sys, p: Pid, pre: seq<Pid>, rest: seq<Pid>)
    requires Inv(s) && s.blocked == pre + [p] + rest && p in s.procs
    ensures Wake(s, p).blocked == pre + rest && Wake(s, p).runnable == s.runnable + [p] && Wake(s, p).clock == s.clock
    ensures forall x :: x != p && x in s.procs ==> x in Wake(s, p).procs && Wake(s, p).procs[x] == s.procs[x]
    ensures Wake(s, p).procs.Keys == s.procs.Keys
  {
    hide InPlace, BlockerOk, WaiterOk, OneWaitee;
    assert s.blocked[|pre|] == p;
    assert forall k :: 0 <= k < |pre| ==> s.blocked[k] == pre[k];
    assert IndexOf(s.blocked, p) == |pre|;
  }

  /** The lists `runnable` and `blocked` after the walk over the rest `ps` of the blocked list, `pre` having been passed over. */
  ghost predicate Walked(s0: Sys, before: seq<Pid>, pre: seq<Pid>, ps: seq<Pid>, ready: set<File>, t: Sys) {
    && (forall p :: p in ps ==> p in s0.procs)
    && t.runnable == before + Chosen(s0.procs, ps, s0.clock, ready, true)
    && t.blocked == pre + Chosen(s0.procs, ps, s0.clock, ready, false)
  }

  lemma WalkedNext(s0: Sys, before: seq<Pid>, pre: seq<Pid>, ps: seq<Pid>, ready: set<File>, t: Sys)
    requires ps != [] && ps[0] in s0.procs
    requires if MayGoOn(s0.procs[ps[0]], s0.clock, ready) then Walked(s0, before + [ps[0]], pre, ps[1..], ready, t)
             else Walked(s0, before, pre + [ps[0]], ps[1..], ready, t)
    ensures Walked(s0, before, pre, ps, ready, t)
  {
    hide MayGoOn;
    var woken := Chosen(s0.procs, ps[1..], s0.clock, ready, true);
    var left := Chosen(s0.procs, ps[1..], s0.clock, ready, false);
    assert before + [ps[0]] + woken == before + ([ps[0]] + woken);
    assert pre + [ps[0]] + left == pre + ([ps[0]] + left);
  }

  lemma WalkedNone(s0: Sys, pre: seq<Pid>, ready: set<File>, t: Sys)
    requires t.blocked == pre
    ensures Walked(s0, t.runnable, pre, [], ready, t) && Unblock(t, [], ready) == Next(t)
  {
  }

  lemma {:induction false} WalkWakes(s0: Sys, s: Sys, pre: seq<Pid>, ps: seq<Pid>, ready: set<File>)
    requires Inv(s) && s.blocked == pre + ps && AsBefore(s0, s, ps) && Unblock(s, ps, ready).Next?
    ensures Walked(s0, s.runnable, pre, ps, ready, Unblock(s, ps, ready).sys)
    decreases |ps|
  {
    hide Inv, CanUnblock, MayGoOn, Unblock, Wake, Walked;
    if ps != [] {
      var p, rest := ps[0], ps[1..];
      assert s.blocked[|pre|] == p && s.blocked == pre + [p] + rest;
      UnblockStep(s, ps, ready, p, rest);
      AnswerMeans(s, p, ready);
      NotAgain(s, p, pre, rest);
      if MayGoOn(s.procs[p], s.clock, ready) {
        WakeKeeps(s, p, ready);
        WakeLists(s, p, pre, rest);
        WalkWakes(s0, Wake(s, p), pre, rest, ready);
      } else {
        WalkWakes(s0, s, pre + [p], rest, ready);
      }
      WalkedNext(s0, s.runnable, pre, ps, ready, Unblock(s, ps, ready).sys);
    } else {
      WalkedNone(s0, pre, ready, s);
    }
  }

  /** Those who stay are as they were. */
  lemma {:induction false} WalkLeaves(s: Sys, ps: seq<Pid>, ready: set<File>)
    requires Inv(s) && Distinct(ps) && (forall p :: p in ps ==> p in s.blocked) && Unblock(s, ps, ready).Next?
    ensures var t := Unblock(s, ps, ready).sys;
            forall p :: p in t.blocked ==> p in s.blocked && p in s.procs && p in t.procs && t.procs[p] == s.procs[p]
    decreases |ps|
  {
    hide Inv, CanUnblock, Unblock, Wake;
    BlockedKnown(s);
    if ps == [] {
      WalkedNone(s, s.blocked, ready, s);
    } else {
      var p, rest := ps[0], ps[1..];
      assert p in ps && ps == [p] + rest;
      assert forall x :: x in rest ==> x in ps && x != p;
      UnblockStep(s, ps, ready, p, rest);
      if CanUnblock(s, s.procs[p].blocker.value, ready) == Says(true) {
        WakeKeeps(s, p, ready);
        WakeFrame(s, p);
        WakeOthers(s, p);
        WalkLeaves(Wake(s, p), rest, ready);
      } else {
        WalkLeaves(s, rest, ready);
      }
    }
  }

  lemma WakeOthers(s: Sys, p: Pid)
    requires p in s.procs
    ensures forall x :: x != p && x in s.procs ==> x in Wake(s, p).procs && Wake(s, p).procs[x] == s.procs[x]
  {
  }

  lemma BlockedKnown(s: Sys)
    requires Inv(s)
    ensures forall p :: p in s.blocked ==> p in s.procs && p != s.idle
  {
  }

  lemma NotAgain(s: Sys, p: Pid, pre: seq<Pid>, rest: seq<Pid>)
    requires Inv(s) && s.blocked == pre + [p] + rest
    ensures p !in pre && p !in rest
  {
    hide InPlace, BlockerOk, WaiterOk, OneWaitee;
    assert s.blocked[|pre|] == p;
    assert forall k :: 0 <= k < |pre| ==> s.blocked[k] == pre[k];
    assert forall k :: 0 <= k < |rest| ==> s.blocked[|pre| + 1 + k] == rest[k];
  }

  /** The line for the processor after a tick that reschedules: those woken join it last, in their old order. */
  ghost function NewLine(s: Sys, ready: set<File>): seq<Pid>
    requires Inv(s)
  {
    Line(s) + Chosen(s.procs, s.blocked, Advance(s.clock), ready, true)
  }

  /**
   * A tick that reschedules and does not fail wakes exactly the blocked processes whose condition holds. They join the
   * line in their old order, the others stay in theirs, as they were; the head of the line, or idle, takes over.
   */
  lemma TickWakes(s: Sys, ready: set<File>)
    requires Inv(s) && !InSlice(s) && Tick(s, ready).Next?
    ensures var t, line := Tick(s, ready).sys, NewLine(s, ready);
            && t.blocked == Chosen(s.procs, s.blocked, Advance(s.clock), ready, false)
            && (forall p :: p in t.blocked ==> p in t.procs && t.procs[p] == s.procs[p])
            && if line == [] then t.current == Some(s.idle) && t.runnable == []
               else t.current == Some(line[0]) && t.runnable == line[1..]
  {
    hide InPlace, BlockerOk, WaiterOk, OneWaitee, Overslept, Tick, Preempted, MayGoOn;
    var now := s.(clock := Advance(s.clock));
    ClockKeeps(s, now.clock, s.ticks);
    TickReschedules(s, ready);
    PreemptKeeps(now);
    PreemptFrame(now);
    var u := Preempted(now);
    assert u.blocked == [] + u.blocked;
    WalkWakes(u, u, [], u.blocked, ready);
    BlockedNames(u);
    WalkLeaves(u, u.blocked, ready);
    SameChoice(s.procs, u.procs, s.blocked, now.clock, ready);
    UnblockKeeps(u, u.blocked, ready);
    var w := Unblock(u, u.blocked, ready).sys;
    assert w.(current := None) == w;
    PickKeeps(w);
    PickLeaves(w);
  }

  lemma PickLeaves(s: Sys)
    requires Inv(s.(current := None)) && Pick(s).Next?
    ensures Pick(s).sys.blocked == s.blocked
    ensures forall p :: p in s.blocked ==> p in Pick(s).sys.procs && Pick(s).sys.procs[p] == s.procs[p]
  {
    hide BlockerOk, WaiterOk, OneWaitee, Distinct;
    var t := s.(current := None);
    assert InPlace(t, t.idle);
    if s.runnable != [] { assert InPlace(t, s.runnable[0]); }
  }

  lemma {:induction false} SameChoice(a: map<Pid, Proc>, b: map<Pid, Proc>, ps: seq<Pid>, now: Clock, ready: set<File>)
    requires forall p :: p in ps ==> p in a && p in b && a[p] == b[p]
    ensures Chosen(a, ps, now, ready, true) == Chosen(b, ps, now, ready, true)
    ensures Chosen(a, ps, now, ready, false) == Chosen(b, ps, now, ready, false)
  {
    hide MayGoOn;
    if ps != [] {
      assert ps[0] in ps;
      SameChoice(a, b, ps[1..], now, ready);
    }
  }

  /** Said of one process: it leaves the blocked list if and only if its condition holds. */
  lemma WokenExactly(s: Sys, ready: set<File>, p: Pid)
    requires Inv(s) && !InSlice(s) && Tick(s, ready).Next? && p in s.blocked
    ensures var t := Tick(s, ready).sys; p !in t.blocked <==> MayGoOn(s.procs[p], Advance(s.clock), ready)
    ensures var t := Tick(s, ready).sys;
            p !in t.blocked ==> p in t.procs && t.procs[p].blocker == None && (p in t.runnable || t.current == Some(p))
  {
    hide Inv, Tick, MayGoOn, Overslept, Line;
    BlockedKnown(s);
    TickWakes(s, ready);
    TickKeeps(s, ready);
    var t, line := Tick(s, ready).sys, NewLine(s, ready);
    if p !in t.blocked {
      assert p in Chosen(s.procs, s.blocked, Advance(s.clock), ready, true);
      assert p in line;
      assert line == [line[0]] + line[1..];
      Unblocked(t, p);
    }
  }

  lemma Unblocked(t: Sys, p: Pid)
    requires Inv(t) && p !in t.blocked && (p in t.runnable || t.current == Some(p))
    ensures p in t.procs && (p != t.idle ==> t.procs[p].blocker == None)
  {
  }

  // ----- blocking

  /** The blocker says what the call waits for; a sleeper's deadline lies exactly its milliseconds ahead. */
  ghost predicate Awaits(b: Blocker, e: Event, c: Pid, now: Clock) {
    match e
    case Get(_) => b == Message(c)
    case SleepFor(ms) => b.Sleep? && Total(b.until) == Total(now) + ms
    case AwaitInput(files) => b == Input(c, files)
    case AwaitFile(f) => b == Readable(f)
    case WaitOn(_) => b == Wait(false)
    case _ => false
  }

  /** The calls that block the caller in this state. */
  predicate Blocks(s: Sys, e: Event)
    requires Acting(s)
  {
    match e
    case Get(_) => s.procs[s.current.value].queue == []
    case WaitOn(p) => Listed(s, p)
    case SleepFor(_) => true
    case AwaitInput(_) => true
    case AwaitFile(_) => true
    case _ => false
  }

  /**
   * A call that blocks puts its caller at the end of the blocked list, waiting for just that; the head of the line takes
   * over. The process waited for knows its waiter.
   */
  lemma CallBlocks(s: Sys, e: Event)
    requires Inv(s) && Enabled(s, e) && !e.TimerTick? && !e.Start? && Step(s, e).Next? && Blocks(s, e)
    ensures var c, t := s.current.value, Step(s, e).sys;
            && t.blocked == s.blocked + [c] && c in t.procs
            && t.procs[c].state == Blocked && t.procs[c].blocker.Some? && Awaits(t.procs[c].blocker.value, e, c, s.clock)
            && t.procs[c].resume == (match e case Get(size) => Consume(size) case AwaitInput(files) => Index(|files|) case _ => Free)
            && (e.WaitOn? ==> e.pid in t.procs && t.procs[e.pid].waiter == Some(c))
            && if s.runnable == [] then t.current == Some(s.idle) && t.runnable == []
               else t.current == Some(s.runnable[0]) && t.runnable == s.runnable[1..]
  {
    hide InPlace, BlockerOk, WaiterOk, OneWaitee, Pick;
    match e {
      case WaitOn(p) =>
        WaitKeeps(s, p);
        WaitAsideKeeps(s, p);
        ChosenAfter(WaitAside(s, p));
      case Get(size) => BlockedAfter(s, Message(s.current.value), Consume(size));
      case SleepFor(ms) => BlockedAfter(s, Sleep(Deadline(s.clock, ms)), Free);
      case AwaitInput(files) => BlockedAfter(s, Input(s.current.value, files), Index(|files|));
      case AwaitFile(f) => BlockedAfter(s, Readable(f), Free);
    }
  }

  lemma BlockedAfter(s: Sys, b: Blocker, resume: Resume)
    requires Inv(s) && Acting(s) && Allowed(s, s.current.value, b, resume)
    ensures var c, r := s.current.value, Block(s, b, resume);
            && r.Next? && r.sys.blocked == s.blocked + [c] && c in r.sys.procs
            && r.sys.procs[c].state == Blocked && r.sys.procs[c].blocker == Some(b) && r.sys.procs[c].resume == resume
            && if s.runnable == [] then r.sys.current == Some(s.idle) && r.sys.runnable == []
               else r.sys.current == Some(s.runnable[0]) && r.sys.runnable == s.runnable[1..]
  {
    hide InPlace, BlockerOk, WaiterOk, OneWaitee, Pick;
    SetAsideKeeps(s, b, resume);
    ChosenAfter(SetAside(s, b, resume));
  }

  /** Choosing the next process changes the state of the chosen one and nothing else. */
  lemma ChosenAfter(s: Sys)
    requires Inv(s.(current := None))
    ensures var r := Pick(s);
            && r.Next? && r.sys.blocked == s.blocked && r.sys.procs.Keys == s.procs.Keys
            && (forall p :: p in s.blocked ==> p in s.procs && r.sys.procs[p] == s.procs[p])
            && (forall p :: p in s.procs ==> r.sys.procs[p] == s.procs[p].(state := r.sys.procs[p].state))
            && if s.runnable == [] then r.sys.current == Some(s.idle) && r.sys.runnable == []
               else r.sys.current == Some(s.runnable[0]) && r.sys.runnable == s.runnable[1..]
  {
    PickKeeps(s);
    hide BlockerOk, WaiterOk, OneWaitee, Distinct, InPlace;
    PickLeaves(s);
  }

  /** Blocking and choosing touch no blocker of a process that was blocked before. */
  lemma BlockLeaves(s: Sys, b: Blocker, resume: Resume, p: Pid)
    requires Inv(s) && Acting(s) && Allowed(s, s.current.value, b, resume) && p in s.blocked
    ensures var r := Block(s, b, resume);
            r.Next? && p in s.procs && p in r.sys.blocked && p in r.sys.procs && r.sys.procs[p].blocker == s.procs[p].blocker
  {
    hide InPlace, BlockerOk, WaiterOk, OneWaitee, Pick;
    CurrentBusy(s);
    SetAsideKeeps(s, b, resume);
    ChosenAfter(SetAside(s, b, resume));
  }

  lemma WaitLeaves(s: Sys, w: Pid, p: Pid)
    requires Inv(s) && Acting(s) && s.procs[s.current.value].resume.Free? && WaitFor(s, w).Next? && p in s.blocked
    ensures var t := WaitFor(s, w).sys;
            p in s.procs && p in t.blocked && p in t.procs && t.procs[p].blocker == s.procs[p].blocker
  {
    hide InPlace, BlockerOk, WaiterOk, OneWaitee, Pick;
    CurrentBusy(s);
    WaitKeeps(s, w);
    if Listed(s, w) {
      WaitAsideKeeps(s, w);
      ChosenAfter(WaitAside(s, w));
    }
  }

  lemma ExitLeaves(s: Sys, p: Pid)
    requires Inv(s) && Acting(s) && p in s.blocked
    ensures var r := Terminate(s);
            && r.Next? && p in s.procs && p in r.sys.blocked && p in r.sys.procs
            && r.sys.procs[p].blocker == if s.procs[s.current.value].waiter == Some(p) then Some(Wait(true)) else s.procs[p].blocker
  {
    hide InPlace, BlockerOk, WaiterOk, OneWaitee, Pick;
    CurrentBusy(s);
    DeletedKeeps(s);
    assert Deleted(s).(current := None) == Deleted(s);
    ChosenAfter(Deleted(s));
  }

  /** Nothing but the tick wakes a process, and nothing but the end of the process waited for touches its blocker. */
  lemma OnlyTicksWake(s: Sys, e: Event, p: Pid)
    requires Inv(s) && Enabled(s, e) && !e.TimerTick? && Step(s, e).Next? && p in s.blocked
    ensures var t := Step(s, e).sys;
            && p in s.procs && p in t.blocked && p in t.procs
            && t.procs[p].blocker == if e.Exit? && s.procs[s.current.value].waiter == Some(p) then Some(Wait(true))
                                     else s.procs[p].blocker
  {
    hide InPlace, BlockerOk, WaiterOk, OneWaitee, Block, WaitFor, Terminate;
    BlockedKnown(s);
    match e {
      case Exit => ExitLeaves(s, p);
      case WaitOn(w) => WaitLeaves(s, w, p);
      case Get(size) =>
        if s.procs[s.current.value].queue == [] { BlockLeaves(s, Message(s.current.value), Consume(size), p); }
      case SleepFor(ms) => BlockLeaves(s, Sleep(Deadline(s.clock, ms)), Free, p);
      case AwaitInput(files) => BlockLeaves(s, Input(s.current.value, files), Index(|files|), p);
      case AwaitFile(f) => BlockLeaves(s, Readable(f), Free, p);
      case _ =>
    }
  }

  // ----- sleeping over whole runs

  /** Ticks advance the clock by a millisecond, nothing else touches it. */
  lemma StepClock(s: Sys, e: Event)
    requires Inv(s) && Enabled(s, e) && Step(s, e).Next?
    ensures Total(Step(s, e).sys.clock) == Total(s.clock) + if e.TimerTick? then 1 else 0
  {
    hide InPlace, BlockerOk, WaiterOk, OneWaitee, Overslept, Tick;
    if e.TimerTick? { TickKeeps(s, e.ready); }
  }

  lemma {:induction false} ClockAdvances(s: Sys, es: seq<Event>, t: Sys)
    requires Inv(s) && Runs(s, es, t)
    ensures Total(t.clock) == Total(s.clock) + TickCount(es)
    decreases |es|
  {
    hide Inv, Step, Enabled;
    if es != [] {
      StepKeeps(s, es[0]);
      StepClock(s, es[0]);
      ClockAdvances(Step(s, es[0]).sys, es[1..], t);
    }
  }

  predicate SleepsUntil(s: Sys, p: Pid, until: Clock) {
    p in s.blocked && p in s.procs && s.procs[p].blocker == Some(Sleep(until))
  }

  lemma StillAsleep(s: Sys, e: Event, p: Pid, until: Clock)
    requires Inv(s) && Enabled(s, e) && Step(s, e).Next? && SleepsUntil(s, p, until)
    requires Total(Step(s, e).sys.clock) < Total(until)
    ensures SleepsUntil(Step(s, e).sys, p, until)
  {
    hide InPlace, BlockerOk, OneWaitee, Overslept, Tick, Terminate, Block, WaitFor;
    StepClock(s, e);
    if e.TimerTick? {
      TickKeeps(s, e.ready);
      if !InSlice(s) {
        WokenExactly(s, e.ready, p);
        TickWakes(s, e.ready);
      }
    } else {
      OnlyTicksWake(s, e, p);
      if e.Exit? { assert WaiterOk(s, s.current.value); }
    }
  }

  /** Nobody is woken before its time: a process sleeps on in every state of a run until its milliseconds have passed. */
  lemma {:induction false} NeverWokenEarly(s: Sys, es: seq<Event>, t: Sys, p: Pid, until: Clock)
    requires Inv(s) && Runs(s, es, t) && SleepsUntil(s, p, until) && Total(s.clock) + TickCount(es) < Total(until)
    ensures SleepsUntil(t, p, until)
    decreases |es|
  {
    hide Inv, Step, Enabled;
    if es != [] {
      StepKeeps(s, es[0]);
      StepClock(s, es[0]);
      StillAsleep(s, es[0], p, until);
      NeverWokenEarly(Step(s, es[0]).sys, es[1..], t, p, until);
    }
  }
}
