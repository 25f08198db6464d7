/** Messages over whole runs: what a process takes and still has queued is what the run sent to it, in order. */
module Messages {
  import opened Options
  import opened Sequences
  import opened Timer
  import opened Scheduling
  import opened SchedulerInvariant
  import opened BoundedWaiting
  import opened Wakeups

  /** What one event adds to the messages delivered to `p`: nothing unless it is sent to `p` while `p` is in a list. */
  ghost function After(s: Sys, e: Event, p: Pid, got: seq<Msg>): seq<Msg> {
    match e
    case Start(q) => if q == p then [] else got
    case SendTo(to, bytes) =>
      if to == p && (p in s.runnable || p in s.blocked) && s.current.Some? then got + [Msg(s.current.value, bytes)] else got
    case _ => got
  }

  /** The messages that the run `es` from `s` delivers to `p`, from its latest start on; `got` were delivered before. */
  ghost function Delivered(s: Sys, es: seq<Event>, p: Pid, got: seq<Msg>): seq<Msg>
    decreases |es|
  {
    if es != [] && ValidClock(s.clock) && Enabled(s, es[0]) && Step(s, es[0]).Next?
    then Delivered(Step(s, es[0]).sys, es[1..], p, After(s, es[0], p, got))
    else got
  }

  /** The messages a process has taken, then those still in its queue. */
  ghost function Mail(s: Sys, p: Pid): seq<Msg>
    requires p in s.procs
  {
    s.procs[p].taken + s.procs[p].queue
  }

  /** No process of `t` is new, and the mail of each is as in `s`. */
  ghost predicate SameMail(s: Sys, t: Sys) {
    forall p :: p in t.procs ==> p in s.procs && t.procs[p].taken == s.procs[p].taken && t.procs[p].queue == s.procs[p].queue
  }

  lemma {:induction false} WalkMail(s: Sys, ps: seq<Pid>, ready: set<File>)
    requires Unblock(s, ps, ready).Next?
    ensures SameMail(s, Unblock(s, ps, ready).sys)
    decreases |ps|
  {
    hide CanUnblock;
    if ps != [] {
      var yes := CanUnblock(s, s.procs[ps[0]].blocker.value, ready).yes;
      WalkMail(if yes then Wake(s, ps[0]) else s, ps[1..], ready);
    }
  }

  lemma PickMail(s: Sys)
    requires Pick(s).Next?
    ensures SameMail(s, Pick(s).sys)
  {
  }

  lemma TickMail(s: Sys, ready: set<File>)
    requires Inv(s) && Tick(s, ready).Next?
    ensures SameMail(s, Tick(s, ready).sys)
  {
    hide Inv, Unblock, Pick;
    TickKeeps(s, ready);
    if !InSlice(s) {
      TickReschedules(s, ready);
      var u := Preempted(s.(clock := Advance(s.clock)));
      WalkMail(u, u.blocked, ready);
      PickMail(Unblock(u, u.blocked, ready).sys);
    }
  }

  /** One event of a run. */
  lemma StepMail(s: Sys, e: Event, p: Pid, got: seq<Msg>)
    requires Inv(s) && Enabled(s, e) && Step(s, e).Next? && p in Step(s, e).sys.procs
    requires p in s.procs ==> Mail(s, p) == got
    ensures Mail(Step(s, e).sys, p) == After(s, e, p, got)
  {
    hide InPlace, BlockerOk, WaiterOk, OneWaitee, Tick, Pick;
    match e {
      case TimerTick(ready) => TickMail(s, ready);
      case Exit => PickMail(Deleted(s));
      case SendTo(to, bytes) => SendMail(s, to, Msg(s.current.value, bytes), p);
      case WaitOn(w) => if Listed(s, w) && w in s.procs { PickMail(WaitAside(s, w)); }
      case Get(size) =>
        if s.procs[s.current.value].queue == [] {
          PickMail(SetAside(s, Message(s.current.value), Consume(size)));
        } else {
          TakeMail(s, size, p);
        }
      case Continue => if s.procs[s.current.value].resume.Consume? { TakeMail(s, s.procs[s.current.value].resume.size, p); }
      case SleepFor(ms) => PickMail(SetAside(s, Sleep(Deadline(s.clock, ms)), Free));
      case AwaitInput(files) => PickMail(SetAside(s, Input(s.current.value, files), Index(|files|)));
      case AwaitFile(f) => PickMail(SetAside(s, Readable(f), Free));
      case Start(_) =>
    }
  }

  lemma SendMail(s: Sys, to: Pid, m: Msg, p: Pid)
    requires Inv(s) && p in s.procs
    ensures p in Send(s, to, m).procs
    ensures Mail(Send(s, to, m), p) == if to == p && Listed(s, p) then Mail(s, p) + [m] else Mail(s, p)
  {
    hide InPlace, BlockerOk, WaiterOk, OneWaitee;
    assert s.procs[p].taken + s.procs[p].queue + [m] == s.procs[p].taken + (s.procs[p].queue + [m]);
  }

  /** Taking moves the first queued message to the end of those taken. */
  lemma TakeMail(s: Sys, size: nat, p: Pid)
    requires Acting(s) && Take(s, size).Next? && p in s.procs
    ensures p in Take(s, size).sys.procs && Mail(Take(s, size).sys, p) == Mail(s, p)
  {
  }

  /** The message a call takes, if it takes one: `get_message` with a message there, or when it goes on after blocking. */
  ghost function TakenBy(s: Sys, e: Event): Option<Msg>
    requires Acting(s)
  {
    var q := s.procs[s.current.value];
    if q.queue != [] && (e.Get? || (e.Continue? && q.resume.Consume?)) then Some(q.queue[0]) else None
  }

  /** A message is taken exactly by the calls that receive, by the caller only, and it is the first of its queue. */
  lemma StepTakes(s: Sys, e: Event, p: Pid)
    requires Inv(s) && Enabled(s, e) && Acting(s) && Step(s, e).Next? && p in s.procs && p in Step(s, e).sys.procs
    ensures Step(s, e).sys.procs[p].taken
            == s.procs[p].taken + if s.current == Some(p) && TakenBy(s, e).Some? then [TakenBy(s, e).value] else []
  {
    hide InPlace, WaiterOk, OneWaitee, Tick, Pick;
    assert s.procs[p].taken + [] == s.procs[p].taken;
    match e {
      case TimerTick(ready) => TickMail(s, ready);
      case Exit => PickMail(Deleted(s));
      case WaitOn(w) => if Listed(s, w) && w in s.procs { PickMail(WaitAside(s, w)); }
      case Get(size) =>
        if s.procs[s.current.value].queue == [] { PickMail(SetAside(s, Message(s.current.value), Consume(size))); }
      case SleepFor(ms) => PickMail(SetAside(s, Sleep(Deadline(s.clock, ms)), Free));
      case AwaitInput(files) => PickMail(SetAside(s, Input(s.current.value, files), Index(|files|)));
      case AwaitFile(f) => PickMail(SetAside(s, Readable(f), Free));
      case _ =>
    }
  }

  lemma {:induction false} RunMail(s: Sys, es: seq<Event>, t: Sys, p: Pid, got: seq<Msg>)
    requires Inv(s) && Runs(s, es, t) && p in t.procs && (p in s.procs ==> Mail(s, p) == got)
    ensures Mail(t, p) == Delivered(s, es, p, got)
    decreases |es|
  {
    hide Inv, Step, Enabled, Mail, After;
    if es != [] {
      var u := Step(s, es[0]).sys;
      StepKeeps(s, es[0]);
      if p in u.procs { StepMail(s, es[0], p, got); }
      RunMail(u, es[1..], t, p, After(s, es[0], p, got));
    }
  }

  /**
   * Over any run from boot, the messages a process took, followed by those still queued, are exactly those that the events
   * of the run sent to it since its start, in the order of the events; nothing is lost, doubled, reordered or invented.
   */
  lemma MessagesInOrder(idle: Pid, es: seq<Event>, t: Sys, p: Pid)
    requires Runs(Boot(idle), es, t) && p in t.procs
    ensures t.procs[p].taken + t.procs[p].queue == Delivered(Boot(idle), es, p, [])
  {
    BootInv(idle);
    RunMail(Boot(idle), es, t, p, []);
  }

  /** Starting and exiting are all that processes come and go by. */
  lemma WhoLives(s: Sys, e: Event)
    requires Inv(s) && Enabled(s, e) && Step(s, e).Next?
    ensures var t := Step(s, e).sys;
            t.procs.Keys == match e case Start(p) => s.procs.Keys + {p} case Exit => s.procs.Keys - {s.current.value} case _ => s.procs.Keys
  {
    hide InPlace, BlockerOk, WaiterOk, OneWaitee, Tick, Pick, Overslept;
    match e {
      case TimerTick(ready) => TickKeeps(s, ready);
      case Exit => PickLives(Deleted(s));
      case SendTo(to, bytes) => assert Listed(s, to) ==> to in s.procs;
      case WaitOn(w) => if Listed(s, w) && w in s.procs { PickLives(WaitAside(s, w)); }
      case Get(size) =>
        if s.procs[s.current.value].queue == [] { PickLives(SetAside(s, Message(s.current.value), Consume(size))); }
      case Continue =>
      case SleepFor(ms) => PickLives(SetAside(s, Sleep(Deadline(s.clock, ms)), Free));
      case AwaitInput(files) => PickLives(SetAside(s, Input(s.current.value, files), Index(|files|)));
      case AwaitFile(f) => PickLives(SetAside(s, Readable(f), Free));
      case Start(_) =>
    }
  }

  lemma PickLives(s: Sys)
    requires Pick(s).Next?
    ensures Pick(s).sys.procs.Keys == s.procs.Keys
  {
  }
}
