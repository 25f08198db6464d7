/** What every step of the scheduler keeps, and which of its assertions can fail. */
module SchedulerInvariant {
  import opened Options
  import opened Sequences
  import opened Timer
  import opened Scheduling

  /** The process is in exactly one place, and its state field says which. */
  ghost predicate InPlace(s: Sys, p: Pid)
    requires p in s.procs
  {
    var q := s.procs[p];
    if p == s.idle then
      && p !in s.runnable && p !in s.blocked && q.resume == Free
      && q.state == (if s.current == Some(p) then Running else Runnable)
    else if p in s.runnable then p !in s.blocked && s.current != Some(p) && q.state == Runnable && q.blocker == None
    else if p in s.blocked then s.current != Some(p) && q.state == Blocked && q.blocker.Some?
    else s.current == Some(p) && q.state == Running && q.blocker == None
  }

  /** A process asks about its own messages, and has one when it is about to consume it; deadlines are as `sleep_ms` puts them. */
  ghost predicate BlockerOk(s: Sys, p: Pid)
    requires p in s.procs
  {
    var q := s.procs[p];
    && (q.blocker.Some? && q.blocker.value.Message? ==> q.blocker.value.pid == p && q.resume.Consume?)
    && (q.blocker.Some? && q.blocker.value.Input? ==> q.blocker.value.pid == p)
    && (q.blocker.Some? && q.blocker.value.Sleep? ==> q.blocker.value.until.ms <= 1000)
    && (q.resume.Consume? ==> if p in s.blocked then q.blocker == Some(Message(p)) else q.queue != [])
  }

  /** A recorded waiter is still blocked in its wait, so the pointer to its blocker is not stale. */
  ghost predicate WaiterOk(s: Sys, p: Pid)
    requires p in s.procs
  {
    var w := s.procs[p].waiter;
    w.Some? ==> w.value in s.blocked && w.value in s.procs && s.procs[w.value].blocker == Some(Wait(false))
  }

  ghost predicate OneWaitee(s: Sys) {
    forall p, q :: p in s.procs && q in s.procs && p != q && s.procs[p].waiter.Some?
                   ==> s.procs[p].waiter != s.procs[q].waiter
  }

  ghost predicate ListsOk(s: Sys) {
    && Distinct(s.runnable) && Distinct(s.blocked)
    && (forall p :: p in s.runnable ==> p in s.procs)
    && (forall p :: p in s.blocked ==> p in s.procs)
    && s.idle in s.procs && (s.current.Some? ==> s.current.value in s.procs)
    && s.ticks <= TIME_SLICE && ValidClock(s.clock)
  }

  ghost predicate Inv(s: Sys) {
    && ListsOk(s)
    && (forall p :: p in s.procs ==> InPlace(s, p))
    && (forall p :: p in s.procs ==> BlockerOk(s, p))
    && (forall p :: p in s.procs ==> WaiterOk(s, p))
    && OneWaitee(s)
  }

  /** The state at the first tick. */
  function Boot(idle: Pid): Sys {
    Sys([], [], None, idle, 0, map[idle := FRESH], Clock(0, 0))
  }

  lemma BootInv(idle: Pid)
    ensures Inv(Boot(idle))
  {
  }

  /** Choosing the next process puts the head of the runnable list, or idle, in charge. */
  lemma PickKeeps(s: Sys)
    requires Inv(s.(current := None))
    ensures Pick(s).Next? && Inv(Pick(s).sys)
    ensures Pick(s).sys.ticks == 0
    ensures if s.runnable == [] then Pick(s).sys.current == Some(s.idle) && Pick(s).sys.runnable == []
            else Pick(s).sys.current == Some(s.runnable[0]) && Pick(s).sys.runnable == s.runnable[1..]
  {
    var t := s.(current := None);
    assert InPlace(t, t.idle);
    if s.runnable != [] {
      var p := s.runnable[0];
      assert InPlace(t, p);
      assert Remove(s.runnable, p) == s.runnable[1..];
      RemoveMembers(s.runnable, p);
    }
    var u := Pick(s).sys;
    forall p | p in u.procs
      ensures InPlace(u, p) && BlockerOk(u, p) && WaiterOk(u, p)
    {
      assert InPlace(t, p) && BlockerOk(t, p) && WaiterOk(t, p);
    }
  }

  /** Waking a process whose blocker allows it. */
  lemma WakeKeeps(s: Sys, p: Pid, ready: set<File>)
    requires Inv(s) && p in s.blocked && s.procs[p].blocker.Some?
    requires CanUnblock(s, s.procs[p].blocker.value, ready) == Says(true)
    ensures Inv(Wake(s, p))
  {
    var t := Wake(s, p);
    RemoveMembers(s.blocked, p);
    assert InPlace(s, p) && BlockerOk(s, p);
    assert Distinct(t.runnable);
    forall x | x in t.procs
      ensures InPlace(t, x) && BlockerOk(t, x) && WaiterOk(t, x)
    {
      assert InPlace(s, x) && BlockerOk(s, x) && WaiterOk(s, x);
    }
  }

  /** A sleeper that was not looked at for more than a second past its deadline. */
  ghost predicate Overslept(s: Sys, p: Pid) {
    && p in s.procs && s.procs[p].blocker.Some? && s.procs[p].blocker.value.Sleep?
    && CanWake(s.clock, s.procs[p].blocker.value.until) == Fails
  }

  /** A blocked process has a blocker, and asking it can only fail on an overslept sleeper. */
  lemma AskBlocked(s: Sys, p: Pid, ready: set<File>)
    requires Inv(s) && p in s.blocked
    ensures p in s.procs && s.procs[p].state == Blocked && s.procs[p].blocker.Some?
    ensures var a := CanUnblock(s, s.procs[p].blocker.value, ready);
            if Overslept(s, p) then a == Faults(SleptTooLong) else a.Says?
  {
  }

  /** Waking `p` only takes it from the blocked list; it changes no other process. */
  lemma WakeFrame(s: Sys, p: Pid)
    requires Inv(s) && p in s.blocked
    ensures forall x :: x in Wake(s, p).blocked <==> x in s.blocked && x != p
    ensures forall x :: x != p ==> (Overslept(Wake(s, p), x) <==> Overslept(s, x))
    ensures Wake(s, p).procs.Keys == s.procs.Keys && s.runnable <= Wake(s, p).runnable
  {
    RemoveMembers(s.blocked, p);
  }

  lemma BlockedNames(s: Sys)
    requires Inv(s)
    ensures Distinct(s.blocked)
  {
  }

  /** One step of the walk over the blocked list. */
  lemma UnblockStep(s: Sys, ps: seq<Pid>, ready: set<File>, p: Pid, rest: seq<Pid>)
    requires Inv(s) && p in s.blocked && ps == [p] + rest
    ensures p in s.procs && s.procs[p].state == Blocked && s.procs[p].blocker.Some?
    ensures match CanUnblock(s, s.procs[p].blocker.value, ready)
            case Faults(f) => f == SleptTooLong && Unblock(s, ps, ready) == Failed(f)
            case Says(yes) => Unblock(s, ps, ready) == Unblock(if yes then Wake(s, p) else s, rest, ready)
  {
  }

  /** Walking the blocked list fails exactly on an overslept sleeper, and otherwise only moves processes. */
  lemma {:induction false} UnblockKeeps(s: Sys, ps: seq<Pid>, ready: set<File>)
    requires Inv(s) && Distinct(ps) && forall p :: p in ps ==> p in s.blocked
    ensures var r := Unblock(s, ps, ready);
            if exists p :: p in ps && Overslept(s, p) then r == Failed(SleptTooLong)
            else r.Next? && Inv(r.sys) && s.runnable <= r.sys.runnable
                 && r.sys.current == s.current && r.sys.idle == s.idle && r.sys.ticks == s.ticks && r.sys.clock == s.clock
                 && r.sys.procs.Keys == s.procs.Keys
    decreases |ps|
  {
    hide Inv, CanUnblock, Overslept;
    if ps != [] {
      var p := ps[0];
      assert p in ps;
      AskBlocked(s, p, ready);
      var a := CanUnblock(s, s.procs[p].blocker.value, ready);
      assert forall x :: x in ps <==> x == p || x in ps[1..];
      if a.Says? {
        assert forall x :: x in ps[1..] ==> x != p;
        if a.yes {
          WakeKeeps(s, p, ready);
          WakeFrame(s, p);
          UnblockKeeps(Wake(s, p), ps[1..], ready);
        } else {
          UnblockKeeps(s, ps[1..], ready);
        }
      }
    }
  }

  /** Unblocking and choosing: the current process was put aside before. */
  lemma RescheduleKeeps(s: Sys, ready: set<File>)
    requires Inv(s) && s.current == None
    ensures var r := Reschedule(s, ready);
            if exists p :: p in s.blocked && Overslept(s, p) then r == Failed(SleptTooLong)
            else r.Next? && Inv(r.sys) && r.sys.ticks == 0 && r.sys.clock == s.clock && r.sys.idle == s.idle
                 && r.sys.procs.Keys == s.procs.Keys
                 && (s.runnable != [] ==> r.sys.current == Some(s.runnable[0]) && s.runnable[1..] <= r.sys.runnable)
  {
    hide InPlace, BlockerOk, WaiterOk, OneWaitee, Overslept;
    UnblockKeeps(s, s.blocked, ready);
    var r := Unblock(s, s.blocked, ready);
    if r.Next? {
      assert r.sys.(current := None) == r.sys;
      PickKeeps(r.sys);
    }
  }

  lemma PreemptedOthers(s: Sys, x: Pid)
    requires Inv(s) && x in Preempted(s).procs
    ensures InPlace(Preempted(s), x) && BlockerOk(Preempted(s), x)
  {
    hide WaiterOk, OneWaitee, Distinct;
    if s.current.Some? { assert InPlace(s, s.current.value); }
    assert InPlace(s, x) && BlockerOk(s, x);
  }

  lemma PreemptedWaiters(s: Sys)
    requires Inv(s)
    ensures var t := Preempted(s); (forall x :: x in t.procs ==> WaiterOk(t, x)) && OneWaitee(t)
  {
    hide InPlace, BlockerOk, Distinct;
    var t := Preempted(s);
    if s.current.Some? { assert t.procs.Keys == s.procs.Keys; }
    forall x | x in t.procs
      ensures WaiterOk(t, x)
    {
      assert WaiterOk(s, x);
      if s.current.Some? && s.procs[x].waiter == s.current { CurrentBusy(s); }
    }
  }

  lemma CurrentBusy(s: Sys)
    requires Inv(s) && s.current.Some?
    ensures s.current.value !in s.blocked
  {
    assert InPlace(s, s.current.value);
  }

  lemma PreemptedLists(s: Sys)
    requires Inv(s)
    ensures ListsOk(Preempted(s)) && Preempted(s).current == None
  {
    if s.current.Some? { assert InPlace(s, s.current.value); }
  }

  lemma PreemptKeeps(s: Sys)
    requires Inv(s)
    ensures Inv(Preempted(s)) && Preempted(s).current == None
  {
    hide InPlace, BlockerOk, WaiterOk, OneWaitee, Distinct, Preempted;
    PreemptedLists(s);
    PreemptedWaiters(s);
    var t := Preempted(s);
    forall x | x in t.procs
      ensures InPlace(t, x) && BlockerOk(t, x)
    {
      PreemptedOthers(s, x);
    }
  }

  lemma ClockKeeps(s: Sys, clock: Clock, ticks: nat)
    requires Inv(s) && ValidClock(clock) && ticks <= TIME_SLICE
    ensures Inv(s.(clock := clock, ticks := ticks))
  {
  }

  /** The running process is inside its time slice, so the tick only counts. */
  predicate InSlice(s: Sys) {
    s.current.Some? && s.current.value != s.idle && s.ticks < TIME_SLICE
  }

  /** The line for the processor at a tick that reschedules: the preempted process joins it last. */
  function Line(s: Sys): seq<Pid> {
    if s.current.Some? && s.current.value != s.idle then s.runnable + [s.current.value] else s.runnable
  }

  /** A tick outside a time slice puts the running process back and reschedules. */
  lemma TickReschedules(s: Sys, ready: set<File>)
    requires Inv(s) && !InSlice(s)
    ensures Tick(s, ready) == Reschedule(Preempted(s.(clock := Advance(s.clock))), ready)
  {
    var now := s.(clock := Advance(s.clock));
    assert InPlace(s, s.idle);
    if s.current.Some? {
      assert InPlace(s, s.current.value);
    } else {
      assert now.procs[now.idle := now.procs[now.idle].(state := Runnable)] == now.procs;
    }
  }

  lemma TickKeeps(s: Sys, ready: set<File>)
    requires Inv(s)
    ensures var now := s.(clock := Advance(s.clock));
            var r := Tick(s, ready);
            if InSlice(s) then r == Next(now.(ticks := s.ticks + 1)) && Inv(r.sys)
            else if exists p :: p in s.blocked && Overslept(now, p) then r == Failed(SleptTooLong)
            else r.Next? && Inv(r.sys) && r.sys.ticks == 0 && r.sys.clock == now.clock && r.sys.idle == s.idle
                 && r.sys.procs.Keys == s.procs.Keys
                 && (Line(s) != [] ==> r.sys.current == Some(Line(s)[0]) && Line(s)[1..] <= r.sys.runnable)
  {
    hide BlockerOk, WaiterOk, OneWaitee, Overslept, Reschedule;
    var now := s.(clock := Advance(s.clock));
    ClockKeeps(s, now.clock, s.ticks);
    if InSlice(s) {
      ClockKeeps(s, now.clock, s.ticks + 1);
      assert InPlace(now, s.current.value);
    } else {
      TickReschedules(s, ready);
      PreemptKeeps(now);
      RescheduleKeeps(Preempted(now), ready);
      PreemptFrame(now);
    }
  }

  /** Preempting the running process changes no blocked one. */
  lemma PreemptFrame(s: Sys)
    requires Inv(s)
    ensures Preempted(s).blocked == s.blocked && Preempted(s).clock == s.clock && Preempted(s).idle == s.idle
    ensures Preempted(s).procs.Keys == s.procs.Keys && Preempted(s).runnable == Line(s)
    ensures forall p :: p in s.blocked ==> p in s.procs && Preempted(s).procs[p] == s.procs[p]
    ensures forall p :: p in s.blocked ==> (Overslept(s, p) <==> Overslept(Preempted(s), p))
  {
  }

  /** A blocker the current process may block on. */
  predicate Allowed(s: Sys, c: Pid, b: Blocker, resume: Resume) {
    match b
    case Message(p) => p == c && resume.Consume?
    case Input(p, _) => p == c && resume.Index?
    case Sleep(until) => until.ms <= 1000 && resume.Free?
    case _ => resume.Free?
  }

  lemma SetAsideKeeps(s: Sys, b: Blocker, resume: Resume)
    requires Inv(s) && Acting(s) && Allowed(s, s.current.value, b, resume)
    ensures Inv(SetAside(s, b, resume).(current := None))
  {
    assert InPlace(s, s.current.value);
    var u := SetAside(s, b, resume).(current := None);
    forall x | x in u.procs
      ensures InPlace(u, x) && BlockerOk(u, x) && WaiterOk(u, x)
    {
      assert InPlace(s, x) && BlockerOk(s, x) && WaiterOk(s, x);
    }
  }

  lemma BlockKeeps(s: Sys, b: Blocker, resume: Resume)
    requires Inv(s) && Acting(s) && Allowed(s, s.current.value, b, resume)
    ensures Block(s, b, resume).Next? && Inv(Block(s, b, resume).sys)
    ensures Block(s, b, resume).sys.ticks == 0
    ensures s.runnable != [] ==> Block(s, b, resume).sys.current == Some(s.runnable[0])
                                 && Block(s, b, resume).sys.runnable == s.runnable[1..]
  {
    hide Inv;
    SetAsideKeeps(s, b, resume);
    PickKeeps(SetAside(s, b, resume));
  }

  lemma DeletedKeeps(s: Sys)
    requires Inv(s) && Acting(s)
    ensures Inv(Deleted(s)) && Deleted(s).current == None
  {
    var t := Deleted(s);
    forall x | x in t.procs
      ensures InPlace(t, x) && BlockerOk(t, x)
    {
      DeletedOthers(s, x);
    }
    forall x | x in t.procs
      ensures WaiterOk(t, x)
    {
      DeletedWaiter(s, x);
    }
    hide InPlace, BlockerOk, WaiterOk, Distinct;
    assert OneWaitee(s) && OneWaitee(t);
  }

  lemma DeletedWaiter(s: Sys, x: Pid)
    requires Inv(s) && Acting(s) && x in Deleted(s).procs
    ensures WaiterOk(Deleted(s), x)
  {
  }

  /** What the deletion of the current process leaves of another one. */
  lemma DeletedOthers(s: Sys, x: Pid)
    requires Inv(s) && Acting(s) && x in Deleted(s).procs
    ensures InPlace(Deleted(s), x) && BlockerOk(Deleted(s), x)
  {
  }

  lemma TerminateKeeps(s: Sys)
    requires Inv(s) && Acting(s)
    ensures Terminate(s).Next? && Inv(Terminate(s).sys)
    ensures Terminate(s).sys.ticks == 0
    ensures s.runnable != [] ==> Terminate(s).sys.current == Some(s.runnable[0])
                                 && Terminate(s).sys.runnable == s.runnable[1..]
  {
    hide Inv;
    DeletedKeeps(s);
    assert Deleted(s).(current := None) == Deleted(s);
    PickKeeps(Deleted(s));
  }

  /** The process waiting for the terminated one may go on, and is woken by the next walk that reaches it. */
  lemma WaiterReleased(s: Sys, w: Pid, ready: set<File>)
    requires Inv(s) && Acting(s) && s.procs[s.current.value].waiter == Some(w)
    ensures Terminate(s).Next?
    ensures var t := Terminate(s).sys;
            w in t.blocked && w in t.procs && t.procs[w].blocker == Some(Wait(true))
            && CanUnblock(t, t.procs[w].blocker.value, ready) == Says(true)
  {
  }

  lemma AddKeeps(s: Sys, p: Pid)
    requires Inv(s) && p !in s.procs
    ensures Inv(Add(s, p))
  {
    var t := Add(s, p);
    forall x | x in t.procs
      ensures InPlace(t, x) && BlockerOk(t, x) && WaiterOk(t, x)
    {
      if x != p {
        assert InPlace(s, x) && BlockerOk(s, x) && WaiterOk(s, x);
      }
    }
  }

  /** Changing the queue of one process, or what it does next, disturbs nobody. */
  lemma EditKeeps(s: Sys, c: Pid, q: Proc)
    requires Inv(s) && c in s.procs && Alike(q, s.procs[c]) && (c == s.idle ==> q.resume == Free)
    requires BlockerOk(SetProc(s, c, q), c)
    ensures Inv(SetProc(s, c, q))
  {
    hide InPlace, BlockerOk, WaiterOk, OneWaitee, Distinct;
    EditedOthers(s, c, q);
    EditedWaiters(s, c, q);
  }

  /** The same state, blocker and waiter. */
  predicate Alike(q: Proc, p: Proc) { q.state == p.state && q.blocker == p.blocker && q.waiter == p.waiter }

  lemma EditedOthers(s: Sys, c: Pid, q: Proc)
    requires Inv(s) && c in s.procs && Alike(q, s.procs[c]) && (c == s.idle ==> q.resume == Free)
    requires BlockerOk(SetProc(s, c, q), c)
    ensures var t := SetProc(s, c, q); forall x :: x in t.procs ==> InPlace(t, x) && BlockerOk(t, x)
  {
    hide WaiterOk, OneWaitee, Distinct;
    var t := SetProc(s, c, q);
    forall x | x in t.procs
      ensures InPlace(t, x) && BlockerOk(t, x)
    {
      assert InPlace(s, x) && BlockerOk(s, x);
    }
  }

  lemma EditedWaiters(s: Sys, c: Pid, q: Proc)
    requires Inv(s) && c in s.procs && Alike(q, s.procs[c])
    ensures var t := SetProc(s, c, q); (forall x :: x in t.procs ==> WaiterOk(t, x)) && OneWaitee(t)
  {
    hide InPlace, BlockerOk, Distinct;
    var t := SetProc(s, c, q);
    forall x | x in t.procs
      ensures WaiterOk(t, x)
    {
      assert WaiterOk(s, x);
    }
  }

  lemma SendKeeps(s: Sys, to: Pid, m: Msg)
    requires Inv(s)
    ensures Inv(Send(s, to, m))
  {
    hide InPlace, WaiterOk, OneWaitee, Distinct;
    if Listed(s, to) && to in s.procs {
      var q := s.procs[to];
      assert BlockerOk(s, to);
      assert IdleFree(s, to) by { IdleIsFree(s, to); }
      EditKeeps(s, to, q.(queue := q.queue + [m]));
    }
  }

  predicate IdleFree(s: Sys, p: Pid) { p in s.procs && p == s.idle ==> s.procs[p].resume == Free }

  lemma IdleIsFree(s: Sys, p: Pid)
    requires Inv(s)
    ensures IdleFree(s, p)
  {
    assert InPlace(s, s.idle);
  }

  lemma TakeKeeps(s: Sys, size: nat)
    requires Inv(s) && Acting(s) && s.procs[s.current.value].queue != []
    ensures var q := s.procs[s.current.value].queue;
            if |q[0].bytes| == size then Take(s, size).Next? && Inv(Take(s, size).sys) else Take(s, size) == Failed(WrongSize)
  {
    hide WaiterOk, OneWaitee, Distinct;
    var c := s.current.value;
    var q := s.procs[c];
    assert InPlace(s, c) && BlockerOk(s, c);
    if |q.queue[0].bytes| == size {
      assert q.queue == [q.queue[0]] + q.queue[1..];
      EditKeeps(s, c, q.(queue := q.queue[1..], taken := q.taken + [q.queue[0]], resume := Free));
    }
  }

  /** Recording a process that is blocked in a wait, and waits for nothing else, as the waiter of `p`. */
  lemma SetWaiterKeeps(s: Sys, p: Pid, c: Pid)
    requires Inv(s) && p in s.procs && c in s.blocked && s.procs[c].blocker == Some(Wait(false))
    requires forall x :: x in s.procs ==> s.procs[x].waiter != Some(c)
    ensures Inv(SetProc(s, p, s.procs[p].(waiter := Some(c))))
  {
    var t := SetProc(s, p, s.procs[p].(waiter := Some(c)));
    forall x | x in t.procs
      ensures InPlace(t, x) && BlockerOk(t, x) && WaiterOk(t, x)
    {
      assert InPlace(s, x) && BlockerOk(s, x) && WaiterOk(s, x);
    }
  }

  /** Nobody is recorded as waiting while it runs. */
  lemma CurrentNotWaiting(s: Sys)
    requires Inv(s) && s.current.Some?
    ensures s.current.value !in s.blocked && s.current.value !in s.runnable
    ensures forall x :: x in s.procs ==> s.procs[x].waiter != s.current
  {
  }

  /** The state in which `syscall_wait` chooses the next process. */
  function WaitAside(s: Sys, p: Pid): Sys
    requires s.current.Some? && s.current.value in s.procs && p in s.procs
  {
    SetAside(SetProc(s, p, s.procs[p].(waiter := s.current)), Wait(false), Free)
  }

  lemma WaitAsideKeeps(s: Sys, p: Pid)
    requires Inv(s) && Acting(s) && s.procs[s.current.value].resume.Free?
    requires Listed(s, p) && p in s.procs && s.procs[p].waiter.None?
    ensures Inv(WaitAside(s, p).(current := None))
  {
    hide Inv;
    var c := s.current.value;
    CurrentNotWaiting(s);
    SetAsideKeeps(s, Wait(false), Free);
    var u := SetAside(s, Wait(false), Free).(current := None);
    SetWaiterKeeps(u, p, c);
    assert WaitAside(s, p).procs == u.procs[p := u.procs[p].(waiter := Some(c))];
  }

  lemma WaitKeeps(s: Sys, p: Pid)
    requires Inv(s) && Acting(s) && s.procs[s.current.value].resume.Free?
    requires Listed(s, p) ==> p in s.procs
    ensures var r := WaitFor(s, p);
            if !Listed(s, p) then r == Next(s)
            else if s.procs[p].waiter.Some? then r == Failed(SecondWaiter)
            else r == Pick(WaitAside(s, p)) && r.Next? && Inv(r.sys) && r.sys.ticks == 0
                 && (s.runnable != [] ==> r.sys.current == Some(s.runnable[0]) && r.sys.runnable == s.runnable[1..])
  {
    hide Inv;
    if Listed(s, p) && s.procs[p].waiter.None? {
      WaitAsideKeeps(s, p);
      PickKeeps(WaitAside(s, p));
    }
  }

  /** The assertions that can fail, and exactly when: seen from the state before the step. */
  ghost predicate CanFail(s: Sys, e: Event)
    requires Inv(s) && Enabled(s, e)
  {
    match e
    case TimerTick(_) =>
      !InSlice(s) && exists p :: p in s.blocked && Overslept(s.(clock := Advance(s.clock)), p)
    case Get(size) => var q := s.procs[s.current.value].queue; q != [] && |q[0].bytes| != size
    case Continue =>
      var q := s.procs[s.current.value];
      (q.resume.Consume? && q.queue != [] && |q.queue[0].bytes| != q.resume.size) || q.resume == Index(0)
    case WaitOn(p) => Listed(s, p) && s.procs[p].waiter.Some?
    case _ => false
  }

  lemma UseIndexKeeps(s: Sys)
    requires Inv(s) && Acting(s) && s.procs[s.current.value].resume.Index?
    ensures var r := UseIndex(s, s.procs[s.current.value].resume.count); r.Next? ==> Inv(r.sys)
  {
    hide WaiterOk, OneWaitee, Distinct;
    var c := s.current.value;
    assert InPlace(s, c) && BlockerOk(s, c);
    EditKeeps(s, c, s.procs[c].(resume := Free));
  }

  /**
   * Every enabled step from a good state leads to a good state, unless it meets an overslept sleeper, a
   * message of another size than asked for, a second waiter, or the index of a ready file where no file was
   * given. No other assertion can fail.
   */
  lemma StepKeeps(s: Sys, e: Event)
    requires Inv(s) && Enabled(s, e)
    ensures Step(s, e).Failed? <==> CanFail(s, e)
    ensures match Step(s, e)
            case Next(t) => Inv(t)
            case Failed(f) => f in {WrongSize, SecondWaiter, SleptTooLong, NoFile}
  {
    hide InPlace, BlockerOk, WaiterOk, OneWaitee, Overslept;
    match e {
      case TimerTick(ready) => TickKeeps(s, ready);
      case Start(p) => AddKeeps(s, p);
      case Exit => TerminateKeeps(s);
      case SendTo(to, bytes) => SendKeeps(s, to, Msg(s.current.value, bytes));
      case Get(size) =>
        if s.procs[s.current.value].queue != [] {
          TakeKeeps(s, size);
        } else {
          BlockKeeps(s, Message(s.current.value), Consume(size));
        }
      case Continue =>
        if s.procs[s.current.value].resume.Consume? {
          ConsumerHasMessage(s);
          TakeKeeps(s, s.procs[s.current.value].resume.size);
        } else {
          UseIndexKeeps(s);
        }
      case WaitOn(p) => WaitKeeps(s, p);
      case SleepFor(ms) => BlockKeeps(s, Sleep(Deadline(s.clock, ms)), Free);
      case AwaitInput(files) => BlockKeeps(s, Input(s.current.value, files), Index(|files|));
      case AwaitFile(f) => BlockKeeps(s, Readable(f), Free);
    }
  }

  /** A process that runs again after waiting for a message finds one. */
  lemma ConsumerHasMessage(s: Sys)
    requires Inv(s) && Acting(s) && s.procs[s.current.value].resume.Consume?
    ensures s.procs[s.current.value].queue != []
  {
  }
}
