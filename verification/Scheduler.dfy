/** The scheduler object: two linked lists, the process table and the timer counters, updated in place. */
module Scheduler {
  import opened Options
  import opened Sequences
  import opened LinkedList
  import opened Timer
  import opened Scheduling
  import opened SchedulerInvariant

  /** The blocked list holds nobody twice, so the first occurrence is the only one. */
  lemma BlockedDistinct(s: Sys)
    requires Inv(s)
    ensures forall i :: 0 <= i < |s.blocked| ==> IndexOf(s.blocked, s.blocked[i]) == i
  {
  }

  lemma TailAfterRemove(list: seq<Pid>, i: nat)
    requires i < |list| && IndexOf(list, list[i]) == i
    ensures Remove(list, list[i])[i..] == list[i + 1..]
  {
  }

  class Scheduler {
    const runnable: List<Pid>
    const blocked: List<Pid>
    const idle: Pid
    var current: Option<Pid>
    var ticks: nat
    var procs: map<Pid, Proc>
    var seconds: nat
    var millis: nat

    /** Both lists are well formed and share no node. */
    ghost predicate Lists()
      reads runnable, runnable.nodes, blocked, blocked.nodes
    {
      && runnable != blocked && runnable.Valid() && blocked.Valid()
      && forall i, j :: 0 <= i < |runnable.nodes| && 0 <= j < |blocked.nodes| ==> runnable.nodes[i] != blocked.nodes[j]
    }

    /** The abstract state of the object. */
    ghost function View(): Sys
      reads this, runnable, runnable.nodes, blocked, blocked.nodes
    {
      Sys(runnable.Contents(), blocked.Contents(), current, idle, ticks, procs, Clock(seconds, millis))
    }

    constructor (idleProcess: Pid)
      ensures Lists() && View() == Boot(idleProcess)
    {
      var r := new List<Pid>();
      var b := new List<Pid>();
      runnable, blocked, idle := r, b, idleProcess;
      current, ticks, procs, seconds, millis := None, 0, map[idleProcess := FRESH], 0, 0;
    }

    /** `add_process` */
    method AddProcess(p: Pid)
      requires Lists()
      modifies this`procs, runnable, runnable.nodes
      ensures Lists() && View() == Add(old(View()), p)
    {
      procs := procs[p := FRESH];
      runnable.Append(p);
    }

    lemma RunnableHead()
      requires runnable.Valid()
      ensures runnable.size == |runnable.Contents()|
      ensures runnable.size != 0 ==> runnable.head != null && runnable.head.val == runnable.Contents()[0]
    {
    }

    /** Both lists after taking a process off the runnable one. */
    method RemoveRunnable(p: Pid)
      requires Lists() && p in runnable.Contents()
      modifies runnable, runnable.nodes
      ensures Lists() && blocked.Contents() == old(blocked.Contents())
      ensures runnable.Contents() == Remove(old(runnable.Contents()), p)
    {
      hide Distinct;
      var removed := runnable.Remove(p);
      assert removed;
      forall i, j | 0 <= i < |runnable.nodes| && 0 <= j < |blocked.nodes|
        ensures runnable.nodes[i] != blocked.nodes[j]
      {
        assert runnable.nodes[i] in old(runnable.nodes);
      }
    }

    /** `pick_next_and_switch`; both of its assertions and the one in `pick_next` are proved. */
    method PickNextAndSwitch()
      requires Lists() && Inv(View().(current := None))
      modifies this`procs, this`current, this`ticks, runnable, runnable.nodes
      ensures Lists() && Next(View()) == Pick(old(View()))
    {
      hide Inv, Distinct, List.Valid, List.Contents, Remove, RemoveAt;
      PickKeeps(View());
      RunnableHead();
      var chosen := idle;
      if runnable.size != 0 {
        chosen := runnable.head.val;
        assert chosen in procs && procs[chosen].state == Runnable;
        RemoveRunnable(chosen);
      }
      procs := procs[chosen := procs[chosen].(state := Running)];
      current, ticks := Some(chosen), 0;
    }

    /** `get_process`: the process is found exactly when it is in one of the two lists. */
    method GetProcess(p: Pid) returns (found: bool)
      requires Lists()
      ensures found == Listed(View(), p)
    {
      var n := runnable.Find(p);
      if n != null {
        return true;
      }
      n := blocked.Find(p);
      found := n != null;
    }

    /** Both lists after taking a process off the blocked one. */
    method RemoveBlocked(p: Pid)
      requires Lists() && p in blocked.Contents()
      modifies blocked, blocked.nodes
      ensures Lists() && runnable.Contents() == old(runnable.Contents())
      ensures blocked.Contents() == Remove(old(blocked.Contents()), p)
      ensures blocked.nodes == RemoveAt(old(blocked.nodes), IndexOf(old(blocked.Contents()), p))
    {
      hide Distinct;
      var removed := blocked.Remove(p);
      forall i, j | 0 <= i < |runnable.nodes| && 0 <= j < |blocked.nodes|
        ensures runnable.nodes[i] != blocked.nodes[j]
      {
        assert blocked.nodes[j] in old(blocked.nodes);
      }
    }

    /** Both lists after putting a process at the end of the runnable one. */
    method AppendRunnable(p: Pid)
      requires Lists()
      modifies runnable, runnable.nodes
      ensures Lists() && runnable.Contents() == old(runnable.Contents()) + [p]
      ensures blocked.Contents() == old(blocked.Contents()) && blocked.nodes == old(blocked.nodes)
      ensures forall k :: 0 <= k < |runnable.nodes| ==> runnable.nodes[k] in old(runnable.nodes) || fresh(runnable.nodes[k])
    {
      hide Distinct;
      runnable.Append(p);
    }

    /** Both lists after putting a process at the end of the blocked one. */
    method AppendBlocked(p: Pid)
      requires Lists()
      modifies blocked, blocked.nodes
      ensures Lists() && blocked.Contents() == old(blocked.Contents()) + [p]
      ensures runnable.Contents() == old(runnable.Contents()) && runnable.nodes == old(runnable.nodes)
    {
      hide Distinct;
      blocked.Append(p);
    }

    /** The body of the loop of `try_unblock_tasks` for a process that may go on. */
    method WakeUp(p: Pid)
      requires Lists() && p in procs && p in blocked.Contents()
      modifies this`procs, runnable, runnable.nodes, blocked, blocked.nodes
      ensures Lists() && View() == Wake(old(View()), p)
      ensures blocked.Contents() == Remove(old(blocked.Contents()), p)
      ensures forall k :: 0 <= k < |runnable.nodes| ==> runnable.nodes[k] in old(runnable.nodes) || fresh(runnable.nodes[k])
      ensures blocked.nodes == RemoveAt(old(blocked.nodes), IndexOf(old(blocked.Contents()), p))
      ensures forall k :: 0 <= k < |blocked.nodes| ==> blocked.nodes[k] in old(blocked.nodes)
    {
      hide Distinct, List.Valid, List.Contents, Remove, RemoveAt, IndexOf, Values;
      procs := procs[p := procs[p].(state := Runnable, blocker := None)];
      RemoveAtWithin(blocked.nodes, IndexOf(blocked.Contents(), p));
      RemoveBlocked(p);
      AppendRunnable(p);
    }

    /**
     * `PendingInputBlocker::can_unblock`, with the reason and the index it reports. The caller's assertion that
     * the index names one of its files holds exactly when it passed at least one file.
     */
    method AskInput(p: Pid, files: seq<File>, ready: set<File>) returns (a: Answer, fd: nat, byMessage: bool)
      requires Lists()
      ensures a == CanUnblock(View(), Input(p, files), ready)
      ensures a == Says(true) ==> byMessage == (procs[p].queue != []) && (fd < |files| <==> files != [])
      ensures a == Says(true) && !byMessage ==> files[fd] in ready && forall k :: 0 <= k < fd ==> files[k] !in ready
    {
      fd, byMessage := 0, false;
      var found := GetProcess(p);
      if !found || p !in procs {
        return Faults(NoSuchProcess), fd, byMessage;
      }
      if procs[p].queue != [] {
        return Says(true), 0, true;
      }
      while fd < |files|
        invariant fd <= |files| && forall k :: 0 <= k < fd ==> files[k] !in ready
      {
        if files[fd] in ready {
          return Says(true), fd, false;
        }
        fd := fd + 1;
      }
      a := Says(false);
    }

    /** `can_unblock` of any blocker. */
    method AskBlocker(b: Blocker, ready: set<File>) returns (a: Answer)
      requires Lists()
      ensures a == CanUnblock(View(), b, ready)
    {
      match b {
        case Sleep(until) =>
          a := match CanWake(Clock(seconds, millis), until)
               case Yes => Says(true) case No => Says(false) case Fails => Faults(SleptTooLong);
        case Wait(finished) => a := Says(finished);
        case Message(p) =>
          var found := GetProcess(p);
          a := if found && p in procs then Says(procs[p].queue != []) else Faults(NoSuchProcess);
        case Input(p, files) =>
          var fd, byMessage;
          a, fd, byMessage := AskInput(p, files, ready);
        case Readable(f) => a := Says(f in ready);
      }
    }

    /** One round of the loop of `try_unblock_tasks`, with the successor read before the node is removed. */
    method Visit(node: Node<Pid>, ready: set<File>, ghost i: nat) returns (ok: bool, next: Node?<Pid>, ghost i': nat)
      requires Lists() && Inv(View()) && i < |blocked.nodes| && node == blocked.nodes[i]
      modifies this`procs, runnable, runnable.nodes, blocked, blocked.nodes
      ensures Lists()
      ensures forall k :: 0 <= k < |runnable.nodes| ==> runnable.nodes[k] in old(runnable.nodes) || fresh(runnable.nodes[k])
      ensures forall k :: 0 <= k < |blocked.nodes| ==> blocked.nodes[k] in old(blocked.nodes)
      ensures var rest := old(blocked.Contents()[i..]);
              if ok then
                && Inv(View()) && i' <= |blocked.nodes| && next == At(blocked.nodes, i')
                && |blocked.nodes| - i' < |old(blocked.nodes)| - i
                && Unblock(View(), blocked.Contents()[i'..], ready) == Unblock(old(View()), rest, ready)
              else Unblock(old(View()), rest, ready) == Failed(SleptTooLong)
    {
      hide Inv, Overslept, CanUnblock, Wake, List.Valid, List.Contents, Distinct, Unblock, Remove, RemoveAt, Values, IndexOf;
      i' := i + 1;
      NextOf(i);
      next := node.next;
      var p := node.val;
      ghost var v, list := View(), blocked.Contents();
      assert list[i..] == [p] + list[i + 1..];
      UnblockStep(v, list[i..], ready, p, list[i + 1..]);
      assert procs[p].state == Blocked && procs[p].blocker.Some?;
      var a := AskBlocker(procs[p].blocker.value, ready);
      ok := a.Says?;
      if a == Says(true) {
        WakeKeeps(v, p, ready);
        BlockedDistinct(v);
        TailAfterRemove(list, i);
        AtRemoved(blocked.nodes, i, i);
        WakeUp(p);
        i' := i;
      }
    }

    /**
     * `try_unblock_tasks`; `ok` is false when the assertion of a sleeper fails, the assertions on state and
     * blocker are proved.
     */
    method TryUnblockTasks(ready: set<File>) returns (ok: bool)
      requires Lists() && Inv(View())
      modifies this`procs, runnable, runnable.nodes, blocked, blocked.nodes
      ensures Lists()
      ensures forall k :: 0 <= k < |runnable.nodes| ==> runnable.nodes[k] in old(runnable.nodes) || fresh(runnable.nodes[k])
      ensures var r := Unblock(old(View()), old(View()).blocked, ready);
              if ok then Next(View()) == r && Inv(View()) else r == Failed(SleptTooLong)
    {
      hide Inv, Overslept, CanUnblock, Wake, List.Valid;
      ghost var goal := Unblock(View(), View().blocked, ready);
      var node := blocked.head;
      ghost var i := 0;
      assert blocked.Contents()[0..] == blocked.Contents();
      HeadOf();
      while node != null
        invariant Lists() && Inv(View())
        invariant forall k :: 0 <= k < |runnable.nodes| ==> runnable.nodes[k] in old(runnable.nodes) || fresh(runnable.nodes[k])
        invariant forall k :: 0 <= k < |blocked.nodes| ==> blocked.nodes[k] in old(blocked.nodes)
        invariant 0 <= i <= |blocked.nodes| && node == At(blocked.nodes, i)
        invariant Unblock(View(), blocked.Contents()[i..], ready) == goal
        decreases |blocked.nodes| - i
      {
        ok, node, i := Visit(node, ready, i);
        if !ok {
          return;
        }
      }
      assert blocked.Contents()[i..] == [];
      ok := true;
    }

    lemma HeadOf()
      requires blocked.Valid()
      ensures blocked.head == At(blocked.nodes, 0)
    {
    }

    lemma NextOf(i: nat)
      requires blocked.Valid() && i < |blocked.nodes|
      ensures blocked.nodes[i].next == At(blocked.nodes, i + 1)
      ensures blocked.nodes[i].val == blocked.Contents()[i] && blocked.Contents()[i] in View().blocked
    {
    }

    /** The counters of the timer interrupt handler. */
    method AdvanceClock()
      requires ValidClock(Clock(seconds, millis))
      modifies this`seconds, this`millis
      ensures Clock(seconds, millis) == Advance(old(Clock(seconds, millis)))
    {
      millis := millis + 1;
      if millis >= TICKS_PER_SECOND {
        seconds := seconds + 1;
        millis := 0;
      }
    }

    /** The first half of `tick`, outside a time slice: the running process goes back to the runnable list. */
    method PutBack()
      requires Lists() && Inv(View()) && !InSlice(View())
      modifies this`procs, this`current, runnable, runnable.nodes
      ensures Lists() && View() == Preempted(old(View()))
      ensures forall k :: 0 <= k < |runnable.nodes| ==> runnable.nodes[k] in old(runnable.nodes) || fresh(runnable.nodes[k])
      ensures blocked.nodes == old(blocked.nodes)
    {
      hide BlockerOk, WaiterOk, OneWaitee, List.Valid, List.Contents;
      ghost var v := View();
      assert InPlace(v, v.idle);
      if current == None {
        current := Some(idle);
      }
      var c := current.value;
      assert InPlace(v, c);
      procs := procs[c := procs[c].(state := Runnable)];
      if c != idle {
        var listed := runnable.Find(c);
        FindNothing(c);
        assert listed == null;
        AppendRunnable(c);
      } else {
        assert v.current == None ==> procs == v.procs;
      }
      current := None;
    }

    lemma FindNothing(c: Pid)
      requires runnable.Valid() && c !in runnable.Contents()
      ensures At(runnable.nodes, IndexOf(runnable.Contents(), c)) == null
    {
    }

    /** The second half of `tick`: wake who can be woken, then choose. */
    method WakeAndPick(ready: set<File>) returns (ok: bool)
      requires Lists() && Inv(View()) && current == None
      modifies this`procs, this`current, this`ticks, runnable, runnable.nodes, blocked, blocked.nodes
      ensures Lists()
      ensures var r := Reschedule(old(View()), ready);
              if ok then Next(View()) == r && Inv(View()) else r == Failed(SleptTooLong)
    {
      hide Inv, Overslept, List.Valid, List.Contents, Unblock, Pick, Distinct;
      ghost var w := View();
      BlockedNames(w);
      UnblockKeeps(w, w.blocked, ready);
      ok := TryUnblockTasks(ready);
      if ok {
        assert View().(current := None) == View();
        PickKeeps(View());
        PickNextAndSwitch();
      }
    }

    /** The timer interrupt: the counters, then `tick`. `ok` is false when the assertion of a sleeper fails. */
    method OnTimer(ready: set<File>) returns (ok: bool)
      requires Lists() && Inv(View())
      modifies this, runnable, runnable.nodes, blocked, blocked.nodes
      ensures Lists()
      ensures var r := Tick(old(View()), ready);
              if ok then Next(View()) == r && Inv(View()) else r == Failed(SleptTooLong)
    {
      hide InPlace, BlockerOk, WaiterOk, OneWaitee, Overslept, List.Valid, List.Contents, Tick, Scheduling.Reschedule;
      ghost var v := View();
      AdvanceClock();
      ghost var now := View();
      ClockKeeps(v, now.clock, v.ticks);
      TickKeeps(v, ready);
      if current.Some? && current.value != idle && ticks < TIME_SLICE {
        ticks := ticks + 1;
        return true;
      }
      TickReschedules(v, ready);
      PreemptKeeps(now);
      PutBack();
      ok := WakeAndPick(ready);
    }

    /** `block_current` */
    method BlockCurrent(b: Blocker, resume: Resume)
      requires Lists() && Inv(View()) && Acting(View()) && Allowed(View(), current.value, b, resume)
      modifies this`procs, this`current, this`ticks, runnable, runnable.nodes, blocked, blocked.nodes
      ensures Lists() && Next(View()) == Block(old(View()), b, resume) && Inv(View())
    {
      hide InPlace, BlockerOk, WaiterOk, OneWaitee, List.Valid, List.Contents, Pick;
      SetAsideKeeps(View(), b, resume);
      BlockKeeps(View(), b, resume);
      var c := current.value;
      procs := procs[c := procs[c].(state := Blocked, blocker := Some(b), resume := resume)];
      AppendBlocked(c);
      PickNextAndSwitch();
    }

    /** `terminate_current` */
    method TerminateCurrent()
      requires Lists() && Inv(View()) && Acting(View())
      modifies this`procs, this`current, this`ticks, runnable, runnable.nodes
      ensures Lists() && Next(View()) == Terminate(old(View())) && Inv(View())
    {
      hide InPlace, BlockerOk, WaiterOk, OneWaitee, List.Valid, List.Contents, Pick;
      ghost var v := View();
      DeletedKeeps(v);
      TerminateKeeps(v);
      var c := current.value;
      var w := procs[c].waiter;
      procs := procs - {c};
      if w.Some? && w.value in procs {
        procs := procs[w.value := procs[w.value].(blocker := Some(Wait(true)))];
      }
      current := None;
      assert View() == Deleted(v);
      assert View().(current := None) == View();
      PickNextAndSwitch();
    }

    /** `syscall_send_message` by the current process; the receiver must be in one of the lists. */
    method SendMessage(to: Pid, m: Msg) returns (delivered: bool)
      requires Lists() && Inv(View())
      modifies this`procs
      ensures Lists() && View() == Send(old(View()), to, m) && Inv(View())
      ensures delivered == Listed(old(View()), to)
    {
      hide InPlace, BlockerOk, WaiterOk, OneWaitee, List.Valid, List.Contents;
      SendKeeps(View(), to, m);
      delivered := GetProcess(to);
      if delivered {
        var q := procs[to];
        procs := procs[to := q.(queue := q.queue + [m])];
      }
    }

    /** `consume_message`: its first assertion, that there is a message, is proved; `ok` is false on a size mismatch. */
    method ConsumeMessage(size: nat) returns (ok: bool, m: Msg)
      requires Lists() && Inv(View()) && Acting(View()) && procs[current.value].queue != []
      modifies this`procs
      ensures Lists() && m == old(procs[current.value].queue[0])
      ensures if ok then Next(View()) == Take(old(View()), size) && Inv(View()) else Take(old(View()), size) == Failed(WrongSize)
    {
      hide InPlace, BlockerOk, WaiterOk, OneWaitee, List.Valid, List.Contents;
      TakeKeeps(View(), size);
      var q := procs[current.value];
      m := q.queue[0];
      ok := |m.bytes| == size;
      if ok {
        procs := procs[current.value := q.(queue := q.queue[1..], taken := q.taken + [m], resume := Free)];
      }
    }

    /** `syscall_get_message`: take the first message, or block until there is one. */
    method GetMessage(size: nat) returns (ok: bool)
      requires Lists() && Inv(View()) && Acting(View()) && procs[current.value].resume.Free?
      modifies this`procs, this`current, this`ticks, runnable, runnable.nodes, blocked, blocked.nodes
      ensures Lists()
      ensures if ok then Next(View()) == Receive(old(View()), size) && Inv(View())
              else Receive(old(View()), size) == Failed(WrongSize)
    {
      hide Inv, List.Valid, List.Contents, Block, Take;
      if procs[current.value].queue != [] {
        var m;
        ok, m := ConsumeMessage(size);
      } else {
        BlockCurrent(Message(current.value), Consume(size));
        ok := true;
      }
    }

    /** `syscall_block_until_pending` up to its return from the blocker. */
    method BlockUntilPending(files: seq<File>)
      requires Lists() && Inv(View()) && Acting(View()) && procs[current.value].resume.Free?
      modifies this`procs, this`current, this`ticks, runnable, runnable.nodes, blocked, blocked.nodes
      ensures Lists() && Inv(View())
      ensures Next(View()) == Block(old(View()), Input(old(current).value, files), Index(|files|))
    {
      hide Inv, List.Valid, List.Contents, Block;
      BlockCurrent(Input(current.value, files), Index(|files|));
    }

    /** The rest of it, with the index `fd` that `AskInput` reported: `ok` is false exactly when no file was given. */
    method FinishPending(fd: nat) returns (ok: bool)
      requires Lists() && Inv(View()) && Acting(View()) && procs[current.value].resume.Index?
      requires fd < procs[current.value].resume.count <==> procs[current.value].resume.count != 0
      modifies this`procs
      ensures Lists()
      ensures if ok then Next(View()) == UseIndex(old(View()), old(procs[current.value].resume.count)) && Inv(View())
              else UseIndex(old(View()), old(procs[current.value].resume.count)) == Failed(NoFile) && View() == old(View())
    {
      hide Inv, List.Valid, List.Contents;
      UseIndexKeeps(View());
      ok := fd < procs[current.value].resume.count;
      if ok {
        procs := procs[current.value := procs[current.value].(resume := Free)];
      }
    }

    /** `syscall_wait`; `ok` is false when the process already has a waiter. */
    method WaitForProcess(p: Pid) returns (ok: bool, found: bool)
      requires Lists() && Inv(View()) && Acting(View()) && procs[current.value].resume.Free?
      modifies this`procs, this`current, this`ticks, runnable, runnable.nodes, blocked, blocked.nodes
      ensures Lists() && found == Listed(old(View()), p)
      ensures if ok then Next(View()) == WaitFor(old(View()), p) && Inv(View())
              else WaitFor(old(View()), p) == Failed(SecondWaiter)
    {
      hide InPlace, BlockerOk, WaiterOk, OneWaitee, List.Valid, List.Contents, Pick;
      ghost var v := View();
      WaitKeeps(v, p);
      ok := true;
      found := GetProcess(p);
      if found {
        ok := procs[p].waiter.None?;
        if ok {
          WaitAsideKeeps(v, p);
          procs := procs[p := procs[p].(waiter := current)];
          var c := current.value;
          procs := procs[c := procs[c].(state := Blocked, blocker := Some(Wait(false)), resume := Free)];
          AppendBlocked(c);
          PickNextAndSwitch();
        }
      }
    }

    /** `sleep_ms` */
    method SleepMs(ms: nat)
      requires Lists() && Inv(View()) && Acting(View()) && procs[current.value].resume.Free?
      modifies this`procs, this`current, this`ticks, runnable, runnable.nodes, blocked, blocked.nodes
      ensures Lists() && Next(View()) == Block(old(View()), Sleep(Deadline(old(View()).clock, ms)), Free) && Inv(View())
    {
      hide Inv, List.Valid, List.Contents, Block;
      var until, leftover := seconds + ms / 1000, millis + ms % 1000;
      if leftover > 1000 {
        until, leftover := until + 1, leftover % 1000;
      }
      BlockCurrent(Sleep(Clock(until, leftover)), Free);
    }
  }
}
