/**
 * The round-robin scheduler, its blockers and the message queues as a state machine. Every assertion of
 * the code is a `Fault`; the invariant shows which of them can never be reached.
 */
module Scheduling {
  import opened Options
  import opened Sequences
  import opened Timer

  type Pid = nat
  type File = nat

  const TIME_SLICE: nat := 5

  datatype RunState = Running | Runnable | Blocked
  datatype Msg = Msg(from: Pid, bytes: seq<int>)

  /** What a blocked process waits for. */
  datatype Blocker =
    | Sleep(until: Clock)
    | Wait(finished: bool)
    | Message(pid: Pid)
    | Input(pid: Pid, files: seq<File>)
    | Readable(file: File)

  /**
   * What a process does first when it runs again: nothing special, consume a message of the given size, or use the index
   * of a ready file among the given number of files.
   */
  datatype Resume = Free | Consume(size: nat) | Index(count: nat)

  /** A process; `taken` records every message it ever took from its queue. */
  datatype Proc = Proc(state: RunState, blocker: Option<Blocker>, queue: seq<Msg>, waiter: Option<Pid>,
                       resume: Resume, taken: seq<Msg>)

  datatype Sys = Sys(runnable: seq<Pid>, blocked: seq<Pid>, current: Option<Pid>, idle: Pid, ticks: nat,
                     procs: map<Pid, Proc>, clock: Clock)

  /** The assertions in the scheduler, the blockers and the message calls. */
  datatype Fault =
    | AlreadyRunnable | NotBlocked | NoBlocker | NotRemoved | HeadNotRunnable
    | NoSuchProcess | EmptyQueue | WrongSize | SecondWaiter | SleptTooLong | NoFile

  datatype Outcome = Next(sys: Sys) | Failed(fault: Fault)

  const FRESH: Proc := Proc(Runnable, None, [], None, Free, [])

  // ----- the scheduler

  function SetProc(s: Sys, p: Pid, q: Proc): Sys { s.(procs := s.procs[p := q]) }

  /** `get_process`: searches the two lists only, never the current process. */
  predicate Listed(s: Sys, p: Pid) { p in s.runnable || p in s.blocked }

  function AnyReadable(files: seq<File>, ready: set<File>): bool { exists f :: f in files && f in ready }

  /** `can_unblock` of the blocker of `p`; `ready` are the files with data. */
  function CanUnblock(s: Sys, b: Blocker, ready: set<File>): Answer {
    match b
    case Sleep(until) =>
      (match CanWake(s.clock, until) case Yes => Says(true) case No => Says(false) case Fails => Faults(SleptTooLong))
    case Wait(finished) => Says(finished)
    case Message(p) => if Listed(s, p) && p in s.procs then Says(s.procs[p].queue != []) else Faults(NoSuchProcess)
    case Input(p, files) =>
      if Listed(s, p) && p in s.procs then Says(s.procs[p].queue != [] || AnyReadable(files, ready)) else Faults(NoSuchProcess)
    case Readable(f) => Says(f in ready)
  }

  datatype Answer = Says(yes: bool) | Faults(fault: Fault)

  /** `try_unblock_tasks` over the blocked processes `ps`, in list order. */
  function Unblock(s: Sys, ps: seq<Pid>, ready: set<File>): Outcome
    decreases |ps|
  {
    if ps == [] then Next(s)
    else
      var p := ps[0];
      if p !in s.procs || s.procs[p].state != Blocked then Failed(NotBlocked)
      else if s.procs[p].blocker.None? then Failed(NoBlocker)
      else
        match CanUnblock(s, s.procs[p].blocker.value, ready)
        case Faults(f) => Failed(f)
        case Says(yes) => Unblock(if yes then Wake(s, p) else s, ps[1..], ready)
  }

  function Wake(s: Sys, p: Pid): Sys
    requires p in s.procs
  {
    SetProc(s, p, s.procs[p].(state := Runnable, blocker := None))
      .(blocked := Remove(s.blocked, p), runnable := s.runnable + [p])
  }

  /** `pick_next_and_switch` */
  function Pick(s: Sys): Outcome {
    if s.runnable == [] then
      if s.idle in s.procs then
        Next(SetProc(s, s.idle, s.procs[s.idle].(state := Running)).(current := Some(s.idle), ticks := 0))
      else Failed(NoSuchProcess)
    else
      var p := s.runnable[0];
      if p !in s.procs || s.procs[p].state != Runnable then Failed(HeadNotRunnable)
      else
        Next(SetProc(s, p, s.procs[p].(state := Running))
               .(runnable := Remove(s.runnable, p), current := Some(p), ticks := 0))
  }

  function Reschedule(s: Sys, ready: set<File>): Outcome {
    match Unblock(s, s.blocked, ready)
    case Failed(f) => Failed(f)
    case Next(t) => Pick(t)
  }

  /** The running process goes back to the runnable list, idle simply stops. */
  function Preempted(s: Sys): Sys
    requires s.current.Some? ==> s.current.value in s.procs
  {
    if s.current.None? then s
    else
      var c := s.current.value;
      SetProc(s, c, s.procs[c].(state := Runnable))
        .(runnable := if c == s.idle then s.runnable else s.runnable + [c], current := None)
  }

  /** The timer interrupt: advance the clock, then `Scheduler::tick`. */
  function Tick(s: Sys, ready: set<File>): Outcome
    requires ValidClock(s.clock)
  {
    var s := s.(clock := Advance(s.clock));
    var s := if s.current.None? then s.(current := Some(s.idle)) else s;
    var c := s.current.value;
    if c !in s.procs then Failed(NoSuchProcess)
    else if c == s.idle then Reschedule(Preempted(s), ready)
    else if s.procs[c].state != Running then Reschedule(s, ready)
    else if s.ticks < TIME_SLICE then Next(s.(ticks := s.ticks + 1))
    else if c in s.runnable then Failed(AlreadyRunnable)
    else Reschedule(Preempted(s), ready)
  }

  /** The current process joins the blocked list. */
  function SetAside(s: Sys, b: Blocker, resume: Resume): Sys
    requires s.current.Some? && s.current.value in s.procs
  {
    var c := s.current.value;
    SetProc(s, c, s.procs[c].(state := Blocked, blocker := Some(b), resume := resume)).(blocked := s.blocked + [c])
  }

  /** `block_current` */
  function Block(s: Sys, b: Blocker, resume: Resume): Outcome
    requires s.current.Some? && s.current.value in s.procs
  {
    Pick(SetAside(s, b, resume))
  }

  /** The current process is deleted; its destructor tells the waiter, if any. */
  function Deleted(s: Sys): Sys
    requires s.current.Some? && s.current.value in s.procs
  {
    var c := s.current.value;
    var w := s.procs[c].waiter;
    var t := s.(procs := s.procs - {c}, current := None);
    if w.Some? && w.value in t.procs
    then SetProc(t, w.value, t.procs[w.value].(blocker := Some(Wait(true)))) else t
  }

  /** `terminate_current` */
  function Terminate(s: Sys): Outcome
    requires s.current.Some? && s.current.value in s.procs
  {
    Pick(Deleted(s))
  }

  /** `add_process` of a new process. */
  function Add(s: Sys, p: Pid): Sys {
    SetProc(s, p, FRESH).(runnable := s.runnable + [p])
  }

  // ----- calls of the current process

  /** `syscall_send_message`: dropped when the receiver is in neither list. */
  function Send(s: Sys, to: Pid, m: Msg): Sys {
    if Listed(s, to) && to in s.procs then
      var q := s.procs[to];
      SetProc(s, to, q.(queue := q.queue + [m]))
    else s
  }

  /** `consume_message` */
  function Take(s: Sys, size: nat): Outcome
    requires s.current.Some? && s.current.value in s.procs
  {
    var c := s.current.value;
    var q := s.procs[c];
    if q.queue == [] then Failed(EmptyQueue)
    else if |q.queue[0].bytes| != size then Failed(WrongSize)
    else Next(SetProc(s, c, q.(queue := q.queue[1..], taken := q.taken + [q.queue[0]], resume := Free)))
  }

  /** `syscall_get_message`: take a message, or block until there is one. */
  function Receive(s: Sys, size: nat): Outcome
    requires s.current.Some? && s.current.value in s.procs
  {
    var c := s.current.value;
    if s.procs[c].queue != [] then Take(s, size) else Block(s, Message(c), Consume(size))
  }

  /**
   * The rest of `syscall_block_until_pending`: the index, 0 unless a file was found ready, must name one of the files.
   */
  function UseIndex(s: Sys, count: nat): Outcome
    requires s.current.Some? && s.current.value in s.procs
  {
    if count == 0 then Failed(NoFile) else Next(SetProc(s, s.current.value, s.procs[s.current.value].(resume := Free)))
  }

  /** The call that a process was blocked in goes on. */
  function GoOn(s: Sys): Outcome
    requires s.current.Some? && s.current.value in s.procs
  {
    match s.procs[s.current.value].resume
    case Free => Next(s)
    case Consume(size) => Take(s, size)
    case Index(count) => UseIndex(s, count)
  }

  /** `syscall_wait` */
  function WaitFor(s: Sys, p: Pid): Outcome
    requires s.current.Some? && s.current.value in s.procs
  {
    var c := s.current.value;
    if !Listed(s, p) || p !in s.procs then Next(s)
    else if s.procs[p].waiter.Some? then Failed(SecondWaiter)
    else Block(SetProc(s, p, s.procs[p].(waiter := Some(c))), Wait(false), Free)
  }

  datatype Event =
    | TimerTick(ready: set<File>)
    | Start(pid: Pid)
    | Exit
    | SendTo(to: Pid, bytes: seq<int>)
    | Get(size: nat)
    | Continue
    | WaitOn(pid: Pid)
    | SleepFor(ms: nat)
    | AwaitInput(files: seq<File>)
    | AwaitFile(file: File)

  /** The timer and process creation can happen at any time; the rest is done by a running process other
      than idle, which must first finish the call it was blocked in. */
  predicate Enabled(s: Sys, e: Event) {
    match e
    case TimerTick(_) => true
    case Start(p) => p !in s.procs
    case Continue => Acting(s) && !s.procs[s.current.value].resume.Free?
    case _ => Acting(s) && s.procs[s.current.value].resume.Free?
  }

  predicate Acting(s: Sys) {
    s.current.Some? && s.current.value in s.procs && s.current.value != s.idle
  }

  function Step(s: Sys, e: Event): Outcome
    requires ValidClock(s.clock) && Enabled(s, e)
  {
    match e
    case TimerTick(ready) => Tick(s, ready)
    case Start(p) => Next(Add(s, p))
    case Exit => Terminate(s)
    case SendTo(to, bytes) => Next(Send(s, to, Msg(s.current.value, bytes)))
    case Get(size) => Receive(s, size)
    case Continue => GoOn(s)
    case WaitOn(p) => WaitFor(s, p)
    case SleepFor(ms) => Block(s, Sleep(Deadline(s.clock, ms)), Free)
    case AwaitInput(files) => Block(s, Input(s.current.value, files), Index(|files|))
    case AwaitFile(f) => Block(s, Readable(f), Free)
  }
}
