/** Runs of page and directory operations across many address spaces. */
module FrameRuns {
  import opened Options
  import opened TableEntry
  import opened FrameBitmap
  import opened Paging
  import opened AddressSpaces

  /** One operation, with the frames the bitmap handed out for it. */
  datatype Op =
    | Allocate(dir: nat, page: nat, frame: nat, table: nat, writable: bool, user: bool)
    | MapPage(dir: nat, page: nat, frame: nat, table: nat, writable: bool, user: bool)
    | Deallocate(dir: nat, page: nat, freePage: bool)
    | Clone(dir: nat, newDir: nat, copyUser: bool, tables: map<nat, nat>)
    | UseSlot(entry: Entry)
    | WriteData(slot: Slot, data: Page)

  /** When an operation completes: its assertions hold, and only pages that hold a frame give one back. */
  ghost predicate Legal(s: State, op: Op) {
    Inv(s) &&
    match op
    case Allocate(d, v, f, t, _, _) =>
      f in s.avail && CanReach(s.(avail := s.avail - {f}), d, v, t) && Walk(s.mem, d, v) == None
    case MapPage(d, v, _, t, _, _) => CanReach(s, d, v, t) && Walk(s.mem, d, v) == None
    case Deallocate(d, v, freePage) =>
      d in s.dirs && v < PAGES && !Window(v / 1024) && d < PAGES && Walk(s.mem, d, v).Some?
      && (freePage ==> SlotOf(s, d, v) in s.held)
    case Clone(d, nd, copyUser, tables) => CanClone(s, d, nd, copyUser, tables)
    case UseSlot(_) => true
    case WriteData(x, _) => x in s.held
  }

  /** The state after the operation. */
  ghost function Apply(s: State, op: Op): State
    requires Legal(s, op)
  {
    match op
    case Allocate(d, v, f, t, w, u) => AllocateEffect(s, d, v, f, t, w, u); Allocated(s, d, v, f, t, w, u)
    case MapPage(d, v, f, t, w, u) => MapPageEffect(s, d, v, t, f, w, u); Mapped(s, d, v, t, f, w, u)
    case Deallocate(d, v, freePage) => DeallocateEffect(s, d, v, freePage); Deallocated(s, d, v, freePage)
    case Clone(d, nd, copyUser, tables) => ClonedKeeps(s, d, nd, copyUser, tables); Cloned(s, d, nd, copyUser, tables)
    case UseSlot(e) => s.(mem := SetEntry(s.mem, s.identity, TEMP, e))
    case WriteData(x, p) => s.(mem := s.mem[s.held[x] := p])
  }

  /** The frames the bitmap hands out during the operation. */
  ghost function Taken(s: State, op: Op): set<nat>
    requires Legal(s, op)
  {
    match op
    case Allocate(d, v, f, t, _, _) => if s.mem[d][v / 1024].Present() then {f} else {f, t}
    case MapPage(d, v, _, t, _, _) => if s.mem[d][v / 1024].Present() then {} else {t}
    case Clone(_, _, _, tables) => tables.Values
    case _ => {}
  }

  /** The operation deallocates the page table entry `x`. */
  ghost predicate Frees(s: State, op: Op, x: Slot) {
    Legal(s, op) && op.Deallocate? && SlotOf(s, op.dir, op.page) == x
  }

  /** Programs write only the frames they were given, which explain no translation. */
  lemma WriteDataKeeps(s: State, x: Slot, p: Page)
    requires Inv(s) && x in s.held
    ensures var r := s.(mem := s.mem[s.held[x] := p]);
            && Inv(r)
            && forall d, v: nat :: d in s.dirs && v < PAGES ==> d < PAGES && Walk(r.mem, d, v) == Walk(s.mem, d, v)
  {
    hide Entry.Present, Private, Walk;
    assert HeldOk(s, x);
    assert forall d :: d in s.dirs ==> DirOk(s, d);
    SpareFrame(s, s.held[x], p);
  }

  /** Every operation keeps the invariant. */
  lemma ApplyKeeps(s: State, op: Op)
    requires Legal(s, op)
    ensures Inv(Apply(s, op))
  {
    hide Inv, Cloned, CanReach, CanClone, Mapped, Allocated, Deallocated, Walk, FreshTables;
    match op
    case Allocate(d, v, f, t, w, u) => AllocateEffect(s, d, v, f, t, w, u);
    case MapPage(d, v, f, t, w, u) => MapPageEffect(s, d, v, t, f, w, u);
    case Deallocate(d, v, freePage) => DeallocateEffect(s, d, v, freePage);
    case Clone(d, nd, copyUser, tables) => ClonedKeeps(s, d, nd, copyUser, tables);
    case UseSlot(e) => SetTempSlot(s, e);
    case WriteData(x, p) => WriteDataKeeps(s, x, p);
  }

  /** Frames handed out are exactly those that were available and are not afterwards. */
  lemma TakenAreAvailable(s: State, op: Op)
    requires Legal(s, op)
    ensures Taken(s, op) == s.avail - Apply(s, op).avail
  {
  }

  /** A slot keeps its frame through every operation that does not deallocate it. */
  lemma HeldStays(s: State, op: Op, x: Slot)
    requires Legal(s, op) && x in s.held && !Frees(s, op, x)
    ensures x in Apply(s, op).held && Apply(s, op).held[x] == s.held[x]
  {
    hide Walk, Entry.Present, Filled, Private;
    if op.Allocate? {
      AllocateEffect(s, op.dir, op.page, op.frame, op.table, op.writable, op.user);
    }
  }

  /** A page table is never given back. */
  lemma TableStays(s: State, op: Op, t: nat)
    requires Legal(s, op) && t in s.owner
    ensures t in Apply(s, op).owner
  {
  }

  /** The states of a run: `trace[i + 1]` follows `trace[i]` by `ops[i]`. */
  ghost predicate Run(trace: seq<State>, ops: seq<Op>) {
    && |trace| == |ops| + 1
    && forall i :: 0 <= i < |ops| ==> Legal(trace[i], ops[i]) && trace[i + 1] == Apply(trace[i], ops[i])
  }

  /** The invariant holds in every state of every run. */
  lemma {:induction false} RunKeeps(trace: seq<State>, ops: seq<Op>, i: nat)
    requires Run(trace, ops) && i <= |ops| && Inv(trace[0])
    ensures Inv(trace[i])
  {
    hide Legal, Apply, Inv;
    if i > 0 {
      RunKeeps(trace, ops, i - 1);
      assert trace[i - 1 + 1] == Apply(trace[i - 1], ops[i - 1]);
      ApplyKeeps(trace[i - 1], ops[i - 1]);
    }
  }

  /** Nothing deallocates the entry `x` between steps `i` and `j`. */
  ghost predicate KeptBetween(trace: seq<State>, ops: seq<Op>, x: Slot, i: nat, j: nat)
    requires Run(trace, ops) && i <= j <= |ops|
  {
    forall k :: i <= k < j ==> !Frees(trace[k], ops[k], x)
  }

  lemma {:induction false} HeldUntil(trace: seq<State>, ops: seq<Op>, x: Slot, i: nat, j: nat)
    requires Run(trace, ops) && i <= j <= |ops| && Inv(trace[0])
    requires x in trace[i].held && KeptBetween(trace, ops, x, i, j)
    ensures x in trace[j].held && trace[j].held[x] == trace[i].held[x]
    decreases j
  {
    hide Legal, Apply, Frees, Inv;
    if i < j {
      HeldUntil(trace, ops, x, i, j - 1);
      assert trace[j - 1 + 1] == Apply(trace[j - 1], ops[j - 1]);
      HeldStays(trace[j - 1], ops[j - 1], x);
    }
  }

  /**
   * No frame is handed out again before the page holding it is deallocated: over any run, in any address
   * space, as an allocated page, as a page table, or as a table of a cloned directory.
   */
  lemma NeverHandedOutTwice(trace: seq<State>, ops: seq<Op>, x: Slot, i: nat, j: nat)
    requires Run(trace, ops) && i <= j < |ops| && Inv(trace[0])
    requires x in trace[i].held && KeptBetween(trace, ops, x, i, j)
    ensures trace[i].held[x] !in trace[j].avail
    ensures trace[i].held[x] !in Taken(trace[j], ops[j])
  {
    hide Legal, Apply, Frees, Taken;
    HeldUntil(trace, ops, x, i, j);
    RunKeeps(trace, ops, j);
    assert HeldOk(trace[j], x);
    TakenAreAvailable(trace[j], ops[j]);
  }

  lemma {:induction false} TableUntil(trace: seq<State>, ops: seq<Op>, t: nat, i: nat, j: nat)
    requires Run(trace, ops) && i <= j <= |ops| && t in trace[i].owner
    ensures t in trace[j].owner
    decreases j
  {
    hide Legal, Apply, Inv;
    if i < j {
      TableUntil(trace, ops, t, i, j - 1);
      assert trace[j - 1 + 1] == Apply(trace[j - 1], ops[j - 1]);
      TableStays(trace[j - 1], ops[j - 1], t);
    }
  }

  /** A frame that became a page table is never handed out again, nor held by a page. */
  lemma TableNeverHandedOut(trace: seq<State>, ops: seq<Op>, t: nat, i: nat, j: nat)
    requires Run(trace, ops) && i <= j < |ops| && Inv(trace[0]) && t in trace[i].owner
    ensures t !in Taken(trace[j], ops[j])
    ensures forall x :: x in trace[j].held ==> trace[j].held[x] != t
  {
    hide Legal, Apply, Taken;
    TableUntil(trace, ops, t, i, j);
    RunKeeps(trace, ops, j);
    TakenAreAvailable(trace[j], ops[j]);
    assert TableOk(trace[j], t);
    forall x | x in trace[j].held
      ensures trace[j].held[x] != t
    {
      assert HeldOk(trace[j], x);
    }
  }

  // ----- where runs start

  /** The flags the boot code gives its entries: present and writable. */
  function BootEntry(f: nat): Entry { Entry(f, 3) }

  /** The tables the boot code builds, after the manager disabled page 0 and marked its frames available. */
  ghost predicate Booted(s: State, d: nat) {
    && Full(s.mem) && 1 <= d < 1023 && 1 <= s.identity < 1023 && d != s.identity
    && s.dirs == {d} && s.owner == map[] && s.held == map[]
    && (forall i :: 0 <= i < 1024 ==> s.mem[d][i] == if Window(i) then BootEntry(s.identity) else ZERO)
    && (forall k :: 1 <= k < 1023 ==> s.mem[s.identity][k] == BootEntry(k))
    && (forall f :: f in s.avail ==> FIRST_FREE_FRAME <= f < FRAMES)
  }

  lemma BootInv(s: State, d: nat)
    requires Booted(s, d)
    ensures Inv(s)
  {
  }
}
