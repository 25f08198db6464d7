/** What address spaces see of each other over whole runs: kernel tables for ever shared, user pages for ever private. */
module Sharing {
  import opened Options
  import opened TableEntry
  import opened FrameBitmap
  import opened Paging
  import opened AddressSpaces
  import opened FrameRuns

  // ----- sharing

  /** Writes to table entries and to data frames leave a directory alone. */
  lemma EditKeepsPde(s: State, x: Slot, e: Entry, d: nat, i: nat)
    requires Inv(s) && x.table in s.owner && x.index < 1024 && d in s.dirs && i < 1024
    ensures x.table in s.mem && d in s.mem && SetEntry(s.mem, x.table, x.index, e)[d][i] == s.mem[d][i]
  {
    TableApart(s, x.table);
    assert DirOk(s, d);
  }

  lemma EnsureKeepsPde(s: State, d: nat, i: nat, t: nat, d': nat, j: nat)
    requires Inv(s) && d in s.dirs && i < 1024 && !Window(i) && d in s.mem && (s.mem[d][i].Present() || t in s.avail)
    requires d' in s.dirs && j < 1024 && d' in s.mem && s.mem[d'][j].Present()
    ensures var u := EnsureTable(s, d, i, t); d' in u.mem && u.mem[d'][j] == s.mem[d'][j]
  {
    hide Entry.Present, Filled;
    if !s.mem[d][i].Present() { FreshTable(s, t); }
  }

  /** No operation changes a directory entry once it is present. */
  lemma PdeStays(s: State, op: Op, d: nat, i: nat)
    requires Legal(s, op) && d in s.dirs && i < 1024 && d in s.mem && s.mem[d][i].Present()
    ensures d in Apply(s, op).dirs && d in Apply(s, op).mem && Apply(s, op).mem[d][i] == s.mem[d][i]
  {
    hide Entry.Present, Filled, EnsureTable, Private, HeldOnce;
    assert DirOk(s, d);
    match op {
      case Allocate(d0, v, f, t, w, u) =>
        var s0 := s.(avail := s.avail - {f});
        MapKeepsPde(s0, d0, v, t, f, w, u, d, i);
      case MapPage(d0, v, f, t, w, u) => MapKeepsPde(s, d0, v, t, f, w, u, d, i);
      case Deallocate(d0, v, freePage) =>
        assert DirOk(s, d0);
        EditKeepsPde(s, SlotOf(s, d0, v), ZERO, d, i);
      case Clone(d0, nd, copyUser, tables) =>
        hide Cloned;
        ClonedRest(s, d0, nd, copyUser, tables);
        ClonedSame(s, d0, nd, copyUser, tables);
      case UseSlot(_) =>
      case WriteData(x, _) => assert HeldOk(s, x);
    }
  }

  lemma MapKeepsPde(s: State, d0: nat, v: nat, t: nat, f: nat, w: bool, u: bool, d: nat, i: nat)
    requires CanReach(s, d0, v, t) && Walk(s.mem, d0, v) == None && d in s.dirs && i < 1024 && d in s.mem && s.mem[d][i].Present()
    ensures var e := EnsureTable(s, d0, v / 1024, t); d0 in e.mem && SlotOf(e, d0, v).table in e.mem
    ensures var r := Mapped(s, d0, v, t, f, w, u); d in r.mem && r.mem[d][i] == s.mem[d][i] && r.dirs == s.dirs
  {
    hide Entry.Present, Filled, EnsureTable;
    MapPageEffect(s, d0, v, t, f, w, u);
    EnsureTableKeeps(s, d0, v / 1024, t);
    EnsureKeepsPde(s, d0, v / 1024, t, d, i);
    var e := EnsureTable(s, d0, v / 1024, t);
    var x := SlotOf(e, d0, v);
    assert d in e.dirs;
    EditKeepsPde(e, x, Filled(e.mem[x.table][x.index], f, true, w, u), d, i);
  }

  /** The entry is present in the directory. */
  ghost predicate HasPde(s: State, d: nat, i: nat) {
    d in s.dirs && i < 1024 && d in s.mem && s.mem[d][i].Present()
  }

  lemma {:induction false} PdeForever(trace: seq<State>, ops: seq<Op>, d: nat, x: nat, i: nat, j: nat)
    requires Run(trace, ops) && i <= j <= |ops| && HasPde(trace[i], d, x)
    ensures HasPde(trace[j], d, x) && trace[j].mem[d][x] == trace[i].mem[d][x]
    decreases j
  {
    hide Legal, Apply, Entry.Present;
    if i < j {
      PdeForever(trace, ops, d, x, i, j - 1);
      assert trace[j - 1 + 1] == Apply(trace[j - 1], ops[j - 1]);
      PdeStays(trace[j - 1], ops[j - 1], d, x);
    }
  }

  /** Directories that share a table share it for ever: over any run they translate its pages alike. */
  lemma SharedForever(trace: seq<State>, ops: seq<Op>, d: nat, e: nat, v: nat, i: nat, j: nat)
    requires Run(trace, ops) && i <= j <= |ops| && Inv(trace[0]) && v < PAGES
    requires HasPde(trace[i], d, v / 1024) && HasPde(trace[i], e, v / 1024)
    requires trace[i].mem[d][v / 1024] == trace[i].mem[e][v / 1024]
    ensures Full(trace[j].mem) && d < PAGES && e < PAGES
    ensures Walk(trace[j].mem, d, v) == Walk(trace[j].mem, e, v)
  {
    hide Legal, Apply, Entry.Present;
    RunKeeps(trace, ops, j);
    PdeForever(trace, ops, d, v / 1024, i, j);
    PdeForever(trace, ops, e, v / 1024, i, j);
    assert DirOk(trace[j], d) && DirOk(trace[j], e);
    SharedTableSeenByBoth(trace[j].mem, d, e, v);
  }

  /**
   * A clone and its original translate every page alike for ever whose table is not copied and existed when the clone was
   * made: all edits of kernel pages, through either directory or any third one, are seen by both.
   */
  lemma KernelEditsShared(trace: seq<State>, ops: seq<Op>, v: nat, i: nat, j: nat)
    requires Run(trace, ops) && i < j <= |ops| && Inv(trace[0]) && v < PAGES
    requires ops[i].Clone? && !UserIndex(v / 1024) && HasPde(trace[i], ops[i].dir, v / 1024)
    ensures var d, nd := ops[i].dir, ops[i].newDir;
            && Full(trace[j].mem) && d < PAGES && nd < PAGES
            && Walk(trace[j].mem, d, v) == Walk(trace[j].mem, nd, v)
  {
    hide Entry.Present;
    RunStep(trace, ops, i);
    CloneShares(trace[i], ops[i].dir, ops[i].newDir, ops[i].copyUser, ops[i].tables, v / 1024);
    SharedForever(trace, ops, ops[i].dir, ops[i].newDir, v, i + 1, j);
  }

  lemma RunStep(trace: seq<State>, ops: seq<Op>, i: nat)
    requires Run(trace, ops) && i < |ops|
    ensures Legal(trace[i], ops[i]) && trace[i + 1] == Apply(trace[i], ops[i])
  {
  }

  lemma CloneShares(s: State, d: nat, nd: nat, copyUser: bool, tables: map<nat, nat>, i: nat)
    requires CanClone(s, d, nd, copyUser, tables) && !UserIndex(i) && HasPde(s, d, i)
    ensures forall j :: j in tables ==> s.mem[d][j].frame < PAGES
    ensures var r := Cloned(s, d, nd, copyUser, tables);
            HasPde(r, d, i) && HasPde(r, nd, i) && r.mem[d][i] == r.mem[nd][i]
  {
    hide Entry.Present, Cloned, ClonedDir, FreshTables;
    ClonedSame(s, d, nd, copyUser, tables);
    ClonedRest(s, d, nd, copyUser, tables);
    NewDirEntry(s, d, nd, copyUser, tables, i);
  }

  // ----- isolation

  /** The operation edits page `v` through the directory `e`. */
  predicate Edits(op: Op, e: nat, v: nat) {
    (op.Allocate? || op.MapPage? || op.Deallocate?) && op.dir == e && op.page == v
  }

  /** The operation edits another page, or edits the page in private memory through another directory, or no page at all. */
  predicate CannotSee(op: Op, e: nat, v: nat) {
    (op.Allocate? || op.MapPage? || op.Deallocate?) ==> op.page != v || (op.dir != e && UserIndex(v / 1024))
  }

  /** What a directory sees changes only by editing that very page, in private memory only through that directory. */
  lemma UnseenStep(s: State, op: Op, e: nat, v: nat)
    requires Legal(s, op) && e in s.dirs && v < PAGES && !Window(v / 1024) && CannotSee(op, e, v)
    ensures e in Apply(s, op).dirs && e < PAGES && Full(s.mem) && Full(Apply(s, op).mem)
    ensures Walk(Apply(s, op).mem, e, v) == Walk(s.mem, e, v)
  {
    hide Entry.Present, Filled, EnsureTable, Private, HeldOnce, Walk;
    ApplyKeeps(s, op);
    assert DirOk(s, e);
    match op {
      case Allocate(d, p, f, t, w, u) =>
        var s0 := s.(avail := s.avail - {f});
        MapPageEffect(s0, d, p, t, f, w, u);
        MapPageElsewhere(s0, d, p, t, f, w, u, e, v);
        AllocateEffect(s, d, p, f, t, w, u);
        assert Allocated(s, d, p, f, t, w, u).mem == Mapped(s0, d, p, t, f, w, u).mem;
      case MapPage(d, p, f, t, w, u) =>
        MapPageEffect(s, d, p, t, f, w, u);
        MapPageElsewhere(s, d, p, t, f, w, u, e, v);
      case Deallocate(d, p, freePage) =>
        DeallocateEffect(s, d, p, freePage);
        DeallocateElsewhere(s, d, p, freePage, e, v);
      case Clone(d, nd, copyUser, tables) =>
        hide Cloned;
        ClonedRest(s, d, nd, copyUser, tables);
        OriginalWalk(s, d, nd, copyUser, tables, e, v);
      case UseSlot(en) => SetTempSlot(s, en);
      case WriteData(x, p) => WriteDataKeeps(s, x, p);
    }
  }

  /** Isolation over any run: nothing but edits of that page through that directory changes a private translation. */
  lemma {:induction false} PrivateForever(trace: seq<State>, ops: seq<Op>, e: nat, v: nat, i: nat, j: nat)
    requires Run(trace, ops) && i <= j <= |ops| && Inv(trace[0])
    requires e in trace[i].dirs && v < PAGES && UserIndex(v / 1024)
    requires forall k :: i <= k < j ==> !Edits(ops[k], e, v)
    ensures e in trace[j].dirs && e < PAGES && Full(trace[i].mem) && Full(trace[j].mem)
    ensures Walk(trace[j].mem, e, v) == Walk(trace[i].mem, e, v)
    decreases j
  {
    hide Legal, Apply, Walk, Inv;
    RunKeeps(trace, ops, i);
    DirOnMachine(trace[i], e);
    if i < j {
      PrivateForever(trace, ops, e, v, i, j - 1);
      RunStep(trace, ops, j - 1);
      UnseenStep(trace[j - 1], ops[j - 1], e, v);
    }
  }

  lemma DirOnMachine(s: State, d: nat)
    requires Inv(s) && d in s.dirs
    ensures d < PAGES && Full(s.mem)
  {
    assert DirOk(s, d);
  }

  /**
   * Copied user pages: both directories translate the page as the original did when it was cloned, each until its own
   * first edit of that page, whatever is done through the other one.
   */
  lemma CopiesArePrivate(trace: seq<State>, ops: seq<Op>, v: nat, i: nat, j: nat)
    requires Run(trace, ops) && i < j <= |ops| && Inv(trace[0]) && v < PAGES && UserIndex(v / 1024)
    requires ops[i].Clone? && ops[i].copyUser
    ensures var d, nd := ops[i].dir, ops[i].newDir;
            && Full(trace[i].mem) && Full(trace[j].mem) && d < PAGES && nd < PAGES
            && ((forall k :: i < k < j ==> !Edits(ops[k], d, v)) ==> Walk(trace[j].mem, d, v) == Walk(trace[i].mem, d, v))
            && ((forall k :: i < k < j ==> !Edits(ops[k], nd, v)) ==> Walk(trace[j].mem, nd, v) == Walk(trace[i].mem, d, v))
  {
    hide Walk, Inv, Cloned;
    var op := ops[i];
    var d, nd := op.dir, op.newDir;
    RunStep(trace, ops, i);
    RunKeeps(trace, ops, i);
    RunKeeps(trace, ops, j);
    DirOnMachine(trace[i], d);
    ClonedRest(trace[i], d, nd, op.copyUser, op.tables);
    ClonedWalk(trace[i], d, nd, op.copyUser, op.tables, v);
    OriginalWalk(trace[i], d, nd, op.copyUser, op.tables, d, v);
    if forall k :: i < k < j ==> !Edits(ops[k], d, v) { PrivateForever(trace, ops, d, v, i + 1, j); }
    if forall k :: i < k < j ==> !Edits(ops[k], nd, v) { PrivateForever(trace, ops, nd, v, i + 1, j); }
    FullAfter(trace[j]);
  }

  lemma FullAfter(s: State)
    requires Inv(s)
    ensures Full(s.mem)
  {
  }
}
