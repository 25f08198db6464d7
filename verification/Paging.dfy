/**
 * Two-level page tables in physical memory, seen as one flat map from virtual pages to entries for each
 * page directory. Pages and frames are numbered; entry `v / 1024` of the directory leads to the table
 * whose entry `v % 1024` maps virtual page `v`.
 */
module Paging {
  import opened Options
  import opened TableEntry
  import opened FrameBitmap

  type Page = p: seq<Entry> | |p| == 1024 witness seq(1024, _ => ZERO)

  /** Physical memory, one page of 1024 entries per frame. */
  type Phys = map<nat, Page>

  /** Directory entries 0 and 768 share the identity table. */
  const ALIAS: nat := 768
  /** The last page of the identity window: the slot through which tables are reached. */
  const TEMP: nat := 1023

  predicate Window(i: nat) { i == 0 || i == ALIAS }

  ghost predicate Full(m: Phys) { forall f: nat :: f < PAGES ==> f in m }

  /** What a translation gives: the frame, whether it may be written, and whether user programs may use it. */
  datatype Access = Access(frame: nat, writable: bool, user: bool)

  /** A right needs both entries of the translation (section 4.6 of the Intel SDM, volume 3A). */
  function Granted(pde: Entry, pte: Entry): Access {
    Access(pte.frame, pde.Writable() && pte.Writable(), pde.User() && pte.User())
  }

  /** What the processor does with a virtual page under directory `d`. */
  function Walk(m: Phys, d: nat, v: nat): Option<Access>
    requires Full(m) && d < PAGES && v < PAGES
  {
    var pde := m[d][v / 1024];
    if !pde.Present() || pde.frame >= PAGES then None
    else
      var pte := m[pde.frame][v % 1024];
      if pte.Present() then Some(Granted(pde, pte)) else None
  }

  function SetEntry(m: Phys, f: nat, k: nat, e: Entry): Phys
    requires f in m && k < 1024
  {
    m[f := m[f][k := e]]
  }

  /** A page table entry by its place: table frame and index. */
  datatype Slot = Slot(table: nat, index: nat)

  /**
   * Memory with the bookkeeping that explains it: the directories, the identity table, the directory index
   * each table serves, the available frames, and which slots hold a frame they were allocated.
   */
  datatype State = State(mem: Phys, dirs: set<nat>, identity: nat, owner: map<nat, nat>, avail: set<nat>,
                         held: map<Slot, nat>)

  ghost predicate DirOk(s: State, d: nat)
    requires Full(s.mem)
  {
    && 1 <= d < 1023 && d != s.identity
    && s.mem[d][0].Present() && s.mem[d][0].frame == s.identity && s.mem[d][0].System()
    && s.mem[d][ALIAS].Present() && s.mem[d][ALIAS].frame == s.identity && s.mem[d][ALIAS].System()
    && forall i :: 0 <= i < 1024 && !Window(i) && s.mem[d][i].Present() ==>
         s.mem[d][i].frame in s.owner && s.owner[s.mem[d][i].frame] == i && s.mem[d][i].Open()
  }

  ghost predicate IdentityOk(s: State)
    requires Full(s.mem)
  {
    1 <= s.identity < 1023
    && forall k :: 1 <= k < 1023 ==> s.mem[s.identity][k].Present() && s.mem[s.identity][k].Writable() && s.mem[s.identity][k].frame == k
  }

  ghost predicate TableOk(s: State, t: nat)
    requires t in s.owner
  {
    1024 <= t < PAGES && t !in s.avail && s.owner[t] < 1024 && !Window(s.owner[t])
  }

  /** A held frame is out of the bitmap, is no table, and is mapped by the slot that holds it. */
  ghost predicate HeldOk(s: State, x: Slot)
    requires Full(s.mem) && x in s.held
  {
    var f := s.held[x];
    && x.table in s.owner && x.table < PAGES && x.index < 1024
    && s.mem[x.table][x.index].Present() && s.mem[x.table][x.index].frame == f
    && f !in s.avail && f !in s.owner && FIRST_FREE_FRAME <= f < FRAMES
  }

  /** No two slots hold the same frame. */
  ghost predicate HeldOnce(s: State) {
    forall x, y :: x in s.held && y in s.held && x != y ==> s.held[x] != s.held[y]
  }

  /** Directory indices from 2 up to the kernel are private: no table serves two directories there. */
  ghost predicate Private(s: State)
    requires Full(s.mem)
  {
    forall d, e, i :: d in s.dirs && e in s.dirs && d != e && 2 <= i < ALIAS && d < PAGES && e < PAGES
                      && s.mem[d][i].Present() && s.mem[e][i].Present()
                      ==> s.mem[d][i].frame != s.mem[e][i].frame
  }

  ghost predicate Inv(s: State) {
    && Full(s.mem) && IdentityOk(s)
    && (forall d :: d in s.dirs ==> DirOk(s, d))
    && (forall t :: t in s.owner ==> TableOk(s, t))
    && (forall f :: f in s.avail ==> FIRST_FREE_FRAME <= f < FRAMES)
    && (forall x :: x in s.held ==> HeldOk(s, x))
    && HeldOnce(s) && Private(s)
  }

  // ----- writing one page table entry

  /** Writing an entry of a table that serves some index changes exactly the pages mapped through it. */
  lemma SetTableEntry(s: State, t: nat, k: nat, e: Entry, d: nat, v: nat)
    requires Inv(s) && t in s.owner && k < 1024 && d in s.dirs && v < PAGES && !Window(v / 1024)
    ensures d < PAGES && t in s.mem && Full(SetEntry(s.mem, t, k, e))
    ensures Walk(SetEntry(s.mem, t, k, e), d, v)
            == if s.mem[d][v / 1024].Present() && s.mem[d][v / 1024].frame == t && v % 1024 == k
               then (if e.Present() then Some(Granted(s.mem[d][v / 1024], e)) else None) else Walk(s.mem, d, v)
  {
  }

  /** The temporary slot explains no page outside the identity window and its alias. */
  lemma SetTempSlot(s: State, e: Entry)
    requires Inv(s)
    ensures s.identity in s.mem
    ensures var t := s.(mem := SetEntry(s.mem, s.identity, TEMP, e));
            && Inv(t)
            && forall d, v: nat :: d in s.dirs && v < PAGES && !Window(v / 1024) ==>
                 d < PAGES && Walk(t.mem, d, v) == Walk(s.mem, d, v)
  {
    hide Walk, Inv;
    SetIdentityEntry(s, TEMP, e);
  }

  /** Neither do page 0 and the slot matter for the invariant. */
  lemma SetIdentityEntry(s: State, k: nat, e: Entry)
    requires Inv(s) && (k == 0 || k == TEMP)
    ensures s.identity in s.mem
    ensures var t := s.(mem := SetEntry(s.mem, s.identity, k, e));
            && Inv(t)
            && forall d, v: nat :: d in s.dirs && v < PAGES && !Window(v / 1024) ==>
                 d < PAGES && Walk(t.mem, d, v) == Walk(s.mem, d, v)
  {
    hide Entry.Present;
    var t := s.(mem := SetEntry(s.mem, s.identity, k, e));
    forall d | d in t.dirs
      ensures DirOk(t, d)
    {
      assert DirOk(s, d);
    }
    forall x | x in t.held
      ensures HeldOk(t, x)
    {
      assert HeldOk(s, x) && TableOk(s, x.table);
    }
    forall t0 | t0 in t.owner
      ensures TableOk(t, t0)
    {
      assert TableOk(s, t0);
    }
    forall d, v: nat | d in s.dirs && v < PAGES && !Window(v / 1024)
      ensures d < PAGES && Walk(t.mem, d, v) == Walk(s.mem, d, v)
    {
      assert DirOk(s, d);
      if s.mem[d][v / 1024].Present() { assert TableOk(s, s.mem[d][v / 1024].frame); }
    }
  }

  /** The contents of a frame that is neither directory nor table explain no translation. */
  lemma SpareFrame(s: State, f: nat, p: Page)
    requires Inv(s) && f !in s.dirs && f != s.identity && f !in s.owner
    ensures var r := s.(mem := s.mem[f := p]);
            && Inv(r)
            && forall d, v: nat :: d in s.dirs && v < PAGES ==> d < PAGES && Walk(r.mem, d, v) == Walk(s.mem, d, v)
  {
  }

  /** A frame that nobody uses may become available. */
  lemma MoreFrames(s: State, f: nat)
    requires Inv(s) && FIRST_FREE_FRAME <= f < FRAMES && s.owner == map[] && s.held == map[]
    ensures Inv(s.(avail := s.avail + {f}))
  {
    hide Entry.Present;
    var t := s.(avail := s.avail + {f});
    assert forall d :: d in s.dirs ==> DirOk(s, d) && DirOk(t, d);
  }

  // ----- creating a table

  function ZeroPage(): Page { seq(1024, _ => ZERO) }

  /** `ensure_pte`: the directory entry gets a fresh, zeroed table when it had none. */
  function EnsureTable(s: State, d: nat, i: nat, t: nat): State
    requires d in s.mem && i < 1024
  {
    if s.mem[d][i].Present() then s
    else
      var m := SetEntry(s.mem, d, i, Filled(s.mem[d][i], t, true, true, true));
      State(m[t := ZeroPage()], s.dirs, s.identity, s.owner[t := i], s.avail - {t}, s.held)
  }

  lemma ZeroNotPresent()
    ensures !ZERO.Present()
  {
  }

  /** The fresh table serves no directory yet and holds nothing. */
  lemma FreshTable(s: State, t: nat)
    requires Inv(s) && t in s.avail
    ensures t !in s.owner && t !in s.dirs && t != s.identity && FIRST_FREE_FRAME <= t < PAGES
    ensures forall x :: x in s.held ==> x.table != t && s.held[x] != t
    ensures forall d, i :: d in s.dirs && 0 <= i < 1024 && !Window(i) && s.mem[d][i].Present() ==> s.mem[d][i].frame != t
  {
  }

  /** A new table leaves the rights to its entries. */
  lemma FilledOpen(e: Entry, t: nat)
    ensures Filled(e, t, true, true, true).Open()
  {
  }

  /** Directory `x` changes only if it is `d`, and then only in the entry now linked to the fresh table. */
  ghost predicate OnlyLinked(s: State, u: State, d: nat, i: nat, t: nat, x: nat)
    requires i < 1024
  {
    && x < PAGES && x in s.mem && x in u.mem && d in u.mem
    && (forall j :: 0 <= j < 1024 && (x != d || j != i) ==> u.mem[x][j] == s.mem[x][j])
    && u.mem[d][i].Present() && u.mem[d][i].frame == t && u.mem[d][i].Open()
    && (forall j :: 0 <= j < 1024 && !Window(j) && s.mem[x][j].Present() ==> s.mem[x][j].frame != t)
  }

  lemma EnsureTableDir(s: State, d: nat, i: nat, t: nat, x: nat)
    requires Inv(s) && d in s.dirs && i < 1024 && !Window(i) && x in s.dirs
    requires d in s.mem && !s.mem[d][i].Present() && t in s.avail
    ensures OnlyLinked(s, EnsureTable(s, d, i, t), d, i, t, x)
  {
    hide Entry.Present, Entry.Open, Filled, Private, HeldOnce;
    FilledOpen(s.mem[d][i], t);
    FreshTable(s, t);
    assert DirOk(s, x) && DirOk(s, d);
  }

  lemma EnsureTablePrivate(s: State, d: nat, i: nat, t: nat)
    requires Inv(s) && d in s.dirs && i < 1024 && !Window(i)
    requires d in s.mem && !s.mem[d][i].Present() && t in s.avail
    ensures Full(EnsureTable(s, d, i, t).mem) && Private(EnsureTable(s, d, i, t))
  {
    hide Entry.Present, EnsureTable, DirOk, HeldOnce;
    EnsureTableShape(s, d, i, t);
    forall x | x in s.dirs
      ensures OnlyLinked(s, EnsureTable(s, d, i, t), d, i, t, x)
    {
      EnsureTableDir(s, d, i, t, x);
    }
  }

  lemma EnsureTableShape(s: State, d: nat, i: nat, t: nat)
    requires Inv(s) && d in s.dirs && i < 1024 && d in s.mem && !s.mem[d][i].Present() && t in s.avail
    ensures var u := EnsureTable(s, d, i, t);
            Full(u.mem) && u.dirs == s.dirs && u.identity == s.identity && u.owner == s.owner[t := i] && t !in s.owner
  {
  }

  lemma EnsureTableDirs(s: State, d: nat, i: nat, t: nat)
    requires Inv(s) && d in s.dirs && i < 1024 && !Window(i)
    requires d in s.mem && !s.mem[d][i].Present() && t in s.avail
    ensures var u := EnsureTable(s, d, i, t);
            && Full(u.mem) && u.mem[d][i].Present() && u.mem[d][i].frame == t
            && (forall x :: x in u.dirs ==> DirOk(u, x)) && Private(u)
  {
    hide Entry.Present, Entry.Open, Entry.System, EnsureTable, Private, HeldOnce;
    EnsureTableShape(s, d, i, t);
    EnsureTablePrivate(s, d, i, t);
    EnsureTableDir(s, d, i, t, d);
    forall x | x in s.dirs
      ensures DirOk(EnsureTable(s, d, i, t), x)
    {
      assert DirOk(s, x);
      EnsureTableDir(s, d, i, t, x);
    }
  }

  lemma EnsureTableKeeps(s: State, d: nat, i: nat, t: nat)
    requires Inv(s) && d in s.dirs && i < 1024 && !Window(i)
    requires d in s.mem && (s.mem[d][i].Present() || t in s.avail)
    ensures var u := EnsureTable(s, d, i, t);
            Inv(u) && u.mem[d][i].Present() && u.mem[d][i].frame in u.owner
  {
    hide Entry.Present, Filled, Private;
    assert DirOk(s, d);
    if !s.mem[d][i].Present() {
      FreshTable(s, t);
      EnsureTableDirs(s, d, i, t);
      var u := EnsureTable(s, d, i, t);
      forall x | x in u.owner
        ensures TableOk(u, x)
      {
        assert x != t ==> TableOk(s, x);
      }
      forall x | x in u.held
        ensures HeldOk(u, x)
      {
        assert HeldOk(s, x) && TableOk(s, x.table);
      }
    }
  }

  /** A fresh table maps nothing, so no translation changes, in any directory. */
  lemma EnsureTableWalk(s: State, d: nat, i: nat, t: nat, d': nat, v: nat)
    requires Inv(s) && d in s.dirs && i < 1024 && !Window(i)
    requires d in s.mem && (s.mem[d][i].Present() || t in s.avail)
    requires d' in s.dirs && v < PAGES && !Window(v / 1024)
    ensures d' < PAGES && Full(EnsureTable(s, d, i, t).mem)
    ensures Walk(EnsureTable(s, d, i, t).mem, d', v) == Walk(s.mem, d', v)
  {
  }

  // ----- writing page table entries

  /** The page table entry of `v` under a directory whose table exists. */
  ghost function SlotOf(s: State, d: nat, v: nat): Slot
    requires d in s.mem && v < PAGES
  {
    Slot(s.mem[d][v / 1024].frame, v % 1024)
  }

  /** Replacing an entry that no allocation holds, or that stops holding. */
  function PutEntry(s: State, x: Slot, e: Entry, held: map<Slot, nat>, avail: set<nat>): State
    requires x.table in s.mem && x.index < 1024
  {
    State(SetEntry(s.mem, x.table, x.index, e), s.dirs, s.identity, s.owner, avail, held)
  }

  /** Tables are neither directories nor the identity table. */
  lemma TableApart(s: State, t: nat)
    requires Inv(s) && t in s.owner
    ensures t !in s.dirs && t != s.identity && 1024 <= t < PAGES
  {
  }

  /** Directories, identity table and tables are as before when only a table entry changed. */
  lemma PutEntryShape(s: State, x: Slot, e: Entry, held: map<Slot, nat>, avail: set<nat>)
    requires Inv(s) && x.table in s.owner && x.index < 1024 && x.table in s.mem
    requires forall f :: f in avail ==> f !in s.owner
    ensures var u := PutEntry(s, x, e, held, avail);
            && Full(u.mem) && IdentityOk(u) && Private(u)
            && (forall d :: d in u.dirs ==> DirOk(u, d))
            && (forall t :: t in u.owner ==> TableOk(u, t))
  {
  }

  /** Any write to a table entry keeps the invariant as long as the record of held frames stays truthful. */
  lemma PutEntryKeeps(s: State, x: Slot, e: Entry, held: map<Slot, nat>, avail: set<nat>)
    requires Inv(s) && x.table in s.owner && x.index < 1024 && x.table in s.mem
    requires forall y :: y in held ==> y == x || (y in s.held && held[y] == s.held[y])
    requires x in held ==> e.Present() && e.frame == held[x] && held[x] !in s.owner && FIRST_FREE_FRAME <= held[x] < FRAMES
    requires forall y :: y in held && y != x && x in held ==> held[y] != held[x]
    requires forall f :: f in avail ==> f !in s.owner && FIRST_FREE_FRAME <= f < FRAMES
    requires forall y :: y in held ==> held[y] !in avail
    ensures Inv(PutEntry(s, x, e, held, avail))
  {
    hide Entry.Present, DirOk, IdentityOk, Private;
    PutEntryShape(s, x, e, held, avail);
    TableApart(s, x.table);
    var u := PutEntry(s, x, e, held, avail);
    forall y | y in u.held
      ensures HeldOk(u, y)
    {
      assert y != x ==> HeldOk(s, y);
    }
  }

  /** The state after `map_page` wrote the entry of `v`, with `t` as the fresh table if one was needed. */
  ghost function Mapped(s: State, d: nat, v: nat, t: nat, frame: nat, writable: bool, user: bool): State
    requires d in s.mem && v < PAGES
    requires var u := EnsureTable(s, d, v / 1024, t); d in u.mem && SlotOf(u, d, v).table in u.mem
  {
    var u := EnsureTable(s, d, v / 1024, t);
    var x := SlotOf(u, d, v);
    PutEntry(u, x, Filled(u.mem[x.table][x.index], frame, true, writable, user), u.held, u.avail)
  }

  /** The conditions under which `map_page` reaches the table of `v`. */
  ghost predicate CanReach(s: State, d: nat, v: nat, t: nat) {
    && Inv(s) && d in s.dirs && v < PAGES && !Window(v / 1024)
    && d < PAGES && (s.mem[d][v / 1024].Present() || t in s.avail)
  }

  /** The flat map: `map_page` of an unmapped page changes the translation of that page and no other. */
  lemma MapPageEffect(s: State, d: nat, v: nat, t: nat, frame: nat, writable: bool, user: bool)
    requires CanReach(s, d, v, t) && Walk(s.mem, d, v) == None
    ensures var u := EnsureTable(s, d, v / 1024, t); Inv(u) && SlotOf(u, d, v).table in u.mem
    ensures var r := Mapped(s, d, v, t, frame, writable, user);
            && Inv(r) && r.dirs == s.dirs
            && (forall v': nat :: v' < PAGES && !Window(v' / 1024) && v' != v ==> Walk(r.mem, d, v') == Walk(s.mem, d, v'))
            && Walk(r.mem, d, v) == Some(Access(frame, writable, user))
  {
    hide Entry.Present, Entry.Writable, Entry.User, Filled, Private, HeldOnce;
    EnsureTableKeeps(s, d, v / 1024, t);
    EnsureTableWalk(s, d, v / 1024, t, d, v);
    var u := EnsureTable(s, d, v / 1024, t);
    var x := SlotOf(u, d, v);
    assert TableOk(u, x.table);
    var e := Filled(u.mem[x.table][x.index], frame, true, writable, user);
    assert forall y :: y in u.held ==> HeldOk(u, y);
    assert forall y :: y in u.owner ==> TableOk(u, y);
    PutEntryKeeps(u, x, e, u.held, u.avail);
    SetTableEntry(u, x.table, x.index, e, d, v);
    forall v': nat | v' < PAGES && !Window(v' / 1024) && v' != v
      ensures Walk(Mapped(s, d, v, t, frame, writable, user).mem, d, v') == Walk(s.mem, d, v')
    {
      EnsureTableWalk(s, d, v / 1024, t, d, v');
      SetTableEntry(u, x.table, x.index, e, d, v');
      if u.mem[d][v' / 1024].Present() {
        SameTable(u, d, v, v');
      }
    }
  }

  /** Different pages of one directory never share a page table entry. */
  lemma SameTable(s: State, d: nat, v: nat, v': nat)
    requires Inv(s) && d in s.dirs && d < PAGES && v < PAGES && v' < PAGES && v != v'
    requires !Window(v / 1024) && !Window(v' / 1024)
    requires s.mem[d][v / 1024].Present() && s.mem[d][v' / 1024].Present()
    ensures !(s.mem[d][v' / 1024].frame == s.mem[d][v / 1024].frame && v' % 1024 == v % 1024)
  {
  }

  /** A directory that reaches `v` through another table, or through none, does not see the change. */
  lemma MapPageElsewhere(s: State, d: nat, v: nat, t: nat, frame: nat, writable: bool, user: bool, d': nat, v': nat)
    requires CanReach(s, d, v, t) && Walk(s.mem, d, v) == None
    requires d' in s.dirs && d' < PAGES && v' < PAGES && !Window(v' / 1024)
    requires v' != v || (d' != d && 2 <= v / 1024 < ALIAS)
    ensures var u := EnsureTable(s, d, v / 1024, t); d in u.mem && SlotOf(u, d, v).table in u.mem
    ensures Full(Mapped(s, d, v, t, frame, writable, user).mem)
    ensures Walk(Mapped(s, d, v, t, frame, writable, user).mem, d', v') == Walk(s.mem, d', v')
  {
    hide Entry.Present, Filled;
    MapPageEffect(s, d, v, t, frame, writable, user);
    var u := EnsureTable(s, d, v / 1024, t);
    var x := SlotOf(u, d, v);
    EnsureTableKeeps(s, d, v / 1024, t);
    EnsureTableWalk(s, d, v / 1024, t, d', v');
    SetTableEntry(u, x.table, x.index, Filled(u.mem[x.table][x.index], frame, true, writable, user), d', v');
    assert DirOk(u, d) && DirOk(u, d');
  }

  /** No directory loses or changes a translation it had. */
  lemma MapPageLosesNothing(s: State, d: nat, v: nat, t: nat, frame: nat, writable: bool, user: bool, d': nat, v': nat)
    requires CanReach(s, d, v, t) && Walk(s.mem, d, v) == None
    requires d' in s.dirs && d' < PAGES && v' < PAGES && !Window(v' / 1024) && Walk(s.mem, d', v').Some?
    ensures var u := EnsureTable(s, d, v / 1024, t); d in u.mem && SlotOf(u, d, v).table in u.mem
    ensures Full(Mapped(s, d, v, t, frame, writable, user).mem)
    ensures Walk(Mapped(s, d, v, t, frame, writable, user).mem, d', v') == Walk(s.mem, d', v')
  {
    hide Entry.Present, Filled;
    MapPageEffect(s, d, v, t, frame, writable, user);
    var u := EnsureTable(s, d, v / 1024, t);
    var x := SlotOf(u, d, v);
    EnsureTableKeeps(s, d, v / 1024, t);
    EnsureTableWalk(s, d, v / 1024, t, d', v');
    EnsureTableWalk(s, d, v / 1024, t, d, v);
    SetTableEntry(u, x.table, x.index, Filled(u.mem[x.table][x.index], frame, true, writable, user), d', v');
    assert DirOk(u, d) && DirOk(u, d');
  }

  // ----- allocating and freeing pages

  /** `allocate`: frame `f` leaves the bitmap first, then the page is mapped to it and holds it. */
  ghost function Allocated(s: State, d: nat, v: nat, f: nat, t: nat, writable: bool, user: bool): State
    requires d in s.mem && v < PAGES
    requires var u := EnsureTable(s.(avail := s.avail - {f}), d, v / 1024, t); d in u.mem && SlotOf(u, d, v).table in u.mem
  {
    var u := EnsureTable(s.(avail := s.avail - {f}), d, v / 1024, t);
    var x := SlotOf(u, d, v);
    PutEntry(u, x, Filled(u.mem[x.table][x.index], f, true, writable, user), u.held[x := f], u.avail)
  }

  lemma TakeFrameKeeps(s: State, f: nat)
    requires Inv(s) && f in s.avail
    ensures Inv(s.(avail := s.avail - {f}))
    ensures f !in s.owner && forall x :: x in s.held ==> s.held[x] != f
  {
  }

  /** The entry of an unmapped page, after its table exists, holds nothing and maps nothing. */
  lemma EntryFree(s: State, d: nat, v: nat, t: nat)
    requires CanReach(s, d, v, t) && Walk(s.mem, d, v) == None
    ensures var u := EnsureTable(s, d, v / 1024, t);
            && Inv(u) && d in u.mem && u.held == s.held && u.avail <= s.avail
            && var x := SlotOf(u, d, v);
               x.table in u.owner && x.table in u.mem && x.index < 1024 && !u.mem[x.table][x.index].Present() && x !in u.held
  {
    hide Entry.Present, Filled, Private, HeldOnce, IdentityOk;
    EnsureTableKeeps(s, d, v / 1024, t);
    EnsureTableWalk(s, d, v / 1024, t, d, v);
    var u := EnsureTable(s, d, v / 1024, t);
    var x := SlotOf(u, d, v);
    TableApart(u, x.table);
    assert forall y :: y in u.held ==> HeldOk(u, y);
  }

  /** The page holds the frame, and the record of held frames stays truthful. */
  lemma AllocatedHolds(s: State, d: nat, v: nat, f: nat, t: nat, writable: bool, user: bool)
    requires f in s.avail && CanReach(s.(avail := s.avail - {f}), d, v, t) && Inv(s) && Walk(s.mem, d, v) == None
    ensures var u := EnsureTable(s.(avail := s.avail - {f}), d, v / 1024, t); d in u.mem && SlotOf(u, d, v).table in u.mem
    ensures var r := Allocated(s, d, v, f, t, writable, user);
            && Inv(r) && f !in r.avail && r.avail <= s.avail
            && (forall x :: x in s.held ==> x in r.held && r.held[x] == s.held[x])
            && d in r.mem && SlotOf(r, d, v) in r.held && r.held[SlotOf(r, d, v)] == f
  {
    hide Entry.Present, Filled, EnsureTable, Private, HeldOnce, IdentityOk, Walk;
    var s0 := s.(avail := s.avail - {f});
    FreshTable(s, f);
    EntryFree(s0, d, v, t);
    var u := EnsureTable(s0, d, v / 1024, t);
    var x := SlotOf(u, d, v);
    TableApart(u, x.table);
    FrameNoTable(s0, d, v / 1024, t, f);
    assert forall y :: y in u.held ==> HeldOk(u, y);
    assert forall y :: y in u.owner ==> TableOk(u, y);
    PutEntryKeeps(u, x, Filled(u.mem[x.table][x.index], f, true, writable, user), u.held[x := f], u.avail);
  }

  /** A frame outside the bitmap that is no table does not become one. */
  lemma FrameNoTable(s: State, d: nat, i: nat, t: nat, f: nat)
    requires d in s.mem && i < 1024 && f !in s.avail && f !in s.owner && (s.mem[d][i].Present() || t in s.avail)
    ensures var u := EnsureTable(s, d, i, t); f !in u.avail && f !in u.owner && u.dirs == s.dirs
  {
    hide Entry.Present, Filled;
  }

  lemma AllocateEffect(s: State, d: nat, v: nat, f: nat, t: nat, writable: bool, user: bool)
    requires f in s.avail && CanReach(s.(avail := s.avail - {f}), d, v, t) && Inv(s) && Walk(s.mem, d, v) == None
    ensures var u := EnsureTable(s.(avail := s.avail - {f}), d, v / 1024, t); d in u.mem && SlotOf(u, d, v).table in u.mem
    ensures var r := Allocated(s, d, v, f, t, writable, user);
            && Inv(r) && r.dirs == s.dirs && f !in r.avail && r.avail <= s.avail
            && (forall x :: x in s.held ==> x in r.held && r.held[x] == s.held[x])
            && SlotOf(r, d, v) in r.held && r.held[SlotOf(r, d, v)] == f
            && (forall v': nat :: v' < PAGES && !Window(v' / 1024) && v' != v ==> Walk(r.mem, d, v') == Walk(s.mem, d, v'))
            && Walk(r.mem, d, v) == Some(Access(f, writable, user))
  {
    hide Entry.Present, Entry.Writable, Entry.User, Filled, EnsureTable, Inv, Walk;
    AllocatedHolds(s, d, v, f, t, writable, user);
    MapPageEffect(s.(avail := s.avail - {f}), d, v, t, f, writable, user);
  }

  /** `deallocate`: the entry is zeroed; a page that held its frame gives it back. */
  ghost function Deallocated(s: State, d: nat, v: nat, freePage: bool): State
    requires d in s.mem && v < PAGES && SlotOf(s, d, v).table in s.mem
  {
    var x := SlotOf(s, d, v);
    var f := s.mem[x.table][x.index].frame;
    PutEntry(s, x, ZERO, s.held - {x}, if freePage then s.avail + {f} else s.avail)
  }

  lemma DeallocateEffect(s: State, d: nat, v: nat, freePage: bool)
    requires Inv(s) && d in s.dirs && v < PAGES && !Window(v / 1024) && d < PAGES && Walk(s.mem, d, v).Some?
    requires freePage ==> SlotOf(s, d, v) in s.held
    ensures SlotOf(s, d, v).table in s.mem
    ensures var r := Deallocated(s, d, v, freePage);
            && Inv(r) && r.dirs == s.dirs
            && Walk(r.mem, d, v) == None
            && (forall v': nat :: v' < PAGES && !Window(v' / 1024) && v' != v ==> Walk(r.mem, d, v') == Walk(s.mem, d, v'))
            && r.held == s.held - {SlotOf(s, d, v)}
            && r.avail == if freePage then s.avail + {s.held[SlotOf(s, d, v)]} else s.avail
  {
    hide Entry.Present, Private, IdentityOk;
    ZeroNotPresent();
    assert DirOk(s, d);
    var x := SlotOf(s, d, v);
    TableApart(s, x.table);
    assert forall y :: y in s.held ==> HeldOk(s, y);
    assert forall y :: y in s.owner ==> TableOk(s, y);
    var f := s.mem[x.table][x.index].frame;
    PutEntryKeeps(s, x, ZERO, s.held - {x}, if freePage then s.avail + {f} else s.avail);
    SetTableEntry(s, x.table, x.index, ZERO, d, v);
    forall v': nat | v' < PAGES && !Window(v' / 1024) && v' != v
      ensures Walk(Deallocated(s, d, v, freePage).mem, d, v') == Walk(s.mem, d, v')
    {
      SetTableEntry(s, x.table, x.index, ZERO, d, v');
      if s.mem[d][v' / 1024].Present() {
        SameTable(s, d, v, v');
      }
    }
  }

  /** The page disappears from no other directory when it lies in private memory, and no other page ever changes. */
  lemma DeallocateElsewhere(s: State, d: nat, v: nat, freePage: bool, d': nat, v': nat)
    requires Inv(s) && d in s.dirs && v < PAGES && !Window(v / 1024) && d < PAGES && Walk(s.mem, d, v).Some?
    requires d' in s.dirs && d' < PAGES && v' < PAGES && !Window(v' / 1024)
    requires v' != v || (d' != d && 2 <= v / 1024 < ALIAS)
    ensures SlotOf(s, d, v).table in s.mem && Full(Deallocated(s, d, v, freePage).mem)
    ensures Walk(Deallocated(s, d, v, freePage).mem, d', v') == Walk(s.mem, d', v')
  {
    hide Entry.Present, HeldOk, HeldOnce, IdentityOk;
    assert DirOk(s, d) && DirOk(s, d');
    var x := SlotOf(s, d, v);
    TableApart(s, x.table);
    SetTableEntry(s, x.table, x.index, ZERO, d', v');
  }
}
