/** What editing page tables through the temporary slot does to the state, step by step. */
module TempSlot {
  import opened Options
  import opened TableEntry
  import opened FrameBitmap
  import opened Paging
  import opened FrameRuns

  /** The slot's entry while it maps frame `f`, and after its release. */
  function Opened(e: Entry, f: nat): Entry { Filled(e, f, true, true, false) }
  function Released(e: Entry): Entry { Filled(e, 0, false, false, false) }

  lemma ReleasedOpened(e: Entry, f: nat)
    ensures Released(Opened(e, f)) == Released(e)
  {
  }

  lemma ReleasedTwice(e: Entry)
    ensures Released(Released(e)) == Released(e)
  {
  }

  function WithSlot(s: State, e: Entry): State
    requires s.identity in s.mem
  {
    State(SetEntry(s.mem, s.identity, TEMP, e), s.dirs, s.identity, s.owner, s.avail, s.held)
  }

  ghost function SlotEntry(s: State): Entry
    requires s.identity in s.mem
  {
    s.mem[s.identity][TEMP]
  }

  /**
   * The identity window maps its pages to themselves, the slot maps what its entry says, in every directory; neither is
   * open to user programs.
   */
  lemma WindowWalk(s: State, d: nat, k: nat)
    requires Inv(s) && d in s.dirs && 1 <= k <= TEMP
    ensures d < PAGES && s.identity in s.mem && k < PAGES
    ensures k < TEMP ==> Walk(s.mem, d, k).Some? && Walk(s.mem, d, k).value.frame == k && Walk(s.mem, d, k).value.writable
    ensures Walk(s.mem, d, k).Some? ==> !Walk(s.mem, d, k).value.user
    ensures k == TEMP && SlotEntry(s).Present() ==>
              && Walk(s.mem, d, k).Some? && Walk(s.mem, d, k).value.frame == SlotEntry(s).frame
              && Walk(s.mem, d, k).value.writable == SlotEntry(s).Writable()
  {
  }

  lemma WithSlotKeeps(s: State, e: Entry)
    requires Inv(s)
    ensures s.identity in s.mem && Inv(WithSlot(s, e)) && SlotEntry(WithSlot(s, e)) == e
    ensures forall d, v: nat :: d in s.dirs && v < PAGES && !Window(v / 1024) ==>
              d < PAGES && Walk(WithSlot(s, e).mem, d, v) == Walk(s.mem, d, v)
  {
    hide Walk, Inv;
    SetTempSlot(s, e);
  }

  /** No directory loses or changes a translation it had. */
  ghost predicate NothingLost(dirs: set<nat>, m0: Phys, m1: Phys)
    requires Full(m0) && Full(m1)
  {
    forall d, v: nat :: d in dirs && d < PAGES && v < PAGES && !Window(v / 1024) && Walk(m0, d, v).Some? ==>
                          Walk(m1, d, v) == Walk(m0, d, v)
  }

  /** Directories other than `d` translate every page as before. */
  ghost predicate OthersSame(dirs: set<nat>, m0: Phys, m1: Phys, d: nat)
    requires Full(m0) && Full(m1)
  {
    forall e, v: nat :: e in dirs && e < PAGES && e != d && v < PAGES && !Window(v / 1024) ==> Walk(m1, e, v) == Walk(m0, e, v)
  }

  /** The directory translates `v` to `frame` with these rights. */
  ghost predicate MapsTo(m: Phys, d: nat, v: nat, frame: nat, writable: bool, user: bool)
    requires Full(m) && d < PAGES && v < PAGES
  {
    Walk(m, d, v) == Some(Access(frame, writable, user))
  }

  /** An operation followed by a change of the slot is two steps of a run. */
  lemma StepThenSlot(s: State, op: Op, slot: Entry)
    requires Legal(s, op)
    ensures Legal(Apply(s, op), UseSlot(slot))
    ensures Apply(s, op).identity in Apply(s, op).mem && Apply(Apply(s, op), UseSlot(slot)) == WithSlot(Apply(s, op), slot)
  {
    hide Inv, Walk, Mapped, Allocated, Deallocated;
    ApplyKeeps(s, op);
    IdentityInWindow(Apply(s, op));
  }

  /** Writing an entry of a table commutes with opening the slot. */
  lemma SlotCommutes(s: State, x: Slot, e: Entry, slot: Entry)
    requires Full(s.mem) && s.identity < PAGES && x.table < PAGES && x.index < 1024 && x.table != s.identity
    ensures SetEntry(WithSlot(s, slot).mem, x.table, x.index, e) == WithSlot(PutEntry(s, x, e, s.held, s.avail), slot).mem
  {
  }

  lemma SlotSame(s: State)
    requires s.identity in s.mem
    ensures WithSlot(s, SlotEntry(s)) == s
  {
    var p := s.mem[s.identity];
    assert p[TEMP := p[TEMP]] == p;
    assert s.mem[s.identity := p] == s.mem;
  }

  lemma SlotTwice(s: State, e: Entry, e': Entry)
    requires s.identity in s.mem
    ensures WithSlot(WithSlot(s, e), e') == WithSlot(s, e')
  {
    var p := s.mem[s.identity];
    assert p[TEMP := e][TEMP := e'] == p[TEMP := e'];
    assert WithSlot(WithSlot(s, e), e').mem == WithSlot(s, e').mem;
  }

  /** The slot and a frame's contents change independently. */
  lemma SlotAndFrame(s: State, f: nat, p: Page, slot: Entry)
    requires s.identity in s.mem && f != s.identity
    ensures var c := WithSlot(s, slot);
            WithSlot(c.(mem := c.mem[f := p]), slot) == WithSlot(s.(mem := s.mem[f := p]), slot)
  {
    var c := WithSlot(s, slot);
    assert c.mem[f := p] == WithSlot(s.(mem := s.mem[f := p]), slot).mem;
    SlotTwice(s.(mem := s.mem[f := p]), slot, slot);
  }

  /** Filling a spare frame while the slot is open on it, then releasing the slot. */
  lemma FilledThroughSlot(s: State, f: nat, p: Page)
    requires Inv(s) && f < PAGES && f !in s.dirs && f != s.identity && f !in s.owner
    ensures s.identity in s.mem
    ensures var slot := Opened(SlotEntry(s), f);
            var c := WithSlot(s, slot);
            var filled := c.(mem := c.mem[f := p]);
            var r := s.(mem := s.mem[f := p]);
            && Inv(filled) && filled.identity in filled.mem && r.identity in r.mem && SlotEntry(filled) == slot
            && WithSlot(filled, Released(slot)) == WithSlot(r, Released(SlotEntry(s)))
  {
    hide Entry.Present, Filled, Inv;
    IdentityInWindow(s);
    var slot := Opened(SlotEntry(s), f);
    var c := WithSlot(s, slot);
    WithSlotKeeps(s, slot);
    SpareFrame(c, f, p);
    ReleasedOpened(SlotEntry(s), f);
    SlotTwice(s.(mem := s.mem[f := p]), slot, Released(slot));
    assert c.mem[f := p] == WithSlot(s.(mem := s.mem[f := p]), slot).mem;
  }

  /** A directory entry pointing to a fresh table whose contents are still arbitrary. */
  function Linked(s: State, d: nat, i: nat, t: nat): State
    requires d in s.mem && i < 1024
  {
    State(SetEntry(s.mem, d, i, Filled(s.mem[d][i], t, true, true, true)), s.dirs, s.identity, s.owner[t := i], s.avail - {t}, s.held)
  }

  /** The contents of a table that holds no frame do not matter. */
  lemma TableContents(s: State, t: nat, p: Page)
    requires Inv(s) && t in s.owner && forall x :: x in s.held ==> x.table != t
    ensures Inv(s.(mem := s.mem[t := p]))
  {
  }

  lemma LinkedKeeps(s: State, d: nat, i: nat, t: nat)
    requires Inv(s) && d in s.dirs && i < 1024 && !Window(i) && t in s.avail
    requires d in s.mem && !s.mem[d][i].Present()
    ensures Inv(Linked(s, d, i, t)) && t in s.mem && t != d && t != s.identity
    ensures EnsureTable(s, d, i, t) == Linked(s, d, i, t).(mem := Linked(s, d, i, t).mem[t := ZeroPage()])
  {
    hide Entry.Present, Filled, Inv;
    EnsureTableKeeps(s, d, i, t);
    FreshTable(s, t);
    IdentityInWindow(s);
    var u := EnsureTable(s, d, i, t);
    TableContents(u, t, s.mem[t]);
    assert Linked(s, d, i, t).mem == u.mem[t := s.mem[t]];
  }

  /** Filling the slot's page does not disturb the slot as long as the page is neither directory nor identity table. */
  lemma SlotWalkFrame(m: Phys, d: nat, f: nat, p: Page)
    requires Full(m) && d < PAGES && f < PAGES && f != d && f != m[d][0].frame
    ensures Full(m[f := p]) && Walk(m[f := p], d, TEMP) == Walk(m, d, TEMP)
  {
  }

  /** The directory translates every page as before, except possibly `v`. */
  ghost predicate OnlyAt(m0: Phys, m1: Phys, d: nat, v: nat)
    requires Full(m0) && Full(m1) && d < PAGES
  {
    forall v': nat :: v' < PAGES && !Window(v' / 1024) && v' != v ==> Walk(m1, d, v') == Walk(m0, d, v')
  }

  /** Every page lies between the first 8 MB and the kernel. */
  ghost predicate PrivateRange(v: nat, n: nat) {
    forall q: nat :: v <= q < v + n ==> 2 <= q / 1024 < ALIAS
  }

  /** The pages from `dst` under `d` lead to the frames of the pages from `src` under `e`, writable and open to users. */
  ghost predicate SharesFrames(m: Phys, e: nat, src: nat, d: nat, dst: nat, n: nat)
    requires Full(m) && d < PAGES && e < PAGES && src + n <= PAGES && dst + n <= PAGES
  {
    forall q: nat {:trigger Walk(m, d, q)} :: dst <= q < dst + n ==>
                       && Walk(m, d, q).Some? && Walk(m, e, src + q - dst).Some?
                       && Walk(m, d, q).value.frame == Walk(m, e, src + q - dst).value.frame
                       && Walk(m, d, q).value.writable && Walk(m, d, q).value.user
  }

  /** What `map` has done after `i` pages: `m0` is the memory at the start, `m` the memory now. */
  ghost predicate RangeDone(dirs: set<nat>, m0: Phys, m: Phys, d: nat, v: nat, i: nat, frame: nat, writable: bool, user: bool)
    requires Full(m0) && Full(m) && d < PAGES && v + i <= PAGES
  {
    Unmapped(m0, d, v, i) && RangeMapsTo(m, d, v, i, frame, writable, user) && OnlyIn(m0, m, d, v, i) && NothingLost(dirs, m0, m)
  }

  lemma RangeNone(dirs: set<nat>, m: Phys, d: nat, v: nat, frame: nat, writable: bool, user: bool)
    requires Full(m) && d < PAGES && v <= PAGES
    ensures RangeDone(dirs, m, m, d, v, 0, frame, writable, user)
  {
  }

  lemma RangeNext(dirs: set<nat>, m0: Phys, m: Phys, m': Phys, d: nat, v: nat, i: nat, frame: nat, writable: bool, user: bool)
    requires Full(m0) && Full(m) && Full(m') && d in dirs && d < PAGES && v + i < PAGES && PagesOk(v, i + 1)
    requires RangeDone(dirs, m0, m, d, v, i, frame, writable, user) && Walk(m, d, v + i) == None
    requires OnlyAt(m, m', d, v + i) && MapsTo(m', d, v + i, frame + i, writable, user) && NothingLost(dirs, m, m')
    ensures RangeDone(dirs, m0, m', d, v, i + 1, frame, writable, user)
  {
    hide Walk;
    forall q: nat | v <= q < v + i
      ensures Walk(m', d, q) == Walk(m, d, q)
    {
      assert !Window(q / 1024);
    }
  }

  /** A page of the range still to come is mapped exactly when it was at the start. */
  lemma StillToCome(m0: Phys, m: Phys, d: nat, v: nat, i: nat, n: nat)
    requires Full(m0) && Full(m) && d < PAGES && i < n && PagesOk(v, n) && OnlyIn(m0, m, d, v, i)
    ensures Walk(m, d, v + i) == Walk(m0, d, v + i)
    ensures Walk(m, d, v + i).Some? ==> !Unmapped(m0, d, v, n)
  {
    hide Walk;
    assert !Window((v + i) / 1024);
  }

  lemma RangeStillToCome(dirs: set<nat>, m0: Phys, m: Phys, d: nat, v: nat, i: nat, n: nat, frame: nat, writable: bool, user: bool)
    requires Full(m0) && Full(m) && d < PAGES && i < n && PagesOk(v, n) && RangeDone(dirs, m0, m, d, v, i, frame, writable, user)
    ensures Walk(m, d, v + i).Some? ==> !Unmapped(m0, d, v, n)
  {
    StillToCome(m0, m, d, v, i, n);
  }

  /** The page can be read by user programs under the directory. */
  ghost predicate Readable(m: Phys, e: nat, v: nat)
    requires Full(m) && e < PAGES && v < PAGES
  {
    Walk(m, e, v).Some? && Walk(m, e, v).value.user
  }

  ghost predicate RangeReadable(m: Phys, e: nat, v: nat, n: nat)
    requires Full(m) && e < PAGES && v + n <= PAGES
  {
    forall q: nat :: v <= q < v + n ==> Readable(m, e, q)
  }

  /** A source page of another directory is readable exactly when it was at the start. */
  lemma SourceAsBefore(dirs: set<nat>, m0: Phys, m: Phys, d: nat, e: nat, src: nat, i: nat, n: nat)
    requires Full(m0) && Full(m) && e in dirs && e < PAGES && e != d && i < n && PagesOk(src, n) && OthersSame(dirs, m0, m, d)
    ensures Readable(m, e, src + i) == Readable(m0, e, src + i)
    ensures !Readable(m, e, src + i) ==> !RangeReadable(m0, e, src, n)
    ensures i + 1 == n && RangeReadable(m0, e, src, i) && Readable(m, e, src + i) ==> RangeReadable(m0, e, src, n)
  {
    hide Walk;
    assert !Window((src + i) / 1024);
  }

  /** What `duplicate` has done after `i` pages: `m0` is the memory at the start, `m` the memory now. */
  ghost predicate Shared(dirs: set<nat>, m0: Phys, m: Phys, e: nat, src: nat, d: nat, dst: nat, i: nat)
    requires Full(m0) && Full(m) && d < PAGES && e < PAGES && src + i <= PAGES && dst + i <= PAGES
  {
    && SharesFrames(m, e, src, d, dst, i) && Unmapped(m0, d, dst, i)
    && NothingLost(dirs, m0, m) && OnlyIn(m0, m, d, dst, i)
    && (PrivateRange(dst, i) ==> OthersSame(dirs, m0, m, d) && (e != d ==> RangeReadable(m0, e, src, i)))
  }

  lemma SharedNone(dirs: set<nat>, m: Phys, e: nat, src: nat, d: nat, dst: nat)
    requires Full(m) && d < PAGES && e < PAGES && src <= PAGES && dst <= PAGES
    ensures Shared(dirs, m, m, e, src, d, dst, 0)
  {
  }

  /** One more page. */
  lemma SharedNext(dirs: set<nat>, m0: Phys, m: Phys, m': Phys, e: nat, src: nat, d: nat, dst: nat, i: nat)
    requires Full(m0) && Full(m) && Full(m') && d in dirs && e in dirs && d < PAGES && e < PAGES
    requires PagesOk(src, i + 1) && PagesOk(dst, i + 1) && Shared(dirs, m0, m, e, src, d, dst, i)
    requires OnlyAt(m, m', d, dst + i) && Readable(m, e, src + i) && NothingLost(dirs, m, m')
    requires Walk(m, d, dst + i) == None && MapsTo(m', d, dst + i, Walk(m, e, src + i).value.frame, true, true)
    requires 2 <= (dst + i) / 1024 < ALIAS ==> OthersSame(dirs, m, m', d)
    ensures Shared(dirs, m0, m', e, src, d, dst, i + 1)
  {
    hide Walk, SharesFrames, NothingLost, OnlyIn, OthersSame, MapsTo, OnlyAt;
    ShareNext(dirs, m0, m, m', e, src, d, dst, i);
    StillToCome(m0, m, d, dst, i, i + 1);
    if PrivateRange(dst, i + 1) {
      PrivatePrefix(dst, i);
      if e != d { SourceAsBefore(dirs, m0, m, d, e, src, i, i + 1); }
    }
  }

  lemma RangeUnmapped(dirs: set<nat>, m0: Phys, m: Phys, d: nat, v: nat, n: nat, frame: nat, writable: bool, user: bool)
    requires Full(m0) && Full(m) && d < PAGES && v + n <= PAGES && RangeDone(dirs, m0, m, d, v, n, frame, writable, user)
    ensures Unmapped(m0, d, v, n)
  {
  }

  lemma SharedUnmapped(dirs: set<nat>, m0: Phys, m: Phys, e: nat, src: nat, d: nat, dst: nat, n: nat)
    requires Full(m0) && Full(m) && d < PAGES && e < PAGES && src + n <= PAGES && dst + n <= PAGES
    requires Shared(dirs, m0, m, e, src, d, dst, n)
    ensures Unmapped(m0, d, dst, n)
  {
  }

  lemma PrivatePrefix(v: nat, i: nat)
    requires PrivateRange(v, i + 1)
    ensures PrivateRange(v, i) && 2 <= (v + i) / 1024 < ALIAS
  {
  }

  /** A page that cannot be shared now was the reason from the start. */
  lemma SharedFails(dirs: set<nat>, m0: Phys, m: Phys, e: nat, src: nat, d: nat, dst: nat, i: nat, n: nat)
    requires Full(m0) && Full(m) && e in dirs && d < PAGES && e < PAGES && i < n
    requires PagesOk(src, n) && PagesOk(dst, n) && Shared(dirs, m0, m, e, src, d, dst, i)
    ensures Walk(m, d, dst + i).Some? ==> !Unmapped(m0, d, dst, n)
    ensures PrivateRange(dst, n) && e != d && !Readable(m, e, src + i) ==> !RangeReadable(m0, e, src, n)
  {
    hide Walk, SharesFrames, Unmapped, NothingLost, OnlyIn, OthersSame, Readable, RangeReadable;
    StillToCome(m0, m, d, dst, i, n);
    if PrivateRange(dst, n) && e != d {
      assert PrivateRange(dst, i);
      SourceAsBefore(dirs, m0, m, d, e, src, i, n);
    }
  }

  /** One more page shared: `m0` is the memory at the start, `m` before this page, `m'` after it. */
  lemma ShareNext(dirs: set<nat>, m0: Phys, m: Phys, m': Phys, e: nat, src: nat, d: nat, dst: nat, i: nat)
    requires Full(m0) && Full(m) && Full(m') && d in dirs && e in dirs && d < PAGES && e < PAGES
    requires src + i < PAGES && dst + i < PAGES && PagesOk(src, i + 1) && PagesOk(dst, i + 1)
    requires SharesFrames(m, e, src, d, dst, i) && NothingLost(dirs, m0, m) && OnlyIn(m0, m, d, dst, i)
    requires OnlyAt(m, m', d, dst + i) && Walk(m, e, src + i).Some? && NothingLost(dirs, m, m')
    requires MapsTo(m', d, dst + i, Walk(m, e, src + i).value.frame, true, true)
    ensures SharesFrames(m', e, src, d, dst, i + 1) && NothingLost(dirs, m0, m') && OnlyIn(m0, m', d, dst, i + 1)
    ensures OthersSame(dirs, m0, m, d) && OthersSame(dirs, m, m', d) ==> OthersSame(dirs, m0, m', d)
  {
    assert !Window((src + i) / 1024) && Walk(m', e, src + i) == Walk(m, e, src + i);
    forall q: nat | dst <= q < dst + (i + 1)
      ensures && Walk(m', d, q).Some? && Walk(m', e, src + q - dst).Some?
              && Walk(m', d, q).value.frame == Walk(m', e, src + q - dst).value.frame
              && Walk(m', d, q).value.writable && Walk(m', d, q).value.user
    {
      if q == dst + i {
        assert src + q - dst == src + i;
      } else {
        assert Walk(m, d, q).Some? && Walk(m, e, src + q - dst).Some?;
      }
    }
  }

  /** A range of pages below the top of memory that avoids the identity window and its alias. */
  ghost predicate PagesOk(v: nat, n: nat) {
    v + n <= PAGES && forall j: nat :: v <= j < v + n ==> !Window(j / 1024)
  }

  ghost predicate Unmapped(m: Phys, d: nat, v: nat, n: nat)
    requires Full(m) && d < PAGES && v + n <= PAGES
  {
    forall q: nat :: v <= q < v + n ==> Walk(m, d, q) == None
  }

  ghost predicate RangeMapsTo(m: Phys, d: nat, v: nat, n: nat, frame: nat, writable: bool, user: bool)
    requires Full(m) && d < PAGES && v + n <= PAGES
  {
    forall q: nat :: v <= q < v + n ==>
                       Walk(m, d, q) == Some(Access(frame + q - v, writable, user))
  }

  /** The directory translates every page outside the range as before. */
  ghost predicate OnlyIn(m0: Phys, m1: Phys, d: nat, v: nat, n: nat)
    requires Full(m0) && Full(m1) && d < PAGES
  {
    forall v': nat :: v' < PAGES && !Window(v' / 1024) && !(v <= v' < v + n) ==> Walk(m1, d, v') == Walk(m0, d, v')
  }

  /** A present entry leads to a table that is neither directory nor identity table. */
  lemma PresentTable(s: State, d: nat, v: nat)
    requires Inv(s) && d in s.dirs && d < PAGES && v < PAGES && !Window(v / 1024) && Full(s.mem)
    requires s.mem[d][v / 1024].Present()
    ensures var t := s.mem[d][v / 1024].frame;
            && t in s.owner && t < PAGES && t != s.identity
            && Walk(s.mem, d, v) == var e := s.mem[t][v % 1024]; if e.Present() then Some(Access(e.frame, e.Writable(), e.User())) else None
  {
  }

  /** Allocating is mapping the page to a frame just taken, and recording who holds it. */
  lemma AllocatedIsMapped(s: State, d: nat, v: nat, f: nat, t: nat, writable: bool, user: bool, slot: Entry)
    requires Inv(s) && f in s.avail && CanReach(s.(avail := s.avail - {f}), d, v, t) && Walk(s.mem, d, v) == None
    ensures var s0 := s.(avail := s.avail - {f});
            && CanMap(s0, d, v, t)
            && var m := Mapped(s0, d, v, t, f, writable, user);
               var a := Allocated(s, d, v, f, t, writable, user);
               && m.identity in m.mem && a.identity in a.mem
               && WithSlot(a, slot) == WithSlot(m, slot).(held := m.held[SlotOf(EnsureTable(s0, d, v / 1024, t), d, v) := f])
               && Inv(WithSlot(a, slot))
  {
    hide Entry.Present, Walk, Inv, Filled, EnsureTable;
    var s0 := s.(avail := s.avail - {f});
    Reached(s0, d, v, t);
    AllocateEffect(s, d, v, f, t, writable, user);
    var a := Allocated(s, d, v, f, t, writable, user);
    IdentityInWindow(a);
    WithSlotKeeps(a, slot);
  }

  lemma NoTableNoPage(s: State, d: nat, v: nat)
    requires d < PAGES && v < PAGES && Full(s.mem)
    ensures Walk(s.mem, d, v).Some? ==> s.mem[d][v / 1024].Present()
  {
  }

  /** The frame a slot holds has a bit in the bitmap. */
  lemma HeldFrame(s: State, x: Slot)
    requires Inv(s) && x in s.held
    ensures x.table in s.mem && x.index < 1024 && s.mem[x.table][x.index].frame == s.held[x] < FRAMES
  {
  }

  /** The state in which `x` no longer holds its frame, though it still maps it. */
  ghost function Dropped(s: State, x: Slot, f: nat, freePage: bool): State {
    State(s.mem, s.dirs, s.identity, s.owner, if freePage then s.avail + {f} else s.avail, s.held - {x})
  }

  lemma DropHeld(s: State, x: Slot, f: nat, freePage: bool)
    requires Inv(s) && (freePage ==> x in s.held && f == s.held[x])
    ensures Inv(Dropped(s, x, f, freePage))
  {
    hide Entry.Present, Private;
    var r := Dropped(s, x, f, freePage);
    assert forall d :: d in s.dirs ==> DirOk(s, d) && DirOk(r, d);
    assert freePage ==> HeldOk(s, x);
    assert forall y :: y in s.held ==> HeldOk(s, y);
    assert forall y :: y in r.held ==> HeldOk(r, y);
    assert forall y :: y in s.owner ==> TableOk(s, y) && TableOk(r, y);
    assert Private(s) ==> Private(r) by { SamePrivate(s, r); }
  }

  lemma SamePrivate(s: State, r: State)
    requires Full(s.mem) && r.mem == s.mem && r.dirs == s.dirs
    ensures Private(s) ==> Private(r)
  {
  }

  lemma DeallocatedThroughSlot(s: State, d: nat, v: nat, freePage: bool, slot: Entry)
    requires Inv(s) && d in s.dirs && d < PAGES && v < PAGES && !Window(v / 1024) && Full(s.mem)
    requires s.mem[d][v / 1024].Present()
    ensures s.identity in s.mem && SlotOf(s, d, v).table in s.mem
    ensures var x := SlotOf(s, d, v);
            var c := Dropped(WithSlot(s, slot), x, s.mem[x.table][x.index].frame, freePage);
            var r := Deallocated(s, d, v, freePage);
            && x.table in c.mem && r.identity in r.mem
            && PutEntry(c, x, ZERO, c.held, c.avail) == WithSlot(r, slot)
  {
    hide Entry.Present, Filled;
    assert DirOk(s, d);
    var x := SlotOf(s, d, v);
    TableApart(s, x.table);
    SlotCommutes(s, x, ZERO, slot);
  }

  lemma DeallocatedWalks(s: State, d: nat, v: nat, freePage: bool, slot: Entry)
    requires Inv(s) && d in s.dirs && d < PAGES && v < PAGES && !Window(v / 1024) && Full(s.mem)
    requires Walk(s.mem, d, v).Some? && (freePage ==> SlotOf(s, d, v) in s.held)
    ensures SlotOf(s, d, v).table in s.mem
    ensures var r := Deallocated(s, d, v, freePage);
            && r.identity in r.mem && Inv(WithSlot(r, slot)) && OnlyAt(s.mem, WithSlot(r, slot).mem, d, v)
            && Walk(WithSlot(r, slot).mem, d, v) == None
            && (2 <= v / 1024 < ALIAS ==> OthersSame(s.dirs, s.mem, WithSlot(r, slot).mem, d))
  {
    hide Entry.Present, Inv, Walk, Deallocated;
    DeallocateEffect(s, d, v, freePage);
    var r := Deallocated(s, d, v, freePage);
    WithSlotKeeps(r, slot);
    IdentityInWindow(WithSlot(r, slot));
    forall e, v': nat | e in s.dirs && e < PAGES && e != d && v' < PAGES && !Window(v' / 1024) && 2 <= v / 1024 < ALIAS
      ensures Walk(WithSlot(r, slot).mem, e, v') == Walk(s.mem, e, v')
    {
      DeallocateElsewhere(s, d, v, freePage, e, v');
    }
  }

  /** `map_page` finds the page unmapped. */
  ghost predicate CanMap(s: State, d: nat, v: nat, t: nat) {
    && CanReach(s, d, v, t) && d in s.mem
    && var u := EnsureTable(s, d, v / 1024, t); d in u.mem && SlotOf(u, d, v).table in u.mem
  }

  /** The table that `ensure_pte` leaves behind the slot, and the entry it selects. */
  lemma Reached(s: State, d: nat, v: nat, t: nat)
    requires CanReach(s, d, v, t)
    ensures CanMap(s, d, v, t)
    ensures var u := EnsureTable(s, d, v / 1024, t);
            var x := SlotOf(u, d, v);
            && Inv(u) && x.table in u.owner && x.table !in u.dirs && x.table != u.identity && x.table < PAGES
            && (u.mem[x.table][x.index].Present() <==> Walk(s.mem, d, v).Some?)
            && (Walk(s.mem, d, v).Some? ==> u == s)
  {
    hide Entry.Present, Filled, EnsureTable, Inv;
    IdentityInWindow(s);
    EnsureTableKeeps(s, d, v / 1024, t);
    EnsureTableWalk(s, d, v / 1024, t, d, v);
    var u := EnsureTable(s, d, v / 1024, t);
    EnsureTableDirSet(s, d, v / 1024, t);
    var x := SlotOf(u, d, v);
    TableApart(u, x.table);
    IdentityInWindow(u);
    if Walk(s.mem, d, v).Some? { EnsureTablePresent(s, d, v / 1024, t); }
  }

  lemma EnsureTableDirSet(s: State, d: nat, i: nat, t: nat)
    requires d in s.mem && i < 1024
    ensures var u := EnsureTable(s, d, i, t); u.dirs == s.dirs && u.identity == s.identity && u.held == s.held && d in u.mem
  {
  }

  /** An entry that maps nothing holds nothing. */
  lemma NotHeld(s: State, x: Slot)
    requires Inv(s) && x.table in s.mem && x.index < 1024 && !s.mem[x.table][x.index].Present()
    ensures x !in s.held
  {
  }

  lemma PutFree(s: State, x: Slot, e: Entry)
    requires Inv(s) && x.table in s.owner && x.index < 1024 && x !in s.held
    ensures x.table in s.mem && Inv(PutEntry(s, x, e, s.held, s.avail))
    ensures SlotEntry(PutEntry(s, x, e, s.held, s.avail)) == SlotEntry(s)
  {
    hide Entry.Present, Private;
    TableApart(s, x.table);
    assert forall y :: y in s.held ==> HeldOk(s, y);
    assert forall y :: y in s.owner ==> TableOk(s, y);
    PutEntryKeeps(s, x, e, s.held, s.avail);
  }

  /** Writing through the open slot gives the mapped state with the slot open. */
  lemma MappedThroughSlot(s: State, d: nat, v: nat, t: nat, frame: nat, writable: bool, user: bool, slot: Entry)
    requires CanReach(s, d, v, t) && Walk(s.mem, d, v) == None
    ensures CanMap(s, d, v, t)
    ensures var u := EnsureTable(s, d, v / 1024, t);
            var x := SlotOf(u, d, v);
            var r := Mapped(s, d, v, t, frame, writable, user);
            var w := WithSlot(u, slot);
            && u.identity in u.mem && r.identity in r.mem && x.table in w.mem
            && PutEntry(w, x, Filled(w.mem[x.table][x.index], frame, true, writable, user), w.held, w.avail) == WithSlot(r, slot)
  {
    hide Entry.Present, Filled, EnsureTable, Inv, Walk;
    Reached(s, d, v, t);
    var u := EnsureTable(s, d, v / 1024, t);
    var x := SlotOf(u, d, v);
    IdentityInWindow(u);
    SlotCommutes(u, x, Filled(u.mem[x.table][x.index], frame, true, writable, user), slot);
  }

  /** Entry `i` of the directory is present now, the others are as they were. */
  ghost predicate OneTable(p: Page, p': Page, i: nat) {
    forall k: nat :: k < 1024 ==> (p'[k].Present() <==> p[k].Present() || k == i)
  }

  /** The tables after `map_page`, and the frame it took for one. */
  lemma MappedTables(s: State, d: nat, v: nat, t: nat, frame: nat, writable: bool, user: bool, slot: Entry)
    requires CanReach(s, d, v, t) && Walk(s.mem, d, v) == None
    ensures CanMap(s, d, v, t)
    ensures var r := WithSlot(Mapped(s, d, v, t, frame, writable, user), slot);
            && d in r.mem && OneTable(s.mem[d], r.mem[d], v / 1024)
            && |r.avail| + (if s.mem[d][v / 1024].Present() then 0 else 1) == |s.avail|
  {
    hide Entry.Present, Filled, Inv, Walk;
    Reached(s, d, v, t);
    var u := EnsureTable(s, d, v / 1024, t);
    var x := SlotOf(u, d, v);
    IdentityInWindow(u);
    DirInWindow(s, d);
    EnsureTableDirSet(s, d, v / 1024, t);
    EnsuredPdes(s, d, v / 1024, t);
    assert Mapped(s, d, v, t, frame, writable, user).mem[d] == u.mem[d];
  }

  lemma EnsuredPdes(s: State, d: nat, i: nat, t: nat)
    requires Inv(s) && d in s.dirs && i < 1024 && !Window(i) && d in s.mem && (s.mem[d][i].Present() || t in s.avail)
    ensures var u := EnsureTable(s, d, i, t);
            && d in u.mem && OneTable(s.mem[d], u.mem[d], i)
            && |u.avail| + (if s.mem[d][i].Present() then 0 else 1) == |s.avail|
  {
    hide Filled, Inv, Entry.Present;
    EnsureTableKeeps(s, d, i, t);
    if !s.mem[d][i].Present() { FreshTable(s, t); }
  }

  /** Tables that mapping the pages `[v, v + n)` has to create in a directory, one for each directory entry first met. */
  function NewTables(p: Page, v: nat, n: nat): nat
    requires v + n <= PAGES
  {
    if n == 0 then 0
    else NewTables(p, v, n - 1) + if FirstMet(v, n) && !p[(v + n - 1) / 1024].Present() then 1 else 0
  }

  predicate FirstMet(v: nat, n: nat)
    requires n > 0
  {
    n == 1 || (v + n - 1) % 1024 == 0
  }

  lemma NewTablesGrow(p: Page, v: nat, i: nat, n: nat)
    requires i <= n && v + n <= PAGES
    ensures NewTables(p, v, i) <= NewTables(p, v, n)
  {
  }

  /** The tables for the first `i` pages are there, no others were added, and `left` frames of `had` remain. */
  ghost predicate TablesMade(p: Page, p': Page, v: nat, i: nat, had: nat, left: nat)
    requires v + i <= PAGES
  {
    && left + NewTables(p, v, i) == had
    && forall k: nat :: k < 1024 ==> (p'[k].Present() <==> p[k].Present() || (i > 0 && v / 1024 <= k <= (v + i - 1) / 1024))
  }

  lemma TablesMadeNone(p: Page, v: nat, had: nat)
    requires v <= PAGES
    ensures TablesMade(p, p, v, 0, had, had)
  {
  }

  /** One more page: its table is missing exactly when its directory entry is first met and was absent. */
  lemma TablesMadeNext(p: Page, p1: Page, p2: Page, v: nat, i: nat, had: nat, left: nat, left': nat)
    requires v + i < PAGES && TablesMade(p, p1, v, i, had, left)
    ensures !p1[(v + i) / 1024].Present() <==> FirstMet(v, i + 1) && !p[(v + i) / 1024].Present()
    ensures OneTable(p1, p2, (v + i) / 1024) && left' + (if p1[(v + i) / 1024].Present() then 0 else 1) == left ==>
              TablesMade(p, p2, v, i + 1, had, left')
  {
    hide Entry.Present;
    var q := v + i;
    assert i > 0 ==> (q % 1024 == 0 <==> (q - 1) / 1024 < q / 1024);
    assert (q - 1) / 1024 <= q / 1024 <= (q - 1) / 1024 + 1;
  }

  /** Mapping the range succeeds: the slot is free, nothing there is mapped, and there are frames for the tables. */
  ghost predicate CanMapRange(s: State, d: nat, v: nat, n: nat, slotUsed: bool)
    requires Full(s.mem) && d < PAGES && v + n <= PAGES
  {
    && (n > 0 ==> !slotUsed)
    && Unmapped(s.mem, d, v, n)
    && NewTables(s.mem[d], v, n) <= |s.avail|
  }

  lemma TablesMadeCount(p: Page, p': Page, v: nat, i: nat, had: nat, left: nat)
    requires v + i <= PAGES && TablesMade(p, p', v, i, had, left)
    ensures NewTables(p, v, i) <= had
  {
  }

  /** Without a frame for a missing table the range needs more tables than there were frames. */
  lemma RangeFails(p: Page, p': Page, v: nat, i: nat, n: nat, had: nat, left: nat)
    requires i < n && v + n <= PAGES && TablesMade(p, p', v, i, had, left)
    ensures left == 0 && !p'[(v + i) / 1024].Present() ==> NewTables(p, v, n) > had
  {
    hide Entry.Present, FirstMet;
    TablesMadeNext(p, p', p', v, i, had, left, left);
    NewTablesGrow(p, v, i + 1, n);
  }

  /** The flat map after `map_page`, whatever the slot contains. */
  lemma MappedWalks(s: State, d: nat, v: nat, t: nat, frame: nat, writable: bool, user: bool, slot: Entry)
    requires CanReach(s, d, v, t) && Walk(s.mem, d, v) == None
    ensures CanMap(s, d, v, t)
    ensures var r := Mapped(s, d, v, t, frame, writable, user);
            && r.identity in r.mem && Inv(WithSlot(r, slot)) && r.dirs == s.dirs
            && OnlyAt(s.mem, WithSlot(r, slot).mem, d, v)
            && MapsTo(WithSlot(r, slot).mem, d, v, frame, writable, user)
            && NothingLost(s.dirs, s.mem, WithSlot(r, slot).mem)
            && (2 <= v / 1024 < ALIAS ==> OthersSame(s.dirs, s.mem, WithSlot(r, slot).mem, d))
  {
    hide Entry.Present, Entry.Writable, Entry.User, Filled, EnsureTable, Inv, Walk, Mapped;
    Reached(s, d, v, t);
    MapPageEffect(s, d, v, t, frame, writable, user);
    var r := Mapped(s, d, v, t, frame, writable, user);
    WithSlotKeeps(r, slot);
    IdentityInWindow(s);
    IdentityInWindow(WithSlot(r, slot));
    forall e, v': nat | e in s.dirs && e < PAGES && v' < PAGES && !Window(v' / 1024) && Walk(s.mem, e, v').Some?
      ensures Walk(WithSlot(r, slot).mem, e, v') == Walk(s.mem, e, v')
    {
      MapPageLosesNothing(s, d, v, t, frame, writable, user, e, v');
    }
    forall e, v': nat | e in s.dirs && e < PAGES && e != d && v' < PAGES && !Window(v' / 1024) && 2 <= v / 1024 < ALIAS
      ensures Walk(WithSlot(r, slot).mem, e, v') == Walk(s.mem, e, v')
    {
      MapPageElsewhere(s, d, v, t, frame, writable, user, e, v');
    }
  }

  /** `p` with its first `k` entries replaced by those of `q`. */
  function Overwritten(p: Page, q: Page, k: nat): Page
    requires k <= 1024
  {
    q[..k] + p[k..]
  }

  lemma OverwrittenNext(p: Page, q: Page, k: nat)
    requires k < 1024
    ensures Overwritten(p, q, k + 1) == Overwritten(p, q, k)[k := q[k]]
  {
  }

  lemma FullAt(m: Phys, f: nat)
    requires Full(m) && f < PAGES
    ensures f in m
  {
  }

  /** The open slot leads to the frame it was opened on. */
  lemma SlotReaches(s: State, d: nat, t: nat)
    requires Inv(s) && d in s.dirs && s.identity in s.mem && SlotEntry(s).Present() && SlotEntry(s).frame == t
    ensures d < PAGES && d in s.mem && s.mem[d][0].frame == s.identity
    ensures Walk(s.mem, d, TEMP).Some? && Walk(s.mem, d, TEMP).value.frame == t
  {
  }

  /** Zeroing the linked table through the slot completes `EnsureTable`. */
  lemma EnsuredState(s: State, d: nat, i: nat, t: nat, slot: Entry)
    requires Inv(s) && d in s.dirs && i < 1024 && !Window(i) && t in s.avail
    requires d in s.mem && !s.mem[d][i].Present()
    ensures var l := Linked(s, d, i, t);
            var u := EnsureTable(s, d, i, t);
            && Inv(u) && s.identity in s.mem && u.identity in u.mem
            && WithSlot(l, slot).(mem := WithSlot(l, slot).mem[t := ZeroPage()]) == WithSlot(u, slot)
            && u.mem[d][i].frame == t && d in u.mem
  {
    hide Entry.Present, Filled, Inv;
    IdentityInWindow(s);
    EnsureTableKeeps(s, d, i, t);
    LinkedKeeps(s, d, i, t);
  }

  lemma IdentityInWindow(s: State)
    requires Inv(s)
    ensures 1 <= s.identity < TEMP && s.identity in s.mem && Full(s.mem)
  {
  }

  lemma DirInWindow(s: State, d: nat)
    requires Inv(s) && d in s.dirs
    ensures 1 <= d < TEMP && d in s.mem && d != s.identity && s.mem[d][0].frame == s.identity
  {
  }

  lemma EnsureTablePresent(s: State, d: nat, i: nat, t: nat)
    requires d in s.mem && i < 1024 && s.mem[d][i].Present()
    ensures EnsureTable(s, d, i, t) == s
  {
  }

  /** Clearing the entry of page 0 behind an open or released slot. */
  lemma NullPageCleared(s: State, slot: Entry, e: Entry)
    requires Inv(s) && !e.Present()
    ensures s.identity in s.mem && s.identity in SetEntry(s.mem, s.identity, 0, e)
    ensures var r := WithSlot(s.(mem := SetEntry(s.mem, s.identity, 0, e)), slot);
            && Inv(r) && r.mem == SetEntry(WithSlot(s, slot).mem, s.identity, 0, e) && SlotEntry(r) == slot
            && Full(r.mem) && forall d :: d in s.dirs ==> d < PAGES && Walk(r.mem, d, 0) == None
  {
    hide Entry.Present, Inv;
    SetIdentityEntry(s, 0, e);
    var z := s.(mem := SetEntry(s.mem, s.identity, 0, e));
    WithSlotKeeps(z, slot);
    IdentityInWindow(s);
    IdentityInWindow(WithSlot(z, slot));
    var p := s.mem[s.identity];
    assert p[0 := e][TEMP := slot] == p[TEMP := slot][0 := e];
    assert WithSlot(z, slot).mem == SetEntry(WithSlot(s, slot).mem, s.identity, 0, e);
    forall d | d in s.dirs
      ensures d < PAGES && Walk(WithSlot(z, slot).mem, d, 0) == None
    {
      DirInWindow(WithSlot(z, slot), d);
    }
  }
}
