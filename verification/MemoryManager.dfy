/**
 * The memory manager at work: every table is reached through the virtual memory it describes, directories
 * through the identity window and page tables through the one temporary slot.
 */
module MemoryManager {
  import opened Options
  import opened TableEntry
  import opened FrameBitmap
  import opened Paging
  import opened AddressSpaces
  import opened FrameRuns
  import opened TempSlot
  import opened Cloning
  import opened MemoryMap

  /** `Panic` stands for a failed assertion, the others for the error codes. */
  datatype Outcome = Done | InUse | Invalid | InvalidSize | Panic

  /** Directories of processes lie between 3 MB and the temporary page. */
  const DIRECTORIES_START: nat := 768
  const DIRECTORIES_END: nat := 1023

  class MemoryManager {
    var phys: Phys
    const frames: FrameBitmap
    /** The directory being edited, and the one the processor translates with. */
    var dir: nat
    var cr3: nat
    var tempUsed: bool
    /** The next frame to become a page directory. */
    var nextDir: nat
    ghost var dirs: set<nat>
    ghost var identity: nat
    ghost var owner: map<nat, nat>
    ghost var held: map<Slot, nat>

    ghost function S(): State
      requires frames.Valid()
      reads this, frames.bitmap
    {
      State(phys, dirs, identity, owner, frames.Available(), held)
    }

    ghost predicate Valid()
      reads this, frames.bitmap
    {
      && frames.Valid() && Inv(S()) && dir in dirs && cr3 in dirs
      && (tempUsed ==> SlotEntry(S()).Present())
      && identity < nextDir && forall d :: d in dirs ==> d < nextDir
    }

    /** Takes over the tables of the boot code; no frame is available yet. */
    constructor (mem: Phys, d: nat, ghost ident: nat)
      requires Booted(State(mem, {d}, ident, map[], {}, map[]), d)
      requires d < DIRECTORIES_START && ident < DIRECTORIES_START
      ensures Valid() && !tempUsed && fresh(frames.bitmap)
      ensures S() == State(mem, {d}, ident, map[], {}, map[])
    {
      hide Inv;
      var bitmap := new FrameBitmap();
      phys, dir, cr3, tempUsed, nextDir, frames := mem, d, d, false, DIRECTORIES_START, bitmap;
      dirs, identity, owner, held := {d}, ident, map[], map[];
      new;
      BootInv(S(), d);
    }

    /**
     * One available region of the memory map: its frames from 5 MB up become available. An assertion fails when one of
     * them is not aligned.
     */
    method MarkRegion(base: nat, len: nat) returns (ok: bool)
      requires Valid() && owner == map[] && held == map[]
      requires 4096 <= base + len <= 4096 * FRAMES
      modifies frames.bitmap
      ensures ok == (base % 4096 == 0 || RegionFrames(base, len) == {})
      ensures ok ==> Valid() && S() == old(S()).(avail := old(frames.Available()) + RegionFrames(base, len))
    {
      hide Inv, FramesOf;
      var at := base;
      ghost var first, k := base / 4096, 0;
      while at <= base + len - 4096
        invariant at == base + 4096 * k && k <= len / 4096 && Valid()
        invariant k > 0 && base % 4096 != 0 ==> FramesBetween(first, first + k) == {}
        invariant S() == old(S()).(avail := old(frames.Available()) + FramesBetween(first, first + k))
        decreases base + len - at
      {
        assert at / 4096 == first + k && at % 4096 == base % 4096;
        OneMoreFrame(first, first + k);
        if at >= 4096 * FIRST_FREE_FRAME {
          if at % 4096 != 0 {
            assert first + k in RegionFrames(base, len);
            return false;
          }
          MoreFrames(S(), at / 4096);
          frames.SetFrame(at / 4096, true);
          var available := frames.IsFrameAvailable(at / 4096);
          assert available;
        }
        at, k := at + 4096, k + 1;
      }
      ok := true;
    }

    /** `disable_page` of page 0: the entry is cleared through the slot, so that null pointers fault in every directory. */
    method DisableNullPage() returns (ok: bool)
      requires Valid()
      modifies this`phys, this`tempUsed
      ensures old(identity) in old(phys) && ok == !old(tempUsed)
      ensures ok ==>
                && Valid() && !tempUsed && Full(phys)
                && S() == WithSlot(old(S()).(mem := SetEntry(old(phys), identity, 0, Released(old(phys)[identity][0]))),
                                   Released(old(SlotEntry(S()))))
                && forall d :: d in dirs ==> d < PAGES && Walk(phys, d, 0) == None
    {
      hide Entry.Present, Walk, Inv, Filled;
      ghost var s := S();
      IdentityInWindow(s);
      DirInWindow(s, dir);
      var pde := GetPde(dir, 0);
      ok := TempMap(pde.frame);
      if !ok {
        return;
      }
      ghost var slot := Opened(SlotEntry(s), identity);
      SlotReaches(S(), cr3, identity);
      IdentityInWindow(S());
      var pte := Load(TEMP, 0);
      assert pte == s.mem[identity][0];
      Store(TEMP, 0, Released(pte));
      NullPageCleared(s, slot, Released(pte));
      UnTempMap();
      ReleasedOpened(SlotEntry(s), identity);
      NullPageCleared(s, Released(slot), Released(pte));
      SlotTwice(s.(mem := SetEntry(s.mem, identity, 0, Released(pte))), slot, Released(slot));
    }

    /**
     * `init`: the frames of the available regions of the memory map, from 5 MB up, become available, and page 0 is
     * disabled. Regions above 4 GB and frames that are not aligned fail assertions.
     */
    method Init(regions: seq<Region>) returns (ok: bool)
      requires Valid() && !tempUsed && owner == map[] && held == map[]
      requires forall r :: r in regions ==> Addressable(r)
      modifies this`phys, this`tempUsed, frames.bitmap
      ensures ok == (forall r :: r in regions && r.available ==> Below4GB(r) && Aligned(r))
      ensures ok ==>
                && Valid() && !tempUsed && Full(phys)
                && frames.Available() == old(frames.Available()) + AllFrames(regions)
                && forall d :: d in dirs ==> d < PAGES && Walk(phys, d, 0) == None
    {
      hide Inv, Walk, Filled, RegionFrames;
      var i := 0;
      assert regions[..0] == [];
      while i < |regions|
        invariant 0 <= i <= |regions| && Valid() && !tempUsed
        invariant frames.Available() == old(frames.Available()) + AllFrames(regions[..i])
        invariant forall j :: 0 <= j < i && regions[j].available ==> Below4GB(regions[j]) && Aligned(regions[j])
      {
        var r := regions[i];
        assert r in regions;
        AllFramesNext(regions, i);
        if r.available {
          if r.base / 0x1_0000_0000 != 0 || r.len / 0x1_0000_0000 != 0 {
            return false;
          }
          var marked := MarkRegion(r.base, r.len);
          if !marked {
            return false;
          }
        }
        i := i + 1;
      }
      assert regions[..i] == regions;
      ok := DisableNullPage();
    }

    /** `the`: the directory to edit, not necessarily the active one. */
    method Select(d: nat)
      requires Valid() && d in dirs
      modifies this`dir
      ensures Valid() && dir == d && S() == old(S())
    {
      dir := d;
    }

    /** Entry `k` of virtual page `v`, as the processor reads it. */
    method Load(v: nat, k: nat) returns (e: Entry)
      requires Full(phys) && cr3 < PAGES && v < PAGES && k < 1024
      requires Walk(phys, cr3, v).Some? && Walk(phys, cr3, v).value.frame < PAGES
      ensures e == phys[Walk(phys, cr3, v).value.frame][k]
    {
      var w := Walk(phys, cr3, v);
      e := phys[w.value.frame][k];
    }

    method Store(v: nat, k: nat, e: Entry)
      requires Full(phys) && cr3 < PAGES && v < PAGES && k < 1024
      requires Walk(phys, cr3, v).Some? && Walk(phys, cr3, v).value.frame < PAGES
      modifies this`phys
      ensures phys == SetEntry(old(phys), old(Walk(phys, cr3, v)).value.frame, k, e)
    {
      var w := Walk(phys, cr3, v);
      phys := SetEntry(phys, w.value.frame, k, e);
    }

    /** `get_pde` on the directory `d` */
    method GetPde(d: nat, i: nat) returns (e: Entry)
      requires Valid() && d in dirs && i < 1024
      ensures d in phys && e == phys[d][i]
    {
      hide Entry.Present, Walk;
      assert DirOk(S(), d);
      WindowWalk(S(), cr3, d);
      e := Load(d, i);
    }

    /** `ensure_pte(TEMPMAP_ADDR, false, false)`: the table of the slot is reached through the window. */
    method SlotTable() returns (page: nat)
      requires Valid()
      ensures page == identity
    {
      hide Entry.Present, Walk;
      assert DirOk(S(), dir);
      var pde := GetPde(dir, TEMP / 1024);
      page := pde.frame;
    }

    /** The slot's entry is rewritten in place. */
    method SetSlot(e: Entry, used: bool)
      requires Valid() && (used ==> e.Present())
      modifies this`phys, this`tempUsed
      ensures old(identity) in old(phys) && S() == WithSlot(old(S()), e) && tempUsed == used && Valid()
    {
      hide Entry.Present, Walk, Inv;
      WithSlotKeeps(S(), e);
      var page := SlotTable();
      IdentityInWindow(S());
      WindowWalk(S(), cr3, page);
      Store(page, TEMP % 1024, e);
      tempUsed := used;
    }

    method LoadSlot() returns (e: Entry)
      requires Valid()
      ensures identity in phys && e == SlotEntry(S())
    {
      hide Entry.Present, Walk, Inv;
      var page := SlotTable();
      IdentityInWindow(S());
      WindowWalk(S(), cr3, page);
      e := Load(page, TEMP % 1024);
    }

    /** `temp_map`: fails its assertion exactly when the slot is in use. */
    method TempMap(f: nat) returns (ok: bool)
      requires Valid()
      modifies this`phys, this`tempUsed
      ensures Valid() && ok == !old(tempUsed)
      ensures old(identity) in old(phys)
      ensures !ok ==> S() == old(S()) && tempUsed
      ensures ok ==> tempUsed && S() == WithSlot(old(S()), Opened(old(SlotEntry(S())), f))
    {
      hide Entry.Present, Walk, Inv, Filled;
      IdentityInWindow(S());
      if tempUsed {
        return false;
      }
      var e := LoadSlot();
      SetSlot(Opened(e, f), true);
      ok := true;
    }

    /** `un_temp_map` */
    method UnTempMap()
      requires Valid()
      modifies this`phys, this`tempUsed
      ensures old(identity) in old(phys)
      ensures Valid() && !tempUsed && S() == WithSlot(old(S()), Released(old(SlotEntry(S()))))
    {
      hide Entry.Present, Walk, Inv, Filled;
      IdentityInWindow(S());
      var e := LoadSlot();
      SetSlot(Released(e), false);
    }

    /** Writes `p` to the page behind the slot, entry by entry. */
    method FillSlotPage(p: Page)
      requires Full(phys) && cr3 < PAGES && Walk(phys, cr3, TEMP).Some?
      requires var f := Walk(phys, cr3, TEMP).value.frame; f < PAGES && f != cr3 && f != phys[cr3][0].frame
      modifies this`phys
      ensures phys == old(phys)[old(Walk(phys, cr3, TEMP)).value.frame := p]
    {
      hide Walk, Full;
      ghost var m, f := phys, Walk(phys, cr3, TEMP).value.frame;
      var k := 0;
      FullAt(m, f);
      assert m == m[f := m[f]] && m[f] == Overwritten(m[f], p, 0);
      while k < 1024
        invariant 0 <= k <= 1024 && f in m && phys == m[f := Overwritten(m[f], p, k)]
      {
        SlotWalkFrame(m, cr3, f, Overwritten(m[f], p, k));
        Store(TEMP, k, p[k]);
        OverwrittenNext(m[f], p, k);
        k := k + 1;
      }
      assert Overwritten(m[f], p, 1024) == p;
    }

    /** The directory entry `i` gets a fresh table, still with whatever the frame contained. */
    method LinkTable(i: nat, pde: Entry) returns (got: bool, t: nat)
      requires Valid() && i < 1024 && !Window(i) && dir in phys && pde == phys[dir][i] && !pde.Present()
      modifies this`phys, this`owner, frames.bitmap
      ensures got == (old(frames.Available()) != {})
      ensures !got ==> frames.Available() == {}
      ensures got ==> t in old(frames.Available()) && Valid() && S() == Linked(old(S()), dir, i, t)
    {
      hide Entry.Present, Walk, Inv, Filled, EnsureTable;
      ghost var s := S();
      IdentityInWindow(s);
      DirInWindow(s, dir);
      WindowWalk(s, cr3, dir);
      DirInWindow(s, cr3);
      got, t := frames.GetFreeFrame();
      if got {
        LinkedKeeps(s, dir, i, t);
        Store(dir, i, Filled(pde, t, true, true, true));
        owner := owner[t := i];
        assert S() == Linked(s, dir, i, t);
      }
    }

    /**
     * `ensure_pte`: opens the slot on the table of `v`, creating the table when there is none; fails when the
     * slot is in use or no frame is left for the table.
     */
    method EnsurePte(v: nat) returns (ok: bool, ghost t: nat)
      requires Valid() && v < PAGES && !Window(v / 1024)
      modifies this`phys, this`tempUsed, this`owner, frames.bitmap
      ensures old(dir) in old(phys) && old(identity) in old(phys)
      ensures ok == (!old(tempUsed) && (old(phys)[dir][v / 1024].Present() || old(frames.Available()) != {}))
      ensures !ok && !old(tempUsed) ==> frames.Available() == {}
      ensures ok ==> Valid() && tempUsed && CanReach(old(S()), dir, v, t)
      ensures ok ==> var u := EnsureTable(old(S()), dir, v / 1024, t);
                     && dir in u.mem && u.identity in u.mem
                     && S() == WithSlot(u, Opened(old(SlotEntry(S())), u.mem[dir][v / 1024].frame))
    {
      hide Entry.Present, Walk, Inv, Filled, EnsureTable;
      ghost var s := S();
      IdentityInWindow(s);
      DirInWindow(s, dir);
      var pde := GetPde(dir, v / 1024);
      var newTable := !pde.Present();
      var table := pde.frame;
      t := 0;
      if newTable {
        var got;
        got, table := LinkTable(v / 1024, pde);
        if !got {
          return false, 0;
        }
        t := table;
      } else {
        EnsureTablePresent(s, dir, v / 1024, t);
      }
      ok := TempMap(table);
      if ok && newTable {
        ZeroTable(s, v / 1024, t);
      }
    }

    /** The fresh table is zeroed through the slot. */
    method ZeroTable(ghost s: State, i: nat, ghost t: nat)
      requires Valid() && Inv(s) && dir in s.dirs && i < 1024 && !Window(i) && t in s.avail
      requires dir in s.mem && !s.mem[dir][i].Present() && s.identity in s.mem && tempUsed
      requires S() == WithSlot(Linked(s, dir, i, t), Opened(SlotEntry(s), t))
      modifies this`phys
      ensures var u := EnsureTable(s, dir, i, t);
              && Valid() && dir in u.mem && u.identity in u.mem && u.mem[dir][i].frame == t
              && S() == WithSlot(u, Opened(SlotEntry(s), t))
    {
      hide Entry.Present, Walk, Inv, Filled, EnsureTable;
      ghost var slot := Opened(SlotEntry(s), t);
      FreshTable(s, t);
      EnsuredState(s, dir, i, t, slot);
      SlotReaches(S(), cr3, t);
      IdentityInWindow(S());
      FillSlotPage(ZeroPage());
      WithSlotKeeps(EnsureTable(s, dir, i, t), slot);
    }

    /** Writes an entry of the table behind the slot. */
    method StorePte(ghost x: Slot, k: nat, e: Entry)
      requires Valid() && tempUsed && identity in phys && SlotEntry(S()).frame == x.table
      requires x.table in owner && x.index == k < 1024 && x !in held
      modifies this`phys
      ensures Valid() && x.table in old(phys) && S() == PutEntry(old(S()), x, e, held, frames.Available())
    {
      hide Entry.Present, Walk, Inv;
      TableApart(S(), x.table);
      IdentityInWindow(S());
      SlotReaches(S(), cr3, x.table);
      PutFree(S(), x, e);
      Store(TEMP, k, e);
    }

    /**
     * `map_page`: maps a page that is not mapped yet, in the edited directory and nowhere else in it. A mapped page
     * is reported with the slot still open.
     */
    method MapPage(v: nat, frame: nat, writable: bool, user: bool) returns (r: Outcome, ghost t: nat)
      requires Valid() && v < PAGES && !Window(v / 1024)
      modifies this`phys, this`tempUsed, this`owner, frames.bitmap
      ensures old(dir) < PAGES && Full(old(phys)) && old(identity) in old(phys)
      ensures r == Panic <==> old(tempUsed) || (!old(phys)[dir][v / 1024].Present() && old(frames.Available()) == {})
      ensures r == InUse <==> r != Panic && Walk(old(phys), dir, v).Some?
      ensures r in {Panic, InUse, Done}
      ensures r != Panic ==> Valid() && CanReach(old(S()), dir, v, t)
      ensures r == InUse ==> tempUsed && S() == WithSlot(old(S()), Opened(old(SlotEntry(S())), old(phys)[dir][v / 1024].frame))
      ensures r == Done ==>
                && !tempUsed && CanMap(old(S()), dir, v, t)
                && S() == WithSlot(Mapped(old(S()), dir, v, t, frame, writable, user), Released(old(SlotEntry(S()))))
      ensures r == Done ==>
                && OnlyAt(old(phys), phys, dir, v) && MapsTo(phys, dir, v, frame, writable, user)
                && NothingLost(dirs, old(phys), phys)
                && (2 <= v / 1024 < ALIAS ==> OthersSame(dirs, old(phys), phys, dir))
                && OneTable(old(phys)[dir], phys[dir], v / 1024)
                && |frames.Available()| + (if old(phys)[dir][v / 1024].Present() then 0 else 1) == |old(frames.Available())|
    {
      hide Entry.Present, Walk, Inv, Filled, EnsureTable, Mapped, MapsTo, OnlyAt, NothingLost, OthersSame;
      ghost var s := S();
      IdentityInWindow(s);
      DirInWindow(s, dir);
      var ok;
      ok, t := EnsurePte(v);
      if !ok {
        return Panic, t;
      }
      Reached(s, dir, v, t);
      ghost var u := EnsureTable(s, dir, v / 1024, t);
      ghost var x := SlotOf(u, dir, v);
      SlotReaches(S(), cr3, x.table);
      IdentityInWindow(S());
      var pte := Load(TEMP, v % 1024);
      if pte.Present() {
        return InUse, t;
      }
      NotHeld(u, x);
      StorePte(x, v % 1024, Filled(pte, frame, true, writable, user));
      ghost var slot := Opened(SlotEntry(s), x.table);
      MappedThroughSlot(s, dir, v, t, frame, writable, user, slot);
      UnTempMap();
      r := Done;
      ReleasedOpened(SlotEntry(s), x.table);
      MappedWalks(s, dir, v, t, frame, writable, user, Released(slot));
      MappedTables(s, dir, v, t, frame, writable, user, Released(slot));
      SlotTwice(Mapped(s, dir, v, t, frame, writable, user), slot, Released(slot));
    }

    /**
     * `deallocate`: the page is mapped no more, every other page of the directory as before, and the frame is available
     * again if the caller says so. Only a page that holds its frame may give it back.
     */
    method Deallocate(v: nat, freePage: bool) returns (r: Outcome)
      requires Valid() && v < PAGES && !Window(v / 1024)
      requires freePage ==> dir in phys && SlotOf(S(), dir, v) in held
      modifies this`phys, this`tempUsed, this`owner, this`held, frames.bitmap
      ensures old(dir) < PAGES && Full(old(phys)) && old(identity) in old(phys)
      ensures r == if old(tempUsed) || Walk(old(phys), dir, v) == None then Panic else Done
      ensures r == Done ==>
                && Valid() && !tempUsed && SlotOf(old(S()), dir, v).table in old(phys)
                && S() == WithSlot(Deallocated(old(S()), dir, v, freePage), Released(old(SlotEntry(S()))))
                && OnlyAt(old(phys), phys, dir, v) && Walk(phys, dir, v) == None
                && (2 <= v / 1024 < ALIAS ==> OthersSame(dirs, old(phys), phys, dir))
                && held == old(held) - {SlotOf(old(S()), dir, v)}
                && frames.Available() == if freePage then old(frames.Available()) + {old(held[SlotOf(S(), dir, v)])} else old(frames.Available())
    {
      hide Entry.Present, Walk, Inv, Filled, EnsureTable, Deallocated, OnlyAt, OthersSame;
      ghost var s := S();
      IdentityInWindow(s);
      DirInWindow(s, dir);
      NoTableNoPage(s, dir, v);
      var ok, t := EnsurePte(v);
      if !ok {
        return Panic;
      }
      Reached(s, dir, v, t);
      ghost var x := SlotOf(EnsureTable(s, dir, v / 1024, t), dir, v);
      SlotReaches(S(), cr3, x.table);
      IdentityInWindow(S());
      var pte := Load(TEMP, v % 1024);
      if !pte.Present() {
        return Panic;
      }
      ghost var slot := Opened(SlotEntry(s), x.table);
      if freePage {
        HeldFrame(S(), x);
        frames.SetFrame(pte.frame, true);
      }
      DropHeld(WithSlot(s, slot), x, pte.frame, freePage);
      held := held - {x};
      assert S() == Dropped(WithSlot(s, slot), x, pte.frame, freePage);
      StorePte(x, v % 1024, ZERO);
      DeallocatedThroughSlot(s, dir, v, freePage, slot);
      UnTempMap();
      r := Done;
      ReleasedOpened(SlotEntry(s), x.table);
      DeallocatedWalks(s, dir, v, freePage, Released(slot));
      SlotTwice(Deallocated(s, dir, v, freePage), slot, Released(slot));
    }

    /**
     * `allocate`: takes a frame, then maps the page to it. Its assertions fail exactly when the slot is in use, the page
     * is mapped already, or the frames do not suffice for the page and a table it may need.
     */
    method Allocate(v: nat, writable: bool, user: bool) returns (r: Outcome, ghost f: nat, ghost t: nat)
      requires Valid() && v < PAGES && !Window(v / 1024)
      modifies this`phys, this`tempUsed, this`owner, this`held, frames.bitmap
      ensures old(dir) < PAGES && Full(old(phys)) && old(identity) in old(phys)
      ensures r in {Done, Panic}
      ensures r == Done <==>
                && !old(tempUsed) && Walk(old(phys), dir, v) == None && old(frames.Available()) != {}
                && (old(phys)[dir][v / 1024].Present() || old(frames.Available()) != {f})
      ensures old(frames.Available()) != {} ==> f in old(frames.Available()) && forall g :: g in old(frames.Available()) ==> f <= g
      ensures r == Done ==>
                && Valid() && !tempUsed && CanMap(old(S()).(avail := old(frames.Available()) - {f}), dir, v, t)
                && S() == WithSlot(Allocated(old(S()), dir, v, f, t, writable, user), Released(old(SlotEntry(S()))))
      ensures r == Done ==>
                && OnlyAt(old(phys), phys, dir, v) && MapsTo(phys, dir, v, f, writable, user)
                && NothingLost(dirs, old(phys), phys)
                && (2 <= v / 1024 < ALIAS ==> OthersSame(dirs, old(phys), phys, dir))
    {
      hide Entry.Present, Walk, Inv, Filled, EnsureTable, Allocated, MapsTo, OnlyAt, NothingLost, OthersSame;
      ghost var s := S();
      IdentityInWindow(s);
      DirInWindow(s, dir);
      t := 0;
      var ok, frame := frames.GetFreeFrame();
      f := frame;
      if !ok {
        return Panic, f, t;
      }
      TakeFrameKeeps(s, f);
      assert S() == s.(avail := s.avail - {f});
      r, t := MapTaken(s, v, frame, writable, user);
    }

    /** The page is mapped to the frame `f` just taken, and from then on holds it. */
    method MapTaken(ghost s: State, v: nat, f: nat, writable: bool, user: bool) returns (r: Outcome, ghost t: nat)
      requires Valid() && v < PAGES && !Window(v / 1024) && Inv(s) && f in s.avail && S() == s.(avail := s.avail - {f})
      modifies this`phys, this`tempUsed, this`owner, this`held, frames.bitmap
      ensures old(dir) < PAGES && Full(s.mem) && s.identity in s.mem && r in {Done, Panic}
      ensures r == Done <==>
                !old(tempUsed) && Walk(s.mem, dir, v) == None && (s.mem[dir][v / 1024].Present() || s.avail - {f} != {})
      ensures r == Done ==>
                && Valid() && !tempUsed && CanMap(s.(avail := s.avail - {f}), dir, v, t)
                && S() == WithSlot(Allocated(s, dir, v, f, t, writable, user), Released(SlotEntry(s)))
                && OnlyAt(s.mem, phys, dir, v) && MapsTo(phys, dir, v, f, writable, user)
                && NothingLost(dirs, s.mem, phys) && (2 <= v / 1024 < ALIAS ==> OthersSame(dirs, s.mem, phys, dir))
    {
      hide Entry.Present, Walk, Inv, Filled, EnsureTable, Mapped, Allocated, MapsTo, OnlyAt, NothingLost, OthersSame, OneTable;
      IdentityInWindow(s);
      DirInWindow(s, dir);
      r, t := MapPage(v, f, writable, user);
      if r == InUse {
        return Panic, t;
      }
      if r == Done {
        ghost var x := SlotOf(EnsureTable(s.(avail := s.avail - {f}), dir, v / 1024, t), dir, v);
        held := held[x := f];
        AllocatedIsMapped(s, dir, v, f, t, writable, user, Released(SlotEntry(s)));
      }
    }

    /** Reads the entry of `v` under the directory `d` through the slot: `get_physical_address`, and a step of `duplicate`. */
    method ReadPte(d: nat, v: nat) returns (ok: bool, pte: Entry)
      requires Valid() && d in dirs && v < PAGES && !Window(v / 1024)
      modifies this`phys, this`tempUsed
      ensures d < PAGES && Full(old(phys)) && old(identity) in old(phys)
      ensures ok == (!old(tempUsed) && old(phys)[d][v / 1024].Present())
      ensures ok ==> Valid() && !tempUsed && S() == WithSlot(old(S()), Released(old(SlotEntry(S()))))
      ensures ok ==> Walk(old(phys), d, v).Some? == pte.Present()
      ensures ok && pte.Present() ==> Walk(old(phys), d, v) == Some(Access(pte.frame, pte.Writable(), pte.User()))
    {
      hide Entry.Present, Walk, Inv, Filled;
      ghost var s := S();
      IdentityInWindow(s);
      DirInWindow(s, d);
      var pde := GetPde(d, v / 1024);
      pte := ZERO;
      if !pde.Present() {
        return false, pte;
      }
      ok := TempMap(pde.frame);
      if !ok {
        return;
      }
      PresentTable(s, d, v);
      SlotReaches(S(), cr3, pde.frame);
      IdentityInWindow(S());
      pte := Load(TEMP, v % 1024);
      ghost var slot := Opened(SlotEntry(s), pde.frame);
      UnTempMap();
      ReleasedOpened(SlotEntry(s), pde.frame);
      SlotTwice(s, slot, Released(slot));
    }

    /**
     * `map`: sizes and addresses in bytes. It succeeds exactly when the slot is free, no page of the range is mapped and
     * the frames suffice for the tables to be created; then the pages translate to consecutive frames, and the rest of the
     * directory is unchanged.
     */
    method Map(virtAddr: nat, physAddr: nat, size: nat, writable: bool, user: bool) returns (r: Outcome)
      requires Valid() && PagesOk(virtAddr / 4096, size / 4096)
      modifies this`phys, this`tempUsed, this`owner, frames.bitmap
      ensures old(dir) < PAGES && Full(old(phys)) && r in {InvalidSize, Invalid, Done, Panic}
      ensures r == InvalidSize <==> size % 4096 != 0
      ensures r == Invalid <==> size % 4096 == 0 && (virtAddr % 4096 != 0 || physAddr % 4096 != 0)
      ensures r in {InvalidSize, Invalid} ==> S() == old(S()) && tempUsed == old(tempUsed)
      ensures r == Done <==> size % 4096 == 0 && virtAddr % 4096 == 0 && physAddr % 4096 == 0
                             && CanMapRange(old(S()), dir, virtAddr / 4096, size / 4096, old(tempUsed))
      ensures r == Done ==>
                && Valid() && tempUsed == old(tempUsed)
                && RangeMapsTo(phys, dir, virtAddr / 4096, size / 4096, physAddr / 4096, writable, user)
                && OnlyIn(old(phys), phys, dir, virtAddr / 4096, size / 4096)
                && NothingLost(dirs, old(phys), phys)
    {
      hide Entry.Present, Walk, Inv, NewTables, Unmapped, RangeMapsTo, OnlyIn, NothingLost;
      IdentityInWindow(S());
      DirInWindow(S(), dir);
      if size % 4096 != 0 {
        return InvalidSize;
      }
      if virtAddr % 4096 != 0 || physAddr % 4096 != 0 {
        return Invalid;
      }
      r := MapRange(virtAddr / 4096, physAddr / 4096, size / 4096, writable, user);
    }

    /** The loop of `map`. */
    method MapRange(v: nat, p: nat, n: nat, writable: bool, user: bool) returns (r: Outcome)
      requires Valid() && PagesOk(v, n)
      modifies this`phys, this`tempUsed, this`owner, frames.bitmap
      ensures old(dir) < PAGES && Full(old(phys)) && r in {Done, Panic}
      ensures r == Done <==> CanMapRange(old(S()), dir, v, n, old(tempUsed))
      ensures r == Done ==>
                Valid() && tempUsed == old(tempUsed) && Full(phys) && RangeDone(dirs, old(phys), phys, dir, v, n, p, writable, user)
    {
      hide Entry.Present, Walk, Inv, OnlyAt, MapsTo, TablesMade, NewTables, OneTable;
      hide RangeDone, Unmapped, NothingLost, OthersSame, CanMap, CanReach;
      IdentityInWindow(S());
      DirInWindow(S(), dir);
      ghost var before, had := phys[dir], |frames.Available()|;
      TablesMadeNone(before, v, had);
      RangeNone(dirs, phys, dir, v, p, writable, user);
      var i := 0;
      while i < n
        invariant 0 <= i <= n && Valid() && tempUsed == old(tempUsed) && Full(phys) && (i > 0 ==> !tempUsed)
        invariant RangeDone(dirs, old(phys), phys, dir, v, i, p, writable, user)
        invariant TablesMade(before, phys[dir], v, i, had, |frames.Available()|)
      {
        ghost var m, page, left := phys, phys[dir], |frames.Available()|;
        RangeStillToCome(dirs, old(phys), phys, dir, v, i, n, p, writable, user);
        var rc, t := MapPage(v + i, p + i, writable, user);
        if rc != Done {
          RangeFails(before, page, v, i, n, had, left);
          return Panic;
        }
        IdentityInWindow(S());
        TablesMadeNext(before, page, phys[dir], v, i, had, left, |frames.Available()|);
        RangeNext(dirs, old(phys), m, phys, dir, v, i, p, writable, user);
        i := i + 1;
      }
      r := Done;
      TablesMadeCount(before, phys[dir], v, n, had, |frames.Available()|);
      RangeUnmapped(dirs, old(phys), phys, dir, v, n, p, writable, user);
    }

    /** One page of `duplicate`. */
    method DuplicatePage(other: nat, src: nat, dst: nat) returns (ok: bool)
      requires Valid() && other in dirs && src < PAGES && dst < PAGES && !Window(src / 1024) && !Window(dst / 1024)
      modifies this`phys, this`tempUsed, this`owner, frames.bitmap
      ensures old(dir) < PAGES && Full(old(phys)) && other < PAGES
      ensures ok ==>
                && Valid() && !tempUsed && !old(tempUsed) && Full(phys) && OnlyAt(old(phys), phys, dir, dst)
                && Walk(old(phys), other, src).Some?
                && MapsTo(phys, dir, dst, Walk(old(phys), other, src).value.frame, true, true)
                && NothingLost(dirs, old(phys), phys)
                && (2 <= dst / 1024 < ALIAS ==> OthersSame(dirs, old(phys), phys, dir))
                && OneTable(old(phys)[dir], phys[dir], dst / 1024)
                && |frames.Available()| + (if old(phys)[dir][dst / 1024].Present() then 0 else 1) == |old(frames.Available())|
      ensures ok == (&& !old(tempUsed) && Readable(old(phys), other, src) && Walk(old(phys), dir, dst) == None
                     && (old(phys)[dir][dst / 1024].Present() || old(frames.Available()) != {}))
    {
      hide Entry.Present, Walk, Inv, Filled, EnsureTable, Mapped, MapsTo, OneTable, CanMap;
      ghost var s := S();
      IdentityInWindow(s);
      DirInWindow(s, dir);
      DirInWindow(s, other);
      NoTableNoPage(s, other, src);
      var pte;
      ok, pte := ReadPte(other, src);
      if !ok || !pte.Present() || !pte.User() {
        return false;
      }
      WithSlotKeeps(s, Released(SlotEntry(s)));
      IdentityInWindow(S());
      var rc, t := MapPage(dst, pte.frame, true, true);
      ok := rc == Done;
      if ok {
        IdentityInWindow(S());
      }
    }

    /**
     * `duplicate`: shares `size` bytes of the directory `other` with the edited directory. On success every page of the
     * destination leads to the frame of its source page, no directory lost a translation, and when the destination lies
     * in private memory no other directory, the owner's included, changed at all. Between two different directories it
     * then succeeds exactly when every source page is readable and the destination can be mapped.
     */
    method Duplicate(other: nat, srcAddr: nat, size: nat, dstAddr: nat) returns (r: Outcome)
      requires Valid() && other in dirs && PagesOk(srcAddr / 4096, size / 4096) && PagesOk(dstAddr / 4096, size / 4096)
      modifies this`phys, this`tempUsed, this`owner, frames.bitmap
      ensures old(dir) < PAGES && Full(old(phys)) && other < PAGES && r in {Invalid, Done, Panic}
      ensures r == Invalid <==> srcAddr % 4096 != 0 || size % 4096 != 0
      ensures r == Invalid ==> S() == old(S()) && tempUsed == old(tempUsed)
      ensures r == Done ==>
                && Valid() && tempUsed == old(tempUsed)
                && SharesFrames(phys, other, srcAddr / 4096, dir, dstAddr / 4096, size / 4096)
                && NothingLost(dirs, old(phys), phys)
                && OnlyIn(old(phys), phys, dir, dstAddr / 4096, size / 4096)
                && (PrivateRange(dstAddr / 4096, size / 4096) ==> OthersSame(dirs, old(phys), phys, dir))
                && CanMapRange(old(S()), dir, dstAddr / 4096, size / 4096, old(tempUsed))
      ensures PrivateRange(dstAddr / 4096, size / 4096) && other != dir && r != Invalid ==>
                (r == Done <==> && RangeReadable(old(phys), other, srcAddr / 4096, size / 4096)
                                && CanMapRange(old(S()), dir, dstAddr / 4096, size / 4096, old(tempUsed)))
    {
      hide Entry.Present, Walk, Inv, SharesFrames, NothingLost, OnlyIn, OnlyAt, OthersSame, Unmapped, MapsTo;
      hide TablesMade, NewTables, OneTable, Readable, RangeReadable, PrivateRange;
      IdentityInWindow(S());
      DirInWindow(S(), dir);
      DirInWindow(S(), other);
      if srcAddr % 4096 != 0 || size % 4096 != 0 {
        return Invalid;
      }
      r := DuplicatePages(other, srcAddr / 4096, size / 4096, dstAddr / 4096);
    }

    /** The loop of `duplicate`. */
    method DuplicatePages(other: nat, src: nat, n: nat, dst: nat) returns (r: Outcome)
      requires Valid() && other in dirs && PagesOk(src, n) && PagesOk(dst, n)
      modifies this`phys, this`tempUsed, this`owner, frames.bitmap
      ensures old(dir) < PAGES && Full(old(phys)) && other < PAGES && r in {Done, Panic}
      ensures r == Done ==>
                && Valid() && tempUsed == old(tempUsed) && Full(phys) && Shared(dirs, old(phys), phys, other, src, dir, dst, n)
                && CanMapRange(old(S()), dir, dst, n, old(tempUsed))
      ensures r == Panic && PrivateRange(dst, n) && other != dir ==>
                !RangeReadable(old(phys), other, src, n) || !CanMapRange(old(S()), dir, dst, n, old(tempUsed))
    {
      hide Entry.Present, Walk, Inv, OnlyAt, MapsTo, TablesMade, NewTables, OneTable, Readable, RangeReadable;
      hide Shared, Unmapped, PrivateRange, NothingLost, OthersSame;
      IdentityInWindow(S());
      DirInWindow(S(), dir);
      DirInWindow(S(), other);
      ghost var before, had := phys[dir], |frames.Available()|;
      TablesMadeNone(before, dst, had);
      SharedNone(dirs, phys, other, src, dir, dst);
      var i := 0;
      while i < n
        invariant 0 <= i <= n && Valid() && tempUsed == old(tempUsed) && Full(phys) && (i > 0 ==> !tempUsed)
        invariant Shared(dirs, old(phys), phys, other, src, dir, dst, i)
        invariant TablesMade(before, phys[dir], dst, i, had, |frames.Available()|)
      {
        ghost var m, page, left := phys, phys[dir], |frames.Available()|;
        var ok := DuplicatePage(other, src + i, dst + i);
        if !ok {
          SharedFails(dirs, old(phys), m, other, src, dir, dst, i, n);
          RangeFails(before, page, dst, i, n, had, left);
          return Panic;
        }
        IdentityInWindow(S());
        TablesMadeNext(before, page, phys[dir], dst, i, had, left, |frames.Available()|);
        SharedNext(dirs, old(phys), m, phys, other, src, dir, dst, i);
        i := i + 1;
      }
      r := Done;
      TablesMadeCount(before, phys[dir], dst, n, had, |frames.Available()|);
      SharedUnmapped(dirs, old(phys), phys, other, src, dir, dst, n);
    }

    /** `copy_from_physical_frame` */
    method ReadFrame(f: nat) returns (ok: bool, p: Page)
      requires Valid() && f < PAGES && f != identity
      modifies this`phys, this`tempUsed
      ensures old(identity) in old(phys) && f in old(phys)
      ensures ok == !old(tempUsed)
      ensures ok ==> p == old(phys)[f]
      ensures ok ==> Valid() && !tempUsed && S() == WithSlot(old(S()), Released(old(SlotEntry(S()))))
    {
      hide Entry.Present, Walk, Inv, Filled;
      ghost var s := S();
      IdentityInWindow(s);
      p := ZeroPage();
      ok := TempMap(f);
      if !ok {
        return;
      }
      SlotReaches(S(), cr3, f);
      IdentityInWindow(S());
      var buffer: seq<Entry> := [];
      ghost var c := S();
      while |buffer| < 1024
        invariant S() == c && tempUsed
        invariant |buffer| <= 1024 && buffer == s.mem[f][..|buffer|]
        decreases 1024 - |buffer|
      {
        var e := Load(TEMP, |buffer|);
        buffer := buffer + [e];
      }
      p := buffer;
      UnTempMap();
      ReleasedOpened(SlotEntry(s), f);
      SlotTwice(s, Opened(SlotEntry(s), f), Released(SlotEntry(s)));
    }

    /** `copy_to_physical_frame`, for frames that explain no translation */
    method WriteFrame(f: nat, p: Page) returns (ok: bool)
      requires Valid() && f < PAGES && f != identity && f !in dirs && f !in owner
      modifies this`phys, this`tempUsed
      ensures old(identity) in old(phys) && ok == !old(tempUsed)
      ensures ok ==>
                && Valid() && !tempUsed && old(identity) in old(phys)[f := p]
                && S() == WithSlot(old(S()).(mem := old(phys)[f := p]), Released(old(SlotEntry(S()))))
    {
      hide Entry.Present, Walk, Inv, Filled;
      ghost var s := S();
      IdentityInWindow(s);
      ok := TempMap(f);
      if !ok {
        return;
      }
      FilledThroughSlot(s, f, p);
      SlotReaches(S(), cr3, f);
      IdentityInWindow(S());
      FillSlotPage(p);
      UnTempMap();
    }

    /** `memcpy_frames` */
    method CopyFrame(dst: nat, src: nat) returns (ok: bool)
      requires Valid() && src < PAGES && src != identity && dst < PAGES && dst != identity && dst !in dirs && dst !in owner
      modifies this`phys, this`tempUsed
      ensures old(identity) in old(phys) && src in old(phys) && ok == !old(tempUsed)
      ensures ok ==>
                && Valid() && !tempUsed && old(identity) in old(phys)[dst := old(phys)[src]]
                && S() == WithSlot(old(S()).(mem := old(phys)[dst := old(phys)[src]]), Released(old(SlotEntry(S()))))
    {
      hide Entry.Present, Walk, Inv, Filled;
      ghost var s := S();
      IdentityInWindow(s);
      var p;
      ok, p := ReadFrame(src);
      if !ok {
        return;
      }
      ghost var slot := Released(SlotEntry(s));
      ok := WriteFrame(dst, p);
      ReleasedTwice(SlotEntry(s));
      SlotAndFrame(s, dst, p, slot);
    }

    /**
     * The first pass: notes for every entry the table its clone shall have, copying the tables of user space into fresh
     * frames when they are to be copied.
     */
    method CopyTables(ghost s: State, nd: nat, entries: Page, copyUser: bool, newTables: array<nat>, doomed: array<bool>)
      returns (ok: bool, ghost tables: map<nat, nat>)
      requires Valid() && !tempUsed && newTables.Length == 1024 && doomed.Length == 1024
      requires Inv(s) && dir in s.dirs && 1 <= nd < TEMP && nd != s.identity
      requires dir in s.mem && s.identity in s.mem && entries == s.mem[dir]
      requires forall j: nat :: j < 1024 ==> newTables[j] == 0 && !doomed[j]
      requires dir < PAGES && s.identity < PAGES && Full(s.mem) && Copied(s, S(), dir, nd, map[], Released(SlotEntry(s)))
      modifies this`phys, this`tempUsed, frames.bitmap, newTables, doomed
      ensures ok == (copyUser ==> UserTables(entries, 1024) <= |old(frames.Available())|)
      ensures ok ==>
                && Valid() && !tempUsed && TablesBelow(s, dir, copyUser, tables, 1024)
                && (forall j :: j in tables ==> j < 1024 && s.mem[dir][j].frame < PAGES)
                && Copied(s, S(), dir, nd, tables, Released(SlotEntry(s)))
                && (forall j: nat :: j < 1024 ==> newTables[j] == Planned(entries, tables, 1024, j))
                && (forall j: nat :: j < 1024 ==> doomed[j] == Doomed(entries, copyUser, 1024, j))
    {
      hide Entry.Present, Walk, Inv, Filled, Copied, TablesBelow;
      ghost var slot := Released(SlotEntry(s));
      tables := map[];
      NoTables(s, dir, copyUser);
      var i := 0;
      while i < 1024
        invariant 0 <= i <= 1024 && Valid() && !tempUsed && TablesBelow(s, dir, copyUser, tables, i)
        invariant forall j :: j in tables ==> j < i && j < ALIAS && s.mem[dir][j].frame < PAGES
        invariant Copied(s, S(), dir, nd, tables, slot)
        invariant copyUser ==> |frames.Available()| + UserTables(entries, i) == |old(frames.Available())|
        invariant forall j: nat :: j < 1024 ==> newTables[j] == Planned(entries, tables, i, j)
        invariant forall j: nat :: j < 1024 ==> doomed[j] == Doomed(entries, copyUser, i, j)
      {
        if i <= 1 || !entries[i].Present() {
          SkipEntry(s, dir, copyUser, tables, i);
        } else if ALIAS <= i {
          SkipEntry(s, dir, copyUser, tables, i);
          newTables[i] := entries[i].frame;
        } else if !copyUser {
          SkipEntry(s, dir, copyUser, tables, i);
          doomed[i] := true;
        } else {
          var t;
          ok, t := CopyTable(s, nd, entries[i].frame, i, tables);
          if !ok {
            UserTablesGrow(entries, i + 1, 1024);
            return;
          }
          newTables[i] := t;
          tables := tables[i := t];
        }
        i := i + 1;
      }
      ok := true;
    }

    /** One table of user space is copied into a frame taken for it. */
    method CopyTable(ghost s: State, ghost nd: nat, table: nat, ghost i: nat, ghost tables: map<nat, nat>) returns (ok: bool, t: nat)
      requires Valid() && !tempUsed
      requires Inv(s) && dir in s.dirs && 1 <= nd < TEMP && nd != s.identity
      requires dir in s.mem && s.identity in s.mem && UserIndex(i) && i < 1024 && s.mem[dir][i].Present() && table == s.mem[dir][i].frame
      requires dir < PAGES && s.identity < PAGES && Full(s.mem)
      requires TablesBelow(s, dir, true, tables, i) && forall j :: j in tables ==> j < 1024 && s.mem[dir][j].frame < PAGES
      requires Copied(s, S(), dir, nd, tables, Released(SlotEntry(s)))
      modifies this`phys, this`tempUsed, frames.bitmap
      ensures ok == (old(frames.Available()) != {})
      ensures ok ==> t in old(frames.Available()) && frames.Available() == old(frames.Available()) - {t}
      ensures ok ==>
                && Valid() && !tempUsed && TablesBelow(s, dir, true, tables[i := t], i + 1) && i !in tables
                && (forall j :: j in tables[i := t] ==> j < 1024 && s.mem[dir][j].frame < PAGES)
                && Copied(s, S(), dir, nd, tables[i := t], Released(SlotEntry(s)))
    {
      hide Entry.Present, Walk, Inv, Filled, TablesBelow;
      ghost var c := S();
      ok, t := frames.GetFreeFrame();
      if !ok {
        return;
      }
      TakeFrameKeeps(c, t);
      assert S() == c.(avail := c.avail - {t});
      PlanEntry(s, dir, tables, i, t);
      CopyEntry(s, c, dir, nd, tables, i, t, Released(SlotEntry(s)));
      FreshTable(c, t);
      TableApart(s, table);
      ok := CopyFrame(t, table);
      ReleasedTwice(SlotEntry(s));
    }

    /** The second pass: the entries of the new directory, written through the slot. */
    method WriteEntries(ghost target: Page, newTables: array<nat>, doomed: array<bool>)
      requires newTables.Length == 1024 && doomed.Length == 1024
      requires Full(phys) && cr3 < PAGES && Walk(phys, cr3, TEMP).Some?
      requires var f := Walk(phys, cr3, TEMP).value.frame;
               && f < PAGES && f != cr3 && f != phys[cr3][0].frame
               && forall j: nat :: j < 1024 ==>
                    target[j] == if doomed[j] then ZERO else if newTables[j] == 0 then phys[f][j] else phys[f][j].SetFrame(newTables[j])
      modifies this`phys
      ensures phys == old(phys)[old(Walk(phys, cr3, TEMP)).value.frame := target]
    {
      hide Walk, Full;
      ghost var m, f := phys, Walk(phys, cr3, TEMP).value.frame;
      FullAt(m, f);
      assert m == m[f := m[f]] && m[f] == Overwritten(m[f], target, 0);
      var k := 0;
      while k < 1024
        invariant 0 <= k <= 1024 && f in m && phys == m[f := Overwritten(m[f], target, k)]
      {
        SlotWalkFrame(m, cr3, f, Overwritten(m[f], target, k));
        var e := Load(TEMP, k);
        if doomed[k] {
          Store(TEMP, k, ZERO);
        } else if newTables[k] != 0 {
          Store(TEMP, k, e.SetFrame(newTables[k]));
        }
        OverwrittenNext(m[f], target, k);
        assert Overwritten(m[f], target, k)[k] == m[f][k];
        assert Overwritten(m[f], target, k)[k := m[f][k]] == Overwritten(m[f], target, k);
        k := k + 1;
      }
      assert Overwritten(m[f], target, 1024) == target;
    }

    /**
     * `clone_page_directory`: on success the state is that of the clone, with the slot released. It fails exactly when the
     * slot is in use, the region of directories is full, or the frames do not suffice for the tables to be copied.
     */
    method Clone(copyUser: bool) returns (ok: bool, nd: nat, ghost tables: map<nat, nat>)
      requires Valid()
      modifies this`phys, this`tempUsed, this`nextDir, this`dirs, this`owner, frames.bitmap
      ensures old(identity) in old(phys)
      ensures dir in old(phys)
      ensures ok == (&& !old(tempUsed) && old(nextDir) + 1 < DIRECTORIES_END
                     && (copyUser ==> UserTables(old(phys)[dir], 1024) <= |old(frames.Available())|))
      ensures ok ==>
                && !old(tempUsed) && !tempUsed && Valid()
                && nd == old(nextDir) && nextDir == nd + 1 && CanClone(old(S()), dir, nd, copyUser, tables)
                && (forall j :: j in tables ==> j < 1024 && old(phys)[dir][j].frame < PAGES)
                && var r := Cloned(old(S()), dir, nd, copyUser, tables);
                   r.identity in r.mem && S() == WithSlot(r, Released(old(SlotEntry(S()))))
    {
      hide Entry.Present, Walk, Inv, Filled, Copied, TablesBelow, FreshTables, Cloned, CanClone, ClonedDir, Planned, Doomed, Full;
      ghost var s := S();
      IdentityInWindow(s);
      DirInWindow(s, dir);
      tables := map[];
      nd := nextDir;
      nextDir := nextDir + 1;
      if nextDir >= DIRECTORIES_END {
        return false, nd, tables;
      }
      SpareDirectory(s, nd);
      var entries;
      ok, entries := StartClone(nd);
      if !ok {
        return;
      }
      var newTables := new nat[1024](_ => 0);
      var doomed := new bool[1024](_ => false);
      ok, tables := CopyTables(s, nd, entries, copyUser, newTables, doomed);
      if !ok {
        return;
      }
      TablesAreFresh(s, dir, copyUser, tables);
      assert CanClone(s, dir, nd, copyUser, tables) by { hide *; CanCloneMeans(s, dir, nd, copyUser, tables); }
      FinishClone(s, nd, copyUser, tables, newTables, doomed);
    }

    /** The shallow copy of the directory, and its entries read back into a buffer. */
    method StartClone(nd: nat) returns (ok: bool, entries: Page)
      requires Valid() && nd < PAGES && nd != identity && nd !in dirs && nd !in owner && nd in phys
      modifies this`phys, this`tempUsed
      ensures dir < PAGES && identity < PAGES && Full(old(phys)) && ok == !old(tempUsed)
      ensures ok ==>
                && Valid() && !tempUsed && entries == old(phys)[dir]
                && Copied(old(S()), S(), dir, nd, map[], Released(old(SlotEntry(S()))))
    {
      hide Entry.Present, Walk, Inv, Filled, Copied;
      ghost var s := S();
      IdentityInWindow(s);
      DirInWindow(s, dir);
      entries := ZeroPage();
      ok := CopyFrame(nd, dir);
      if !ok {
        return;
      }
      ok, entries := ReadFrame(dir);
      ghost var slot := Released(SlotEntry(s));
      ReleasedTwice(SlotEntry(s));
      SlotTwice(s.(mem := s.mem[nd := s.mem[dir]]), slot, slot);
      CopyStarts(s, dir, nd, slot);
    }

    /** The second pass leaves the new directory's page behind and the slot released. */
    method WriteDirectory(nd: nat, ghost target: Page, newTables: array<nat>, doomed: array<bool>)
      requires Valid() && !tempUsed && newTables.Length == 1024 && doomed.Length == 1024
      requires nd < PAGES && nd !in dirs && nd !in owner && nd != identity && nd in phys && identity in phys
      requires SlotEntry(S()) == Released(SlotEntry(S()))
      requires forall j: nat :: j < 1024 ==>
                 target[j] == if doomed[j] then ZERO else if newTables[j] == 0 then phys[nd][j] else phys[nd][j].SetFrame(newTables[j])
      modifies this`phys, this`tempUsed
      ensures Valid() && !tempUsed && S() == old(S()).(mem := old(phys)[nd := target])
    {
      hide Entry.Present, Walk, Inv, Filled;
      ghost var c := S();
      var ok := TempMap(nd);
      FilledThroughSlot(c, nd, target);
      SlotReaches(S(), cr3, nd);
      IdentityInWindow(S());
      WriteEntries(target, newTables, doomed);
      UnTempMap();
      SlotSame(c.(mem := c.mem[nd := target]));
    }

    /** The second pass, and the directory joins the others. */
    method FinishClone(ghost s: State, nd: nat, copyUser: bool, ghost tables: map<nat, nat>, newTables: array<nat>, doomed: array<bool>)
      requires Valid() && !tempUsed && newTables.Length == 1024 && doomed.Length == 1024 && nd < nextDir
      requires CanClone(s, dir, nd, copyUser, tables) && TablesBelow(s, dir, copyUser, tables, 1024)
      requires dir in s.mem && s.identity in s.mem && s.identity < PAGES && Full(s.mem)
      requires forall j :: j in tables ==> j < 1024 && s.mem[dir][j].frame < PAGES
      requires Copied(s, S(), dir, nd, tables, Released(SlotEntry(s))) && nd !in owner && nd !in dirs && nd != identity
      requires forall j: nat :: j < 1024 ==> newTables[j] == Planned(s.mem[dir], tables, 1024, j)
      requires forall j: nat :: j < 1024 ==> doomed[j] == Doomed(s.mem[dir], copyUser, 1024, j)
      modifies this`phys, this`tempUsed, this`dirs, this`owner
      ensures Valid() && !tempUsed
      ensures var r := Cloned(s, dir, nd, copyUser, tables);
              r.identity in r.mem && S() == WithSlot(r, Released(SlotEntry(s)))
    {
      hide Entry.Present, Walk, Inv, Filled, TablesBelow, Cloned, ClonedDir, Planned, Doomed, Copied, FreshTables, Full;
      ghost var slot := Released(SlotEntry(s));
      ghost var c := S();
      ghost var target := ClonedDir(s.mem[dir], copyUser, tables);
      CopiedMeans(s, c, dir, nd, tables, slot);
      ReleasedTwice(SlotEntry(s));
      ClonedEntries(s, dir, nd, copyUser, tables);
      WriteDirectory(nd, target, newTables, doomed);
      CloneDone(s, c, dir, nd, copyUser, tables, slot);
      ClonedKeeps(s, dir, nd, copyUser, tables);
      WithSlotKeeps(Cloned(s, dir, nd, copyUser, tables), slot);
      dirs := dirs + {nd};
      owner := owner + map t | t in tables.Values :: IndexFor(tables, t);
    }
  }
}
