/** Cloning page directories, sharing pages between them, and runs over many address spaces. */
module AddressSpaces {
  import opened Options
  import opened TableEntry
  import opened FrameBitmap
  import opened Paging

  /** Directory indices that the clone deals with table by table: above the first 8 MB, below the kernel. */
  predicate UserIndex(i: nat) { 2 <= i < ALIAS }

  /** The directory entry of the clone at index `i`. */
  function ClonedEntry(e: Entry, i: nat, copyUser: bool, tables: map<nat, nat>): Entry {
    if !UserIndex(i) || !e.Present() then e
    else if !copyUser then ZERO
    else if i in tables then e.SetFrame(tables[i]) else e
  }

  function ClonedDir(p: Page, copyUser: bool, tables: map<nat, nat>): Page {
    seq(1024, i requires 0 <= i < 1024 => ClonedEntry(p[i], i, copyUser, tables))
  }

  /** Every present user entry gets an available frame of its own when user pages are copied. */
  ghost predicate FreshTables(s: State, d: nat, copyUser: bool, tables: map<nat, nat>)
    requires Full(s.mem) && d < PAGES
  {
    && (forall i :: i in tables ==> copyUser && UserIndex(i) && i < 1024 && s.mem[d][i].Present() && tables[i] in s.avail)
    && (forall i: nat :: UserIndex(i) && i < 1024 && copyUser && s.mem[d][i].Present() ==> i in tables)
    && (forall i, j :: i in tables && j in tables && i != j ==> tables[i] != tables[j])
  }

  /** The directory index a fresh table is for. */
  ghost function IndexFor(tables: map<nat, nat>, t: nat): (i: nat)
    requires t in tables.Values
    ensures i in tables && tables[i] == t
  {
    var i :| i in tables && tables[i] == t;
    i
  }

  /** What frame `f` contains after the copy of directory `d` into frame `nd`. */
  ghost function ClonedPage(s: State, d: nat, nd: nat, copyUser: bool, tables: map<nat, nat>, f: nat): Page
    requires Full(s.mem) && d < PAGES && f in s.mem && FreshTables(s, d, copyUser, tables)
    requires forall i :: i in tables ==> s.mem[d][i].frame < PAGES
  {
    if f == nd then ClonedDir(s.mem[d], copyUser, tables)
    else if f in tables.Values then s.mem[s.mem[d][IndexFor(tables, f)].frame]
    else s.mem[f]
  }

  /** `clone_page_directory` of `d` into the frame `nd`. */
  ghost function Cloned(s: State, d: nat, nd: nat, copyUser: bool, tables: map<nat, nat>): State
    requires Full(s.mem) && d < PAGES && FreshTables(s, d, copyUser, tables)
    requires forall i :: i in tables ==> s.mem[d][i].frame < PAGES
  {
    State(map f: nat | f in s.mem :: ClonedPage(s, d, nd, copyUser, tables, f),
          s.dirs + {nd}, s.identity,
          s.owner + map t | t in tables.Values :: IndexFor(tables, t),
          s.avail - tables.Values, s.held)
  }

  /** What the clone needs: a directory frame of its own inside the identity window. */
  ghost predicate CanClone(s: State, d: nat, nd: nat, copyUser: bool, tables: map<nat, nat>) {
    && Inv(s) && d in s.dirs && d < PAGES && FreshTables(s, d, copyUser, tables)
    && 1 <= nd < 1023 && nd !in s.dirs && nd != s.identity
  }

  /** Tables are on the machine. */
  lemma TablesReal(s: State, d: nat, copyUser: bool, tables: map<nat, nat>)
    requires Inv(s) && d in s.dirs && d < PAGES && FreshTables(s, d, copyUser, tables)
    ensures forall i :: i in tables ==> s.mem[d][i].frame in s.owner && s.mem[d][i].frame < PAGES
    ensures forall i :: i in tables ==> FIRST_FREE_FRAME <= tables[i] < PAGES && tables[i] !in s.owner && tables[i] !in s.dirs
  {
  }

  /** The memory after the clone, frame by frame. */
  lemma ClonedMem(s: State, d: nat, nd: nat, copyUser: bool, tables: map<nat, nat>)
    requires CanClone(s, d, nd, copyUser, tables)
    ensures forall i :: i in tables ==> s.mem[d][i].frame < PAGES
    ensures var r := Cloned(s, d, nd, copyUser, tables);
            && Full(r.mem) && nd in r.mem && r.mem[nd] == ClonedDir(s.mem[d], copyUser, tables)
            && (forall f: nat :: f < PAGES && f != nd && f !in tables.Values ==> r.mem[f] == s.mem[f])
            && (forall i :: i in tables ==> tables[i] in r.mem && r.mem[tables[i]] == s.mem[s.mem[d][i].frame])
  {
    TablesReal(s, d, copyUser, tables);
    hide Inv, ClonedDir, Entry.Present;
    var r := Cloned(s, d, nd, copyUser, tables);
    forall i | i in tables
      ensures r.mem[tables[i]] == s.mem[s.mem[d][i].frame]
    {
      assert tables[i] in tables.Values && IndexFor(tables, tables[i]) == i;
    }
  }

  /** Directories, the identity table and every table in use keep their contents. */
  lemma ClonedSame(s: State, d: nat, nd: nat, copyUser: bool, tables: map<nat, nat>)
    requires CanClone(s, d, nd, copyUser, tables)
    ensures forall i :: i in tables ==> s.mem[d][i].frame < PAGES
    ensures var r := Cloned(s, d, nd, copyUser, tables);
            && (forall e :: e in s.dirs ==> e < PAGES && e in r.mem && r.mem[e] == s.mem[e])
            && r.mem[s.identity] == s.mem[s.identity]
            && (forall t :: t in s.owner ==> t < PAGES && t in r.mem && r.mem[t] == s.mem[t])
  {
    hide Entry.Present, ClonedDir, Cloned;
    ClonedMem(s, d, nd, copyUser, tables);
    TablesReal(s, d, copyUser, tables);
    assert forall e :: e in s.dirs ==> DirOk(s, e);
    assert forall t :: t in s.owner ==> TableOk(s, t);
    assert forall t :: t in tables.Values ==> FIRST_FREE_FRAME <= t && t !in s.owner;
  }

  /** The original translates every page as before. */
  lemma OriginalWalk(s: State, d: nat, nd: nat, copyUser: bool, tables: map<nat, nat>, e: nat, v: nat)
    requires CanClone(s, d, nd, copyUser, tables) && e in s.dirs && v < PAGES
    ensures forall i :: i in tables ==> s.mem[d][i].frame < PAGES
    ensures var r := Cloned(s, d, nd, copyUser, tables);
            Full(r.mem) && e < PAGES && Walk(r.mem, e, v) == Walk(s.mem, e, v)
  {
    hide Entry.Present, ClonedDir, Cloned, ClonedPage, FreshTables;
    ClonedMem(s, d, nd, copyUser, tables);
    ClonedSame(s, d, nd, copyUser, tables);
    assert DirOk(s, e);
  }

  /**
   * The clone translates kernel pages and the first 8 MB like the original; other user pages not at all, or
   * like the original when they are copied.
   */
  lemma ClonedWalk(s: State, d: nat, nd: nat, copyUser: bool, tables: map<nat, nat>, v: nat)
    requires CanClone(s, d, nd, copyUser, tables) && v < PAGES
    ensures forall i :: i in tables ==> s.mem[d][i].frame < PAGES
    ensures var r := Cloned(s, d, nd, copyUser, tables);
            && Full(r.mem)
            && Walk(r.mem, nd, v) == if UserIndex(v / 1024) && !copyUser then None else Walk(s.mem, d, v)
  {
    hide Entry.Present, ClonedDir, Cloned, ClonedPage;
    ZeroNotPresent();
    TablesReal(s, d, copyUser, tables);
    ClonedMem(s, d, nd, copyUser, tables);
    ClonedSame(s, d, nd, copyUser, tables);
    assert DirOk(s, d);
    var i := v / 1024;
    var e := s.mem[d][i];
    ClonedDirAt(s.mem[d], copyUser, tables, i);
    if UserIndex(i) && copyUser && e.Present() {
      SetFramePresent(e, tables[i]);
    }
  }

  lemma ClonedDirAt(p: Page, copyUser: bool, tables: map<nat, nat>, i: nat)
    requires i < 1024
    ensures ClonedDir(p, copyUser, tables)[i] == ClonedEntry(p[i], i, copyUser, tables)
  {
  }

  lemma SetFramePresent(e: Entry, f: nat)
    ensures e.SetFrame(f).Present() == e.Present() && e.SetFrame(f).Open() == e.Open()
    ensures forall x :: Granted(e.SetFrame(f), x) == Granted(e, x)
  {
  }

  /** Old tables serve the index they served, fresh ones the index they were taken for. */
  lemma ClonedOwner(s: State, d: nat, nd: nat, copyUser: bool, tables: map<nat, nat>)
    requires CanClone(s, d, nd, copyUser, tables)
    ensures forall i :: i in tables ==> s.mem[d][i].frame < PAGES
    ensures var r := Cloned(s, d, nd, copyUser, tables);
            && (forall t :: t in s.owner ==> t in r.owner && r.owner[t] == s.owner[t])
            && (forall i :: i in tables ==> tables[i] in r.owner && r.owner[tables[i]] == i && tables[i] !in s.owner)
  {
    TablesReal(s, d, copyUser, tables);
    hide Inv, ClonedPage;
    forall i | i in tables
      ensures tables[i] in tables.Values && IndexFor(tables, tables[i]) == i
    {
    }
  }

  /** The entries of the new directory. */
  lemma NewDirEntry(s: State, d: nat, nd: nat, copyUser: bool, tables: map<nat, nat>, i: nat)
    requires CanClone(s, d, nd, copyUser, tables) && i < 1024
    ensures forall j :: j in tables ==> s.mem[d][j].frame < PAGES
    ensures var r := Cloned(s, d, nd, copyUser, tables);
            && nd in r.mem
            && (UserIndex(i) && r.mem[nd][i].Present() ==>
                  i in tables && r.mem[nd][i].frame == tables[i] && s.mem[d][i].Present() && r.mem[nd][i].Open() == s.mem[d][i].Open())
            && (!UserIndex(i) ==> r.mem[nd][i] == s.mem[d][i])
  {
  }

  lemma ClonedDirs(s: State, d: nat, nd: nat, copyUser: bool, tables: map<nat, nat>)
    requires CanClone(s, d, nd, copyUser, tables)
    ensures forall i :: i in tables ==> s.mem[d][i].frame < PAGES
    ensures var r := Cloned(s, d, nd, copyUser, tables);
            Full(r.mem) && forall e :: e in r.dirs ==> DirOk(r, e)
  {
    hide Entry.Present, Entry.Open, ClonedDir, ClonedPage, FreshTables, Private, HeldOnce;
    ClonedMem(s, d, nd, copyUser, tables);
    ClonedSame(s, d, nd, copyUser, tables);
    ClonedOwner(s, d, nd, copyUser, tables);
    var r := Cloned(s, d, nd, copyUser, tables);
    assert DirOk(s, d);
    forall i | 0 <= i < 1024 && !Window(i) && r.mem[nd][i].Present()
      ensures r.mem[nd][i].frame in r.owner && r.owner[r.mem[nd][i].frame] == i && r.mem[nd][i].Open()
    {
      NewDirEntry(s, d, nd, copyUser, tables, i);
    }
    NewDirEntry(s, d, nd, copyUser, tables, 0);
    NewDirEntry(s, d, nd, copyUser, tables, ALIAS);
    forall e | e in s.dirs
      ensures DirOk(r, e)
    {
      assert DirOk(s, e);
    }
  }

  lemma ClonedRest(s: State, d: nat, nd: nat, copyUser: bool, tables: map<nat, nat>)
    requires CanClone(s, d, nd, copyUser, tables)
    ensures forall i :: i in tables ==> s.mem[d][i].frame < PAGES
    ensures var r := Cloned(s, d, nd, copyUser, tables); r.dirs == s.dirs + {nd} && r.identity == s.identity && r.held == s.held
  {
  }

  lemma ClonedPrivate(s: State, d: nat, nd: nat, copyUser: bool, tables: map<nat, nat>)
    requires CanClone(s, d, nd, copyUser, tables)
    ensures forall i :: i in tables ==> s.mem[d][i].frame < PAGES
    ensures Full(Cloned(s, d, nd, copyUser, tables).mem) && Private(Cloned(s, d, nd, copyUser, tables))
  {
    hide Entry.Present, ClonedDir, Cloned, ClonedPage, FreshTables, HeldOnce;
    ClonedRest(s, d, nd, copyUser, tables);
    ClonedMem(s, d, nd, copyUser, tables);
    ClonedSame(s, d, nd, copyUser, tables);
    ClonedOwner(s, d, nd, copyUser, tables);
    var r := Cloned(s, d, nd, copyUser, tables);
    forall e, i | e in s.dirs && 2 <= i < ALIAS && r.mem[nd][i].Present() && r.mem[e][i].Present()
      ensures r.mem[nd][i].frame != r.mem[e][i].frame
    {
      NewDirEntry(s, d, nd, copyUser, tables, i);
      assert DirOk(s, e);
    }
  }

  lemma ClonedTables(s: State, d: nat, nd: nat, copyUser: bool, tables: map<nat, nat>)
    requires CanClone(s, d, nd, copyUser, tables)
    ensures forall i :: i in tables ==> s.mem[d][i].frame < PAGES
    ensures var r := Cloned(s, d, nd, copyUser, tables); forall t :: t in r.owner ==> TableOk(r, t)
  {
    hide Entry.Present, ClonedDir, ClonedPage, DirOk, Private, IdentityOk, HeldOnce;
    TablesReal(s, d, copyUser, tables);
    var r := Cloned(s, d, nd, copyUser, tables);
    forall t | t in r.owner
      ensures TableOk(r, t)
    {
      if t in tables.Values {
        assert UserIndex(IndexFor(tables, t));
      } else {
        assert TableOk(s, t);
      }
    }
  }

  lemma ClonedHeld(s: State, d: nat, nd: nat, copyUser: bool, tables: map<nat, nat>)
    requires CanClone(s, d, nd, copyUser, tables)
    ensures forall i :: i in tables ==> s.mem[d][i].frame < PAGES
    ensures var r := Cloned(s, d, nd, copyUser, tables); Full(r.mem) && forall x :: x in r.held ==> HeldOk(r, x)
  {
    hide Entry.Present, ClonedDir, ClonedPage, DirOk, Private, IdentityOk, HeldOnce;
    TablesReal(s, d, copyUser, tables);
    ClonedSame(s, d, nd, copyUser, tables);
    var r := Cloned(s, d, nd, copyUser, tables);
    forall x | x in r.held
      ensures HeldOk(r, x)
    {
      assert HeldOk(s, x);
      assert s.held[x] !in tables.Values;
    }
  }

  /** The clone keeps the invariant: its tables are its own, its frames leave the bitmap. */
  lemma ClonedKeeps(s: State, d: nat, nd: nat, copyUser: bool, tables: map<nat, nat>)
    requires CanClone(s, d, nd, copyUser, tables)
    ensures forall i :: i in tables ==> s.mem[d][i].frame < PAGES
    ensures Inv(Cloned(s, d, nd, copyUser, tables))
  {
    hide Entry.Present, ClonedDir, ClonedPage, DirOk, Private, TableOk, HeldOk, FreshTables;
    ClonedSame(s, d, nd, copyUser, tables);
    ClonedDirs(s, d, nd, copyUser, tables);
    ClonedPrivate(s, d, nd, copyUser, tables);
    ClonedTables(s, d, nd, copyUser, tables);
    ClonedHeld(s, d, nd, copyUser, tables);
  }

  // ----- what the two directories see afterwards

  /** Equal directory entries lead to the same table, so every later edit of it is seen through both. */
  lemma SharedTableSeenByBoth(m: Phys, d: nat, e: nat, v: nat)
    requires Full(m) && d < PAGES && e < PAGES && v < PAGES && m[d][v / 1024] == m[e][v / 1024]
    ensures Walk(m, d, v) == Walk(m, e, v)
  {
  }

  /** In any good state, editing a user page through one directory is not seen through any other. */
  lemma UserEditsPrivate(s: State, d: nat, v: nat, en: Entry, e: nat, v': nat)
    requires Inv(s) && d in s.dirs && e in s.dirs && d != e && d < PAGES
    requires v < PAGES && UserIndex(v / 1024) && s.mem[d][v / 1024].Present()
    requires v' < PAGES && !Window(v' / 1024)
    ensures var t := s.mem[d][v / 1024].frame;
            && t in s.mem && e < PAGES && Full(SetEntry(s.mem, t, v % 1024, en))
            && Walk(SetEntry(s.mem, t, v % 1024, en), e, v') == Walk(s.mem, e, v')
  {
  }

  /**
   * A page newly mapped under `d` appears under another directory exactly when both already shared its table; a table
   * created for it is not propagated, kernel space included.
   */
  lemma SeenElsewhere(s: State, d: nat, v: nat, t: nat, frame: nat, writable: bool, user: bool, e: nat)
    requires CanReach(s, d, v, t) && Walk(s.mem, d, v) == None
    requires e in s.dirs && e != d && e < PAGES && Walk(s.mem, e, v) == None
    ensures var u := EnsureTable(s, d, v / 1024, t); d in u.mem && SlotOf(u, d, v).table in u.mem
    ensures var r := Mapped(s, d, v, t, frame, writable, user);
            var i := v / 1024;
            && Full(r.mem)
            && (Walk(r.mem, e, v).Some? <==>
                s.mem[d][i].Present() && s.mem[e][i].Present() && s.mem[d][i].frame == s.mem[e][i].frame)
  {
    hide Entry.Present, Entry.Open, Entry.System, Filled, Granted, Private, HeldOnce, IdentityOk;
    var i := v / 1024;
    MapPageEffect(s, d, v, t, frame, writable, user);
    EnsureTableKeeps(s, d, i, t);
    EnsureTableWalk(s, d, i, t, e, v);
    var u := EnsureTable(s, d, i, t);
    var x := SlotOf(u, d, v);
    if !s.mem[d][i].Present() {
      FreshTable(s, t);
    }
    SetTableEntry(u, x.table, x.index, Filled(u.mem[x.table][x.index], frame, true, writable, user), e, v);
  }
}
