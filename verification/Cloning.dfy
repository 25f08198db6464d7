/** The passes of `clone_page_directory`: copying tables into fresh frames, then the new directory's entries. */
module Cloning {
  import opened TableEntry
  import opened FrameBitmap
  import opened Paging
  import opened AddressSpaces
  import opened TempSlot

  /** The first pass has reached index `i`: each present user entry before it has a frame of its own. */
  ghost predicate TablesBelow(s: State, d: nat, copyUser: bool, tables: map<nat, nat>, i: nat)
    requires Full(s.mem) && d < PAGES
  {
    && (forall j :: j in tables ==> copyUser && UserIndex(j) && j < i && j < 1024 && s.mem[d][j].Present() && tables[j] in s.avail)
    && (forall j: nat :: UserIndex(j) && j < i && j < 1024 && copyUser && s.mem[d][j].Present() ==> j in tables)
    && (forall j, k :: j in tables && k in tables && j != k ==> tables[j] != tables[k])
  }

  /** The state `c` of the first pass, compared with the state `s` before the clone. */
  ghost predicate Copied(s: State, c: State, d: nat, nd: nat, tables: map<nat, nat>, slot: Entry)
    requires Full(s.mem) && d < PAGES && s.identity < PAGES
    requires forall j :: j in tables ==> j < 1024 && s.mem[d][j].frame < PAGES
  {
    && c.dirs == s.dirs && c.identity == s.identity && c.owner == s.owner && c.held == s.held
    && c.avail == s.avail - tables.Values && c.mem.Keys == s.mem.Keys
    && nd in c.mem && c.mem[nd] == s.mem[d]
    && s.identity in c.mem && c.mem[s.identity] == s.mem[s.identity][TEMP := slot]
    && (forall f :: f in s.mem && f != nd && f != s.identity && f !in tables.Values ==> f in c.mem && c.mem[f] == s.mem[f])
    && (forall j :: j in tables ==> tables[j] in c.mem && c.mem[tables[j]] == s.mem[s.mem[d][j].frame])
  }

  /** What the first pass notes down for entry `j` of the directory `p`; 0 for no table. */
  function Planned(p: Page, tables: map<nat, nat>, i: nat, j: nat): nat
    requires j < 1024
  {
    if j in tables then tables[j]
    else if ALIAS <= j < i && p[j].Present() then p[j].frame else 0
  }

  predicate Doomed(p: Page, copyUser: bool, i: nat, j: nat)
    requires j < 1024
  {
    j < i && UserIndex(j) && p[j].Present() && !copyUser
  }

  /** Tables of user space that a copy has to allocate, among the first `i` entries. */
  function UserTables(p: Page, i: nat): nat
    requires i <= 1024
  {
    if i == 0 then 0 else UserTables(p, i - 1) + if UserIndex(i - 1) && p[i - 1].Present() then 1 else 0
  }

  lemma UserTablesGrow(p: Page, i: nat, j: nat)
    requires i <= j <= 1024
    ensures UserTables(p, i) <= UserTables(p, j)
  {
  }

  /** The second pass computes the directory of the clone. */
  lemma ClonedEntries(s: State, d: nat, nd: nat, copyUser: bool, tables: map<nat, nat>)
    requires CanClone(s, d, nd, copyUser, tables) && d < PAGES && Full(s.mem) && TablesBelow(s, d, copyUser, tables, 1024)
    ensures var p := s.mem[d];
            forall j: nat :: j < 1024 ==>
              ClonedDir(p, copyUser, tables)[j]
              == if Doomed(p, copyUser, 1024, j) then ZERO
                 else if Planned(p, tables, 1024, j) == 0 then p[j] else p[j].SetFrame(Planned(p, tables, 1024, j))
  {
  }

  lemma CopiedMeans(s: State, c: State, d: nat, nd: nat, tables: map<nat, nat>, slot: Entry)
    requires Full(s.mem) && d < PAGES && s.identity < PAGES
    requires forall j :: j in tables ==> j < 1024 && s.mem[d][j].frame < PAGES
    requires Copied(s, c, d, nd, tables, slot)
    ensures c.identity in c.mem && SlotEntry(c) == slot && nd in c.mem && c.mem[nd] == s.mem[d]
    ensures c.dirs == s.dirs && c.identity == s.identity && c.owner == s.owner
  {
  }

  lemma TablesAreFresh(s: State, d: nat, copyUser: bool, tables: map<nat, nat>)
    requires Full(s.mem) && d < PAGES && TablesBelow(s, d, copyUser, tables, 1024)
    ensures FreshTables(s, d, copyUser, tables)
  {
  }

  lemma TablesOnMachine(s: State, d: nat, copyUser: bool, tables: map<nat, nat>, i: nat)
    requires Inv(s) && d in s.dirs && d < PAGES && Full(s.mem) && TablesBelow(s, d, copyUser, tables, i)
    ensures forall j :: j in tables ==> j < 1024 && s.mem[d][j].frame in s.owner && s.mem[d][j].frame < PAGES
    ensures forall j :: j in tables ==> FIRST_FREE_FRAME <= tables[j] < PAGES && tables[j] !in s.owner && tables[j] !in s.dirs
  {
  }

  lemma NoTables(s: State, d: nat, copyUser: bool)
    requires Full(s.mem) && d < PAGES
    ensures TablesBelow(s, d, copyUser, map[], 0)
  {
  }

  lemma CanCloneMeans(s: State, d: nat, nd: nat, copyUser: bool, tables: map<nat, nat>)
    requires Inv(s) && Full(s.mem) && d in s.dirs && d < PAGES && FreshTables(s, d, copyUser, tables)
    requires 1 <= nd < 1023 && nd !in s.dirs && nd != s.identity
    ensures CanClone(s, d, nd, copyUser, tables)
  {
  }

  /** The next directory frame is not in use. */
  lemma SpareDirectory(s: State, nd: nat)
    requires Inv(s) && s.identity < nd < TEMP && forall d :: d in s.dirs ==> d < nd
    ensures nd !in s.dirs && nd !in s.owner && nd != s.identity && nd in s.mem && 1 <= nd < PAGES
  {
  }

  /** The new directory starts as a copy of the old one. */
  lemma CopyStarts(s: State, d: nat, nd: nat, slot: Entry)
    requires Inv(s) && Full(s.mem) && d < PAGES && s.identity < PAGES && d in s.mem && nd in s.mem && nd != s.identity
    ensures Copied(s, WithSlot(s.(mem := s.mem[nd := s.mem[d]]), slot), d, nd, map[], slot)
  {
  }

  /** A table not to be copied leaves the plan as it is. */
  lemma SkipEntry(s: State, d: nat, copyUser: bool, tables: map<nat, nat>, i: nat)
    requires Full(s.mem) && d < PAGES && i < 1024 && TablesBelow(s, d, copyUser, tables, i)
    requires !UserIndex(i) || !copyUser || !s.mem[d][i].Present()
    ensures TablesBelow(s, d, copyUser, tables, i + 1)
  {
  }

  /** The frame `t` just taken is planned for table `i`. */
  lemma PlanEntry(s: State, d: nat, tables: map<nat, nat>, i: nat, t: nat)
    requires Inv(s) && d in s.dirs && d < PAGES && Full(s.mem)
    requires UserIndex(i) && i < 1024 && s.mem[d][i].Present() && TablesBelow(s, d, true, tables, i)
    requires t in s.avail - tables.Values
    ensures TablesBelow(s, d, true, tables[i := t], i + 1)
    ensures i !in tables && tables[i := t].Values == tables.Values + {t}
    ensures s.mem[d][i].frame in s.owner && s.mem[d][i].frame < PAGES
  {
    hide Entry.Present;
    assert DirOk(s, d);
    assert TableOk(s, s.mem[d][i].frame);
    assert i !in tables;
    AddedValue(tables, i, t);
  }

  /** Its contents become those of the table. */
  lemma CopyEntry(s: State, c: State, d: nat, nd: nat, tables: map<nat, nat>, i: nat, t: nat, slot: Entry)
    requires Inv(s) && d in s.dirs && d < PAGES && Full(s.mem) && s.identity < PAGES && 1 <= nd < TEMP && nd != s.identity
    requires UserIndex(i) && i < 1024 && s.mem[d][i].Present() && TablesBelow(s, d, true, tables, i)
    requires forall j :: j in tables ==> j < 1024 && s.mem[d][j].frame < PAGES
    requires Copied(s, c, d, nd, tables, slot) && t in s.avail - tables.Values
    ensures s.mem[d][i].frame < PAGES && s.mem[d][i].frame in c.mem && t in c.mem && c.identity in c.mem
    ensures c.mem[s.mem[d][i].frame] == s.mem[s.mem[d][i].frame]
    ensures Copied(s, WithSlot(c.(avail := c.avail - {t}, mem := c.mem[t := c.mem[s.mem[d][i].frame]]), slot), d, nd, tables[i := t], slot)
  {
    hide Entry.Present, Inv, TablesBelow, Full;
    FullAt(s.mem, d);
    PlanEntry(s, d, tables, i, t);
    TablesOnMachine(s, d, true, tables, i);
    FreshTable(s, t);
    TableApart(s, s.mem[d][i].frame);
    FullAt(s.mem, t);
    FullAt(s.mem, s.mem[d][i].frame);
    assert s.mem[d][i].frame !in tables.Values;
    assert s.mem[s.identity][TEMP := slot][TEMP := slot] == s.mem[s.identity][TEMP := slot];
  }

  lemma AddedValue(tables: map<nat, nat>, i: nat, t: nat)
    requires i !in tables
    ensures tables[i := t].Values == tables.Values + {t}
  {
    var m := tables[i := t];
    forall x | x in tables.Values + {t}
      ensures x in m.Values
    {
      if x == t {
        assert m[i] == t;
      } else {
        var j :| j in tables && tables[j] == x;
        assert m[j] == x;
      }
    }
  }

  /** The frames that the clone fills explain nothing yet, so filling them keeps the invariant. */
  lemma CloneDone(s: State, c: State, d: nat, nd: nat, copyUser: bool, tables: map<nat, nat>, slot: Entry)
    requires CanClone(s, d, nd, copyUser, tables) && s.identity < PAGES && Full(s.mem)
    requires forall j :: j in tables ==> j < 1024 && s.mem[d][j].frame < PAGES
    requires Copied(s, c, d, nd, tables, slot)
    ensures var r := Cloned(s, d, nd, copyUser, tables);
            r.identity in r.mem
            && WithSlot(r, slot) == State(c.mem[nd := ClonedDir(s.mem[d], copyUser, tables)], c.dirs + {nd}, c.identity,
                                          c.owner + (map t | t in tables.Values :: IndexFor(tables, t)), c.avail, c.held)
  {
    hide Entry.Present, ClonedDir, Inv, FreshTables;
    ClonedMem(s, d, nd, copyUser, tables);
    ClonedSame(s, d, nd, copyUser, tables);
    CloneDoneMem(s, c, d, nd, copyUser, tables, slot);
  }

  lemma CloneDoneMem(s: State, c: State, d: nat, nd: nat, copyUser: bool, tables: map<nat, nat>, slot: Entry)
    requires CanClone(s, d, nd, copyUser, tables) && s.identity < PAGES && Full(s.mem)
    requires forall j :: j in tables ==> j < 1024 && s.mem[d][j].frame < PAGES
    requires Copied(s, c, d, nd, tables, slot)
    ensures var r := Cloned(s, d, nd, copyUser, tables);
            r.identity in r.mem && WithSlot(r, slot).mem == c.mem[nd := ClonedDir(s.mem[d], copyUser, tables)]
  {
    hide Entry.Present, ClonedDir, Inv, FreshTables;
    var r := Cloned(s, d, nd, copyUser, tables);
    TablesReal(s, d, copyUser, tables);
    IdentityInWindow(s);
    ClonedSame(s, d, nd, copyUser, tables);
    forall f | f in s.mem
      ensures WithSlot(r, slot).mem[f] == c.mem[nd := ClonedDir(s.mem[d], copyUser, tables)][f]
    {
      if f in tables.Values {
        assert tables[IndexFor(tables, f)] == f;
      }
    }
  }
}
