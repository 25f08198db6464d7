/**
 * The file system driver: the loops over the table, over chains and over slots, working in place on an
 * array of sectors, each proved against the functions on disks of the other Fat32 modules.
 */
module Fat32FS {
  import opened Options
  import opened Bytes
  import opened Fat32Slots
  import opened Fat32Volume
  import opened Fat32Directory
  import opened Fat32Files

  /** Index of the first free entry of the table at or after `c`; `128 * fatSectors` when there is none. */
  function FirstFree(g: Geometry, d: seq<Sector>, c: nat): (r: nat)
    requires ValidGeometry(g, d) && c <= 128 * g.fatSectors
    ensures c <= r <= 128 * g.fatSectors
    ensures r < 128 * g.fatSectors ==> FatEntry(g, d, r) == 0
    ensures forall x :: c <= x < r ==> FatEntry(g, d, x) != 0
    decreases 128 * g.fatSectors - c
  {
    if c == 128 * g.fatSectors || FatEntry(g, d, c) == 0 then c else FirstFree(g, d, c + 1)
  }

  lemma PrependNothing(r: Option<seq<DirEntry>>)
    ensures Concat(Some([]), r) == r
  {
    if r.Some? { assert [] + r.value == r.value; }
  }

  lemma MoveEntry(es: seq<DirEntry>, e: DirEntry, rest: Option<seq<DirEntry>>)
    ensures rest.Some? ==> Concat(Some(es + [e]), rest) == Some(es + ([e] + rest.value))
  {
    if rest.Some? { assert es + [e] + rest.value == es + ([e] + rest.value); }
  }

  /** Reading the directories on the way comes to an end: their chains do. */
  ghost predicate WalkEnds(g: Geometry, d: seq<Sector>, dir: nat, parts: seq<seq<u8>>)
    requires ValidGeometry(g, d)
    decreases |parts|
  {
    parts != [] ==>
      && ChainFrom(g, d, dir) != []
      && match ReadDir(g, d, dir)
         case None => true
         case Some(es) =>
           match Lookup(es, parts[0])
           case None => true
           case Some(e) => e.kind.Directory? ==> WalkEnds(g, d, e.cluster, parts[1..])
  }

  /** Where `create_entry` finds the end mark of a directory. */
  ghost function EndOf(g: Geometry, d: seq<Sector>, dir: nat): Place
    requires ValidGeometry(g, d)
  {
    var cs := ChainFrom(g, d, dir);
    ChainAllOnDisk(g, d, cs);
    FirstAlong(g, d, cs, EndMark())
  }

  /** `Halted` is a failed assertion or the branch that is not implemented. */
  datatype Creation = Made | NoParent | Halted

  /**
   * What `create_entry` takes for granted: the directory's chain ends, the first free entry of the table is 0 or belongs
   * to a cluster of the disk, and slots that pass the room check fit.
   */
  ghost predicate CanStore(g: Geometry, d: seq<Sector>, dir: nat, name: seq<u8>)
    requires ValidGeometry(g, d)
  {
    var at, c := EndOf(g, d, dir), FirstFree(g, d, 0);
    && ChainFrom(g, d, dir) != []
    && (0 < c < 128 * g.fatSectors ==> OnDisk(g, d, c))
    && (at.cluster < |ChainFrom(g, d, dir)| && at.slot <= 16 * g.spc && RoomCheck(g, at.slot, name)
        ==> at.slot + LongSlots(name) + 1 <= 16 * g.spc)
  }

  datatype Writing = Wrote | BadSize | Stopped

  /** The start is a cluster number, and the end mark is still one in its lower 28 bits, as on any FAT32 volume. */
  ghost predicate EndsClearly(g: Geometry, d: seq<Sector>, cs: seq<nat>)
    requires ValidGeometry(g, d) && IsChain(g, d, cs)
  {
    && cs[0] < FAT_ENTRY_EOF
    && (ChainClusters(g, d, cs); FatEntry(g, d, cs[|cs| - 1]) % 0x1000_0000 >= FAT_ENTRY_EOF)
  }

  lemma FirstOnDisk(g: Geometry, d: seq<Sector>, cs: seq<nat>)
    requires ValidGeometry(g, d) && IsChain(g, d, cs)
    ensures cs != [] && OnDisk(g, d, cs[0])
  {
  }

  lemma FirstBytes(g: Geometry, d: seq<Sector>, cs: seq<nat>)
    requires ValidGeometry(g, d) && IsChain(g, d, cs)
    ensures AllOnDisk(g, d, cs[..1]) && OnDisk(g, d, cs[0]) && ChainBytes(g, d, cs[..1]) == ClusterBytes(g, d, cs[0])
  {
    hide ClusterBytes, FatEntry;
    assert cs[..1] == [cs[0]] && [cs[0]][1..] == [];
    assert ChainBytes(g, d, []) == [];
  }

  lemma MoreBytes(g: Geometry, d: seq<Sector>, cs: seq<nat>, i: nat)
    requires ValidGeometry(g, d) && i < |cs| && AllOnDisk(g, d, cs[..i]) && OnDisk(g, d, cs[i])
    ensures AllOnDisk(g, d, cs[..i + 1])
    ensures ChainBytes(g, d, cs[..i + 1]) == ChainBytes(g, d, cs[..i]) + ClusterBytes(g, d, cs[i])
  {
    hide ClusterBytes;
    assert cs[..i] + [cs[i]] == cs[..i + 1];
    ChainBytesAppend(g, d, cs[..i], cs[i]);
  }

  /** One step along a chain: an end mark exactly at its last cluster, the next cluster otherwise. */
  lemma NextInChain(g: Geometry, d: seq<Sector>, cs: seq<nat>, i: nat)
    requires ValidGeometry(g, d) && i < |cs| && IsChain(g, d, cs[i..])
    ensures OnDisk(g, d, cs[i]) && cs[i] < 128 * g.fatSectors
    ensures FatEntry(g, d, cs[i]) >= FAT_ENTRY_EOF <==> i + 1 == |cs|
    ensures i + 1 < |cs| ==> FatEntry(g, d, cs[i]) % 0x1000_0000 == cs[i + 1] && IsChain(g, d, cs[i + 1..])
  {
    hide FatEntry;
    assert cs[i..][0] == cs[i] && cs[i..][1..] == cs[i + 1..];
  }

  lemma {:induction false} FirstAlongFrame(g: Geometry, d: seq<Sector>, d': seq<Sector>, cs: seq<nat>, f: Slot -> bool)
    requires AllOnDisk(g, d, cs) && |d'| == |d|
    requires forall i :: 0 <= i < |cs| ==> ClusterBytes(g, d', cs[i]) == ClusterBytes(g, d, cs[i])
    ensures FirstAlong(g, d', cs, f) == FirstAlong(g, d, cs, f)
  {
    hide ClusterBytes, FirstIn;
    if cs != [] {
      FirstAlongFrame(g, d, d', cs[1..], f);
    }
  }

  class Fat32FS {
    const fatSector: nat
    const fatSectors: nat
    const spc: nat
    const disk: array<Sector>

    function Geo(): Geometry { Geometry(fatSector, fatSectors, spc) }

    ghost predicate Valid()
      reads disk
    {
      ValidGeometry(Geo(), disk[..])
    }

    method ReadSectors(from: nat, n: nat) returns (b: seq<u8>)
      requires from + n <= disk.Length
      ensures b == SectorBytes(disk[..], from, n)
    {
      b := SectorBytes(disk[..], from, n);
    }

    method WriteSectors(from: nat, b: seq<u8>)
      requires |b| % 512 == 0 && from + |b| / 512 <= disk.Length
      modifies disk
      ensures disk[..] == WriteBytes(old(disk[..]), from, b)
    {
      forall i | 0 <= i < |b| / 512 {
        disk[from + i] := b[512 * i..512 * i + 512];
      }
      forall i | 0 <= i < disk.Length
        ensures disk[i] == WriteBytes(old(disk[..]), from, b)[i]
      {
        if from <= i < from + |b| / 512 {
          assert disk[from + (i - from)] == b[512 * (i - from)..512 * (i - from) + 512];
        }
      }
    }

    /** `entry_in_fat` */
    method EntryInFat(c: nat) returns (v: nat)
      requires Valid() && c < 128 * fatSectors
      ensures v == FatEntry(Geo(), disk[..], c)
    {
      v := Get32(disk[fatSector + c / 128], 4 * (c % 128));
    }

    method ReadCluster(c: nat) returns (b: seq<u8>)
      requires Valid() && OnDisk(Geo(), disk[..], c)
      ensures b == ClusterBytes(Geo(), disk[..], c)
    {
      DataAfterTables(Geo(), c);
      b := ReadSectors(Geo().SectorOf(c), spc);
    }

    method WriteClusterBytes(c: nat, b: seq<u8>)
      requires Valid() && OnDisk(Geo(), disk[..], c) && |b| == Geo().ClusterSize()
      modifies disk
      ensures disk[..] == WriteCluster(Geo(), old(disk[..]), c, b)
    {
      DataAfterTables(Geo(), c);
      WriteSectors(Geo().SectorOf(c), b);
    }

    /** `num_clusters_in_entry`: walks the table to the end mark. */
    method NumClustersInEntry(start: nat, ghost cs: seq<nat>) returns (n: nat)
      requires Valid() && IsChain(Geo(), disk[..], cs) && cs[0] == start
      ensures n == |cs|
    {
      hide FatEntry, Geometry.SectorOf;
      n := 1;
      var current := start;
      assert cs[0..] == cs;
      var next := EntryInFat(current);
      while next < FAT_ENTRY_EOF
        invariant 1 <= n <= |cs| && current == cs[n - 1]
        invariant IsChain(Geo(), disk[..], cs[n - 1..])
        invariant next == FatEntry(Geo(), disk[..], current)
        decreases |cs| - n
      {
        assert cs[n - 1..][1..] == cs[n..];
        current := next % 0x1000_0000;
        n := n + 1;
        next := EntryInFat(current);
      }
    }

    /** `read_whole_entry`: one cluster after the other, the same walk. */
    method ReadWholeEntry(start: nat, ghost cs: seq<nat>) returns (data: seq<u8>)
      requires Valid() && IsChain(Geo(), disk[..], cs) && cs[0] == start
      requires AllOnDisk(Geo(), disk[..], cs)
      ensures data == ChainBytes(Geo(), disk[..], cs)
    {
      hide ClusterBytes, FatEntry, IsChain, AllOnDisk, ChainBytes;
      var current := start;
      ghost var i := 0;
      FirstOnDisk(Geo(), disk[..], cs);
      data := ReadCluster(current);
      assert cs[0..] == cs;
      FirstBytes(Geo(), disk[..], cs);
      NextInChain(Geo(), disk[..], cs, 0);
      var next := EntryInFat(current);
      while next < FAT_ENTRY_EOF
        invariant 0 <= i < |cs| && current == cs[i]
        invariant IsChain(Geo(), disk[..], cs[i..]) && AllOnDisk(Geo(), disk[..], cs[..i + 1])
        invariant data == ChainBytes(Geo(), disk[..], cs[..i + 1])
        invariant current < 128 * fatSectors && next == FatEntry(Geo(), disk[..], current)
        decreases |cs| - i
      {
        NextInChain(Geo(), disk[..], cs, i);
        current := next % 0x1000_0000;
        i := i + 1;
        NextInChain(Geo(), disk[..], cs, i);
        var b := ReadCluster(current);
        MoreBytes(Geo(), disk[..], cs, i);
        data := data + b;
        next := EntryInFat(current);
      }
      NextInChain(Geo(), disk[..], cs, i);
      assert cs[..i + 1] == cs;
    }

    /** The backward loop of `create_entry_from`. */
    method CreateEntryFrom(slots: seq<Slot>, k: nat) returns (r: Option<DirEntry>)
      requires k < |slots|
      ensures r == EntryAt(slots, k)
    {
      var raw, name, j := slots[k], [], k - 1;
      while true
        invariant -1 <= j < k
        invariant NameBefore(slots, j, name, raw) == NameBefore(slots, k - 1, [], raw)
        decreases j
      {
        if j < 0 {
          return None;
        }
        if slots[j][11] != ATTR_LONG_NAME {
          var short := NameLower(raw);
          if short.None? {
            return None;
          }
          name := short.value;
          break;
        }
        var part := LongPart(slots[j]);
        if part.None? {
          return None;
        }
        name := name + part.value;
        if IsLast(slots[j]) {
          assert NameBefore(slots, k - 1, [], raw) == Some(name);
          break;
        }
        j := j - 1;
      }
      r := Some(DirEntry(name, SlotKind(raw), FileSize(raw), ClusterIdx(raw)));
    }

    /** The forward loop of `read_directory`; `None` where one of its assertions fails. */
    method ReadDirectory(start: nat, ghost cs: seq<nat>) returns (r: Option<seq<DirEntry>>)
      requires Valid() && IsChain(Geo(), disk[..], cs) && cs[0] == start
      ensures r == ReadDir(Geo(), disk[..], start)
    {
      hide ChainSlots, ChainBytes, SlotsOf, EntryAt, IsChain, Bad, Skipped, ValidGeometry;
      ChainAllOnDisk(Geo(), disk[..], cs);
      ChainBytesSlots(Geo(), disk[..], cs);
      var data := ReadWholeEntry(start, cs);
      var slots, k, entries := SlotsOf(data), 0, [];
      assert slots == DirSlots(Geo(), disk[..], start);
      PrependNothing(Scan(slots, 0));
      while k < |slots|
        invariant 0 <= k <= |slots|
        invariant Concat(Some(entries), Scan(slots, k)) == Scan(slots, 0)
      {
        if slots[k][0] == 0 {
          assert entries + [] == entries;
          return Some(entries);
        }
        if Bad(slots[k]) {
          return None;
        }
        if !Skipped(slots[k]) {
          var e := CreateEntryFrom(slots, k);
          if e.None? {
            return None;
          }
          MoveEntry(entries, e.value, Scan(slots, k + 1));
          entries := entries + [e.value];
        }
        k := k + 1;
      }
      r := None;
    }

    /** `find_in_diretory`: the first slot along the chain that satisfies `f`. */
    method FindInDirectory(start: nat, f: Slot -> bool, ghost cs: seq<nat>)
      returns (found: bool, cluster: nat, offset: nat)
      requires Valid() && IsChain(Geo(), disk[..], cs) && cs[0] == start && AllOnDisk(Geo(), disk[..], cs)
      ensures var at := FirstAlong(Geo(), disk[..], cs, f);
              && found == (at.cluster < |cs|)
              && (found ==> cluster == cs[at.cluster] && offset == 32 * at.slot)
    {
      hide FatEntry, ClusterBytes, SlotsOf, Geometry.SectorOf, FirstIn;
      var current := start;
      ghost var i := 0;
      assert cs[0..] == cs;
      while true
        invariant 0 <= i < |cs| && current == cs[i]
        invariant IsChain(Geo(), disk[..], cs[i..]) && AllOnDisk(Geo(), disk[..], cs[i..])
        invariant var at, rest := FirstAlong(Geo(), disk[..], cs, f), FirstAlong(Geo(), disk[..], cs[i..], f);
                  at == Place(i + rest.cluster, rest.slot)
        decreases |cs| - i
      {
        var b := ReadCluster(current);
        var slots := SlotsOf(b);
        assert cs[i..][0] == cs[i] && cs[i..][1..] == cs[i + 1..];
        assert slots == ClusterSlots(Geo(), disk[..], cs[i]);
        var k := FindSlot(slots, f);
        if k < |slots| {
          return true, current, 32 * k;
        }
        var next := EntryInFat(current);
        if next >= FAT_ENTRY_EOF {
          assert cs[i + 1..] == [];
          return false, 0, 0;
        }
        current := next % 0x1000_0000;
        i := i + 1;
      }
    }

    /** The inner loop over the slots of one cluster. */
    method FindSlot(slots: seq<Slot>, f: Slot -> bool) returns (k: nat)
      ensures k == FirstIn(slots, f)
    {
      k := 0;
      while k < |slots| && !f(slots[k])
        invariant k <= |slots| && forall j :: 0 <= j < k ==> !f(slots[j])
      {
        k := k + 1;
      }
    }

    /** `find`: resolve a path component by component from the root; `Crash` where reading a directory fails an assertion. */
    method Find(parts: seq<seq<u8>>, target: Kind) returns (r: FindResult)
      requires Valid() && WalkEnds(Geo(), disk[..], ROOT_CLUSTER, parts)
      ensures r == FindPath(Geo(), disk[..], parts, target)
    {
      hide ReadDir, Lookup, ValidGeometry;
      if parts == [] {
        return Found(ROOT);
      }
      var dir, i := ROOT_CLUSTER, 0;
      assert parts[0..] == parts;
      while i < |parts|
        invariant 0 <= i < |parts|
        invariant FindFrom(Geo(), disk[..], dir, parts[i..], target) == FindPath(Geo(), disk[..], parts, target)
        invariant WalkEnds(Geo(), disk[..], dir, parts[i..])
        decreases |parts| - i
      {
        assert parts[i..][0] == parts[i] && parts[i..][1..] == parts[i + 1..];
        var entries := ReadDirectory(dir, ChainFrom(Geo(), disk[..], dir));
        if entries.None? {
          return Crash;
        }
        var entry := Lookup(entries.value, parts[i]);
        if entry.None? {
          return NotFound;
        }
        if entry.value.kind.Directory? {
          if target.File? && i == |parts| - 1 {
            return NotFound;
          }
          dir := entry.value.cluster;
          if target.Directory? && i == |parts| - 1 {
            return Found(entry.value);
          }
        } else {
          if target.Directory? || i != |parts| - 1 {
            return NotFound;
          }
          return Found(entry.value);
        }
        i := i + 1;
      }
    }

    /** `find_free_cluster`: first zero entry, sector by sector. */
    method FindFreeCluster() returns (c: nat)
      requires Valid()
      ensures c == FirstFree(Geo(), disk[..], 0)
    {
      var i := 0;
      while i < fatSectors
        invariant 0 <= i <= fatSectors
        invariant forall x :: 0 <= x < 128 * i ==> FatEntry(Geo(), disk[..], x) != 0
      {
        var j := 0;
        while j < 128
          invariant 0 <= j <= 128
          invariant forall x :: 0 <= x < 128 * i + j ==> FatEntry(Geo(), disk[..], x) != 0
        {
          assert FatEntry(Geo(), disk[..], 128 * i + j) == Get32(disk[fatSector + i], 4 * j);
          if Get32(disk[fatSector + i], 4 * j) == 0 {
            return 128 * i + j;
          }
          j := j + 1;
        }
        i := i + 1;
      }
      c := 128 * fatSectors;
    }

    /** `update_FAT` on the first copy of the table. */
    method UpdateFat(c: nat, v: nat)
      requires Valid() && c < 128 * fatSectors && v < TWO_32
      modifies disk
      ensures disk[..] == SetFatEntry(Geo(), old(disk[..]), c, v)
    {
      var i := fatSector + c / 128;
      disk[i] := Put32(disk[i], 4 * (c % 128), v);
    }

    /** The slots of the new entry, written into the buffer from the short slot backwards. */
    method FillSlots(buff: seq<Slot>, k: nat, name: seq<u8>, kind: Kind, c: nat) returns (r: seq<Slot>)
      requires c < TWO_32 && k + LongSlots(name) + 1 <= |buff|
      ensures r == Overwrite(buff, k, NewSlots(name, kind, c))
    {
      hide LongSlot, ShortSlot;
      var n, i := LongSlots(name), 0;
      ghost var w := NewSlots(name, kind, c);
      r := buff;
      while i < n
        invariant 0 <= i <= n && |r| == |buff|
        invariant r[..k + n - i] == buff[..k + n - i] && r[k + n..] == buff[k + n..]
        invariant forall j :: n - i <= j < n ==> r[k + j] == w[j]
      {
        r := r[k + (n - 1 - i) := LongSlot(name, n, i)];
        i := i + 1;
      }
      r := r[k + n := ShortSlot(name, kind, c)];
      assert w[n] == ShortSlot(name, kind, c);
      forall j | 0 <= j < |r|
        ensures r[j] == Overwrite(buff, k, w)[j]
      {
        if j < k {
          assert r[..k][j] == buff[..k][j];
        } else if j < k + n {
          assert r[k + (j - k)] == w[j - k];
        } else if j > k + n {
          assert r[k + n + 1..][j - (k + n + 1)] == buff[k + n + 1..][j - (k + n + 1)];
        }
      }
    }

    /**
     * Everything `create_entry` does once it has the parent's cluster. It halts, changing nothing, without an end mark,
     * a free cluster or room; the slots that pass the room check must really fit.
     */
    method CreateIn(dir: nat, name: seq<u8>, kind: Kind) returns (ok: bool)
      requires Valid() && 128 * fatSectors <= TWO_32 && CanStore(Geo(), disk[..], dir, name)
      modifies disk
      ensures var d := old(disk[..]);
              && ok == Ready(Geo(), d, dir, name, EndOf(Geo(), d, dir), FirstFree(Geo(), d, 0))
              && disk[..] == if ok then Created(Geo(), d, dir, name, kind, EndOf(Geo(), d, dir), FirstFree(Geo(), d, 0)) else d
    {
      hide FatEntry, ClusterBytes, SlotsOf, Flatten, Overwrite, WriteCluster, SetFatEntry, Geometry.SectorOf, NewSlots, FirstFree;
      ghost var d, cs := disk[..], ChainFrom(Geo(), disk[..], dir);
      ghost var at := EndOf(Geo(), d, dir);
      ChainAllOnDisk(Geo(), d, cs);
      var found, x, offset := FindInDirectory(dir, EndMark(), cs);
      if !found {
        return false;
      }
      var c := FindFreeCluster();
      if c == 0 || c == 128 * fatSectors {
        return false;
      }
      RoomCheckIsLax(Geo(), at.slot, name);
      if LongSlots(name) + 1 > (Geo().ClusterSize() - offset) / 4 {
        return false;
      }
      var b := ReadCluster(x);
      var slots := FillSlots(SlotsOf(b), offset / 32, name, kind, c);
      WriteClusterBytes(x, Flatten(slots));
      UpdateFat(c, FAT_ENTRY_EOF);
      WriteClusterBytes(c, Zeros(Geo().ClusterSize()));
      ok := true;
    }

    /** `create_entry`: `path` is the sequence of components. */
    method CreateEntry(path: seq<seq<u8>>, kind: Kind) returns (r: Creation)
      requires Valid() && path != [] && 128 * fatSectors <= TWO_32
      requires WalkEnds(Geo(), disk[..], ROOT_CLUSTER, path[..|path| - 1])
      requires var p := FindPath(Geo(), disk[..], path[..|path| - 1], Directory);
               p.Found? ==> CanStore(Geo(), disk[..], p.entry.cluster, path[|path| - 1])
      modifies disk
      ensures var d := old(disk[..]);
              var p := FindPath(Geo(), d, path[..|path| - 1], Directory);
              && (r == NoParent <==> p.NotFound?)
              && (r == Made <==> p.Found? && Ready(Geo(), d, p.entry.cluster, path[|path| - 1],
                                                   EndOf(Geo(), d, p.entry.cluster), FirstFree(Geo(), d, 0)))
              && disk[..] == if r == Made then Created(Geo(), d, p.entry.cluster, path[|path| - 1], kind,
                                                       EndOf(Geo(), d, p.entry.cluster), FirstFree(Geo(), d, 0))
                             else d
    {
      hide FindPath, Ready, Created, EndOf, FirstFree, CanStore, WalkEnds;
      var p := Find(path[..|path| - 1], Directory);
      match p {
        case NotFound => r := NoParent;
        case Crash => r := Halted;
        case Found(e) =>
          var ok := CreateIn(e.cluster, path[|path| - 1], kind);
          r := if ok then Made else Halted;
      }
    }

    /** `update_file_size` on the first slot of the directory whose cluster index is the file's. */
    method UpdateFileSize(start: nat, c: nat, size: nat, ghost cs: seq<nat>) returns (ok: bool)
      requires Valid() && IsChain(Geo(), disk[..], cs) && cs[0] == start && AllOnDisk(Geo(), disk[..], cs)
      requires size < TWO_32
      modifies disk
      ensures var d := old(disk[..]);
              var at := FirstAlong(Geo(), d, cs, HasCluster(c));
              && ok == (at.cluster < |cs|)
              && disk[..] == if ok then Resized(Geo(), d, cs, at, size) else d
    {
      hide FatEntry, ClusterBytes, SlotsOf, Flatten, WriteCluster, Geometry.SectorOf, IsChain, FirstIn;
      var found, x, offset := FindInDirectory(start, HasCluster(c), cs);
      ok := found;
      if found {
        var b := ReadCluster(x);
        var slots, k := SlotsOf(b), offset / 32;
        WriteClusterBytes(x, Flatten(slots[k := WithSize(slots[k], size)]));
      }
    }

    /**
     * `write_to_existing_file`: whole sectors along the file's chain, then the size in the parent. It halts where the
     * chain ends too early, having written what fits, or without a slot for the file in the parent, having written all.
     */
    method WriteToExistingFile(c: nat, data: seq<u8>, parent: nat, ghost file: seq<nat>, ghost dir: seq<nat>)
      returns (r: Writing)
      requires Valid() && IsChain(Geo(), disk[..], file) && IsChain(Geo(), disk[..], dir)
      requires file[0] == c && dir[0] == parent && EndsClearly(Geo(), disk[..], file)
      requires AllOnDisk(Geo(), disk[..], file) && AllOnDisk(Geo(), disk[..], dir)
      requires forall x :: x in file ==> x !in dir
      requires |data| < TWO_32
      modifies disk
      ensures var d := old(disk[..]);
              var at := FirstAlong(Geo(), d, dir, HasCluster(c));
              && (r == BadSize <==> |data| % 512 != 0)
              && (r == Wrote <==> |data| % 512 == 0 && LongEnough(Geo(), |file|, data) && at.cluster < |dir|)
              && disk[..] == match r
                             case BadSize => d
                             case Wrote => Written(Geo(), d, file, dir, at, data)
                             case Stopped => WriteChain(Geo(), d, file, data)
    {
      hide FatEntry, ClusterBytes, Geometry.SectorOf, WriteBytes, IsChain, LongEnough, FirstAlong, EndsClearly;
      if |data| % 512 != 0 {
        return BadSize;
      }
      ghost var d := disk[..];
      var ok := WriteAlong(c, data, file);
      if !ok {
        return Stopped;
      }
      ChainDistinct(Geo(), d, file);
      WriteChainEffect(Geo(), d, file, data);
      ChainFrame(Geo(), d, disk[..], dir);
      FirstAlongFrame(Geo(), d, disk[..], dir, HasCluster(c));
      ok := UpdateFileSize(parent, c, |data|, dir);
      r := if ok then Wrote else Stopped;
    }

    /** The write loop, one cluster at a time; `done` counts the sectors written so far. It stops where the chain ends. */
    method WriteAlong(c: nat, data: seq<u8>, ghost file: seq<nat>) returns (ok: bool)
      requires Valid() && IsChain(Geo(), disk[..], file) && file[0] == c && AllOnDisk(Geo(), disk[..], file)
      requires |data| % 512 == 0 && EndsClearly(Geo(), disk[..], file)
      modifies disk
      ensures ok == LongEnough(Geo(), |file|, data)
      ensures disk[..] == WriteChain(Geo(), old(disk[..]), file, data)
    {
      hide FatEntry, ClusterBytes, Geometry.SectorOf, WriteBytes, OnlyCluster, WriteChain, LongEnough;
      ghost var i := 0;
      var current, done, total := c, 0, |data| / 512;
      assert data[0..] == data && file[0..] == file;
      while done < total
        invariant 0 <= i <= |file| && 0 <= done <= total
        invariant AllOnDisk(Geo(), disk[..], file[i..])
        invariant LongEnough(Geo(), |file|, data) <==> LongEnough(Geo(), |file| - i, data[512 * done..])
        invariant if i < |file| then current == file[i] < FAT_ENTRY_EOF && IsChain(Geo(), disk[..], file[i..])
                                     && EndsClearly(Geo(), disk[..], file[i..])
                  else current >= FAT_ENTRY_EOF
        invariant WriteChain(Geo(), disk[..], file[i..], data[512 * done..]) == WriteChain(Geo(), old(disk[..]), file, data)
      {
        ghost var d, left := disk[..], data[512 * done..];
        if current >= FAT_ENTRY_EOF {
          WriteChainDone(Geo(), d, file[i..], left);
          return false;
        }
        DataAfterTables(Geo(), current);
        var count := Min(spc, total - done);
        var part := data[512 * done..512 * (done + count)];
        assert Chunk(Geo(), left) == 512 * count;
        assert left[..512 * count] == part && left[512 * count..] == data[512 * (done + count)..];
        assert file[i..][0] == current && file[i..][1..] == file[i + 1..];
        PartialCluster(Geo(), d, current, part);
        WriteSectors(Geo().SectorOf(current), part);
        OnlyClusterFrame(Geo(), d, disk[..], current);
        ChainFrame(Geo(), d, disk[..], file[i..]);
        WriteChainStep(Geo(), d, file[i..], left, disk[..]);
        var next := EntryInFat(current);
        current := next % 0x1000_0000;
        done := done + count;
        i := i + 1;
      }
      assert data[512 * done..] == [];
      WriteChainDone(Geo(), disk[..], file[i..], []);
      ok := true;
    }
  }
}
