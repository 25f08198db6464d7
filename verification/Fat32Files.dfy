/** File contents: writing whole sectors along a chain and updating the size in the parent directory. */
module Fat32Files {
  import opened Options
  import opened Bytes
  import opened Fat32Slots
  import opened Fat32Volume
  import opened Fat32Directory

  /** The part of the data that goes to the next cluster. */
  function Chunk(g: Geometry, data: seq<u8>): nat { Min(g.ClusterSize(), |data|) }

  /** The chain has room for the data. */
  predicate LongEnough(g: Geometry, clusters: nat, data: seq<u8>)
    decreases clusters
  {
    data == [] || (0 < clusters && LongEnough(g, clusters - 1, data[Chunk(g, data)..]))
  }

  lemma {:induction false} LongEnoughMeans(g: Geometry, clusters: nat, data: seq<u8>)
    ensures LongEnough(g, clusters, data) <==> |data| <= clusters * g.ClusterSize()
    decreases clusters
  {
    if data != [] && clusters > 0 {
      LongEnoughMeans(g, clusters - 1, data[Chunk(g, data)..]);
      assert clusters * g.ClusterSize() == (clusters - 1) * g.ClusterSize() + g.ClusterSize();
      assert 0 <= (clusters - 1) * g.ClusterSize();
    }
  }

  /** The disk after the write loop of `write_to_existing_file`, which stops where the chain ends. */
  function WriteChain(g: Geometry, d: seq<Sector>, cs: seq<nat>, data: seq<u8>): (d': seq<Sector>)
    requires AllOnDisk(g, d, cs) && |data| % 512 == 0
    ensures |d'| == |d|
    decreases |cs|
  {
    if data == [] || cs == [] then d
    else
      var n := Chunk(g, data);
      WriteChain(g, WriteBytes(d, g.SectorOf(cs[0]), data[..n]), cs[1..], data[n..])
  }

  lemma WriteChainDone(g: Geometry, d: seq<Sector>, cs: seq<nat>, data: seq<u8>)
    requires AllOnDisk(g, d, cs) && |data| % 512 == 0 && (data == [] || cs == [])
    ensures WriteChain(g, d, cs, data) == d && (LongEnough(g, |cs|, data) <==> data == [])
  {
  }

  lemma {:induction false} WriteChainStep(g: Geometry, d: seq<Sector>, cs: seq<nat>, data: seq<u8>, d1: seq<Sector>)
    requires AllOnDisk(g, d, cs) && |data| % 512 == 0 && data != [] && cs != [] && g.spc > 0
    requires d1 == WriteBytes(d, g.SectorOf(cs[0]), data[..Chunk(g, data)]) && |d1| == |d|
    ensures AllOnDisk(g, d1, cs[1..]) && |data[Chunk(g, data)..]| % 512 == 0
    ensures LongEnough(g, |cs|, data) <==> LongEnough(g, |cs| - 1, data[Chunk(g, data)..])
    ensures WriteChain(g, d, cs, data) == WriteChain(g, d1, cs[1..], data[Chunk(g, data)..])
  {
    hide WriteBytes, Geometry.SectorOf, Geometry.ClusterSize, Chunk;
    ChunkFacts(g, data);
  }

  /** A chunk is a positive number of whole sectors, at most a cluster. */
  lemma ChunkFacts(g: Geometry, data: seq<u8>)
    requires |data| % 512 == 0 && data != [] && g.spc > 0
    ensures 0 < Chunk(g, data) <= |data| && Chunk(g, data) % 512 == 0 && Chunk(g, data) <= g.ClusterSize()
    ensures |data[Chunk(g, data)..]| % 512 == 0 && |data[..Chunk(g, data)]| == Chunk(g, data)
    ensures Chunk(g, data) == Min(g.ClusterSize(), |data|) && Chunk(g, data) / 512 <= g.spc
  {
  }

  /** A partial write replaces the front of one cluster. */
  lemma PartialCluster(g: Geometry, d: seq<Sector>, c: nat, b: seq<u8>)
    requires ValidGeometry(g, d) && OnDisk(g, d, c) && |b| % 512 == 0 && |b| <= g.ClusterSize()
    ensures var d' := WriteBytes(d, g.SectorOf(c), b);
            OnlyCluster(g, d, d', c) && ClusterBytes(g, d', c) == b + ClusterBytes(g, d, c)[|b|..]
  {
    hide Geometry.SectorOf;
    DataAfterTables(g, c);
    var from, d' := g.SectorOf(c), WriteBytes(d, g.SectorOf(c), b);
    forall k | 0 <= k < g.ClusterSize()
      ensures ClusterBytes(g, d', c)[k] == (b + ClusterBytes(g, d, c)[|b|..])[k]
    {
      if k < |b| {
        var i := k / 512;
        assert d'[from + i] == b[512 * i..512 * i + 512];
      } else {
        assert d'[from + k / 512] == d[from + k / 512];
      }
    }
  }

  lemma {:induction false} ChainBytesFrame(g: Geometry, d: seq<Sector>, d': seq<Sector>, cs: seq<nat>)
    requires AllOnDisk(g, d, cs) && |d'| == |d|
    requires forall i :: 0 <= i < |cs| ==> ClusterBytes(g, d', cs[i]) == ClusterBytes(g, d, cs[i])
    ensures ChainBytes(g, d', cs) == ChainBytes(g, d, cs)
  {
    hide ClusterBytes;
    if cs != [] {
      ChainBytesFrame(g, d, d', cs[1..]);
    }
  }

  /**
   * Writing along a chain of distinct clusters puts the data at the front of the chain's bytes, keeps the
   * rest of them, and touches no other cluster and no table entry.
   */
  lemma {:induction false} WriteChainEffect(g: Geometry, d: seq<Sector>, cs: seq<nat>, data: seq<u8>)
    requires ValidGeometry(g, d) && AllOnDisk(g, d, cs) && |data| % 512 == 0 && LongEnough(g, |cs|, data)
    requires forall i, j :: 0 <= i < j < |cs| ==> cs[i] != cs[j]
    ensures var d' := WriteChain(g, d, cs, data);
            && |data| <= |ChainBytes(g, d, cs)|
            && ChainBytes(g, d', cs) == data + ChainBytes(g, d, cs)[|data|..]
            && (forall e: nat :: e !in cs && OnDisk(g, d, e) ==> ClusterBytes(g, d', e) == ClusterBytes(g, d, e))
            && (forall e: nat :: e < 128 * g.fatSectors ==> FatEntry(g, d', e) == FatEntry(g, d, e))
    decreases |cs|
  {
    hide ClusterBytes, FatEntry, OnlyCluster, WriteBytes, Geometry.SectorOf, Geometry.ClusterSize, WriteChain, Chunk;
    if data == [] {
      WriteChainDone(g, d, cs, data);
    } else {
      ChunkFacts(g, data);
      var n, c := Chunk(g, data), cs[0];
      DataAfterTables(g, c);
      var d1 := WriteBytes(d, g.SectorOf(c), data[..n]);
      PartialCluster(g, d, c, data[..n]);
      OnlyClusterFrame(g, d, d1, c);
      WriteChainEffect(g, d1, cs[1..], data[n..]);
      ChainBytesFrame(g, d, d1, cs[1..]);
      WriteChainStep(g, d, cs, data, d1);
      var d', head, tail := WriteChain(g, d, cs, data), ClusterBytes(g, d, c), ChainBytes(g, d, cs[1..]);
      assert ClusterBytes(g, d', c) == ClusterBytes(g, d1, c) == data[..n] + head[n..];
      JoinChunks(data, n, head, tail);
    }
  }

  /** The bytes of `n` clusters. */
  function Room(g: Geometry, n: nat): nat { n * g.ClusterSize() }

  lemma RoomNext(g: Geometry, n: nat)
    ensures Room(g, n + 1) == g.ClusterSize() + Room(g, n) && Room(g, n) % 512 == 0 && Room(g, 0) == 0
  {
    assert n * g.ClusterSize() == 512 * (n * g.spc);
  }

  /** Where the chain ends too early, the loop has written as much of the data as the chain holds. */
  lemma {:induction false} WriteChainCut(g: Geometry, d: seq<Sector>, cs: seq<nat>, data: seq<u8>)
    requires ValidGeometry(g, d) && AllOnDisk(g, d, cs) && |data| % 512 == 0 && Room(g, |cs|) <= |data|
    ensures Room(g, |cs|) % 512 == 0
    ensures WriteChain(g, d, cs, data) == WriteChain(g, d, cs, data[..Room(g, |cs|)])
    decreases |cs|
  {
    hide WriteBytes, Geometry.SectorOf, Geometry.ClusterSize, WriteChain, Room, LongEnough;
    RoomNext(g, |cs|);
    if cs == [] {
      NoChain(g, d, data);
      NoChain(g, d, data[..0]);
    } else {
      RoomNext(g, |cs| - 1);
      var n, m := g.ClusterSize(), Room(g, |cs|);
      var front := data[..m];
      FullCluster(g);
      assert Chunk(g, data) == n && Chunk(g, front) == n && front[..n] == data[..n];
      assert front[n..] == data[n..][..m - n];
      ClusterFits(g, d, cs[0], data[..n]);
      var d1 := WriteBytes(d, g.SectorOf(cs[0]), data[..n]);
      WriteChainStep(g, d, cs, data, d1);
      WriteChainStep(g, d, cs, front, d1);
      WriteChainCut(g, d1, cs[1..], data[n..]);
    }
  }

  lemma ClusterFits(g: Geometry, d: seq<Sector>, c: nat, b: seq<u8>)
    requires ValidGeometry(g, d) && OnDisk(g, d, c) && |b| == g.ClusterSize()
    ensures 0 <= g.SectorOf(c) && |b| % 512 == 0 && g.SectorOf(c) + |b| / 512 <= |d|
  {
    DataAfterTables(g, c);
  }

  lemma FullCluster(g: Geometry)
    requires g.spc > 0
    ensures g.ClusterSize() > 0 && g.ClusterSize() % 512 == 0
  {
  }

  lemma NoChain(g: Geometry, d: seq<Sector>, data: seq<u8>)
    requires |data| % 512 == 0
    ensures WriteChain(g, d, [], data) == d
  {
  }

  /** So afterwards the chain holds the front of the data, and nothing else on the disk has changed. */
  lemma WriteChainFills(g: Geometry, d: seq<Sector>, cs: seq<nat>, data: seq<u8>)
    requires ValidGeometry(g, d) && AllOnDisk(g, d, cs) && |data| % 512 == 0 && !LongEnough(g, |cs|, data)
    requires forall i, j :: 0 <= i < j < |cs| ==> cs[i] != cs[j]
    ensures var d' := WriteChain(g, d, cs, data);
            && Room(g, |cs|) < |data|
            && ChainBytes(g, d', cs) == data[..Room(g, |cs|)]
            && (forall e: nat :: e !in cs && OnDisk(g, d, e) ==> ClusterBytes(g, d', e) == ClusterBytes(g, d, e))
            && (forall e: nat :: e < 128 * g.fatSectors ==> FatEntry(g, d', e) == FatEntry(g, d, e))
  {
    hide WriteChain, ClusterBytes, FatEntry, LongEnough;
    LongEnoughMeans(g, |cs|, data);
    WriteChainCut(g, d, cs, data);
    var front := data[..Room(g, |cs|)];
    LongEnoughMeans(g, |cs|, front);
    WriteChainEffect(g, d, cs, front);
    ChainBytesLength(g, d, cs);
    assert front + ChainBytes(g, d, cs)[|front|..] == front;
  }

  lemma {:induction false} ChainBytesLength(g: Geometry, d: seq<Sector>, cs: seq<nat>)
    requires AllOnDisk(g, d, cs)
    ensures |ChainBytes(g, d, cs)| == |cs| * g.ClusterSize()
  {
    hide ClusterBytes;
    if cs != [] {
      ChainBytesLength(g, d, cs[1..]);
      assert |cs| * g.ClusterSize() == (|cs| - 1) * g.ClusterSize() + g.ClusterSize();
    }
  }

  /** Either the data ends inside the first cluster or it fills it. */
  lemma JoinChunks(data: seq<u8>, n: nat, head: seq<u8>, tail: seq<u8>)
    requires n == Min(|head|, |data|) && |data| - n <= |tail|
    ensures (data[..n] + head[n..]) + (data[n..] + tail[|data| - n..]) == data + (head + tail)[|data|..]
  {
  }

  // ----- the size in the parent directory

  function HasCluster(c: nat): Slot -> bool { (s: Slot) => ClusterIdx(s) == c }

  /** The disk after `update_file_size` rewrote the slot at `at` of the directory chain. */
  function Resized(g: Geometry, d: seq<Sector>, cs: seq<nat>, at: Place, size: nat): seq<Sector>
    requires AllOnDisk(g, d, cs) && at.cluster < |cs| && at.slot < 16 * g.spc && size < TWO_32
  {
    var slots := ClusterSlots(g, d, cs[at.cluster]);
    WriteCluster(g, d, cs[at.cluster], Flatten(slots[at.slot := WithSize(slots[at.slot], size)]))
  }

  /** It changes the size bytes of that one slot and nothing else on the disk. */
  lemma ResizedEffect(g: Geometry, d: seq<Sector>, cs: seq<nat>, at: Place, size: nat)
    requires ValidGeometry(g, d) && IsChain(g, d, cs) && AllOnDisk(g, d, cs)
    requires at.cluster < |cs| && at.slot < 16 * g.spc && size < TWO_32
    ensures var d' := Resized(g, d, cs, at, size);
            && |d'| == |d|
            && (var a, p := ChainSlots(g, d, cs), Flat(g, d, cs, at);
                && p < |a| && a[p] == ClusterSlots(g, d, cs[at.cluster])[at.slot]
                && ChainSlots(g, d', cs) == a[p := WithSize(a[p], size)])
            && (forall e: nat :: e != cs[at.cluster] && OnDisk(g, d, e) ==> ClusterBytes(g, d', e) == ClusterBytes(g, d, e))
            && (forall e: nat :: e < 128 * g.fatSectors ==> FatEntry(g, d', e) == FatEntry(g, d, e))
  {
    hide ClusterBytes, FatEntry, OnlyCluster, WriteBytes, Geometry.SectorOf, IsChain, ChainSlots, SlotsOf, Flatten, WithSize;
    var x, k := cs[at.cluster], at.slot;
    var slots := ClusterSlots(g, d, x);
    var w := [WithSize(slots[k], size)];
    var d' := Resized(g, d, cs, at, size);
    assert slots[k := w[0]] == Overwrite(slots, k, w);
    WriteClusterOnly(g, d, x, Flatten(slots[k := w[0]]));
    OnlyClusterFrame(g, d, d', x);
    SlotsOfFlatten(slots[k := w[0]]);
    ChainClusters(g, d, cs);
    SlotsAfterWrite(g, d, d', cs, at, 0, w);
    ChainSlotsSplit(g, d, cs, at.cluster);
    var a, p := ChainSlots(g, d, cs), Flat(g, d, cs, at);
    assert a[p] == slots[k];
    assert Overwrite(a, p, w) == a[p := w[0]];
  }

  /** The disk after a whole `write_to_existing_file`. */
  ghost function Written(g: Geometry, d: seq<Sector>, file: seq<nat>, dir: seq<nat>, at: Place, data: seq<u8>): seq<Sector>
    requires AllOnDisk(g, d, file) && AllOnDisk(g, d, dir) && |data| % 512 == 0 && LongEnough(g, |file|, data)
    requires at.cluster < |dir| && at.slot < 16 * g.spc && |data| < TWO_32
  {
    Resized(g, WriteChain(g, d, file, data), dir, at, |data|)
  }

  /**
   * Write then read: the file's bytes start with the data and continue as before, the parent directory
   * changes only in the size bytes of the slot found, and both chains stay what they were.
   */
  lemma WriteThenReadFile(g: Geometry, d: seq<Sector>, file: seq<nat>, dir: seq<nat>, at: Place, data: seq<u8>)
    requires ValidGeometry(g, d) && IsChain(g, d, file) && IsChain(g, d, dir)
    requires AllOnDisk(g, d, file) && AllOnDisk(g, d, dir)
    requires forall x :: x in file ==> x !in dir
    requires |data| % 512 == 0 && LongEnough(g, |file|, data) && |data| < TWO_32
    requires at.cluster < |dir| && at.slot < 16 * g.spc
    ensures var d' := Written(g, d, file, dir, at, data);
            && |d'| == |d| && IsChain(g, d', file) && IsChain(g, d', dir)
            && |data| <= |ChainBytes(g, d, file)|
            && ChainBytes(g, d', file) == data + ChainBytes(g, d, file)[|data|..]
            && (var a, p := ChainSlots(g, d, dir), Flat(g, d, dir, at);
                p < |a| && ChainSlots(g, d', dir) == a[p := WithSize(a[p], |data|)])
            && (forall e: nat :: e !in file && e != dir[at.cluster] && OnDisk(g, d, e) ==>
                  ClusterBytes(g, d', e) == ClusterBytes(g, d, e))
  {
    hide ClusterBytes, FatEntry, Geometry.SectorOf, ChainSlots, WithSize, WriteChain, Resized, IsChain;
    ChainDistinct(g, d, file);
    WriteChainEffect(g, d, file, data);
    var d1 := WriteChain(g, d, file, data);
    ChainFrame(g, d, d1, file);
    ChainFrame(g, d, d1, dir);
    ChainSlotsFrame(g, d, d1, dir);
    ChainSlotsFrame(g, d, d1, dir[..at.cluster]);
    ResizedEffect(g, d1, dir, at, |data|);
    var d' := Resized(g, d1, dir, at, |data|);
    ChainFrame(g, d1, d', file);
    ChainFrame(g, d1, d', dir);
    assert dir[at.cluster] in dir;
    assert forall i :: 0 <= i < |file| ==> file[i] in file && file[i] != dir[at.cluster];
    ChainBytesFrame(g, d1, d', file);
  }

  /** What the parent directory lists afterwards: the same entries, the written file with its new size. */
  lemma WrittenEntries(g: Geometry, d: seq<Sector>, file: seq<nat>, dir: seq<nat>, at: Place, data: seq<u8>)
    requires ValidGeometry(g, d) && IsChain(g, d, file) && IsChain(g, d, dir)
    requires AllOnDisk(g, d, file) && AllOnDisk(g, d, dir)
    requires forall x :: x in file ==> x !in dir
    requires |data| % 512 == 0 && LongEnough(g, |file|, data) && |data| < TWO_32
    requires at == FirstAlong(g, d, dir, HasCluster(file[0])) && at.cluster < |dir|
    requires ReadDir(g, d, dir[0]).Some?
    requires var a, p := ChainSlots(g, d, dir), Flat(g, d, dir, at);
             p < |a| && Regular(a[p]) && LiveBefore(a, p)
    ensures var d' := Written(g, d, file, dir, at, data);
            && |d'| == |d|
            && (var es, i := ReadDir(g, d, dir[0]).value, Rank(ChainSlots(g, d, dir), 0, Flat(g, d, dir, at));
                i < |es| && es[i].cluster == file[0] && ReadDir(g, d', dir[0]) == Some(es[i := es[i].(size := |data|)]))
  {
    hide Written, ChainSlots, Scan, WithSize, Regular, LiveBefore, ClusterIdx;
    WriteThenReadFile(g, d, file, dir, at, data);
    FirstAlongIsFirst(g, d, dir, HasCluster(file[0]));
    assert HasCluster(file[0])(ChainSlots(g, d, dir)[Flat(g, d, dir, at)]);
    ScanResize(ChainSlots(g, d, dir), Flat(g, d, dir, at), |data|, 0);
  }
}
