/**
 * A FAT32 volume as an array of 512-byte sectors: the file allocation table, data clusters, and
 * cluster chains, with what each kind of sector write leaves alone.
 */
module Fat32Volume {
  import opened Bytes

  type Sector = s: seq<u8> | |s| == 512 witness seq(512, _ => 0)

  const FAT_ENTRY_EOF: nat := 0xFFFFFF8

  /** The fields the file system computes from the boot sector. */
  datatype Geometry = Geometry(fatSector: nat, fatSectors: nat, spc: nat) {
    function DataStart(): nat { fatSector + 2 * fatSectors }
    function ClusterSize(): nat { 512 * spc }
    function SectorOf(cluster: int): int { DataStart() + (cluster - 2) * spc }
  }

  /** The first FAT and its unused copy fit on the disk, and a cluster has at least one sector. */
  predicate ValidGeometry(g: Geometry, d: seq<Sector>) {
    0 < g.spc && g.DataStart() <= |d|
  }

  /** A cluster that has both a FAT entry and data sectors on the disk. */
  predicate OnDisk(g: Geometry, d: seq<Sector>, c: nat) {
    2 <= c < 128 * g.fatSectors && g.SectorOf(c) + g.spc <= |d|
  }

  // ----- the table

  function FatEntry(g: Geometry, d: seq<Sector>, c: nat): nat
    requires ValidGeometry(g, d) && c < 128 * g.fatSectors
  {
    Get32(d[g.fatSector + c / 128], 4 * (c % 128))
  }

  function SetFatEntry(g: Geometry, d: seq<Sector>, c: nat, v: nat): (d': seq<Sector>)
    requires ValidGeometry(g, d) && c < 128 * g.fatSectors && v < TWO_32
    ensures |d'| == |d|
  {
    var i := g.fatSector + c / 128;
    d[i := Put32(d[i], 4 * (c % 128), v)]
  }

  /** Byte `x` of the table. */
  function TableByte(g: Geometry, d: seq<Sector>, x: nat): int
    requires ValidGeometry(g, d) && x < 512 * g.fatSectors
  {
    d[g.fatSector + x / 512][x % 512]
  }

  lemma EntryByte(g: Geometry, d: seq<Sector>, c: nat, k: nat)
    requires ValidGeometry(g, d) && c < 128 * g.fatSectors && k < 4
    ensures TableByte(g, d, 4 * c + k) == d[g.fatSector + c / 128][4 * (c % 128) + k]
  {
    assert 4 * c + k == 512 * (c / 128) + (4 * (c % 128) + k);
  }

  /** The entry of a cluster is the number in its four bytes of the table, least significant first. */
  lemma FatEntryBytes(g: Geometry, d: seq<Sector>, c: nat)
    requires ValidGeometry(g, d) && c < 128 * g.fatSectors
    ensures FatEntry(g, d, c) == TableByte(g, d, 4 * c) + 0x100 * TableByte(g, d, 4 * c + 1)
                                 + 0x1_0000 * TableByte(g, d, 4 * c + 2) + 0x100_0000 * TableByte(g, d, 4 * c + 3)
  {
    hide TableByte;
    var s, o := d[g.fatSector + c / 128], 4 * (c % 128);
    EntryByte(g, d, c, 0);
    EntryByte(g, d, c, 1);
    EntryByte(g, d, c, 2);
    EntryByte(g, d, c, 3);
    assert LittleEndian(s, o + 3, 1) == s[o + 3];
    assert LittleEndian(s, o + 1, 3) == s[o + 1] as int + 0x100 * LittleEndian(s, o + 2, 2);
  }

  lemma SetFatEntryReads(g: Geometry, d: seq<Sector>, c: nat, v: nat, x: nat)
    requires ValidGeometry(g, d) && c < 128 * g.fatSectors && v < TWO_32 && x < 128 * g.fatSectors
    ensures FatEntry(g, SetFatEntry(g, d, c, v), x) == if x == c then v else FatEntry(g, d, x)
  {
  }

  // ----- data clusters

  /** `n` sectors from sector `from` on, as bytes. */
  function SectorBytes(d: seq<Sector>, from: nat, n: nat): (b: seq<u8>)
    requires from + n <= |d|
    ensures |b| == 512 * n
  {
    seq(512 * n, k requires 0 <= k < 512 * n => d[from + k / 512][k % 512])
  }

  /** The disk after writing whole sectors from `from` on. */
  function WriteBytes(d: seq<Sector>, from: nat, b: seq<u8>): (d': seq<Sector>)
    requires |b| % 512 == 0 && from + |b| / 512 <= |d|
    ensures |d'| == |d|
  {
    seq(|d|, i requires 0 <= i < |d| =>
      if from <= i < from + |b| / 512 then b[512 * (i - from)..512 * (i - from) + 512] else d[i])
  }

  lemma WriteThenRead(d: seq<Sector>, from: nat, b: seq<u8>)
    requires |b| % 512 == 0 && from + |b| / 512 <= |d|
    ensures SectorBytes(WriteBytes(d, from, b), from, |b| / 512) == b
  {
  }

  function ClusterBytes(g: Geometry, d: seq<Sector>, c: nat): (b: seq<u8>)
    requires OnDisk(g, d, c)
    ensures |b| == g.ClusterSize()
  {
    SectorBytes(d, g.SectorOf(c), g.spc)
  }

  function WriteCluster(g: Geometry, d: seq<Sector>, c: nat, b: seq<u8>): (d': seq<Sector>)
    requires OnDisk(g, d, c) && |b| == g.ClusterSize()
    ensures |d'| == |d|
  {
    WriteBytes(d, g.SectorOf(c), b)
  }

  lemma {:induction false} Multiples(a: nat, b: nat, n: nat)
    requires a < b
    ensures a * n + n <= b * n
    decreases b - a
  {
    assert b * n == (b - 1) * n + n;
    if a < b - 1 {
      Multiples(a, b - 1, n);
    }
  }

  /** Different clusters occupy different sectors. */
  lemma ClustersApart(g: Geometry, a: nat, b: nat)
    requires 2 <= a < b
    ensures g.SectorOf(a) + g.spc <= g.SectorOf(b)
  {
    Multiples(a - 2, b - 2, g.spc);
  }

  /** The clusters lie in a row behind the table and its copy, from number 2 on. */
  lemma ClustersInRow(g: Geometry, c: nat)
    requires 2 <= c
    ensures g.SectorOf(2) == g.fatSector + g.fatSectors + g.fatSectors && g.SectorOf(c + 1) == g.SectorOf(c) + g.spc
  {
    assert (c + 1 - 2) * g.spc == (c - 2) * g.spc + g.spc;
  }

  /** Data clusters come after both tables. */
  lemma DataAfterTables(g: Geometry, a: nat)
    requires 2 <= a
    ensures g.DataStart() <= g.SectorOf(a)
  {
  }

  /** A disk that differs from `d` only in the given cluster. */
  ghost predicate OnlyCluster(g: Geometry, d: seq<Sector>, d': seq<Sector>, c: nat) {
    && 2 <= c && |d'| == |d|
    && forall i {:trigger d'[i]} :: 0 <= i < |d| && !(g.SectorOf(c) <= i < g.SectorOf(c) + g.spc) ==> d'[i] == d[i]
  }

  /** Writing one cluster leaves every other cluster and the whole table alone. */
  lemma OnlyClusterFrame(g: Geometry, d: seq<Sector>, d': seq<Sector>, c: nat)
    requires ValidGeometry(g, d) && OnlyCluster(g, d, d', c)
    ensures forall x: nat :: x < 128 * g.fatSectors ==> FatEntry(g, d', x) == FatEntry(g, d, x)
    ensures forall x: nat :: x != c && OnDisk(g, d, x) ==> ClusterBytes(g, d', x) == ClusterBytes(g, d, x)
  {
    hide Get32, Geometry.SectorOf;
    DataAfterTables(g, c);
    forall x: nat | x != c && OnDisk(g, d, x)
      ensures ClusterBytes(g, d', x) == ClusterBytes(g, d, x)
    {
      if x < c { ClustersApart(g, x, c); } else { ClustersApart(g, c, x); }
      DataAfterTables(g, x);
      forall k | 0 <= k < g.ClusterSize()
        ensures ClusterBytes(g, d', x)[k] == ClusterBytes(g, d, x)[k]
      {
        assert d'[g.SectorOf(x) + k / 512] == d[g.SectorOf(x) + k / 512];
      }
    }
  }

  lemma WriteClusterOnly(g: Geometry, d: seq<Sector>, c: nat, b: seq<u8>)
    requires ValidGeometry(g, d) && OnDisk(g, d, c) && |b| == g.ClusterSize()
    ensures OnlyCluster(g, d, WriteCluster(g, d, c, b), c)
    ensures ClusterBytes(g, WriteCluster(g, d, c, b), c) == b
  {
    hide Geometry.SectorOf;
    DataAfterTables(g, c);
    WriteThenRead(d, g.SectorOf(c), b);
  }

  /** Writing a table entry leaves every data cluster alone. */
  lemma SetFatEntryFrame(g: Geometry, d: seq<Sector>, c: nat, v: nat, x: nat)
    requires ValidGeometry(g, d) && c < 128 * g.fatSectors && v < TWO_32 && OnDisk(g, d, x)
    ensures ClusterBytes(g, SetFatEntry(g, d, c, v), x) == ClusterBytes(g, d, x)
  {
    DataAfterTables(g, x);
  }

  // ----- chains

  /** The clusters of a file or directory, in order, up to an end-of-chain mark. */
  ghost predicate IsChain(g: Geometry, d: seq<Sector>, cs: seq<nat>)
    requires ValidGeometry(g, d)
  {
    && cs != [] && OnDisk(g, d, cs[0])
    && var next := FatEntry(g, d, cs[0]);
       if |cs| == 1 then next >= FAT_ENTRY_EOF
       else next < FAT_ENTRY_EOF && next == cs[1] && IsChain(g, d, cs[1..])
  }

  /** A suffix of a chain is a chain. */
  lemma {:induction false} ChainSuffix(g: Geometry, d: seq<Sector>, cs: seq<nat>, i: nat)
    requires ValidGeometry(g, d) && IsChain(g, d, cs) && i < |cs|
    ensures IsChain(g, d, cs[i..])
  {
    if i > 0 {
      ChainSuffix(g, d, cs[1..], i - 1);
      assert cs[1..][i - 1..] == cs[i..];
    } else {
      assert cs[0..] == cs;
    }
  }

  /** The start cluster determines the chain. */
  lemma {:induction false} ChainUnique(g: Geometry, d: seq<Sector>, a: seq<nat>, b: seq<nat>)
    requires ValidGeometry(g, d) && IsChain(g, d, a) && IsChain(g, d, b) && a[0] == b[0]
    ensures a == b
    decreases |a|
  {
    if |a| > 1 && |b| > 1 {
      ChainUnique(g, d, a[1..], b[1..]);
      assert a == [a[0]] + a[1..] && b == [b[0]] + b[1..];
    }
  }

  /** A chain that reaches an end mark visits no cluster twice. */
  lemma ChainDistinct(g: Geometry, d: seq<Sector>, cs: seq<nat>)
    requires ValidGeometry(g, d) && IsChain(g, d, cs)
    ensures forall i, j :: 0 <= i < j < |cs| ==> cs[i] != cs[j]
  {
    forall i, j | 0 <= i < j < |cs|
      ensures cs[i] != cs[j]
    {
      ChainSuffix(g, d, cs, i);
      ChainSuffix(g, d, cs, j);
      if cs[i] == cs[j] {
        ChainUnique(g, d, cs[i..], cs[j..]);
      }
    }
  }

  /** Every cluster of a chain is on the disk, and none of them has a zero entry. */
  lemma {:induction false} ChainClusters(g: Geometry, d: seq<Sector>, cs: seq<nat>)
    requires ValidGeometry(g, d) && IsChain(g, d, cs)
    ensures forall i :: 0 <= i < |cs| ==> OnDisk(g, d, cs[i]) && FatEntry(g, d, cs[i]) != 0
  {
    if |cs| > 1 {
      ChainClusters(g, d, cs[1..]);
      assert forall i :: 0 < i < |cs| ==> cs[i] == cs[1..][i - 1];
    }
  }

  /** A chain is decided by the entries of its own clusters. */
  lemma {:induction false} ChainFrame(g: Geometry, d: seq<Sector>, d': seq<Sector>, cs: seq<nat>)
    requires ValidGeometry(g, d) && IsChain(g, d, cs) && |d'| == |d|
    requires forall x: nat :: x in cs && x < 128 * g.fatSectors ==> FatEntry(g, d', x) == FatEntry(g, d, x)
    ensures IsChain(g, d', cs)
  {
    hide FatEntry;
    if |cs| > 1 {
      ChainFrame(g, d, d', cs[1..]);
    }
  }
}
