/**
 * Directories on disk: the slots of a cluster chain, searching them, and the effect of creating an
 * entry on the whole volume.
 */
module Fat32Directory {
  import opened Options
  import opened Bytes
  import opened Fat32Slots
  import opened Fat32Volume

  // ----- bytes and slots

  function SlotsOf(b: seq<u8>): (s: seq<Slot>)
    requires |b| % 32 == 0
    ensures |s| == |b| / 32
  {
    seq(|b| / 32, k requires 0 <= k < |b| / 32 => b[32 * k..32 * k + 32])
  }

  function Flatten(s: seq<Slot>): (b: seq<u8>)
    ensures |b| == 32 * |s|
  {
    seq(32 * |s|, i requires 0 <= i < 32 * |s| => s[i / 32][i % 32])
  }

  lemma SlotsOfFlatten(s: seq<Slot>)
    ensures SlotsOf(Flatten(s)) == s
  {
    forall k | 0 <= k < |s|
      ensures SlotsOf(Flatten(s))[k] == s[k]
    {
      assert forall i :: 0 <= i < 32 ==> Flatten(s)[32 * k..32 * k + 32][i] == s[k][i];
    }
  }

  lemma SlotsOfConcat(a: seq<u8>, b: seq<u8>)
    requires |a| % 32 == 0 && |b| % 32 == 0
    ensures SlotsOf(a + b) == SlotsOf(a) + SlotsOf(b)
  {
    forall k | 0 <= k < |SlotsOf(a + b)|
      ensures SlotsOf(a + b)[k] == (SlotsOf(a) + SlotsOf(b))[k]
    {
      if k < |a| / 32 {
        assert (a + b)[32 * k..32 * k + 32] == a[32 * k..32 * k + 32];
      } else {
        var j := k - |a| / 32;
        assert (a + b)[32 * k..32 * k + 32] == b[32 * j..32 * j + 32];
      }
    }
  }

  // ----- a chain as bytes and as slots

  predicate AllOnDisk(g: Geometry, d: seq<Sector>, cs: seq<nat>) {
    forall i :: 0 <= i < |cs| ==> OnDisk(g, d, cs[i])
  }

  function ChainBytes(g: Geometry, d: seq<Sector>, cs: seq<nat>): (b: seq<u8>)
    requires AllOnDisk(g, d, cs)
    ensures |b| % 32 == 0
  {
    if cs == [] then [] else ClusterBytes(g, d, cs[0]) + ChainBytes(g, d, cs[1..])
  }

  function ClusterSlots(g: Geometry, d: seq<Sector>, c: nat): (s: seq<Slot>)
    requires OnDisk(g, d, c)
    ensures |s| == 16 * g.spc
  {
    assert |ClusterBytes(g, d, c)| == 32 * (16 * g.spc);
    SlotsOf(ClusterBytes(g, d, c))
  }

  function ChainSlots(g: Geometry, d: seq<Sector>, cs: seq<nat>): seq<Slot>
    requires AllOnDisk(g, d, cs)
  {
    if cs == [] then [] else ClusterSlots(g, d, cs[0]) + ChainSlots(g, d, cs[1..])
  }

  lemma {:induction false} ChainBytesSlots(g: Geometry, d: seq<Sector>, cs: seq<nat>)
    requires AllOnDisk(g, d, cs)
    ensures SlotsOf(ChainBytes(g, d, cs)) == ChainSlots(g, d, cs)
  {
    if cs != [] {
      ChainBytesSlots(g, d, cs[1..]);
      SlotsOfConcat(ClusterBytes(g, d, cs[0]), ChainBytes(g, d, cs[1..]));
    }
  }

  lemma {:induction false} ChainBytesAppend(g: Geometry, d: seq<Sector>, cs: seq<nat>, c: nat)
    requires AllOnDisk(g, d, cs) && OnDisk(g, d, c)
    ensures AllOnDisk(g, d, cs + [c])
    ensures ChainBytes(g, d, cs + [c]) == ChainBytes(g, d, cs) + ClusterBytes(g, d, c)
  {
    if cs == [] {
      assert cs + [c] == [c];
      assert [c][1..] == [];
    } else {
      assert (cs + [c])[1..] == cs[1..] + [c];
      ChainBytesAppend(g, d, cs[1..], c);
    }
  }

  /** The slots before, in and after one cluster of a chain. */
  lemma {:induction false} ChainSlotsSplit(g: Geometry, d: seq<Sector>, cs: seq<nat>, i: nat)
    requires AllOnDisk(g, d, cs) && i < |cs|
    ensures ChainSlots(g, d, cs)
            == ChainSlots(g, d, cs[..i]) + ClusterSlots(g, d, cs[i]) + ChainSlots(g, d, cs[i + 1..])
  {
    if i == 0 {
      assert cs[..0] == [];
    } else {
      ChainSlotsSplit(g, d, cs[1..], i - 1);
      assert cs[1..][..i - 1] == cs[..i][1..];
      assert cs[1..][i..] == cs[i + 1..];
    }
  }

  lemma {:induction false} ChainSlotsFrame(g: Geometry, d: seq<Sector>, d': seq<Sector>, cs: seq<nat>)
    requires AllOnDisk(g, d, cs) && |d'| == |d|
    requires forall i :: 0 <= i < |cs| ==> ClusterBytes(g, d', cs[i]) == ClusterBytes(g, d, cs[i])
    ensures ChainSlots(g, d', cs) == ChainSlots(g, d, cs)
  {
    hide ClusterBytes;
    if cs != [] {
      ChainSlotsFrame(g, d, d', cs[1..]);
    }
  }

  // ----- searching a directory

  /** First slot that satisfies `f`, or the number of slots. */
  function FirstIn(slots: seq<Slot>, f: Slot -> bool): (k: nat)
    ensures k <= |slots|
    ensures k < |slots| ==> f(slots[k])
    ensures forall j :: 0 <= j < k ==> !f(slots[j])
  {
    if slots == [] || f(slots[0]) then 0 else 1 + FirstIn(slots[1..], f)
  }

  /** A slot named by its cluster's position in the chain and its position in that cluster. */
  datatype Place = Place(cluster: nat, slot: nat)

  /** First slot along the chain that satisfies `f`; cluster position `|cs|` when there is none. */
  function FirstAlong(g: Geometry, d: seq<Sector>, cs: seq<nat>, f: Slot -> bool): (r: Place)
    requires AllOnDisk(g, d, cs)
    ensures r.cluster <= |cs|
    ensures r.cluster < |cs| ==> r.slot < 16 * g.spc
  {
    if cs == [] then Place(0, 0)
    else
      var k := FirstIn(ClusterSlots(g, d, cs[0]), f);
      if k < 16 * g.spc then Place(0, k)
      else var r := FirstAlong(g, d, cs[1..], f); Place(1 + r.cluster, r.slot)
  }

  /** Position of a place in the slots of the whole chain. */
  function Flat(g: Geometry, d: seq<Sector>, cs: seq<nat>, at: Place): nat
    requires AllOnDisk(g, d, cs) && at.cluster < |cs|
  {
    |ChainSlots(g, d, cs[..at.cluster])| + at.slot
  }

  /** The place found is the first match in the slots of the whole chain. */
  lemma {:induction false} FirstAlongIsFirst(g: Geometry, d: seq<Sector>, cs: seq<nat>, f: Slot -> bool)
    requires AllOnDisk(g, d, cs)
    ensures var at, all := FirstAlong(g, d, cs, f), ChainSlots(g, d, cs);
            if at.cluster == |cs| then FirstIn(all, f) == |all|
            else Flat(g, d, cs, at) == FirstIn(all, f) < |all|
  {
    hide ClusterSlots, FirstIn, OnDisk;
    var at, all := FirstAlong(g, d, cs, f), ChainSlots(g, d, cs);
    if cs != [] {
      var head, rest := ClusterSlots(g, d, cs[0]), ChainSlots(g, d, cs[1..]);
      FirstAlongIsFirst(g, d, cs[1..], f);
      FirstInConcat(head, rest, f);
      if at.cluster == 0 {
        assert cs[..0] == [];
      } else if at.cluster < |cs| {
        assert cs[..at.cluster][1..] == cs[1..][..at.cluster - 1];
      }
    }
  }

  lemma FirstInConcat(a: seq<Slot>, b: seq<Slot>, f: Slot -> bool)
    ensures FirstIn(a + b, f) == if FirstIn(a, f) < |a| then FirstIn(a, f) else |a| + FirstIn(b, f)
  {
    var k := if FirstIn(a, f) < |a| then FirstIn(a, f) else |a| + FirstIn(b, f);
    assert forall j :: 0 <= j < k ==> !f((a + b)[j]);
    assert k < |a + b| ==> f((a + b)[k]);
  }

  // ----- reading and resolving

  /** The chain that starts at `c`, empty when the table never reaches an end mark from there. */
  ghost function ChainFrom(g: Geometry, d: seq<Sector>, c: nat): (cs: seq<nat>)
    requires ValidGeometry(g, d)
    ensures cs != [] ==> IsChain(g, d, cs) && cs[0] == c
    ensures forall a :: IsChain(g, d, a) && a[0] == c ==> cs == a
  {
    if exists a :: IsChain(g, d, a) && a[0] == c then
      var a :| IsChain(g, d, a) && a[0] == c;
      assert forall b :: IsChain(g, d, b) && b[0] == c ==> a == b by {
        forall b | IsChain(g, d, b) && b[0] == c
          ensures a == b
        {
          ChainUnique(g, d, a, b);
        }
      }
      a
    else []
  }

  lemma ChainAllOnDisk(g: Geometry, d: seq<Sector>, cs: seq<nat>)
    requires ValidGeometry(g, d) && (cs == [] || IsChain(g, d, cs))
    ensures AllOnDisk(g, d, cs)
  {
  }

  /** The slots of the directory that starts at `c`. */
  ghost function DirSlots(g: Geometry, d: seq<Sector>, c: nat): seq<Slot>
    requires ValidGeometry(g, d)
  {
    var cs := ChainFrom(g, d, c);
    ChainAllOnDisk(g, d, cs);
    ChainSlots(g, d, cs)
  }

  /** `read_directory`; `None` when its walk never ends or one of its assertions fails. */
  ghost function ReadDir(g: Geometry, d: seq<Sector>, c: nat): Option<seq<DirEntry>>
    requires ValidGeometry(g, d)
  {
    Scan(DirSlots(g, d, c), 0)
  }

  function Lookup(es: seq<DirEntry>, name: seq<u8>): Option<DirEntry> {
    if es == [] then None else if es[0].name == name then Some(es[0]) else Lookup(es[1..], name)
  }

  lemma {:induction false} LookupAppend(es: seq<DirEntry>, e: DirEntry, name: seq<u8>)
    ensures Lookup(es + [e], name)
            == if Lookup(es, name).Some? then Lookup(es, name) else if e.name == name then Some(e) else None
  {
    if es == [] {
      assert es + [e] == [e] && [e][1..] == [];
    } else {
      assert (es + [e])[1..] == es[1..] + [e];
      LookupAppend(es[1..], e, name);
    }
  }

  datatype FindResult = Found(entry: DirEntry) | NotFound | Crash

  /** The path walk of `find`, from the directory at cluster `dir`. */
  ghost function FindFrom(g: Geometry, d: seq<Sector>, dir: nat, parts: seq<seq<u8>>, target: Kind): FindResult
    requires ValidGeometry(g, d) && parts != []
    decreases |parts|
  {
    match ReadDir(g, d, dir)
    case None => Crash
    case Some(es) =>
      match Lookup(es, parts[0])
      case None => NotFound
      case Some(e) =>
        if e.kind.Directory? then
          if |parts| > 1 then FindFrom(g, d, e.cluster, parts[1..], target)
          else if target.File? then NotFound else Found(e)
        else if target.Directory? || |parts| > 1 then NotFound else Found(e)
  }

  const ROOT_CLUSTER: nat := 2
  const ROOT: DirEntry := DirEntry([47], Directory, 0, ROOT_CLUSTER)

  ghost function FindPath(g: Geometry, d: seq<Sector>, parts: seq<seq<u8>>, target: Kind): FindResult
    requires ValidGeometry(g, d)
  {
    if parts == [] then Found(ROOT) else FindFrom(g, d, ROOT_CLUSTER, parts, target)
  }

  // ----- creating an entry

  function EndMark(): Slot -> bool { (s: Slot) => s[0] == 0 }

  function Zeros(n: nat): (b: seq<u8>)
    ensures |b| == n
  {
    seq(n, _ => 0)
  }

  function Overwrite(slots: seq<Slot>, k: nat, w: seq<Slot>): (r: seq<Slot>)
    requires k + |w| <= |slots|
    ensures |r| == |slots|
  {
    slots[..k] + w + slots[k + |w|..]
  }

  /** The disk after `create_entry` put its slots at slot `k` of cluster `x` and took cluster `c`. */
  function CreateOn(g: Geometry, d: seq<Sector>, x: nat, k: nat, c: nat, w: seq<Slot>): seq<Sector>
    requires ValidGeometry(g, d) && OnDisk(g, d, x) && OnDisk(g, d, c) && k + |w| <= 16 * g.spc
  {
    var d1 := WriteCluster(g, d, x, Flatten(Overwrite(ClusterSlots(g, d, x), k, w)));
    var d2 := SetFatEntry(g, d1, c, FAT_ENTRY_EOF);
    WriteCluster(g, d2, c, Zeros(g.ClusterSize()))
  }

  /** `create_entry` changes one table entry, the slot cluster and the new cluster, and nothing else. */
  lemma CreateEffect(g: Geometry, d: seq<Sector>, x: nat, k: nat, c: nat, w: seq<Slot>)
    requires ValidGeometry(g, d) && OnDisk(g, d, x) && OnDisk(g, d, c) && k + |w| <= 16 * g.spc && x != c
    ensures var d' := CreateOn(g, d, x, k, c, w);
            && |d'| == |d|
            && (forall e: nat :: e < 128 * g.fatSectors ==>
                  FatEntry(g, d', e) == if e == c then FAT_ENTRY_EOF else FatEntry(g, d, e))
            && (forall e: nat :: e != x && e != c && OnDisk(g, d, e) ==> ClusterBytes(g, d', e) == ClusterBytes(g, d, e))
            && ClusterSlots(g, d', x) == Overwrite(ClusterSlots(g, d, x), k, w)
            && ClusterBytes(g, d', c) == Zeros(g.ClusterSize())
  {
    hide FatEntry, ClusterBytes, WriteCluster, SetFatEntry, SlotsOf, Flatten, OnlyCluster, Geometry.SectorOf;
    var b := Flatten(Overwrite(ClusterSlots(g, d, x), k, w));
    var d1 := WriteCluster(g, d, x, b);
    var d2 := SetFatEntry(g, d1, c, FAT_ENTRY_EOF);
    var d3 := WriteCluster(g, d2, c, Zeros(g.ClusterSize()));
    WriteClusterOnly(g, d, x, b);
    OnlyClusterFrame(g, d, d1, x);
    forall e: nat | e < 128 * g.fatSectors
      ensures FatEntry(g, d2, e) == if e == c then FAT_ENTRY_EOF else FatEntry(g, d1, e)
    {
      SetFatEntryReads(g, d1, c, FAT_ENTRY_EOF, e);
    }
    forall e: nat | OnDisk(g, d, e)
      ensures ClusterBytes(g, d2, e) == ClusterBytes(g, d1, e)
    {
      SetFatEntryFrame(g, d1, c, FAT_ENTRY_EOF, e);
    }
    WriteClusterOnly(g, d2, c, Zeros(g.ClusterSize()));
    OnlyClusterFrame(g, d2, d3, c);
    SlotsOfFlatten(Overwrite(ClusterSlots(g, d, x), k, w));
  }

  /** Taking a free cluster leaves every existing chain in place and makes the new cluster a chain of its own. */
  lemma CreateKeepsChains(g: Geometry, d: seq<Sector>, d': seq<Sector>, c: nat, cs: seq<nat>)
    requires ValidGeometry(g, d) && |d'| == |d| && OnDisk(g, d, c) && FatEntry(g, d, c) == 0
    requires forall e: nat :: e < 128 * g.fatSectors ==>
                FatEntry(g, d', e) == if e == c then FAT_ENTRY_EOF else FatEntry(g, d, e)
    requires IsChain(g, d, cs)
    ensures c !in cs && IsChain(g, d', cs) && IsChain(g, d', [c])
  {
    hide FatEntry;
    ChainClusters(g, d, cs);
    ChainFrame(g, d, d', cs);
  }

  /** What `create_entry` needs of the parent directory at `dir`: an end mark with room in its cluster, and a free cluster. */
  ghost predicate Ready(g: Geometry, d: seq<Sector>, dir: nat, name: seq<u8>, at: Place, c: nat)
    requires ValidGeometry(g, d)
  {
    var cs := ChainFrom(g, d, dir);
    ChainAllOnDisk(g, d, cs);
    && at == FirstAlong(g, d, cs, EndMark()) && at.cluster < |cs|
    && at.slot + LongSlots(name) + 1 <= 16 * g.spc
    && OnDisk(g, d, c) && FatEntry(g, d, c) == 0
  }

  /** The slot after the new ones still ends the directory. */
  ghost predicate EndFollows(g: Geometry, d: seq<Sector>, dir: nat, name: seq<u8>, at: Place)
    requires ValidGeometry(g, d) && at.cluster < |ChainFrom(g, d, dir)|
  {
    var cs := ChainFrom(g, d, dir);
    ChainAllOnDisk(g, d, cs);
    var q := Flat(g, d, cs, at) + LongSlots(name) + 1;
    q < |DirSlots(g, d, dir)| && DirSlots(g, d, dir)[q][0] == 0
  }

  /** The disk after `create_entry`. */
  ghost function Created(g: Geometry, d: seq<Sector>, dir: nat, name: seq<u8>, kind: Kind, at: Place, c: nat): seq<Sector>
    requires ValidGeometry(g, d) && Ready(g, d, dir, name, at, c) && c < TWO_32
  {
    var cs := ChainFrom(g, d, dir);
    ChainAllOnDisk(g, d, cs);
    CreateOn(g, d, cs[at.cluster], at.slot, c, NewSlots(name, kind, c))
  }

  /** The slots of the parent after creation: the new ones in place of the end mark, everything else as before. */
  lemma CreatedSlots(g: Geometry, d: seq<Sector>, dir: nat, name: seq<u8>, kind: Kind, at: Place, c: nat)
    requires ValidGeometry(g, d) && Ready(g, d, dir, name, at, c) && c < TWO_32
    ensures var d' := Created(g, d, dir, name, kind, at, c);
            var cs := ChainFrom(g, d, dir);
            && |d'| == |d| && ChainFrom(g, d', dir) == cs
            && AllOnDisk(g, d, cs)
            && (var p, w := Flat(g, d, cs, at), NewSlots(name, kind, c);
                && p + |w| <= |DirSlots(g, d, dir)|
                && DirSlots(g, d', dir) == Overwrite(DirSlots(g, d, dir), p, w))
  {
    hide FatEntry, ClusterBytes, CreateOn, ChainSlots, Fat32Volume.OnDisk, IsChain, Overwrite;
    var cs, w := ChainFrom(g, d, dir), NewSlots(name, kind, c);
    ChainAllOnDisk(g, d, cs);
    var d' := Created(g, d, dir, name, kind, at, c);
    ChainClusters(g, d, cs);
    CreateEffect(g, d, cs[at.cluster], at.slot, c, w);
    CreateKeepsChains(g, d, d', c, cs);
    ChainAllOnDisk(g, d', cs);
    SlotsAfterWrite(g, d, d', cs, at, c, w);
  }

  lemma OverwriteMiddle(pre: seq<Slot>, mid: seq<Slot>, post: seq<Slot>, k: nat, w: seq<Slot>)
    requires k + |w| <= |mid|
    ensures pre + Overwrite(mid, k, w) + post == Overwrite(pre + mid + post, |pre| + k, w)
  {
  }

  /** Overwriting slots inside one cluster overwrites them in the slots of the whole chain. */
  lemma SlotsAfterWrite(g: Geometry, d: seq<Sector>, d': seq<Sector>, cs: seq<nat>, at: Place, c: nat, w: seq<Slot>)
    requires ValidGeometry(g, d) && IsChain(g, d, cs) && |d'| == |d| && c !in cs
    requires AllOnDisk(g, d, cs) && at.cluster < |cs| && at.slot + |w| <= 16 * g.spc
    requires forall e: nat :: e != cs[at.cluster] && e != c && OnDisk(g, d, e) ==>
                ClusterBytes(g, d', e) == ClusterBytes(g, d, e)
    requires ClusterSlots(g, d', cs[at.cluster]) == Overwrite(ClusterSlots(g, d, cs[at.cluster]), at.slot, w)
    ensures var p := Flat(g, d, cs, at);
            && p + |w| <= |ChainSlots(g, d, cs)|
            && ChainSlots(g, d', cs) == Overwrite(ChainSlots(g, d, cs), p, w)
  {
    hide FatEntry, ClusterBytes, ClusterSlots, Overwrite, IsChain, ChainSlots;
    var i := at.cluster;
    ChainDistinct(g, d, cs);
    ChainSlotsSplit(g, d, cs, i);
    ChainSlotsSplit(g, d', cs, i);
    ClustersFrame(g, d, d', cs[..i], cs[i], c);
    ClustersFrame(g, d, d', cs[i + 1..], cs[i], c);
    OverwriteMiddle(ChainSlots(g, d, cs[..i]), ClusterSlots(g, d, cs[i]), ChainSlots(g, d, cs[i + 1..]), at.slot, w);
  }

  /** Slots of clusters other than the two that were written. */
  lemma ClustersFrame(g: Geometry, d: seq<Sector>, d': seq<Sector>, cs: seq<nat>, x: nat, c: nat)
    requires AllOnDisk(g, d, cs) && |d'| == |d| && x !in cs && c !in cs
    requires forall e: nat :: e != x && e != c && OnDisk(g, d, e) ==> ClusterBytes(g, d', e) == ClusterBytes(g, d, e)
    ensures ChainSlots(g, d', cs) == ChainSlots(g, d, cs)
  {
  }

  /**
   * The round trip on disk: after `create_entry`, reading the parent returns the old entries followed by
   * exactly the new one, with its name, kind and start cluster, if and only if the name is storable.
   */
  lemma CreateThenReadDir(g: Geometry, d: seq<Sector>, dir: nat, name: seq<u8>, kind: Kind, at: Place, c: nat)
    requires ValidGeometry(g, d) && Ready(g, d, dir, name, at, c) && c < TWO_32
    requires EndFollows(g, d, dir, name, at) && ReadDir(g, d, dir).Some?
    requires Ascii(name) && name != []
    ensures var d' := Created(g, d, dir, name, kind, at, c);
            && |d'| == |d|
            && (ReadDir(g, d', dir) == Some(ReadDir(g, d, dir).value + [NewEntry(name, kind, c)]) <==> Storable(name))
  {
    hide FatEntry, ClusterBytes, CreateOn, Scan, Storable, ChainSlots;
    var cs, d', w := ChainFrom(g, d, dir), Created(g, d, dir, name, kind, at, c), NewSlots(name, kind, c);
    CreatedSlots(g, d, dir, name, kind, at, c);
    FirstAlongIsFirst(g, d, cs, EndMark());
    var a, b, p := DirSlots(g, d, dir), DirSlots(g, d', dir), Flat(g, d, cs, at);
    assert p == FirstIn(a, EndMark());
    assert a[p][0] == 0 && LiveBefore(a, p);
    assert b[..p] == a[..p];
    assert Placed(b, p, name, kind, c);
    assert b[p + |w|] == a[p + |w|];
    CreateThenScan(a, b, p, name, kind, c);
  }

  /** What was created is one cluster of zeros: an empty directory, if it is one. */
  lemma CreatedEmpty(g: Geometry, d: seq<Sector>, dir: nat, name: seq<u8>, kind: Kind, at: Place, c: nat)
    requires ValidGeometry(g, d) && Ready(g, d, dir, name, at, c) && c < TWO_32
    ensures var d' := Created(g, d, dir, name, kind, at, c);
            && |d'| == |d| && ChainFrom(g, d', c) == [c] && OnDisk(g, d', c)
            && (forall i :: 0 <= i < g.ClusterSize() ==> ClusterBytes(g, d', c)[i] == 0)
            && ReadDir(g, d', c) == Some([])
  {
    hide FatEntry, ClusterBytes, CreateOn, IsChain;
    var cs, d' := ChainFrom(g, d, dir), Created(g, d, dir, name, kind, at, c);
    ChainAllOnDisk(g, d, cs);
    ChainClusters(g, d, cs);
    CreateEffect(g, d, cs[at.cluster], at.slot, c, NewSlots(name, kind, c));
    CreateKeepsChains(g, d, d', c, cs);
    assert IsChain(g, d', [c]) && [c][0] == c;
    ZeroCluster(g, d', c);
  }

  lemma ZeroCluster(g: Geometry, d: seq<Sector>, c: nat)
    requires ValidGeometry(g, d) && OnDisk(g, d, c) && ChainFrom(g, d, c) == [c] && ClusterBytes(g, d, c) == Zeros(g.ClusterSize())
    ensures ReadDir(g, d, c) == Some([])
  {
    hide ClusterBytes;
    assert [c][1..] == [];
    assert ChainSlots(g, d, [c]) == ClusterSlots(g, d, c);
    assert ClusterSlots(g, d, c)[0][0] == ClusterBytes(g, d, c)[32 * 0..32 * 0 + 32][0];
  }

  /** A directory that shares no cluster with the parent reads the same before and after. */
  lemma OtherDirKept(g: Geometry, d: seq<Sector>, dir: nat, name: seq<u8>, kind: Kind, at: Place, c: nat, other: nat)
    requires ValidGeometry(g, d) && Ready(g, d, dir, name, at, c) && c < TWO_32
    requires ChainFrom(g, d, other) != [] && ChainFrom(g, d, dir)[at.cluster] !in ChainFrom(g, d, other)
    ensures var d' := Created(g, d, dir, name, kind, at, c);
            |d'| == |d| && ReadDir(g, d', other) == ReadDir(g, d, other)
  {
    hide FatEntry, ClusterBytes, CreateOn, Scan, ClusterSlots, IsChain;
    var cs, d', x := ChainFrom(g, d, other), Created(g, d, dir, name, kind, at, c), ChainFrom(g, d, dir)[at.cluster];
    ChainAllOnDisk(g, d, ChainFrom(g, d, dir));
    ChainClusters(g, d, ChainFrom(g, d, dir));
    CreateEffect(g, d, x, at.slot, c, NewSlots(name, kind, c));
    CreateKeepsChains(g, d, d', c, cs);
    ChainAllOnDisk(g, d, cs);
    ClustersFrame(g, d, d', cs, x, c);
  }

  lemma OnTheWay(g: Geometry, d: seq<Sector>, dir: nat, name: seq<u8>, kind: Kind, at: Place, c: nat, other: nat)
    requires ValidGeometry(g, d) && Ready(g, d, dir, name, at, c) && c < TWO_32
    requires ReadDir(g, d, other).Some?
    requires forall x :: x in ChainFrom(g, d, dir) ==> x !in ChainFrom(g, d, other)
    ensures var d' := Created(g, d, dir, name, kind, at, c);
            |d'| == |d| && ReadDir(g, d', other) == ReadDir(g, d, other)
  {
    hide Created;
    OtherDirKept(g, d, dir, name, kind, at, c, other);
  }

  /** Each directory walked through on the way is the parent itself or shares no cluster with it. */
  ghost predicate PathApart(g: Geometry, d: seq<Sector>, from: nat, parts: seq<seq<u8>>, dir: nat)
    requires ValidGeometry(g, d)
    decreases |parts|
  {
    parts != [] ==>
      && (from == dir || forall x :: x in ChainFrom(g, d, dir) ==> x !in ChainFrom(g, d, from))
      && (ReadDir(g, d, from).Some? ==>
            var e := Lookup(ReadDir(g, d, from).value, parts[0]);
            e.Some? && e.value.kind.Directory? ==> PathApart(g, d, e.value.cluster, parts[1..], dir))
  }

  /** The walk to the parent finds the same directory after the creation, and then the new entry in it. */
  lemma {:induction false} FindFromCreated(g: Geometry, d: seq<Sector>, from: nat, parents: seq<seq<u8>>,
                                           name: seq<u8>, kind: Kind, dir: nat, at: Place, c: nat)
    requires ValidGeometry(g, d) && Ready(g, d, dir, name, at, c) && c < TWO_32
    requires EndFollows(g, d, dir, name, at) && ReadDir(g, d, dir).Some?
    requires Ascii(name) && name != [] && Storable(name)
    requires Lookup(ReadDir(g, d, dir).value, name).None?
    requires PathApart(g, d, from, parents, dir)
    requires if parents == [] then from == dir
             else FindFrom(g, d, from, parents, Directory).Found?
                  && FindFrom(g, d, from, parents, Directory).entry.cluster == dir
    ensures var d' := Created(g, d, dir, name, kind, at, c);
            |d'| == |d| && FindFrom(g, d', from, parents + [name], kind) == Found(NewEntry(name, kind, c))
    decreases |parents|
  {
    hide Created, ReadDir, Ready, EndFollows, Storable;
    var d', e := Created(g, d, dir, name, kind, at, c), NewEntry(name, kind, c);
    CreateThenReadDir(g, d, dir, name, kind, at, c);
    if parents == [] {
      LookupAppend(ReadDir(g, d, dir).value, e, name);
    } else {
      var part := parents[0];
      if from == dir {
        LookupAppend(ReadDir(g, d, dir).value, e, part);
      } else {
        OnTheWay(g, d, dir, name, kind, at, c, from);
      }
      assert (parents + [name])[0] == part && (parents + [name])[1..] == parents[1..] + [name];
      var sub := Lookup(ReadDir(g, d, from).value, part).value;
      FindFromCreated(g, d, sub.cluster, parents[1..], name, kind, dir, at, c);
    }
  }

  /** `find` resolves the path of the new entry, at any depth. */
  lemma FindPathCreated(g: Geometry, d: seq<Sector>, parents: seq<seq<u8>>, name: seq<u8>, kind: Kind, at: Place, c: nat)
    requires ValidGeometry(g, d) && c < TWO_32 && FindPath(g, d, parents, Directory).Found?
    requires var dir := FindPath(g, d, parents, Directory).entry.cluster;
             && Ready(g, d, dir, name, at, c) && EndFollows(g, d, dir, name, at) && ReadDir(g, d, dir).Some?
             && Lookup(ReadDir(g, d, dir).value, name).None? && PathApart(g, d, ROOT_CLUSTER, parents, dir)
    requires Ascii(name) && name != [] && Storable(name)
    ensures var dir := FindPath(g, d, parents, Directory).entry.cluster;
            var d' := Created(g, d, dir, name, kind, at, c);
            |d'| == |d| && FindPath(g, d', parents + [name], kind) == Found(NewEntry(name, kind, c))
  {
    hide Created, ReadDir, Ready, EndFollows, Storable, FindFrom, PathApart;
    FindFromCreated(g, d, ROOT_CLUSTER, parents, name, kind, FindPath(g, d, parents, Directory).entry.cluster, at, c);
  }

  // ----- the room check

  /** The code compares the number of slots with the bytes left divided by 4, the size of a number, not of a slot. */
  predicate RoomCheck(g: Geometry, slot: nat, name: seq<u8>)
    requires slot <= 16 * g.spc
  {
    LongSlots(name) + 1 <= (g.ClusterSize() - 32 * slot) / 4
  }

  /** Slots that fit pass the check, but so does everything up to eight times as long. */
  lemma RoomCheckIsLax(g: Geometry, slot: nat, name: seq<u8>)
    requires slot <= 16 * g.spc
    ensures RoomCheck(g, slot, name) <==> LongSlots(name) + 1 <= 8 * (16 * g.spc - slot)
    ensures slot + LongSlots(name) + 1 <= 16 * g.spc ==> RoomCheck(g, slot, name)
  {
  }

  /** In the last slot of any cluster the check lets a name through that needs more slots than are left. */
  lemma RoomCheckOverruns(g: Geometry)
    requires g.spc > 0
    ensures var name := seq(14, _ => 97 as u8);
            RoomCheck(g, 16 * g.spc - 1, name) && 16 * g.spc - 1 + LongSlots(name) + 1 > 16 * g.spc
  {
  }
}
