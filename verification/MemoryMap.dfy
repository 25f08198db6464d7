/** The memory map that the boot loader hands over, and the frames it makes available. */
module MemoryMap {
  import opened FrameBitmap

  /** An entry of the memory map: its type, and a 64-bit base and length in bytes. */
  datatype Region = Region(available: bool, base: nat, len: nat)

  predicate Below4GB(r: Region) { r.base < 0x1_0000_0000 && r.len < 0x1_0000_0000 }
  predicate Aligned(r: Region) { r.base % 4096 == 0 || RegionFrames(r.base, r.len) == {} }

  /** The end of a region below 4 GB neither wraps around nor goes past the last frame that has a bit. */
  predicate Addressable(r: Region) { r.available && Below4GB(r) ==> 4096 <= r.base + r.len <= 4096 * FRAMES }

  predicate Usable(a: nat, f: nat) { FIRST_FREE_FRAME <= f && a <= f }

  function FramesBetween(a: nat, b: nat): set<nat> { set f: nat | f < b && Usable(a, f) }

  /** The whole frames of a region, counted from its base, that lie above 5 MB. */
  function RegionFrames(base: nat, len: nat): set<nat> { FramesBetween(base / 4096, base / 4096 + len / 4096) }

  function AllFrames(regions: seq<Region>): set<nat> {
    if regions == [] then {}
    else
      var r := regions[|regions| - 1];
      AllFrames(regions[..|regions| - 1]) + if r.available then RegionFrames(r.base, r.len) else {}
  }

  /** A frame lies between 5 MB and the end of memory and, whole, inside the region counted from its base. */
  predicate LiesIn(f: nat, r: Region) {
    4096 * f >= 5 * 1024 * 1024 && r.base / 4096 <= f < r.base / 4096 + r.len / 4096
  }

  /** The frames made available are those that lie in an available region. */
  lemma {:induction false} FramesOfMap(regions: seq<Region>, f: nat)
    ensures f in AllFrames(regions) <==> exists r :: r in regions && r.available && LiesIn(f, r)
  {
    if regions != [] {
      var n := |regions| - 1;
      FramesOfMap(regions[..n], f);
      assert regions == regions[..n] + [regions[n]];
      assert f in RegionFrames(regions[n].base, regions[n].len) <==> LiesIn(f, regions[n]);
    }
  }

  /** For an aligned region these are the frames all of whose bytes lie in it. */
  lemma WholeFrames(f: nat, r: Region)
    requires r.base % 4096 == 0
    ensures LiesIn(f, r) <==> 4096 * f >= 5 * 1024 * 1024 && r.base <= 4096 * f && 4096 * f + 4096 <= r.base + r.len
  {
    assert r.base == 4096 * (r.base / 4096);
    assert r.len / 4096 * 4096 <= r.len < (r.len / 4096 + 1) * 4096;
  }

  lemma AllFramesNext(regions: seq<Region>, i: nat)
    requires i < |regions|
    ensures AllFrames(regions[..i + 1]) ==
            AllFrames(regions[..i]) + if regions[i].available then RegionFrames(regions[i].base, regions[i].len) else {}
  {
    assert regions[..i + 1][..i] == regions[..i];
  }

  lemma OneMoreFrame(a: nat, b: nat)
    requires a <= b
    ensures FramesBetween(a, b + 1) == FramesBetween(a, b) + if b >= FIRST_FREE_FRAME then {b} else {}
  {
  }
}
