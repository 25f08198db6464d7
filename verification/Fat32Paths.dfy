/** What `find` finds, said without its walk: a chain of first entries with the parts of the path for names. */
module Fat32Paths {
  import opened Options
  import opened Bytes
  import opened Fat32Slots
  import opened Fat32Volume
  import opened Fat32Directory

  /** The first entry of that name. */
  ghost predicate FirstNamed(es: seq<DirEntry>, name: seq<u8>, e: DirEntry) {
    exists k :: 0 <= k < |es| && es[k] == e && e.name == name && forall j :: 0 <= j < k ==> es[j].name != name
  }

  lemma {:induction false} LookupIsFirst(es: seq<DirEntry>, name: seq<u8>)
    ensures forall e :: Lookup(es, name) == Some(e) <==> FirstNamed(es, name, e)
  {
    forall e
      ensures Lookup(es, name) == Some(e) <==> FirstNamed(es, name, e)
    {
      if es != [] {
        LookupIsFirst(es[1..], name);
        if es[0].name != name {
          if FirstNamed(es[1..], name, e) {
            var k :| 0 <= k < |es[1..]| && es[1..][k] == e && forall j :: 0 <= j < k ==> es[1..][j].name != name;
            assert forall j :: 1 <= j < k + 1 ==> es[j].name == es[1..][j - 1].name;
            assert es[k + 1] == e;
          }
          if FirstNamed(es, name, e) {
            var k :| 0 <= k < |es| && es[k] == e && forall j :: 0 <= j < k ==> es[j].name != name;
            assert es[1..][k - 1] == e;
          }
        }
      }
    }
  }

  /** Where the walk looks next. */
  function Reached(dir: nat, walk: seq<DirEntry>): nat {
    if walk == [] then dir else walk[|walk| - 1].cluster
  }

  /** The directory lists the entry, as the first of its name. */
  ghost predicate Lists(g: Geometry, d: seq<Sector>, dir: nat, name: seq<u8>, e: DirEntry)
    requires ValidGeometry(g, d)
  {
    var r := ReadDir(g, d, dir);
    r.Some? && FirstNamed(r.value, name, e)
  }

  /** Each entry is the first of its name in the directory before it. */
  ghost predicate Follows(g: Geometry, d: seq<Sector>, dir: nat, parts: seq<seq<u8>>, walk: seq<DirEntry>)
    requires ValidGeometry(g, d)
    decreases |walk|
  {
    walk == []
    || (&& parts != [] && Lists(g, d, dir, parts[0], walk[0])
        && (|walk| > 1 ==> walk[0].kind.Directory?)
        && Follows(g, d, walk[0].cluster, parts[1..], walk[1..]))
  }

  /** The path leads to an entry of the kind wanted. */
  ghost predicate Leads(g: Geometry, d: seq<Sector>, dir: nat, parts: seq<seq<u8>>, target: Kind, walk: seq<DirEntry>)
    requires ValidGeometry(g, d)
  {
    parts != [] && |walk| == |parts| && Follows(g, d, dir, parts, walk) && walk[|walk| - 1].kind == target
  }

  /** The path leads into a directory that cannot be read. */
  ghost predicate Breaks(g: Geometry, d: seq<Sector>, dir: nat, parts: seq<seq<u8>>, walk: seq<DirEntry>)
    requires ValidGeometry(g, d)
  {
    && |walk| < |parts| && Follows(g, d, dir, parts, walk) && (walk != [] ==> walk[|walk| - 1].kind.Directory?)
    && ReadDir(g, d, Reached(dir, walk)).None?
  }

  /** What the walk returns comes from a chain of entries. */
  lemma {:induction false} FindSound(g: Geometry, d: seq<Sector>, dir: nat, parts: seq<seq<u8>>, target: Kind) returns (walk: seq<DirEntry>)
    requires ValidGeometry(g, d) && parts != []
    ensures var r := FindFrom(g, d, dir, parts, target);
            && (r.Found? ==> Leads(g, d, dir, parts, target, walk) && walk != [] && walk[|walk| - 1] == r.entry)
            && (r.Crash? ==> Breaks(g, d, dir, parts, walk))
    decreases |parts|
  {
    hide ReadDir, FirstNamed, Lookup;
    walk := [];
    if ReadDir(g, d, dir).Some? {
      var es := ReadDir(g, d, dir).value;
      LookupIsFirst(es, parts[0]);
      if Lookup(es, parts[0]).Some? {
        var e := Lookup(es, parts[0]).value;
        if e.kind.Directory? && |parts| > 1 {
          walk := FindSound(g, d, e.cluster, parts[1..], target);
        }
        var rest := walk;
        walk := [e] + rest;
        assert walk[0] == e && walk[1..] == rest;
        assert FindFrom(g, d, dir, parts, target).Found? ==> Follows(g, d, dir, parts, walk) && walk[|walk| - 1].kind == target;
      }
    }
  }

  /** And every chain of entries is what the walk returns. */
  lemma {:induction false} FindComplete(g: Geometry, d: seq<Sector>, dir: nat, parts: seq<seq<u8>>, target: Kind, walk: seq<DirEntry>)
    requires ValidGeometry(g, d) && parts != []
    ensures Leads(g, d, dir, parts, target, walk) ==> walk != [] && FindFrom(g, d, dir, parts, target) == Found(walk[|walk| - 1])
    ensures Breaks(g, d, dir, parts, walk) ==> FindFrom(g, d, dir, parts, target) == Crash
    decreases |parts|
  {
    hide ReadDir, FirstNamed, Lookup;
    if walk != [] && Follows(g, d, dir, parts, walk) {
      LookupIsFirst(ReadDir(g, d, dir).value, parts[0]);
      if |parts| > 1 {
        FindComplete(g, d, walk[0].cluster, parts[1..], target, walk[1..]);
      }
    }
  }

  /**
   * `find` returns an entry exactly when the path leads to it and it has the kind wanted; the empty path gives the root
   * directory whatever is wanted. It fails exactly when the path leads into a directory that cannot be read.
   */
  lemma FindMeaning(g: Geometry, d: seq<Sector>, parts: seq<seq<u8>>, target: Kind, e: DirEntry)
    requires ValidGeometry(g, d)
    ensures FindPath(g, d, parts, target) == Found(e)
            <==> if parts == [] then e == ROOT
                 else exists walk :: Leads(g, d, ROOT_CLUSTER, parts, target, walk) && walk != [] && walk[|walk| - 1] == e
    ensures FindPath(g, d, parts, target) == Crash <==> exists walk :: Breaks(g, d, ROOT_CLUSTER, parts, walk)
  {
    hide FindFrom, Leads, Breaks;
    if parts != [] {
      var walk := FindSound(g, d, ROOT_CLUSTER, parts, target);
      forall w
        ensures Leads(g, d, ROOT_CLUSTER, parts, target, w) ==> w != [] && FindFrom(g, d, ROOT_CLUSTER, parts, target) == Found(w[|w| - 1])
        ensures Breaks(g, d, ROOT_CLUSTER, parts, w) ==> FindFrom(g, d, ROOT_CLUSTER, parts, target) == Crash
      {
        FindComplete(g, d, ROOT_CLUSTER, parts, target, w);
      }
    } else {
      NoBreak(g, d);
    }
  }

  lemma NoBreak(g: Geometry, d: seq<Sector>)
    requires ValidGeometry(g, d)
    ensures forall walk :: !Breaks(g, d, ROOT_CLUSTER, [], walk)
  {
  }
}
