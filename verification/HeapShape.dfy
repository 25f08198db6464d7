/**
 * The abstract heap behind the free-list allocator: which bytes belong to free-list headers,
 * to free regions and to live blocks. The three steps of the allocator (carve, release, expand)
 * are functions here, and every one of them keeps the pieces tiling the heap exactly.
 */
module HeapShape {
  import opened Options

  const HEADER: int := 16
  const MAX_REQUEST: int := 10000 * 4096

  /** A free-list node: its header stays at `hdr` while its region `[addr, addr + size)` moves. */
  datatype Node = Node(hdr: int, addr: int, size: int)

  /** A live block: payload `[addr, addr + size)`, preceded by its 16-byte header. */
  datatype Block = Block(addr: int, size: int)

  /** The heap occupies `[start, end)`; no page can be mapped from `limit` on. */
  datatype Shape = Shape(start: int, end: int, limit: int, free: seq<Node>, live: seq<Block>)

  datatype Piece = Piece(lo: int, len: int)

  function HeaderPiece(n: Node): Piece { Piece(n.hdr, HEADER) }
  function RegionPiece(n: Node): Piece { Piece(n.addr, n.size) }
  function LivePiece(b: Block): Piece { Piece(b.addr - HEADER, b.size + HEADER) }

  /** No byte belongs to both pieces. */
  predicate Apart(p: Piece, q: Piece) {
    p.len <= 0 || q.len <= 0 || p.lo + p.len <= q.lo || q.lo + q.len <= p.lo
  }

  predicate Inside(p: Piece, lo: int, hi: int) {
    0 <= p.len && lo <= p.lo && p.lo + p.len <= hi
  }

  predicate Has(p: Piece, x: int) { p.lo <= x < p.lo + p.len }

  // ----- counting bytes

  function FreeBytes(free: seq<Node>): int {
    if free == [] then 0 else free[0].size + FreeBytes(free[1..])
  }

  function LiveBytes(live: seq<Block>): int {
    if live == [] then 0 else live[0].size + HEADER + LiveBytes(live[1..])
  }

  // ----- the invariant

  ghost predicate NodesApart(free: seq<Node>) {
    && (forall i, j :: 0 <= i < j < |free| ==> Apart(HeaderPiece(free[i]), HeaderPiece(free[j])))
    && (forall i, j :: 0 <= i < j < |free| ==> Apart(RegionPiece(free[i]), RegionPiece(free[j])))
    && (forall i, j :: 0 <= i < |free| && 0 <= j < |free| ==>
          Apart(HeaderPiece(free[i]), RegionPiece(free[j])))
  }

  ghost predicate BlocksApart(live: seq<Block>) {
    forall i, j :: 0 <= i < j < |live| ==> Apart(LivePiece(live[i]), LivePiece(live[j]))
  }

  ghost predicate NodeApartFrom(n: Node, live: seq<Block>) {
    forall j :: 0 <= j < |live| ==>
      Apart(HeaderPiece(n), LivePiece(live[j])) && Apart(RegionPiece(n), LivePiece(live[j]))
  }

  ghost predicate AllApart(free: seq<Node>, live: seq<Block>) {
    forall i :: 0 <= i < |free| ==> NodeApartFrom(free[i], live)
  }

  ghost predicate WellFormed(s: Shape) {
    && (forall i :: 0 <= i < |s.free| ==>
          Inside(HeaderPiece(s.free[i]), s.start, s.end) && Inside(RegionPiece(s.free[i]), s.start, s.end))
    && (forall j :: 0 <= j < |s.live| ==> 0 <= s.live[j].size && Inside(LivePiece(s.live[j]), s.start, s.end))
    && NodesApart(s.free)
    && BlocksApart(s.live)
    && AllApart(s.free, s.live)
    && FreeBytes(s.free) + 16 * |s.free| + LiveBytes(s.live) == s.end - s.start
  }

  // ----- the steps

  /** The state the constructor builds: one free node whose header is the first 16 bytes. */
  function Fresh(start: int, size: int, limit: int): Shape {
    Shape(start, start + size, limit, [Node(start, start + HEADER, size - HEADER)], [])
  }

  /** First node strictly larger than the request plus a header; `|free|` when there is none. */
  function FirstFit(free: seq<Node>, size: int): (i: nat)
    ensures i <= |free|
    ensures i < |free| ==> free[i].size > size + HEADER
    ensures forall k :: 0 <= k < i ==> free[k].size <= size + HEADER
  {
    if free == [] then 0
    else if free[0].size > size + HEADER then 0
    else 1 + FirstFit(free[1..], size)
  }

  /** First node whose region starts at `addr`; `|free|` when there is none. */
  function FirstAt(free: seq<Node>, addr: int): (i: nat)
    ensures i <= |free|
    ensures i < |free| ==> free[i].addr == addr
    ensures forall k :: 0 <= k < i ==> free[k].addr != addr
  {
    if free == [] then 0
    else if free[0].addr == addr then 0
    else 1 + FirstAt(free[1..], addr)
  }

  /** Take `size` bytes plus a header from the front of region `i`. */
  function Carve(s: Shape, i: nat, size: int): Shape
    requires i < |s.free|
  {
    var n := s.free[i];
    s.(free := s.free[i := Node(n.hdr, n.addr + HEADER + size, n.size - HEADER - size)],
       live := [Block(n.addr + HEADER, size)] + s.live)
  }

  /** Put the block with payload `[addr, addr + size)` on the free list, merging it forward. */
  function AddNode(free: seq<Node>, addr: int, size: int): seq<Node> {
    var i := FirstAt(free, addr + size);
    if i < |free|
    then free[i := Node(free[i].hdr, addr - HEADER, free[i].size + size + HEADER)]
    else [Node(addr - HEADER, addr, size)] + free
  }

  function Release(s: Shape, j: nat): Shape
    requires j < |s.live|
  {
    s.(free := AddNode(s.free, s.live[j].addr, s.live[j].size),
       live := s.live[..j] + s.live[j + 1..])
  }

  function Expand(s: Shape, pages: nat): Shape {
    s.(end := s.end + pages * 4096,
       free := AddNode(s.free, s.end + HEADER, pages * 4096 - HEADER))
  }

  /** Every page of the expansion can be mapped. */
  predicate CanExpand(s: Shape, pages: nat) { s.end + pages * 4096 <= s.limit }

  /** Pages one expansion asks for. */
  function PagesFor(size: nat): nat { size / 4096 + 1 }

  /** `allocate`: search, expand once when nothing fits, search again; `None` is a failed assertion. */
  function Allocate(s: Shape, size: nat): Option<Shape> {
    if size >= MAX_REQUEST then None
    else
      var i := FirstFit(s.free, size);
      if i < |s.free| then Some(Carve(s, i, size))
      else if !CanExpand(s, PagesFor(size)) then None
      else
        var e := Expand(s, PagesFor(size));
        var k := FirstFit(e.free, size);
        if k < |e.free| then Some(Carve(e, k, size)) else None
  }

  // ----- sums under the list updates

  lemma {:induction false} FreeBytesUpdate(free: seq<Node>, i: nat, n: Node)
    requires i < |free|
    ensures FreeBytes(free[i := n]) == FreeBytes(free) - free[i].size + n.size
  {
    if i == 0 {
      assert free[i := n][1..] == free[1..];
    } else {
      assert free[i := n][1..] == free[1..][i - 1 := n];
      FreeBytesUpdate(free[1..], i - 1, n);
    }
  }

  lemma {:induction false} LiveBytesRemove(live: seq<Block>, j: nat)
    requires j < |live|
    ensures LiveBytes(live[..j] + live[j + 1..]) == LiveBytes(live) - live[j].size - HEADER
  {
    var rest := live[..j] + live[j + 1..];
    if j == 0 {
      assert rest == live[1..];
    } else {
      assert rest[1..] == live[1..][..j - 1] + live[1..][j..];
      LiveBytesRemove(live[1..], j - 1);
    }
  }

  // ----- every step keeps the invariant

  lemma FreshWellFormed(start: int, size: int, limit: int)
    requires HEADER <= size
    ensures WellFormed(Fresh(start, size, limit))
  {
  }

  /** Shrinking a region keeps every separation. */
  lemma ShrinkNode(free: seq<Node>, live: seq<Block>, i: nat, n: Node)
    requires NodesApart(free) && i < |free|
    requires AllApart(free, live)
    requires n.hdr == free[i].hdr && free[i].addr <= n.addr && n.addr + n.size <= free[i].addr + free[i].size
    ensures NodesApart(free[i := n])
    ensures AllApart(free[i := n], live)
  {
  }

  lemma CarveWellFormed(s: Shape, i: nat, size: nat)
    requires WellFormed(s) && i < |s.free| && s.free[i].size > size + HEADER
    ensures WellFormed(Carve(s, i, size))
  {
    hide NodesApart, BlocksApart, NodeApartFrom, AllApart, FreeBytes;
    var t := Carve(s, i, size);
    ShrinkNode(s.free, s.live, i, t.free[i]);
    FreeBytesUpdate(s.free, i, t.free[i]);
    assert t.live[1..] == s.live;
    CarvedApart(s.free, t.free, s.live, i, t.live[0]);
  }

  /** The block cut off the front of node `i` shares no byte with the nodes and blocks that remain. */
  lemma CarvedApart(free: seq<Node>, free': seq<Node>, live: seq<Block>, i: nat, b: Block)
    requires i < |free| && NodesApart(free) && AllApart(free, live) && BlocksApart(live) && AllApart(free', live)
    requires free' == free[i := Node(free[i].hdr, b.addr + b.size, free[i].size - b.size - HEADER)]
    requires b.addr == free[i].addr + HEADER && 0 <= b.size && b.size + HEADER < free[i].size
    ensures BlocksApart([b] + live) && AllApart(free', [b] + live)
  {
  }

  /** A block that shares no byte with any node. */
  ghost predicate BlockApartFrom(b: Block, free: seq<Node>) {
    forall i :: 0 <= i < |free| ==>
      Apart(HeaderPiece(free[i]), LivePiece(b)) && Apart(RegionPiece(free[i]), LivePiece(b))
  }

  /** Bytes outside every node and every live block, ready to become free. */
  ghost predicate Loose(b: Block, free: seq<Node>, live: seq<Block>) {
    && 0 <= b.size
    && BlockApartFrom(b, free)
    && forall j :: 0 <= j < |live| ==> Apart(LivePiece(b), LivePiece(live[j]))
  }

  lemma MergeKeeps(free: seq<Node>, live: seq<Block>, b: Block, i: nat, n: Node)
    requires NodesApart(free) && AllApart(free, live) && Loose(b, free, live)
    requires i < |free| && free[i].addr == b.addr + b.size && 0 <= free[i].size
    requires n == Node(free[i].hdr, b.addr - HEADER, free[i].size + b.size + HEADER)
    ensures NodesApart(free[i := n]) && AllApart(free[i := n], live)
  {
  }

  lemma PrependKeeps(free: seq<Node>, live: seq<Block>, b: Block)
    requires NodesApart(free) && AllApart(free, live) && Loose(b, free, live)
    ensures var free' := [Node(b.addr - HEADER, b.addr, b.size)] + free;
            NodesApart(free') && AllApart(free', live)
  {
  }

  /** Returning the bytes of `b` to the free list, merged or not, keeps every separation. */
  lemma AddNodeKeeps(free: seq<Node>, live: seq<Block>, b: Block)
    requires NodesApart(free) && AllApart(free, live) && Loose(b, free, live)
    requires forall i :: 0 <= i < |free| ==> 0 <= free[i].size
    ensures NodesApart(AddNode(free, b.addr, b.size))
    ensures AllApart(AddNode(free, b.addr, b.size), live)
  {
    var i, free' := FirstAt(free, b.addr + b.size), AddNode(free, b.addr, b.size);
    if i < |free| {
      var n := Node(free[i].hdr, b.addr - HEADER, free[i].size + b.size + HEADER);
      MergeKeeps(free, live, b, i, n);
      assert free' == free[i := n];
    } else {
      PrependKeeps(free, live, b);
      assert free' == [Node(b.addr - HEADER, b.addr, b.size)] + free;
    }
  }

  lemma AddNodeBytes(free: seq<Node>, addr: int, size: int)
    ensures var free' := AddNode(free, addr, size);
            FreeBytes(free') + 16 * |free'| == FreeBytes(free) + 16 * |free| + size + HEADER
  {
    var i := FirstAt(free, addr + size);
    if i < |free| {
      FreeBytesUpdate(free, i, Node(free[i].hdr, addr - HEADER, free[i].size + size + HEADER));
    } else {
      assert ([Node(addr - HEADER, addr, size)] + free)[1..] == free;
    }
  }

  /** A block taken off the live list shares no byte with what remains. */
  lemma DropBlock(free: seq<Node>, live: seq<Block>, j: nat, rest: seq<Block>)
    requires BlocksApart(live) && AllApart(free, live) && j < |live| && 0 <= live[j].size
    requires rest == live[..j] + live[j + 1..]
    ensures BlocksApart(rest) && AllApart(free, rest) && Loose(live[j], free, rest)
    ensures forall k :: 0 <= k < |rest| ==> rest[k] in live
  {
  }

  lemma ReleaseWellFormed(s: Shape, j: nat)
    requires WellFormed(s) && j < |s.live|
    ensures WellFormed(Release(s, j))
  {
    hide NodesApart, BlocksApart, NodeApartFrom, AllApart, Loose;
    var rest := s.live[..j] + s.live[j + 1..];
    LiveBytesRemove(s.live, j);
    DropBlock(s.free, s.live, j, rest);
    AddNodeKeeps(s.free, rest, s.live[j]);
    AddNodeBytes(s.free, s.live[j].addr, s.live[j].size);
  }

  /** No free region can start at the new end of the heap, so an expansion always adds a node. */
  lemma ExpandAddsNode(s: Shape, pages: nat)
    requires WellFormed(s) && 0 < pages
    ensures Expand(s, pages).free == [Node(s.end, s.end + HEADER, pages * 4096 - HEADER)] + s.free
  {
  }

  lemma ExpandWellFormed(s: Shape, pages: nat)
    requires WellFormed(s) && 0 < pages
    ensures WellFormed(Expand(s, pages))
  {
    hide NodesApart, BlocksApart, NodeApartFrom, AllApart, AddNode;
    var b, e := Block(s.end + HEADER, pages * 4096 - HEADER), Expand(s, pages);
    assert Loose(b, s.free, s.live);
    ExpandAddsNode(s, pages);
    AddNodeKeeps(s.free, s.live, b);
    assert e.free[1..] == s.free;
    assert forall i :: 1 <= i < |e.free| ==> e.free[i] == s.free[i - 1];
  }

  // ----- the second search

  /**
   * When nothing fits, the single expansion makes the request fit exactly when its pages can be mapped and
   * `size % 4096 < 4064`; otherwise an assertion fails.
   */
  lemma ExpansionSuffices(s: Shape, size: nat)
    requires WellFormed(s) && size < MAX_REQUEST
    requires FirstFit(s.free, size) == |s.free|
    ensures Allocate(s, size).Some? <==> CanExpand(s, PagesFor(size)) && size % 4096 < 4064
    ensures size % 4096 < 4064 ==> FirstFit(Expand(s, PagesFor(size)).free, size) == 0
  {
  }

  lemma AllocateWellFormed(s: Shape, size: nat)
    requires WellFormed(s) && Allocate(s, size).Some?
    ensures WellFormed(Allocate(s, size).value)
    ensures s.live == Allocate(s, size).value.live[1..]
    ensures Allocate(s, size).value.live[0].size == size
  {
    var i := FirstFit(s.free, size);
    if i < |s.free| {
      CarveWellFormed(s, i, size);
    } else {
      var e := Expand(s, PagesFor(size));
      ExpandWellFormed(s, PagesFor(size));
      CarveWellFormed(e, FirstFit(e.free, size), size);
    }
  }

  // ----- whole runs

  datatype Op = Alloc(size: nat) | Free(block: nat)

  /** One call on the allocator; `Free` names a live block by its position. `None` is a failed assertion. */
  function Step(s: Shape, op: Op): Option<Shape> {
    match op
    case Alloc(size) => Allocate(s, size)
    case Free(j) => if j < |s.live| then Some(Release(s, j)) else None
  }

  function Run(s: Shape, ops: seq<Op>): Option<Shape>
    decreases |ops|
  {
    if ops == [] then Some(s)
    else
      var t := Step(s, ops[0]);
      if t.None? then None else Run(t.value, ops[1..])
  }

  lemma {:induction false} RunWellFormed(s: Shape, ops: seq<Op>)
    requires WellFormed(s) && Run(s, ops).Some?
    ensures WellFormed(Run(s, ops).value)
    decreases |ops|
  {
    if ops != [] {
      var t := Step(s, ops[0]);
      match ops[0] {
        case Alloc(size) => AllocateWellFormed(s, size);
        case Free(j) => ReleaseWellFormed(s, j);
      }
      RunWellFormed(t.value, ops[1..]);
    }
  }

  // ----- what well-formedness says about single bytes

  /** All pieces of a shape: headers, then regions, then live blocks. */
  function Pieces(s: Shape): (ps: seq<Piece>)
    ensures |ps| == 2 * |s.free| + |s.live|
  {
    Headers(s.free) + Regions(s.free) + Lives(s.live)
  }

  function Total(ps: seq<Piece>): int {
    if ps == [] then 0 else ps[0].len + Total(ps[1..])
  }

  ghost predicate PairwiseApart(ps: seq<Piece>) {
    forall i, j :: 0 <= i < j < |ps| ==> Apart(ps[i], ps[j])
  }

  /** The bytes of one piece. */
  function ByteSet(p: Piece): set<int> {
    set x | p.lo <= x < p.lo + p.len && Has(p, x)
  }

  lemma {:induction false} ByteSetSize(p: Piece)
    requires 0 <= p.len
    ensures |ByteSet(p)| == p.len
    decreases p.len
  {
    if p.len > 0 {
      var q := Piece(p.lo + 1, p.len - 1);
      ByteSetSize(q);
      assert ByteSet(p) == {p.lo} + ByteSet(q);
    } else {
      assert ByteSet(p) == {};
    }
  }

  ghost function BytesOf(ps: seq<Piece>): set<int> {
    if ps == [] then {} else ByteSet(ps[0]) + BytesOf(ps[1..])
  }

  lemma {:induction false} BytesOfHas(ps: seq<Piece>, x: int)
    ensures x in BytesOf(ps) <==> exists i :: 0 <= i < |ps| && Has(ps[i], x)
  {
    if ps != [] {
      BytesOfHas(ps[1..], x);
      if x in BytesOf(ps) && !Has(ps[0], x) {
        var i :| 0 <= i < |ps[1..]| && Has(ps[1..][i], x);
        assert Has(ps[i + 1], x);
      }
      if exists i :: 0 <= i < |ps| && Has(ps[i], x) {
        var i :| 0 <= i < |ps| && Has(ps[i], x);
        assert i == 0 || Has(ps[1..][i - 1], x);
      }
    }
  }

  lemma {:induction false} ApartSize(ps: seq<Piece>)
    requires PairwiseApart(ps) && forall i :: 0 <= i < |ps| ==> 0 <= ps[i].len
    ensures |BytesOf(ps)| == Total(ps)
  {
    if ps != [] {
      ApartSize(ps[1..]);
      ByteSetSize(ps[0]);
      forall x | x in ByteSet(ps[0])
        ensures x !in BytesOf(ps[1..])
      {
        BytesOfHas(ps[1..], x);
        assert forall i :: 0 <= i < |ps[1..]| ==> Apart(ps[0], ps[1..][i]);
      }
      assert ByteSet(ps[0]) !! BytesOf(ps[1..]);
    }
  }

  lemma SubsetSize(a: set<int>, b: set<int>)
    requires a <= b && |a| == |b|
    ensures a == b
  {
    assert |b - a| == |b| - |a| by { assert b == a + (b - a); }
    assert b - a == {};
  }

  lemma SubsetLe(a: set<int>, b: set<int>)
    requires a <= b
    ensures |a| <= |b|
  {
    assert b == a + (b - a);
  }

  lemma {:induction false} TotalConcat(ps: seq<Piece>, qs: seq<Piece>)
    ensures Total(ps + qs) == Total(ps) + Total(qs)
  {
    if ps == [] {
      assert ps + qs == qs;
    } else {
      assert (ps + qs)[1..] == ps[1..] + qs;
      TotalConcat(ps[1..], qs);
    }
  }

  function Headers(free: seq<Node>): (ps: seq<Piece>) {
    seq(|free|, i requires 0 <= i < |free| => HeaderPiece(free[i]))
  }
  function Regions(free: seq<Node>): seq<Piece> {
    seq(|free|, i requires 0 <= i < |free| => RegionPiece(free[i]))
  }
  function Lives(live: seq<Block>): seq<Piece> {
    seq(|live|, i requires 0 <= i < |live| => LivePiece(live[i]))
  }

  lemma {:induction false} TotalNodes(free: seq<Node>)
    ensures Total(Headers(free)) == 16 * |free| && Total(Regions(free)) == FreeBytes(free)
  {
    if free != [] {
      assert Headers(free)[1..] == Headers(free[1..]);
      assert Regions(free)[1..] == Regions(free[1..]);
      TotalNodes(free[1..]);
    }
  }

  lemma {:induction false} TotalLives(live: seq<Block>)
    ensures Total(Lives(live)) == LiveBytes(live)
  {
    if live != [] {
      assert Lives(live)[1..] == Lives(live[1..]);
      TotalLives(live[1..]);
    }
  }

  lemma PiecesApart(s: Shape)
    requires WellFormed(s)
    ensures PairwiseApart(Pieces(s))
    ensures forall i :: 0 <= i < |Pieces(s)| ==> Inside(Pieces(s)[i], s.start, s.end)
  {
  }

  lemma PiecesTotal(s: Shape)
    requires WellFormed(s)
    ensures Total(Pieces(s)) == s.end - s.start
  {
    hide NodesApart, BlocksApart, AllApart, Total;
    TotalNodes(s.free);
    TotalLives(s.live);
    TotalConcat(Headers(s.free), Regions(s.free));
    TotalConcat(Headers(s.free) + Regions(s.free), Lives(s.live));
  }

  /** Every byte of the heap lies in exactly one header, free region or live block, and in none outside it. */
  lemma EveryByteOwnedOnce(s: Shape, x: int)
    requires WellFormed(s)
    ensures s.start <= x < s.end <==> exists i :: 0 <= i < |Pieces(s)| && Has(Pieces(s)[i], x)
    ensures forall i, j | 0 <= i < |Pieces(s)| && 0 <= j < |Pieces(s)| && Has(Pieces(s)[i], x) && Has(Pieces(s)[j], x)
              :: i == j
  {
    hide WellFormed, Pieces, Total, Apart;
    var ps, all := Pieces(s), Piece(s.start, s.end - s.start);
    PiecesApart(s);
    PiecesTotal(s);
    ApartSize(ps);
    forall y | y in BytesOf(ps)
      ensures y in ByteSet(all)
    {
      BytesOfHas(ps, y);
    }
    SubsetLe(BytesOf(ps), ByteSet(all));
    ByteSetSize(all);
    SubsetSize(BytesOf(ps), ByteSet(all));
    BytesOfHas(ps, x);
    assert x in ByteSet(all) <==> s.start <= x < s.end;
    OneOwner(ps, x);
  }

  lemma OneOwner(ps: seq<Piece>, x: int)
    requires forall i, j :: 0 <= i < j < |ps| ==> Apart(ps[i], ps[j])
    ensures forall i, j | 0 <= i < |ps| && 0 <= j < |ps| && Has(ps[i], x) && Has(ps[j], x) :: i == j
  {
  }

  // ----- the main results

  /** The caller's part: every `Free` names a block that is live when it is called. */
  predicate FreesLive(s: Shape, ops: seq<Op>)
    decreases |ops|
  {
    ops == [] ||
    (&& (ops[0].Free? ==> ops[0].block < |s.live|)
     && (Step(s, ops[0]).Some? ==> FreesLive(Step(s, ops[0]).value, ops[1..])))
  }

  /** Every request is below the maximum, and fits at once or after an expansion that can be made and leaves enough. */
  predicate RequestsFit(s: Shape, ops: seq<Op>)
    decreases |ops|
  {
    ops == [] ||
    (&& (match ops[0]
         case Alloc(size) =>
           && size < MAX_REQUEST
           && (FirstFit(s.free, size) < |s.free| || (CanExpand(s, PagesFor(size)) && size % 4096 < 4064))
         case Free(_) => true)
     && (Step(s, ops[0]).Some? ==> RequestsFit(Step(s, ops[0]).value, ops[1..])))
  }

  /** With such a caller, no assertion fails in the whole run if and only if every request fits. */
  lemma {:induction false} RunSucceeds(s: Shape, ops: seq<Op>)
    requires WellFormed(s) && FreesLive(s, ops)
    ensures Run(s, ops).Some? <==> RequestsFit(s, ops)
    decreases |ops|
  {
    hide WellFormed, FirstFit;
    if ops != [] {
      match ops[0] {
        case Alloc(size) =>
          if size < MAX_REQUEST && FirstFit(s.free, size) == |s.free| { ExpansionSuffices(s, size); }
          if Allocate(s, size).Some? {
            AllocateWellFormed(s, size);
            RunSucceeds(Allocate(s, size).value, ops[1..]);
          }
        case Free(j) =>
          ReleaseWellFormed(s, j);
          RunSucceeds(Release(s, j), ops[1..]);
      }
    }
  }

  /**
   * After every run from a fresh heap, headers, free regions and live blocks tile the heap exactly, and the bytes
   * reported free, 16 per free node and size plus 16 per live block add up to its length.
   */
  lemma HeapAlwaysTiled(start: int, size: int, limit: int, ops: seq<Op>, x: int)
    requires HEADER <= size && Run(Fresh(start, size, limit), ops).Some?
    ensures var s := Run(Fresh(start, size, limit), ops).value;
            && FreeBytes(s.free) + 16 * |s.free| + LiveBytes(s.live) == s.end - s.start
            && (s.start <= x < s.end <==> exists i :: 0 <= i < |Pieces(s)| && Has(Pieces(s)[i], x))
            && (forall i, j | 0 <= i < |Pieces(s)| && 0 <= j < |Pieces(s)| && Has(Pieces(s)[i], x) && Has(Pieces(s)[j], x)
                  :: i == j)
  {
    FreshWellFormed(start, size, limit);
    RunWellFormed(Fresh(start, size, limit), ops);
    EveryByteOwnedOnce(Run(Fresh(start, size, limit), ops).value, x);
  }
}
