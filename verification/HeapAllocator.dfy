/**
 * The free-list allocator itself, over a byte-addressed memory. A `MemBlock` is four little-endian
 * words at an arbitrary (not necessarily aligned) address. Each method is proved against a step of
 * `HeapShape`, and none of them writes a payload byte of a block that stays live.
 */
module HeapAllocator {
  import opened Options
  import opened Bytes
  import opened HeapShape
  import opened HeapCalls

  const MAGIC_FREE: int := 0xc001beef
  const MAGIC_USED: int := 0xdeadbeef
  const NULL: int := 0

  datatype MemBlock = MemBlock(magic: int, next: int, addr: int, size: int)

  function BlockAt(m: seq<u8>, h: nat): MemBlock
    requires h + HEADER <= |m|
  {
    MemBlock(Get32(m, h), Get32(m, h + 4), Get32(m, h + 8), Get32(m, h + 12))
  }

  /** The two memories agree on every byte outside the piece. */
  ghost predicate SameOutside(m: seq<u8>, m': seq<u8>, p: Piece) {
    |m'| == |m| && forall x {:trigger m'[x]} :: 0 <= x < |m| && !Has(p, x) ==> m'[x] == m[x]
  }

  /** The two memories agree on every byte of the piece. */
  ghost predicate SameInside(m: seq<u8>, m': seq<u8>, p: Piece) {
    |m'| == |m| && forall x {:trigger m'[x]} :: 0 <= x < |m| && Has(p, x) ==> m'[x] == m[x]
  }

  /** A header is unchanged when its sixteen bytes are. */
  lemma BlockFrame(m: seq<u8>, m': seq<u8>, h: nat)
    requires h + HEADER <= |m| && SameInside(m, m', Piece(h, HEADER))
    ensures BlockAt(m', h) == BlockAt(m, h)
  {
  }

  /** Address of the header at position `i` of the list, null past its end. */
  function HdrAt(free: seq<Node>, i: nat): int {
    if i < |free| then free[i].hdr else NULL
  }

  /** The header the list node at position `i` must have in memory. */
  function NodeHeader(free: seq<Node>, i: nat): MemBlock
    requires i < |free|
  {
    MemBlock(MAGIC_FREE, HdrAt(free, i + 1), free[i].addr, free[i].size)
  }

  predicate NodeInMemory(m: seq<u8>, free: seq<Node>, i: nat)
    requires i < |free|
  {
    0 < free[i].hdr && free[i].hdr + HEADER <= |m| && BlockAt(m, free[i].hdr) == NodeHeader(free, i)
  }

  predicate UsedHeader(m: seq<u8>, b: Block) {
    && HEADER < b.addr <= |m|
    && var h := BlockAt(m, b.addr - HEADER); h.magic == MAGIC_USED && h.addr == b.addr && h.size == b.size
  }

  ghost predicate ListInMemory(m: seq<u8>, free: seq<Node>) {
    forall i :: 0 <= i < |free| ==> NodeInMemory(m, free, i)
  }

  ghost predicate LiveInMemory(m: seq<u8>, live: seq<Block>) {
    forall j :: 0 <= j < |live| ==> UsedHeader(m, live[j])
  }

  /** No byte of any of the blocks, header or payload, differs between the two memories. */
  ghost predicate LiveUntouched(m: seq<u8>, m': seq<u8>, live: seq<Block>) {
    forall j :: 0 <= j < |live| ==> SameInside(m, m', LivePiece(live[j]))
  }

  ghost predicate InMemory(m: seq<u8>, s: Shape) {
    && |m| == TWO_32 && 0 < s.start && s.end < TWO_32 && s.limit < TWO_32
    && WellFormed(s)
    && ListInMemory(m, s.free)
    && LiveInMemory(m, s.live)
  }

  // ----- the list search, as positions

  lemma FirstFitIs(free: seq<Node>, size: int, i: nat)
    requires i <= |free| && (forall k :: 0 <= k < i ==> free[k].size <= size + HEADER)
    requires i < |free| ==> free[i].size > size + HEADER
    ensures i == FirstFit(free, size)
  {
  }

  lemma FirstAtIs(free: seq<Node>, addr: int, i: nat)
    requires i <= |free| && (forall k :: 0 <= k < i ==> free[k].addr != addr)
    requires i < |free| ==> free[i].addr == addr
    ensures i == FirstAt(free, addr)
  {
  }

  // ----- list headers in memory under the list updates

  /** Rewriting the addr and size words of one node re-represents the list with that node replaced. */
  lemma ReplaceNodeInMemory(m: seq<u8>, m': seq<u8>, free: seq<Node>, i: nat, n: Node)
    requires ListInMemory(m, free) && NodesApart(free) && i < |free| && n.hdr == free[i].hdr
    requires SameOutside(m, m', HeaderPiece(n)) && 0 <= n.hdr && n.hdr + HEADER <= |m|
    requires BlockAt(m', n.hdr) == NodeHeader(free, i).(addr := n.addr, size := n.size)
    ensures ListInMemory(m', free[i := n])
  {
    var free' := free[i := n];
    forall k | 0 <= k < |free'|
      ensures NodeInMemory(m', free', k)
    {
      assert NodeInMemory(m, free, k);
      if k != i {
        assert Apart(HeaderPiece(free[if k < i then k else i]), HeaderPiece(free[if k < i then i else k]));
        BlockFrame(m, m', free[k].hdr);
      }
    }
  }

  /** Writing a header outside the list headers puts a node in front of the list. */
  lemma PrependNodeInMemory(m: seq<u8>, m': seq<u8>, free: seq<Node>, n: Node)
    requires ListInMemory(m, free) && 0 < n.hdr && n.hdr + HEADER <= |m|
    requires SameOutside(m, m', HeaderPiece(n))
    requires forall k :: 0 <= k < |free| ==> Apart(HeaderPiece(free[k]), HeaderPiece(n))
    requires BlockAt(m', n.hdr) == MemBlock(MAGIC_FREE, HdrAt(free, 0), n.addr, n.size)
    ensures ListInMemory(m', [n] + free)
  {
    var free' := [n] + free;
    forall k | 0 <= k < |free'|
      ensures NodeInMemory(m', free', k)
    {
      if k > 0 {
        assert NodeInMemory(m, free, k - 1);
        BlockFrame(m, m', free[k - 1].hdr);
      }
    }
  }

  /** List headers survive a write that meets none of them. */
  lemma ListFrame(m: seq<u8>, m': seq<u8>, free: seq<Node>, p: Piece)
    requires ListInMemory(m, free) && SameOutside(m, m', p)
    requires forall k :: 0 <= k < |free| ==> Apart(HeaderPiece(free[k]), p)
    ensures ListInMemory(m', free)
  {
    forall k | 0 <= k < |free|
      ensures NodeInMemory(m', free, k)
    {
      assert NodeInMemory(m, free, k);
      BlockFrame(m, m', free[k].hdr);
    }
  }

  /** Live headers survive a write that meets no live block. */
  lemma LiveFrame(m: seq<u8>, m': seq<u8>, live: seq<Block>, p: Piece)
    requires LiveInMemory(m, live) && SameOutside(m, m', p)
    requires forall j :: 0 <= j < |live| ==> 0 <= live[j].size && Apart(p, LivePiece(live[j]))
    ensures LiveInMemory(m', live)
    ensures LiveUntouched(m, m', live)
  {
  }

  /** A fresh header past the end of the heap meets no node and no live block. */
  lemma BeyondEnd(s: Shape, pages: nat)
    requires WellFormed(s) && 0 < pages
    ensures BlockApartFrom(Block(s.end + HEADER, pages * 4096 - HEADER), s.free)
    ensures FirstAt(s.free, s.end + pages * 4096) == |s.free|
    ensures forall j :: 0 <= j < |s.live| ==> Apart(Piece(s.end, HEADER), LivePiece(s.live[j]))
  {
  }

  lemma ExpandInMemory(m: seq<u8>, m': seq<u8>, s: Shape, pages: nat)
    requires InMemory(m, s) && 0 < pages && CanExpand(s, pages)
    requires ListInMemory(m', Expand(s, pages).free) && SameOutside(m, m', Piece(s.end, HEADER))
    ensures InMemory(m', Expand(s, pages))
    ensures LiveUntouched(m, m', s.live)
  {
    ExpandWellFormed(s, pages);
    BeyondEnd(s, pages);
    LiveFrame(m, m', s.live, Piece(s.end, HEADER));
  }

  /** A used header written at the front of a free region meets no node header and no live block. */
  lemma PlaceBlock(m: seq<u8>, m': seq<u8>, s: Shape, i: nat, size: nat)
    requires InMemory(m, s) && i < |s.free| && s.free[i].size > size + HEADER
    requires SameOutside(m, m', Piece(s.free[i].addr, HEADER))
    requires UsedHeader(m', Block(s.free[i].addr + HEADER, size))
    ensures ListInMemory(m', s.free) && LiveInMemory(m', Carve(s, i, size).live) && LiveUntouched(m, m', s.live)
  {
    hide Get32;
    var p, live := Piece(s.free[i].addr, HEADER), Carve(s, i, size).live;
    forall k | 0 <= k < |s.free|
      ensures Apart(HeaderPiece(s.free[k]), p)
    {
      assert Apart(HeaderPiece(s.free[k]), RegionPiece(s.free[i]));
    }
    ListFrame(m, m', s.free, p);
    assert NodeApartFrom(s.free[i], s.live);
    LiveFrame(m, m', s.live, p);
    forall j | 0 <= j < |live|
      ensures UsedHeader(m', live[j])
    {
      assert j > 0 ==> UsedHeader(m', s.live[j - 1]);
    }
  }

  /** Moving the node's region past the new block. */
  lemma CarveInMemory(m: seq<u8>, m': seq<u8>, s: Shape, i: nat, size: nat)
    requires WellFormed(s) && |m| == TWO_32 && 0 < s.start && s.end < TWO_32 && s.limit < TWO_32
    requires i < |s.free| && s.free[i].size > size + HEADER
    requires ListInMemory(m, s.free) && LiveInMemory(m, Carve(s, i, size).live)
    requires SameOutside(m, m', HeaderPiece(s.free[i]))
    requires BlockAt(m', s.free[i].hdr) == NodeHeader(s.free, i).(addr := s.free[i].addr + HEADER + size, size := s.free[i].size - HEADER - size)
    ensures InMemory(m', Carve(s, i, size))
    ensures LiveUntouched(m, m', Carve(s, i, size).live)
  {
    hide Get32;
    var t := Carve(s, i, size);
    CarveWellFormed(s, i, size);
    ReplaceNodeInMemory(m, m', s.free, i, t.free[i]);
    assert NodeApartFrom(t.free[i], t.live);
    LiveFrame(m, m', t.live, HeaderPiece(t.free[i]));
  }

  /** The only header `add_mem_block` writes: the node it merges into, or the block's own. */
  function Touched(free: seq<Node>, b: Block): Piece {
    var i := FirstAt(free, b.addr + b.size);
    if i < |free| then HeaderPiece(free[i]) else Piece(b.addr - HEADER, HEADER)
  }

  /** What `free` knows about the block it is given. */
  lemma FreedBlock(s: Shape, j: nat, rest: seq<Block>)
    requires WellFormed(s) && j < |s.live| && rest == s.live[..j] + s.live[j + 1..]
    ensures BlockApartFrom(s.live[j], s.free)
    ensures forall k :: 0 <= k < |s.free| ==> Apart(HeaderPiece(s.free[k]), Piece(s.live[j].addr - HEADER, HEADER))
    ensures forall k :: 0 <= k < |rest| ==>
              0 <= rest[k].size && Apart(Piece(s.live[j].addr - HEADER, HEADER), LivePiece(rest[k]))
    ensures forall k :: 0 <= k < |rest| ==> Apart(Touched(s.free, s.live[j]), LivePiece(rest[k]))
  {
  }

  /** Live blocks other than the freed one, through the two writes of `free`. */
  lemma ReleaseInMemory(m: seq<u8>, m1: seq<u8>, m2: seq<u8>, s: Shape, j: nat)
    requires InMemory(m, s) && j < |s.live|
    requires SameOutside(m, m1, Piece(s.live[j].addr - HEADER, HEADER))
    requires SameOutside(m1, m2, Touched(s.free, s.live[j]))
    requires ListInMemory(m2, Release(s, j).free)
    ensures InMemory(m2, Release(s, j))
    ensures LiveUntouched(m, m2, Release(s, j).live)
  {
    hide Get32;
    var rest := s.live[..j] + s.live[j + 1..];
    FreedBlock(s, j, rest);
    ReleaseWellFormed(s, j);
    assert LiveInMemory(m, rest);
    LiveFrame(m, m1, rest, Piece(s.live[j].addr - HEADER, HEADER));
    LiveFrame(m1, m2, rest, Touched(s.free, s.live[j]));
  }

  /** Null never names a node. */
  lemma ListHeadersNonNull(m: seq<u8>, free: seq<Node>)
    requires ListInMemory(m, free)
    ensures forall i :: 0 <= i < |free| ==> free[i].hdr != NULL
  {
    forall i | 0 <= i < |free|
      ensures free[i].hdr != NULL
    {
      assert NodeInMemory(m, free, i);
    }
  }

  /** The freed block keeps its free mark whether or not it was merged, so a second `free` is caught. */
  lemma StillMarkedFree(m1: seq<u8>, m2: seq<u8>, s: Shape, j: nat)
    requires WellFormed(s) && j < |s.live| && HEADER < s.live[j].addr <= |m1|
    requires SameOutside(m1, m2, Touched(s.free, s.live[j])) && ListInMemory(m2, Release(s, j).free)
    requires BlockAt(m1, s.live[j].addr - HEADER).magic == MAGIC_FREE
    ensures BlockAt(m2, s.live[j].addr - HEADER).magic == MAGIC_FREE
  {
    hide Get32;
    var b, i := s.live[j], FirstAt(s.free, s.live[j].addr + s.live[j].size);
    if i < |s.free| {
      assert NodeApartFrom(s.free[i], s.live);
      BlockFrame(m1, m2, b.addr - HEADER);
    } else {
      assert NodeInMemory(m2, Release(s, j).free, 0);
    }
  }

  lemma {:induction false} FreeBytesAppend(free: seq<Node>, n: Node)
    ensures FreeBytes(free + [n]) == FreeBytes(free) + n.size
  {
    if free != [] {
      assert (free + [n])[1..] == free[1..] + [n];
      FreeBytesAppend(free[1..], n);
    }
  }

  /** A program writing inside the payload of a live block cannot disturb the allocator. */
  lemma PayloadWriteKeeps(m: seq<u8>, m': seq<u8>, s: Shape, j: nat)
    requires InMemory(m, s) && j < |s.live|
    requires SameOutside(m, m', Piece(s.live[j].addr, s.live[j].size))
    ensures InMemory(m', s)
    ensures forall k :: 0 <= k < |s.live| && k != j ==> SameInside(m, m', LivePiece(s.live[k]))
  {
    hide Get32;
    var p := Piece(s.live[j].addr, s.live[j].size);
    forall k | 0 <= k < |s.free|
      ensures NodeInMemory(m', s.free, k)
    {
      assert NodeApartFrom(s.free[k], s.live) && NodeInMemory(m, s.free, k);
      BlockFrame(m, m', s.free[k].hdr);
    }
    forall k | 0 <= k < |s.live|
      ensures UsedHeader(m', s.live[k])
      ensures k != j ==> SameInside(m, m', LivePiece(s.live[k]))
    {
      assert UsedHeader(m, s.live[k]);
      assert k < j ==> Apart(LivePiece(s.live[k]), LivePiece(s.live[j]));
      assert j < k ==> Apart(LivePiece(s.live[j]), LivePiece(s.live[k]));
      BlockFrame(m, m', s.live[k].addr - HEADER);
    }
  }

  /** The address is that of a live block's payload. */
  ghost predicate LiveAt(live: seq<Block>, addr: int) {
    exists j :: 0 <= j < |live| && live[j].addr == addr
  }

  class HeapAllocator {
    var mem: seq<u8>
    var firstFree: int
    var heapEnd: int
    var heapStart: int
    /** Where `allocate_page` fails: from this address on no page can be mapped. */
    const mapLimit: int
    ghost var shape: Shape

    ghost predicate Valid()
      reads this
    {
      && |mem| == TWO_32
      && InMemory(mem, shape)
      && heapEnd == shape.end && heapStart == shape.start && mapLimit == shape.limit
      && firstFree == HdrAt(shape.free, 0)
    }

    /** The part of `Valid` that walks over the list need. */
    ghost predicate ListValid()
      reads this
    {
      |mem| == TWO_32 && ListInMemory(mem, shape.free) && firstFree == HdrAt(shape.free, 0)
    }

    method Store32(a: int, v: int)
      requires 0 <= a && a + 4 <= |mem| && 0 <= v < TWO_32
      modifies this`mem
      ensures mem == Put32(old(mem), a, v)
    {
      mem := Put32(mem, a, v);
    }

    method Load32(a: int) returns (v: int)
      requires 0 <= a && a + 4 <= |mem|
      ensures v == Get32(mem, a) && 0 <= v < TWO_32
    {
      v := Get32(mem, a);
    }

    method SetMagic(h: int, v: int)
      requires 0 <= h && h + HEADER <= |mem| && 0 <= v < TWO_32
      modifies this`mem
      ensures SameOutside(old(mem), mem, Piece(h, HEADER))
      ensures BlockAt(mem, h) == BlockAt(old(mem), h).(magic := v)
    {
      Store32(h, v);
      Get32Frame(old(mem), mem, h + 4);
      Get32Frame(old(mem), mem, h + 8);
      Get32Frame(old(mem), mem, h + 12);
    }

    method SetNext(h: int, v: int)
      requires 0 <= h && h + HEADER <= |mem| && 0 <= v < TWO_32
      modifies this`mem
      ensures SameOutside(old(mem), mem, Piece(h, HEADER))
      ensures BlockAt(mem, h) == BlockAt(old(mem), h).(next := v)
    {
      Store32(h + 4, v);
      Get32Frame(old(mem), mem, h);
      Get32Frame(old(mem), mem, h + 8);
      Get32Frame(old(mem), mem, h + 12);
    }

    method SetAddr(h: int, v: int)
      requires 0 <= h && h + HEADER <= |mem| && 0 <= v < TWO_32
      modifies this`mem
      ensures SameOutside(old(mem), mem, Piece(h, HEADER))
      ensures BlockAt(mem, h) == BlockAt(old(mem), h).(addr := v)
    {
      Store32(h + 8, v);
      Get32Frame(old(mem), mem, h);
      Get32Frame(old(mem), mem, h + 4);
      Get32Frame(old(mem), mem, h + 12);
    }

    method SetSize(h: int, v: int)
      requires 0 <= h && h + HEADER <= |mem| && 0 <= v < TWO_32
      modifies this`mem
      ensures SameOutside(old(mem), mem, Piece(h, HEADER))
      ensures BlockAt(mem, h) == BlockAt(old(mem), h).(size := v)
    {
      Store32(h + 12, v);
      Get32Frame(old(mem), mem, h);
      Get32Frame(old(mem), mem, h + 4);
      Get32Frame(old(mem), mem, h + 8);
    }

    /** `MemBlock::initialize` */
    method InitBlock(h: int, next: int, addr: int, size: int)
      requires 0 <= h && h + HEADER <= |mem|
      requires 0 <= next < TWO_32 && 0 <= addr < TWO_32 && 0 <= size < TWO_32
      modifies this`mem
      ensures SameOutside(old(mem), mem, Piece(h, HEADER))
      ensures BlockAt(mem, h) == MemBlock(MAGIC_FREE, next, addr, size)
    {
      hide Get32;
      SetMagic(h, MAGIC_FREE);
      SetNext(h, next);
      SetAddr(h, addr);
      SetSize(h, size);
    }

    /** The search loop of `allocate`. */
    method FindFit(size: nat) returns (cur: int)
      requires ListValid()
      ensures cur == HdrAt(shape.free, FirstFit(shape.free, size))
    {
      cur := firstFree;
      ghost var i := 0;
      while cur != NULL
        invariant 0 <= i <= |shape.free| && cur == HdrAt(shape.free, i)
        invariant forall k :: 0 <= k < i ==> shape.free[k].size <= size + HEADER
        decreases |shape.free| - i
      {
        assert NodeInMemory(mem, shape.free, i);
        var s := Load32(cur + 12);
        if s > size + HEADER {
          break;
        }
        cur := Load32(cur + 4);
        i := i + 1;
      }
      assert i < |shape.free| ==> NodeInMemory(mem, shape.free, i);
      FirstFitIs(shape.free, size, i);
    }

    /** The search loop of `add_mem_block`: the first region that starts at `addr`. */
    method FindRegionAt(addr: int) returns (cur: int)
      requires ListValid()
      ensures cur == HdrAt(shape.free, FirstAt(shape.free, addr))
    {
      cur := firstFree;
      ghost var i := 0;
      while cur != NULL
        invariant 0 <= i <= |shape.free| && cur == HdrAt(shape.free, i)
        invariant forall k :: 0 <= k < i ==> shape.free[k].addr != addr
        decreases |shape.free| - i
      {
        assert NodeInMemory(mem, shape.free, i);
        var a := Load32(cur + 8);
        if a == addr {
          break;
        }
        cur := Load32(cur + 4);
        i := i + 1;
      }
      assert i < |shape.free| ==> NodeInMemory(mem, shape.free, i);
      FirstAtIs(shape.free, addr, i);
    }

    /** The merging branch of `add_mem_block`: node `i` takes over the block in front of its region. */
    method MergeInto(cur: int, ghost i: nat, addr: int, size: int)
      requires ListValid() && NodesApart(shape.free)
      requires i < |shape.free| && cur == shape.free[i].hdr
      requires HEADER <= addr < TWO_32 && 0 <= size && 0 <= shape.free[i].size + size + HEADER < TWO_32
      modifies this`mem, this`shape
      ensures ListValid() && SameOutside(old(mem), mem, HeaderPiece(old(shape.free)[i]))
      ensures shape == old(shape).(free := old(shape.free)[i := Node(cur, addr - HEADER, old(shape.free)[i].size + size + HEADER)])
    {
      hide Get32;
      ghost var free, m := shape.free, mem;
      assert NodeInMemory(m, free, i);
      var curSize := Load32(cur + 12);
      SetSize(cur, curSize + size + HEADER);
      SetAddr(cur, addr - HEADER);
      ghost var n := Node(cur, addr - HEADER, free[i].size + size + HEADER);
      ReplaceNodeInMemory(m, mem, free, i, n);
      shape := shape.(free := free[i := n]);
    }

    /** The last two lines of `add_mem_block`: the block becomes the first node of the list. */
    method PutFirst(block: int, ghost n: Node)
      requires ListValid() && n.hdr == block && 0 < block && block + HEADER <= |mem|
      requires forall k :: 0 <= k < |shape.free| ==> Apart(HeaderPiece(shape.free[k]), HeaderPiece(n))
      requires BlockAt(mem, block).(next := 0) == MemBlock(MAGIC_FREE, 0, n.addr, n.size)
      modifies this`mem, this`firstFree, this`shape
      ensures ListValid() && SameOutside(old(mem), mem, HeaderPiece(n))
      ensures shape == old(shape).(free := [n] + old(shape.free))
    {
      ghost var free, m := shape.free, mem;
      assert free != [] ==> NodeInMemory(m, free, 0);
      SetNext(block, firstFree);
      firstFree := block;
      PrependNodeInMemory(m, mem, free, n);
      shape := shape.(free := [n] + free);
    }

    /** `add_mem_block`: merge the block into the region that starts right after it, or put it first. */
    method AddMemBlock(block: int, ghost b: Block)
      requires ListValid() && NodesApart(shape.free) && BlockApartFrom(b, shape.free)
      requires 0 <= b.size && block == b.addr - HEADER && 0 < block && b.addr + b.size < TWO_32
      requires forall i :: 0 <= i < |shape.free| ==> 0 <= shape.free[i].size && shape.free[i].addr + shape.free[i].size < TWO_32
      requires BlockAt(mem, block).(next := 0) == MemBlock(MAGIC_FREE, 0, b.addr, b.size)
      modifies this`mem, this`firstFree, this`shape
      ensures shape == old(shape).(free := AddNode(old(shape.free), b.addr, b.size))
      ensures ListValid()
      ensures SameOutside(old(mem), mem, Touched(old(shape.free), b))
    {
      hide NodesApart, ListInMemory;
      hide Get32;
      var addr := Load32(block + 8);
      var size := Load32(block + 12);
      assert addr == b.addr && size == b.size;
      ghost var free, i := shape.free, FirstAt(shape.free, b.addr + b.size);
      ListHeadersNonNull(mem, free);
      var cur := FindRegionAt(addr + size);
      if cur != NULL {
        assert AddNode(free, b.addr, b.size) == free[i := Node(cur, addr - HEADER, free[i].size + size + HEADER)];
        MergeInto(cur, i, addr, size);
      } else {
        assert AddNode(free, b.addr, b.size) == [Node(block, b.addr, b.size)] + free;
        PutFirst(block, Node(block, b.addr, b.size));
      }
    }

    constructor (memory: seq<u8>, addr: int, size: int, limit: int)
      requires |memory| == TWO_32
      requires 0 < addr && HEADER <= size && addr + size < TWO_32 && limit < TWO_32
      ensures Valid() && SameOutside(memory, mem, Piece(addr, HEADER)) && shape == Fresh(addr, size, limit)
    {
      mem := memory;
      firstFree, heapEnd, heapStart, mapLimit := addr, addr + size, addr, limit;
      shape := Fresh(addr, size, limit);
      new;
      FreshWellFormed(addr, size, limit);
      InitBlock(addr, NULL, addr + HEADER, size - HEADER);
    }

    /** The list half of `exapnd_heap`: a header past the end of the heap joins the list. */
    method AppendRegion(pages: nat)
      requires ListValid() && WellFormed(shape) && 0 < shape.start && 0 < pages
      requires heapEnd == shape.end && shape.end + pages * 4096 < TWO_32
      modifies this`mem, this`firstFree, this`shape
      ensures ListValid() && SameOutside(old(mem), mem, Piece(heapEnd, HEADER))
      ensures shape == Expand(old(shape), pages)
    {
      hide Get32;
      ghost var s, m, b := shape, mem, Block(heapEnd + HEADER, pages * 4096 - HEADER);
      BeyondEnd(s, pages);
      InitBlock(heapEnd, NULL, heapEnd + HEADER, pages * 4096 - HEADER);
      ListFrame(m, mem, s.free, Piece(heapEnd, HEADER));
      AddMemBlock(heapEnd, b);
      shape := Expand(s, pages);
    }

    /** `allocate_page` asserts that a frame is left and that the page is not mapped yet. */
    method AllocatePage(addr: int) returns (ok: bool)
      ensures ok == (addr + 4096 <= mapLimit)
    {
      ok := addr + 4096 <= mapLimit;
    }

    /** The mapping loop of `exapnd_heap`. */
    method MapPages(from: int, pages: nat) returns (ok: bool)
      requires 0 < pages
      ensures ok == (from + pages * 4096 <= mapLimit)
    {
      var i := 0;
      while i < pages
        invariant 0 <= i <= pages && (i > 0 ==> from + i * 4096 <= mapLimit)
      {
        ok := AllocatePage(from + i * 4096);
        if !ok {
          return;
        }
        i := i + 1;
      }
      ok := true;
    }

    /** `exapnd_heap`: fails, with the heap as it was, when one of its pages cannot be mapped. */
    method ExpandHeap(pages: nat) returns (ok: bool)
      requires Valid() && 0 < pages
      modifies this
      ensures Valid() && ok == CanExpand(old(shape), pages)
      ensures shape == if ok then Expand(old(shape), pages) else old(shape)
      ensures LiveUntouched(old(mem), mem, old(shape.live))
    {
      ok := MapPages(heapEnd, pages);
      if !ok {
        return;
      }
      AppendRegion(pages);
      heapEnd := heapEnd + pages * 4096;
      ExpandInMemory(old(mem), mem, old(shape), pages);
    }

    /** The tail of `allocate`: carve the block off the front of the chosen node's region. */
    method CarveBlock(cur: int, size: nat, ghost i: nat) returns (p: int)
      requires Valid() && i < |shape.free| && cur == shape.free[i].hdr && shape.free[i].size > size + HEADER
      modifies this`mem, this`shape
      ensures Valid() && shape == Carve(old(shape), i, size)
      ensures p == shape.live[0].addr
      ensures LiveUntouched(old(mem), mem, old(shape.live))
    {
      hide Get32;
      ghost var s, m := shape, mem;
      assert NodeInMemory(m, s.free, i);
      var addr := Load32(cur + 8);
      InitBlock(addr, NULL, addr + HEADER, size);
      SetMagic(addr, MAGIC_USED);
      PlaceBlock(m, mem, s, i, size);
      ghost var m1 := mem;
      assert NodeInMemory(m1, s.free, i);
      SetAddr(cur, addr + HEADER + size);
      var old_size := Load32(cur + 12);
      SetSize(cur, old_size - HEADER - size);
      CarveInMemory(m1, mem, s, i, size);
      shape := Carve(s, i, size);
      p := addr + HEADER;
    }

    /**
     * `allocate`: search, expand once if nothing fits, search again. `ok` is false when an assertion of the
     * allocator fails, the one in mapping a page of the expansion included.
     */
    method Allocate(size: nat) returns (p: int, ok: bool)
      requires Valid()
      modifies this
      ensures ok == HeapShape.Allocate(old(shape), size).Some?
      ensures ok ==> Valid() && Some(shape) == HeapShape.Allocate(old(shape), size)
      ensures ok ==> p == shape.live[0].addr && shape.live[0].size == size && shape.live[1..] == old(shape.live)
      ensures ok ==> RightPlace(old(shape), size, p, heapEnd)
      ensures LiveUntouched(old(mem), mem, old(shape.live))
    {
      hide InMemory, WellFormed, RightPlace, HeapShape.Allocate;
      ghost var s := shape;
      p, ok := AllocateBlock(size);
      if ok {
        ShapeOk(old(mem), s);
        AllocateInRightPlace(s, size);
      }
    }

    lemma ShapeOk(m: seq<u8>, s: Shape)
      requires InMemory(m, s)
      ensures WellFormed(s)
    {
    }

    /** The search, the expansion and the second search. */
    method AllocateBlock(size: nat) returns (p: int, ok: bool)
      requires Valid()
      modifies this
      ensures ok == HeapShape.Allocate(old(shape), size).Some?
      ensures ok ==> Valid() && Some(shape) == HeapShape.Allocate(old(shape), size)
      ensures ok ==> p == shape.live[0].addr && shape.live[0].size == size && shape.live[1..] == old(shape.live)
      ensures LiveUntouched(old(mem), mem, old(shape.live))
    {
      hide WellFormed, LiveInMemory;
      hide Get32;
      p, ok := NULL, false;
      if size >= MAX_REQUEST {
        return;
      }
      var cur := FindFit(size);
      ListHeadersNonNull(mem, shape.free);
      if cur == NULL {
        var mapped := ExpandHeap(PagesFor(size));
        if !mapped {
          return;
        }
        ListHeadersNonNull(mem, shape.free);
        cur := FindFit(size);
        if cur == NULL {
          return;
        }
      }
      p := CarveBlock(cur, size, FirstFit(shape.free, size));
      ok := true;
    }

    /**
     * `free`: its assertion fails, with nothing changed, exactly when the magic word before the address does not say
     * used. A used mark must be that of a live block. Afterwards the mark says free.
     */
    method Free(addr: int) returns (ok: bool, ghost j: nat)
      requires Valid() && HEADER <= addr <= |mem|
      requires BlockAt(mem, addr - HEADER).magic == MAGIC_USED ==> LiveAt(shape.live, addr)
      modifies this`mem, this`firstFree, this`shape
      ensures Valid() && ok == (BlockAt(old(mem), addr - HEADER).magic == MAGIC_USED)
      ensures !ok ==> shape == old(shape) && mem == old(mem)
      ensures ok ==> j < |old(shape.live)| && old(shape.live)[j].addr == addr && shape == Release(old(shape), j)
      ensures LiveUntouched(old(mem), mem, shape.live)
      ensures ok ==> BlockAt(mem, addr - HEADER).magic == MAGIC_FREE
    {
      hide Get32;
      j := 0;
      var magic := Load32(addr - HEADER);
      ok := magic == MAGIC_USED;
      if ok {
        j :| 0 <= j < |shape.live| && shape.live[j].addr == addr;
        FreeLive(addr, j);
      }
    }

    /** `free` past its assertion. */
    method FreeLive(addr: int, ghost j: nat)
      requires Valid() && j < |shape.live| && shape.live[j].addr == addr
      modifies this`mem, this`firstFree, this`shape
      ensures Valid() && shape == Release(old(shape), j)
      ensures LiveUntouched(old(mem), mem, shape.live)
      ensures HEADER <= addr <= |mem| && BlockAt(mem, addr - HEADER).magic == MAGIC_FREE
    {
      hide Get32;
      ghost var s, m, rest := shape, mem, shape.live[..j] + shape.live[j + 1..];
      assert UsedHeader(m, s.live[j]);
      FreedBlock(s, j, rest);
      SetMagic(addr - HEADER, MAGIC_FREE);
      ListFrame(m, mem, s.free, Piece(addr - HEADER, HEADER));
      ghost var m1 := mem;
      AddMemBlock(addr - HEADER, s.live[j]);
      shape := Release(s, j);
      StillMarkedFree(m1, mem, s, j);
      ReleaseInMemory(m, m1, mem, s, j);
    }

    /** The used mark of every live block is in memory, so freeing it never fails the assertion. */
    lemma LiveMarkedUsed(addr: int)
      requires Valid() && LiveAt(shape.live, addr)
      ensures HEADER <= addr <= |mem| && BlockAt(mem, addr - HEADER).magic == MAGIC_USED
    {
      hide Get32;
      var j :| 0 <= j < |shape.live| && shape.live[j].addr == addr;
      assert UsedHeader(mem, shape.live[j]);
    }

    /** `size_of_block` */
    method SizeOfBlock(addr: int) returns (size: int)
      requires Valid() && HEADER <= addr <= |mem|
      ensures forall j :: 0 <= j < |shape.live| && shape.live[j].addr == addr ==> size == shape.live[j].size
      ensures BlockAt(mem, addr - HEADER).magic != MAGIC_USED ==> size == 0
    {
      hide Get32;
      var magic := Load32(addr - HEADER);
      size := 0;
      if magic == MAGIC_USED {
        size := Load32(addr - HEADER + 12);
      }
      assert forall j :: 0 <= j < |shape.live| ==> UsedHeader(mem, shape.live[j]);
    }

    /** `current_free_space`: the bytes reported, the node count and the live blocks account for the whole heap. */
    method CurrentFreeSpace() returns (freeBytes: int, numBlocks: nat)
      requires Valid()
      ensures numBlocks == |shape.free|
      ensures freeBytes == FreeBytes(shape.free)
      ensures freeBytes + 16 * numBlocks + LiveBytes(shape.live) == heapEnd - heapStart
    {
      hide Get32;
      numBlocks, freeBytes := 0, 0;
      var cur := firstFree;
      ghost var free := shape.free;
      ListHeadersNonNull(mem, free);
      assert free[..0] == [];
      while cur != NULL
        invariant numBlocks <= |free| && cur == HdrAt(free, numBlocks)
        invariant freeBytes == FreeBytes(free[..numBlocks])
        decreases |free| - numBlocks
      {
        assert NodeInMemory(mem, free, numBlocks);
        var size := Load32(cur + 12);
        FreeBytesAppend(free[..numBlocks], free[numBlocks]);
        assert free[..numBlocks] + [free[numBlocks]] == free[..numBlocks + 1];
        freeBytes := freeBytes + size;
        cur := Load32(cur + 4);
        numBlocks := numBlocks + 1;
      }
      assert free[..numBlocks] == free;
    }
  }
}
