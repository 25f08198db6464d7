/** What single calls do to the list and the live blocks, told without the functions that compute it. */
module HeapCalls {
  import opened Options
  import opened HeapShape

  /** Node `i` is the first one with room for `size` bytes, a 16-byte header and at least one byte more. */
  predicate Chosen(s: Shape, size: nat, i: nat) {
    i < |s.free| && s.free[i].size > size + 16 && forall k :: 0 <= k < i ==> s.free[k].size <= size + 16
  }

  predicate NothingFits(s: Shape, size: nat) {
    forall k :: 0 <= k < |s.free| ==> s.free[k].size <= size + 16
  }

  /** When a node fits, the heap keeps its end, the first such node gives its front, and every other node stays. */
  lemma AllocateUsesFirstFit(s: Shape, size: nat, i: nat)
    requires size < MAX_REQUEST && Chosen(s, size, i)
    ensures Allocate(s, size).Some?
    ensures var t, n := Allocate(s, size).value, s.free[i];
            && t.start == s.start && t.end == s.end && t.limit == s.limit
            && t.live == [Block(n.addr + 16, size)] + s.live
            && |t.free| == |s.free| && t.free[i] == Node(n.hdr, n.addr + 16 + size, n.size - 16 - size)
            && forall k :: 0 <= k < |s.free| && k != i ==> t.free[k] == s.free[k]
  {
  }

  /** When none fits, the heap grows by whole pages, and the block is cut from the new pages. */
  lemma AllocateExpandsOnce(s: Shape, size: nat)
    requires WellFormed(s) && NothingFits(s, size) && Allocate(s, size).Some?
    ensures var t, grown := Allocate(s, size).value, 4096 * (size / 4096 + 1);
            && t.start == s.start && t.end == s.end + grown <= s.limit && t.limit == s.limit
            && t.live == [Block(s.end + 32, size)] + s.live
            && t.free == [Node(s.end, s.end + 32 + size, grown - 32 - size)] + s.free
  {
    ExpandAddsNode(s, PagesFor(size));
    ExpansionSuffices(s, size);
  }

  /** Where the payload lies and where the heap ends, when `allocate` succeeds. */
  ghost predicate RightPlace(s: Shape, size: nat, p: int, end: int) {
    && (forall i: nat :: Chosen(s, size, i) ==> p == s.free[i].addr + 16 && end == s.end)
    && (NothingFits(s, size) ==> p == s.end + 32 && end == s.end + 4096 * (size / 4096 + 1))
  }

  lemma AllocateInRightPlace(s: Shape, size: nat)
    requires WellFormed(s) && Allocate(s, size).Some?
    ensures var t := Allocate(s, size).value; t.live != [] && RightPlace(s, size, t.live[0].addr, t.end)
  {
    hide WellFormed;
    AllocateWellFormed(s, size);
    if NothingFits(s, size) { AllocateExpandsOnce(s, size); }
    forall i: nat | Chosen(s, size, i)
      ensures var t := Allocate(s, size).value; t.live[0].addr == s.free[i].addr + 16 && t.end == s.end
    {
      AllocateUsesFirstFit(s, size, i);
    }
  }

  /** Node `i` is the first one whose region starts right behind the block. */
  predicate Follows(s: Shape, b: Block, i: nat) {
    i < |s.free| && s.free[i].addr == b.addr + b.size && forall k :: 0 <= k < i ==> s.free[k].addr != b.addr + b.size
  }

  /** A block with a free region right behind it joins that region; no node is added, the header stays. */
  lemma FreeMerges(s: Shape, j: nat, i: nat)
    requires j < |s.live| && Follows(s, s.live[j], i)
    ensures var t, n, b := Release(s, j), s.free[i], s.live[j];
            && t.start == s.start && t.end == s.end && t.live == s.live[..j] + s.live[j + 1..]
            && |t.free| == |s.free| && t.free[i] == Node(n.hdr, b.addr - 16, b.size + 16 + n.size)
            && forall k :: 0 <= k < |s.free| && k != i ==> t.free[k] == s.free[k]
  {
  }

  /** Any other block becomes the first node, with the header it already has. */
  lemma FreePrepends(s: Shape, j: nat)
    requires j < |s.live| && forall k :: 0 <= k < |s.free| ==> s.free[k].addr != s.live[j].addr + s.live[j].size
    ensures var t, b := Release(s, j), s.live[j];
            && t.start == s.start && t.end == s.end && t.live == s.live[..j] + s.live[j + 1..]
            && t.free == [Node(b.addr - 16, b.addr, b.size)] + s.free
  {
  }

  // ----- what one call undoes

  /** No region is empty. */
  predicate NoEmptyRegion(s: Shape) { forall i :: 0 <= i < |s.free| ==> 0 < s.free[i].size }

  /** It stays so: a block is only cut off a larger region. */
  lemma StepKeepsRegions(s: Shape, op: Op)
    requires WellFormed(s) && NoEmptyRegion(s) && Step(s, op).Some? && (op.Free? ==> 0 < s.live[op.block].size)
    ensures NoEmptyRegion(Step(s, op).value)
  {
    hide WellFormed;
    match op {
      case Alloc(size) =>
        var i := FirstFit(s.free, size);
        if i < |s.free| {
          AllocateUsesFirstFit(s, size, i);
        } else {
          ExpansionSuffices(s, size);
          AllocateExpandsOnce(s, size);
        }
      case Free(j) => LiveSize(s, j);
    }
  }

  lemma LiveSize(s: Shape, j: nat)
    requires WellFormed(s) && j < |s.live|
    ensures 0 <= s.live[j].size && forall i :: 0 <= i < |s.free| ==> 0 <= s.free[i].size
  {
  }

  /** `free` undoes `allocate`: freeing the block just cut off a node restores the heap exactly. */
  lemma FreeUndoesAllocate(s: Shape, size: nat, i: nat)
    requires WellFormed(s) && NoEmptyRegion(s) && size < MAX_REQUEST && Chosen(s, size, i)
    ensures Allocate(s, size).Some? && Release(Allocate(s, size).value, 0) == s
  {
    AllocateUsesFirstFit(s, size, i);
    var t := Allocate(s, size).value;
    forall k | 0 <= k < i
      ensures t.free[k].addr != t.live[0].addr + size
    {
      NotInside(s, i, k, size + 16);
    }
    hide WellFormed, Allocate, Release;
    FreeMerges(t, 0, i);
    var r := Release(t, 0);
    assert t.live[..0] + t.live[1..] == s.live;
    assert r.free == s.free;
    LimitKept(t, 0);
  }

  /** No other region starts inside a region. */
  lemma NotInside(s: Shape, i: nat, k: nat, n: nat)
    requires WellFormed(s) && NoEmptyRegion(s) && k < i < |s.free| && n < s.free[i].size
    ensures s.free[k].addr != s.free[i].addr + n
  {
    assert Apart(RegionPiece(s.free[k]), RegionPiece(s.free[i]));
  }

  lemma LimitKept(s: Shape, j: nat)
    requires j < |s.live|
    ensures Release(s, j).limit == s.limit
  {
  }
}
