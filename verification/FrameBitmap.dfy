/** The bitmap of available physical frames, one bit per 4 KB frame. */
module FrameBitmap {
  import opened Bits

  /** 2^32 - 1 divided by 4096 and then by 32, both rounded down: the last 32 frames have no bit. */
  const WORDS: nat := 32767
  const FRAMES: nat := 32 * 32767

  /** Bit number of a frame inside its word: `n` as a machine word. */
  function BitNo(n: nat): bv32
    requires n < 32
  {
    if n == 0 then 0 else BitNo(n - 1) + 1
  }

  lemma NextBit(b: bv32)
    requires b < 31
    ensures (b + 1) as int == b as int + 1 && b + 1 < 32
  {
  }

  lemma LastBit(b: bv32)
    requires 0 < b < 32
    ensures (b - 1) as int == b as int - 1 && b - 1 + 1 == b
  {
  }

  lemma SmallWord(b: bv32)
    ensures b < 31 <==> b as int < 31
    ensures b < 32 <==> b as int < 32
    ensures b == 0 <==> b as int == 0
  {
  }

  lemma {:induction false} BitNoInverse(n: nat)
    requires n < 32
    ensures BitNo(n) as int == n
  {
    if n > 0 {
      BitNoInverse(n - 1);
      SmallWord(BitNo(n - 1));
      NextBit(BitNo(n - 1));
    }
  }

  lemma BitNoSmall(n: nat)
    requires n < 32
    ensures BitNo(n) < 32
  {
    BitNoInverse(n);
    SmallWord(BitNo(n));
  }

  lemma {:induction false} FromBit(b: bv32)
    requires b < 32
    ensures b as int < 32 && BitNo(b as int) == b
    decreases b as int
  {
    SmallWord(b);
    if b != 0 {
      LastBit(b);
      SmallWord(b - 1);
      FromBit(b - 1);
    }
  }

  /** Whether the bit of frame `f` is set. */
  predicate FrameBit(words: seq<bv32>, f: nat)
    requires |words| == WORDS && f < FRAMES
  {
    BitNoSmall(f % 32);
    GetBit(words[f / 32], BitNo(f % 32))
  }

  function WithFrame(words: seq<bv32>, f: nat, v: bool): (r: seq<bv32>)
    requires |words| == WORDS && f < FRAMES
    ensures |r| == WORDS
  {
    BitNoSmall(f % 32);
    words[f / 32 := SetBit(words[f / 32], BitNo(f % 32), v)]
  }

  ghost function FramesOf(words: seq<bv32>): set<nat>
    requires |words| == WORDS
  {
    set f: nat | f < FRAMES && FrameBit(words, f)
  }

  /** Marking one frame changes the set of available frames by exactly that frame. */
  lemma WithFrameReads(words: seq<bv32>, f: nat, v: bool, g: nat)
    requires |words| == WORDS && f < FRAMES && g < FRAMES
    ensures FrameBit(WithFrame(words, f, v), g) == if g == f then v else FrameBit(words, g)
  {
    hide GetBit, SetBit, BitNo;
    BitNoSmall(f % 32);
    BitNoSmall(g % 32);
    if f / 32 == g / 32 {
      SetBitReads(words[f / 32], BitNo(f % 32), v, BitNo(g % 32));
      BitNoInverse(f % 32);
      BitNoInverse(g % 32);
    }
  }

  lemma WithFrameSet(words: seq<bv32>, f: nat, v: bool)
    requires |words| == WORDS && f < FRAMES
    ensures FramesOf(WithFrame(words, f, v)) == if v then FramesOf(words) + {f} else FramesOf(words) - {f}
  {
    hide FrameBit, WithFrame;
    forall g: nat | g < FRAMES
      ensures FrameBit(WithFrame(words, f, v), g) == if g == f then v else FrameBit(words, g)
    {
      WithFrameReads(words, f, v, g);
    }
  }

  /** Frames below 5 MB are never handed out. */
  const FIRST_FREE_FRAME: nat := 1280

  class FrameBitmap {
    const bitmap: array<bv32>

    ghost predicate Valid() { bitmap.Length == WORDS }

    ghost function Available(): set<nat>
      requires Valid()
      reads bitmap
    {
      FramesOf(bitmap[..])
    }

    constructor ()
      ensures Valid() && fresh(bitmap) && Available() == {}
    {
      bitmap := new bv32[WORDS](_ => 0);
      new;
      hide *;
      NothingAvailable(bitmap[..]);
    }

    /** `set_frame_used` and `set_frame_available` */
    method SetFrame(f: nat, v: bool)
      requires Valid() && f < FRAMES
      modifies bitmap
      ensures Available() == if v then old(Available()) + {f} else old(Available()) - {f}
    {
      hide GetBit, SetBit, BitNo, FramesOf;
      BitNoSmall(f % 32);
      WithFrameSet(bitmap[..], f, v);
      ghost var words := bitmap[..];
      bitmap[f / 32] := SetBit(bitmap[f / 32], BitNo(f % 32), v);
      assert bitmap[..] == WithFrame(words, f, v);
    }

    /**
     * `get_free_frame`: takes the lowest available frame; `ok` is false exactly when there is none.
     */
    method GetFreeFrame() returns (ok: bool, frame: nat)
      requires Valid()
      modifies bitmap
      ensures ok == (old(Available()) != {})
      ensures !ok ==> Available() == old(Available())
      ensures ok ==> frame in old(Available()) && Available() == old(Available()) - {frame}
      ensures ok ==> forall g :: g in old(Available()) ==> frame <= g
    {
      hide GetBit, SetBit, BitNo;
      var i := 0;
      while i < WORDS
        invariant 0 <= i <= WORDS && bitmap[..] == old(bitmap[..])
        invariant forall f: nat :: f < 32 * i ==> !FrameBit(bitmap[..], f)
      {
        var b := GetOnBitIdx(bitmap[i]);
        if b < 32 {
          FromBit(b);
          frame := 32 * i + b as int;
          LowestInWord(bitmap[..], i, b);
          assert frame in Available();
          assert forall g :: g in Available() ==> frame <= g;
          SetFrame(frame, false);
          return true, frame;
        }
        EmptyWord(bitmap[..], i);
        i := i + 1;
      }
      ok, frame := false, 0;
      assert old(Available()) == {};
    }

    method IsFrameAvailable(f: nat) returns (r: bool)
      requires Valid() && f < FRAMES
      ensures r <==> f in Available()
    {
      r := FrameBit(bitmap[..], f);
    }
  }

  lemma EmptyWord(words: seq<bv32>, i: nat)
    requires |words| == WORDS && i < WORDS && words[i] == 0
    ensures forall f: nat :: 32 * i <= f < 32 * i + 32 ==> !FrameBit(words, f)
  {
  }

  /** The lowest set bit of a word names the lowest available frame of that word. */
  lemma LowestInWord(words: seq<bv32>, i: nat, b: bv32)
    requires |words| == WORDS && i < WORDS && b < 32 && GetBit(words[i], b)
    requires forall j: bv32 :: j < b && j < 32 ==> !GetBit(words[i], j)
    ensures b as int < 32 && FrameBit(words, 32 * i + b as int)
    ensures forall f: nat :: 32 * i <= f < 32 * i + b as int ==> !FrameBit(words, f)
  {
    hide GetBit, BitNo;
    FromBit(b);
    var n := b as int;
    assert (32 * i + n) / 32 == i && (32 * i + n) % 32 == n;
    forall f: nat | 32 * i <= f < 32 * i + n
      ensures !FrameBit(words, f)
    {
      BitNoSmall(f % 32);
      BitNoOrder(f % 32, b);
    }
  }

  lemma BitNoOrder(n: nat, b: bv32)
    requires b < 32 && n < b as int
    ensures n < 32 && BitNo(n) < b
  {
    FromBit(b);
    BitNoInverse(n);
  }

  lemma NothingAvailable(words: seq<bv32>)
    requires |words| == WORDS && forall i :: 0 <= i < |words| ==> words[i] == 0
    ensures FramesOf(words) == {}
  {
  }
}
