/** Single bits of a 32-bit word: setting, testing and searching. */
module Bits {

  function Mask(b: bv32): bv32
    requires b < 32
  {
    1 << b
  }

  function WithMask(w: bv32, m: bv32, v: bool): bv32 { if v then w | m else w & !m }

  function And(w: bv32, m: bv32): bv32 { w & m }

  /** `set_bit` */
  function SetBit(w: bv32, b: bv32, v: bool): bv32
    requires b < 32
  {
    WithMask(w, Mask(b), v)
  }

  /** `get_bit` */
  predicate GetBit(w: bv32, b: bv32)
    requires b < 32
  {
    And(w, Mask(b)) != 0
  }

  lemma MaskNonZero(b: bv32)
    requires b < 32
    ensures Mask(b) != 0
  {
  }

  lemma MasksApart(b: bv32, c: bv32)
    requires b < 32 && c < 32 && b != c
    ensures And(Mask(b), Mask(c)) == 0
  {
  }

  lemma SetElsewhere(w: bv32, m: bv32, n: bv32)
    requires And(m, n) == 0
    ensures And(WithMask(w, m, true), n) == And(w, n)
  {
  }

  lemma ClearElsewhere(w: bv32, m: bv32, n: bv32)
    requires And(m, n) == 0
    ensures And(WithMask(w, m, false), n) == And(w, n)
  {
  }

  lemma SetHere(w: bv32, m: bv32)
    ensures And(WithMask(w, m, true), m) == m
    ensures And(WithMask(w, m, false), m) == 0
  {
  }

  /** Setting one bit changes that bit and no other. */
  lemma SetBitReads(w: bv32, b: bv32, v: bool, c: bv32)
    requires b < 32 && c < 32
    ensures GetBit(SetBit(w, b, v), c) == if c == b then v else GetBit(w, c)
  {
    hide Mask, And, WithMask;
    if b == c {
      MaskNonZero(b);
      SetHere(w, Mask(b));
    } else if v {
      MasksApart(b, c);
      SetElsewhere(w, Mask(b), Mask(c));
    } else {
      MasksApart(b, c);
      ClearElsewhere(w, Mask(b), Mask(c));
    }
  }

  function Shifted(w: bv32, i: bv32): bv32
    requires i <= 32
  {
    w >> i
  }

  /** The low bit of the shifted word is the bit being looked at. */
  lemma ShiftedBit(num: bv32, i: bv32)
    requires i < 32
    ensures GetBit(num, i) <==> Shifted(num, i) & 1 != 0
  {
  }

  lemma ShiftStep(num: bv32, i: bv32)
    requires i < 32
    ensures Shifted(num, i) >> 1 == Shifted(num, i + 1)
  {
  }

  lemma ShiftEnds(num: bv32)
    ensures Shifted(num, 0) == num && Shifted(num, 32) == 0
  {
  }

  lemma DropLowBit(w: bv32)
    requires w != 0 && w & 1 == 0
    ensures w >> 1 != 0
  {
  }

  /** `get_on_bit_idx`: the lowest set bit, found by shifting; 32 stands for the -1 of a word without bits. */
  method GetOnBitIdx(num: bv32) returns (i: bv32)
    ensures i <= 32 && (i == 32 <==> num == 0)
    ensures i < 32 ==> GetBit(num, i)
    ensures forall j: bv32 :: j < i && j < 32 ==> !GetBit(num, j)
  {
    hide Shifted, GetBit;
    ShiftEnds(num);
    i := 0;
    if num == 0 {
      NoBits();
      return 32;
    }
    var w := num;
    while i < 32
      invariant i <= 32 && w == Shifted(num, i) && w != 0
      invariant forall j: bv32 :: j < i ==> !GetBit(num, j)
      decreases 32 - i
    {
      ShiftedBit(num, i);
      if w & 1 != 0 {
        return;
      }
      DropLowBit(w);
      ShiftStep(num, i);
      w := w >> 1;
      i := i + 1;
    }
  }

  lemma NoBits()
    ensures forall j: bv32 :: j < 32 ==> !GetBit(0, j)
  {
  }
}
