/** Machine bytes, and the little-endian numbers stored in runs of them. */
module Bytes {

  type u8 = x: int | 0 <= x < 0x100

  const TWO_32: int := 0x1_0000_0000

  /** The number stored in the `n` bytes from `a` on, least significant byte first. */
  function LittleEndian(m: seq<u8>, a: nat, n: nat): (v: nat)
    requires a + n <= |m|
    decreases n
  {
    if n == 0 then 0
    else
      var low: int := m[a];
      low + 0x100 * LittleEndian(m, a + 1, n - 1)
  }

  /** The 32-bit word at byte address `a`. */
  function Get32(m: seq<u8>, a: nat): (v: nat)
    requires a + 4 <= |m|
    ensures v < TWO_32
  {
    assert LittleEndian(m, a + 3, 1) < 0x100;
    assert LittleEndian(m, a + 2, 2) < 0x1_0000;
    assert LittleEndian(m, a + 1, 3) < 0x100_0000;
    LittleEndian(m, a, 4)
  }

  /** The memory after storing a word at byte address `a`. */
  function Put32(m: seq<u8>, a: nat, v: nat): (m': seq<u8>)
    requires a + 4 <= |m| && v < TWO_32
    ensures |m'| == |m|
    ensures Get32(m', a) == v
    ensures forall x {:trigger m'[x]} :: 0 <= x < |m| && !(a <= x < a + 4) ==> m'[x] == m[x]
  {
    var v1 := v / 0x100;
    var v2 := v1 / 0x100;
    var v3 := v2 / 0x100;
    var m' := m[a := v % 0x100][a + 1 := v1 % 0x100][a + 2 := v2 % 0x100][a + 3 := v3];
    assert LittleEndian(m', a + 3, 1) == v3;
    assert LittleEndian(m', a + 2, 2) == v2;
    assert LittleEndian(m', a + 1, 3) == v1;
    m'
  }

  /** A number is unchanged when its bytes are. */
  lemma {:induction false} LittleEndianFrame(m: seq<u8>, m': seq<u8>, a: nat, n: nat)
    requires a + n <= |m| && a + n <= |m'|
    requires forall x :: a <= x < a + n ==> m[x] == m'[x]
    ensures LittleEndian(m', a, n) == LittleEndian(m, a, n)
    decreases n
  {
    if n > 0 {
      LittleEndianFrame(m, m', a + 1, n - 1);
    }
  }

  lemma Get32Frame(m: seq<u8>, m': seq<u8>, a: nat)
    requires a + 4 <= |m| && a + 4 <= |m'|
    requires forall x :: a <= x < a + 4 ==> m[x] == m'[x]
    ensures Get32(m', a) == Get32(m, a)
  {
  }
}
