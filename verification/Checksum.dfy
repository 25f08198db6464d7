/** The Internet checksum, and the IPv4 header that carries it. */
module Checksum {
  import opened Bytes

  type u16 = x: int | 0 <= x < 0x1_0000

  /** The 16-bit word that the loop reads at `i`: little-endian, or a last single byte moved to the high half. */
  function WordAt(data: seq<u8>, i: nat): (w: u16)
    requires i < |data|
  {
    var low: int := data[i];
    if i + 1 < |data| then var high: int := data[i + 1]; low + 0x100 * high else 0x100 * low
  }

  function Words(data: seq<u8>, i: nat): (w: seq<u16>)
    requires i <= |data|
    decreases |data| - i
  {
    if i == |data| then [] else if i + 1 == |data| then [WordAt(data, i)] else [WordAt(data, i)] + Words(data, i + 2)
  }

  /** One step of the running sum, with the carry folded back. */
  function AddFolded(sum: u16, w: u16): u16 {
    if sum + w > 0xFFFF then sum + w - 0xFFFF else sum + w
  }

  /** The running sum over all words. */
  function Folded(sum: u16, words: seq<u16>): u16
    decreases |words|
  {
    if words == [] then sum else Folded(AddFolded(sum, words[0]), words[1..])
  }

  /** The true sum. */
  function Total(words: seq<u16>): nat {
    if words == [] then 0 else words[0] + Total(words[1..])
  }

  /** The number in 1..65535 that differs from `n` by a multiple of 65535, or 0 for 0. */
  function Residue(n: nat): u16 { if n == 0 then 0 else (n - 1) % 0xFFFF + 1 }

  lemma ResidueStep(sum: u16, t: nat)
    ensures sum + t > 0 ==> Residue(sum + t) > 0
    ensures Residue(sum) == sum
  {
  }

  lemma ResidueAdd(sum: u16, w: u16, t: nat)
    ensures Residue(AddFolded(sum, w) + t) == Residue(sum + w + t)
  {
  }

  /** The running sum is the residue of the true sum: within 16 bits, congruent to it, and 0 only for 0. */
  lemma {:induction false} FoldedIsResidue(sum: u16, words: seq<u16>)
    ensures Folded(sum, words) == Residue(sum + Total(words))
    decreases |words|
  {
    hide Residue, AddFolded;
    if words == [] {
      ResidueStep(sum, 0);
    } else {
      FoldedIsResidue(AddFolded(sum, words[0]), words[1..]);
      ResidueAdd(sum, words[0], Total(words[1..]));
    }
  }

  lemma {:induction false} TotalZero(words: seq<u16>)
    ensures Total(words) == 0 <==> forall k :: 0 <= k < |words| ==> words[k] == 0
  {
    if words != [] {
      TotalZero(words[1..]);
      assert forall k :: 1 <= k < |words| ==> words[k] == words[1..][k - 1];
      assert forall k :: 0 <= k < |words| - 1 ==> words[1..][k] == words[k + 1];
    }
  }

  /** What the sum is of: congruent to the true sum modulo 65535, and 0 exactly when every word is 0. */
  lemma SumMeaning(words: seq<u16>)
    ensures (Folded(0, words) - Total(words)) % 0xFFFF == 0
    ensures Folded(0, words) == 0 <==> forall k :: 0 <= k < |words| ==> words[k] == 0
  {
    hide Folded;
    FoldedIsResidue(0, words);
    TotalZero(words);
    ResidueCongruent(Total(words));
  }

  lemma ResidueCongruent(n: nat)
    ensures (Residue(n) - n) % 0xFFFF == 0 && (Residue(n) == 0 <==> n == 0)
  {
  }

  function InternetChecksum(data: seq<u8>): u16 { 0xFFFF - Folded(0, Words(data, 0)) }

  /** `internet_checksum`; complementing 16 bits is subtracting from 0xFFFF. */
  method Compute(data: array<u8>, size: nat) returns (c: u16)
    requires size <= data.Length
    ensures c == InternetChecksum(data[..size])
  {
    hide WordAt;
    var sum: u16 := 0;
    var index := 0;
    ghost var d := data[..size];
    while index < size
      invariant 0 <= index <= size + 1 && Folded(0, Words(d, 0)) == Folded(sum, Words(d, if index < size then index else size))
    {
      ReadsWord(d, index);
      var low: int := data[index];
      var current: u16 := 0x100 * low;
      if index < size - 1 {
        var high: int := data[index + 1];
        current := low + 0x100 * high;
      }
      var s: int := sum + current;
      if s > 0xFFFF {
        s := s - 0xFFFF;
      }
      sum := s;
      index := index + 2;
    }
    c := 0xFFFF - sum;
  }

  lemma ReadsWord(d: seq<u8>, i: nat)
    requires i < |d|
    ensures WordAt(d, i) == (var low: int := d[i]; if i + 1 < |d| then var high: int := d[i + 1]; low + 0x100 * high else 0x100 * low)
    ensures forall s: u16 :: Folded(s, Words(d, i)) == Folded(AddFolded(s, WordAt(d, i)), Words(d, if i + 2 < |d| then i + 2 else |d|))
  {
  }

  // ----- storing the checksum

  /** A 16-bit field on a word boundary. */
  predicate Field(data: seq<u8>, k: nat) { k % 2 == 0 && k + 1 < |data| }

  function PutWord(data: seq<u8>, k: nat, w: u16): (r: seq<u8>)
    requires Field(data, k)
    ensures |r| == |data| && WordAt(r, k) == w
    ensures forall i :: 0 <= i < |data| && i != k && i != k + 1 ==> r[i] == data[i]
  {
    data[k := w % 0x100][k + 1 := w / 0x100]
  }

  /** Replacing a field changes the true sum by the difference of the words. */
  lemma {:induction false} TotalPut(data: seq<u8>, k: nat, w: u16, i: nat)
    requires Field(data, k) && i <= |data| && i % 2 == 0
    ensures Total(Words(PutWord(data, k, w), i)) == Total(Words(data, i)) + if i <= k then w - WordAt(data, k) else 0
    decreases |data| - i
  {
    var r := PutWord(data, k, w);
    if i + 1 < |data| {
      assert i != k ==> WordAt(r, i) == WordAt(data, i);
      TotalPut(data, k, w, i + 2);
    }
  }

  /** The checksum is 0 exactly when the true sum is a multiple of 65535 other than 0. */
  lemma ChecksumZero(data: seq<u8>)
    ensures InternetChecksum(data) == 0 <==> Total(Words(data, 0)) > 0 && Total(Words(data, 0)) % 0xFFFF == 0
  {
    hide Folded, Total;
    FoldedIsResidue(0, Words(data, 0));
  }

  lemma ChecksumIs(data: seq<u8>)
    ensures InternetChecksum(data) == 0xFFFF - Residue(Total(Words(data, 0)))
  {
    FoldedIsResidue(0, Words(data, 0));
  }

  /** The law of the checksum: stored into a field that was 0, it makes the recomputed checksum 0. */
  lemma StoredChecksumVerifies(data: seq<u8>, k: nat)
    requires Field(data, k) && WordAt(data, k) == 0
    ensures InternetChecksum(PutWord(data, k, InternetChecksum(data))) == 0
  {
    hide InternetChecksum, Total, PutWord, Residue;
    var c := InternetChecksum(data);
    TotalPut(data, k, c, 0);
    ChecksumIs(data);
    ChecksumZero(PutWord(data, k, c));
    Complement(Total(Words(data, 0)));
  }

  lemma Complement(n: nat)
    ensures n + 0xFFFF - Residue(n) > 0 && (n + 0xFFFF - Residue(n)) % 0xFFFF == 0
  {
  }

  /**
   * Any other change of one word is noticed, with one exception: all bits clear and all bits set stand for the same
   * sum. The condition is exact.
   */
  lemma OneWordChanged(data: seq<u8>, k: nat, w: u16)
    requires Field(data, k) && InternetChecksum(data) == 0
    ensures var was := WordAt(data, k);
            InternetChecksum(PutWord(data, k, w)) == 0 <==>
              w == was || (was == 0 && w == 0xFFFF) || (was == 0xFFFF && w == 0 && Total(Words(data, 0)) != 0xFFFF)
  {
    hide InternetChecksum, Total, PutWord;
    TotalPut(data, k, w, 0);
    ChecksumZero(data);
    ChecksumZero(PutWord(data, k, w));
    WordInTotal(data, k, 0);
    Differ(Total(Words(data, 0)), WordAt(data, k), w);
  }

  lemma Differ(t: nat, a: u16, b: u16)
    requires t > 0 && t % 0xFFFF == 0 && a <= t
    ensures t + b - a > 0 && (t + b - a) % 0xFFFF == 0 <==> b == a || (a == 0 && b == 0xFFFF) || (a == 0xFFFF && b == 0 && t != 0xFFFF)
  {
  }

  lemma {:induction false} WordInTotal(data: seq<u8>, k: nat, i: nat)
    requires Field(data, k) && i <= k && i % 2 == 0
    ensures WordAt(data, k) <= Total(Words(data, i))
    decreases k - i
  {
    if i < k { WordInTotal(data, k, i + 2); }
  }

  // ----- network byte order

  function Swapped(w: u16): u16 { w % 0x100 * 0x100 + w / 0x100 }

  function SwappedWords(words: seq<u16>): (r: seq<u16>)
    ensures |r| == |words|
  {
    seq(|words|, i requires 0 <= i < |words| => Swapped(words[i]))
  }

  lemma SwapIsShift(w: u16)
    ensures (256 * w - Swapped(w)) % 0xFFFF == 0
  {
  }

  lemma {:induction false} SwappedTotal(words: seq<u16>)
    ensures (256 * Total(words) - Total(SwappedWords(words))) % 0xFFFF == 0
    ensures Total(SwappedWords(words)) > 0 <==> Total(words) > 0
  {
    if words != [] {
      hide Swapped;
      SwappedTotal(words[1..]);
      SwapIsShift(words[0]);
      SwapZero(words[0]);
      assert SwappedWords(words)[1..] == SwappedWords(words[1..]);
      SumOfMultiples(256 * words[0] - Swapped(words[0]), 256 * Total(words[1..]) - Total(SwappedWords(words[1..])));
    }
  }

  lemma SwapZero(w: u16)
    ensures Swapped(w) == 0 <==> w == 0
  {
  }

  lemma SumOfMultiples(a: int, b: int)
    requires a % 0xFFFF == 0 && b % 0xFFFF == 0
    ensures (a + b) % 0xFFFF == 0
  {
  }

  /**
   * A receiver that adds the words in network byte order accepts exactly the same data as one that adds them in the
   * byte order of this machine.
   */
  lemma ByteOrderDoesNotMatter(data: seq<u8>)
    ensures InternetChecksum(data) == 0 <==> Folded(0, SwappedWords(Words(data, 0))) == 0xFFFF
  {
    hide Folded, Total, SwappedWords;
    var words := Words(data, 0);
    ChecksumZero(data);
    FoldedIsResidue(0, SwappedWords(words));
    SwappedTotal(words);
    FullResidue(Total(SwappedWords(words)));
    ShiftKeepsMultiples(Total(words), Total(SwappedWords(words)));
  }

  lemma FullResidue(n: nat)
    ensures Residue(n) == 0xFFFF <==> n > 0 && n % 0xFFFF == 0
  {
  }

  /** 256 has an inverse modulo 65535: itself. */
  lemma ShiftKeepsMultiples(t: nat, u: nat)
    requires (256 * t - u) % 0xFFFF == 0
    ensures t % 0xFFFF == 0 <==> u % 0xFFFF == 0
  {
  }
}
