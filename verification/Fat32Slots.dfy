/**
 * The 32-byte directory slots: how a long name is split into reversed 13-character slots, how a
 * directory is scanned, and the proof that scanning undoes splitting.
 */
module Fat32Slots {
  import opened Options
  import opened Sequences
  import opened Bytes

  type Slot = s: seq<u8> | |s| == 32 witness seq(32, _ => 0)

  datatype Kind = File | Directory
  datatype DirEntry = DirEntry(name: seq<u8>, kind: Kind, size: nat, cluster: nat)

  const ATTR_DIRECTORY: u8 := 0x10
  const ATTR_LONG_NAME: u8 := 0x0F
  const FREE_MARK: u8 := 0xE5
  const SPACE: u8 := 32
  const DOT: u8 := 46
  const MAX_NAME: nat := 819

  // ----- decoding one slot

  /** `cluster_idx()`: the two 16-bit halves at offsets 20 and 26. */
  function ClusterIdx(s: Slot): nat {
    LittleEndian(s, 20, 2) * 0x1_0000 + LittleEndian(s, 26, 2)
  }

  function FileSize(s: Slot): nat { LittleEndian(s, 28, 4) }

  predicate IsLongName(s: Slot) { s[11] == ATTR_LONG_NAME }

  /** Bit 6 of the ordinal byte. */
  predicate IsLast(s: Slot) { s[0] / 0x40 % 2 == 1 }

  function SlotKind(s: Slot): Kind { if s[11] == ATTR_DIRECTORY then Directory else File }

  function LowerChar(c: u8): u8 { if 65 <= c <= 90 then c + 32 else c }

  function Lower(s: seq<u8>): (r: seq<u8>)
    ensures |r| == |s|
  {
    seq(|s|, i requires 0 <= i < |s| => LowerChar(s[i]))
  }

  /** `name_lower()` of the first 11 bytes; `None` is the failed `substr` assertion on a leading space. */
  function NameLower(s: Slot): Option<seq<u8>> {
    var sp := IndexOf(s[..11], SPACE);
    if sp == 0 then None
    else
      var base := s[..if sp == 11 then 8 else sp];
      var ext := s[8..11];
      Some(Lower(if ext[0] != SPACE then base + [DOT] + ext else base))
  }

  predicate IsFake(s: Slot) {
    NameLower(s) == Some([DOT]) || NameLower(s) == Some([DOT, DOT])
  }

  /** Byte offset of the low byte of the `i`-th UTF-16 unit of a long slot. */
  function UnitAt(i: nat): nat
    requires i < 13
  {
    if i < 5 then 1 + 2 * i else if i < 11 then 14 + 2 * (i - 5) else 28 + 2 * (i - 11)
  }

  /** The characters of units `i..13`; `None` is a failed ASCII assertion, 0xFFFF units are padding. */
  function Units(s: Slot, i: nat): Option<seq<u8>>
    requires i <= 13
    decreases 13 - i
  {
    if i == 13 then Some([])
    else
      var lo, hi := s[UnitAt(i)], s[UnitAt(i) + 1];
      if lo == 0xFF && hi == 0xFF then Units(s, i + 1)
      else if lo >= 0x80 || hi != 0 then None
      else
        match Units(s, i + 1)
        case None => None
        case Some(rest) => Some([lo] + rest)
  }

  /** `get_name()`: the characters up to the first NUL. */
  function LongPart(s: Slot): Option<seq<u8>> {
    match Units(s, 0)
    case None => None
    case Some(chars) => Some(chars[..IndexOf(chars, 0)])
  }

  /** The backward walk of `create_entry_from`, from slot `j` down, for the short slot `raw`. */
  function NameBefore(slots: seq<Slot>, j: int, acc: seq<u8>, raw: Slot): Option<seq<u8>>
    requires j < |slots|
    decreases j
  {
    if j < 0 then None
    else if slots[j][11] != ATTR_LONG_NAME then NameLower(raw)
    else
      match LongPart(slots[j])
      case None => None
      case Some(part) =>
        if IsLast(slots[j]) then Some(acc + part) else NameBefore(slots, j - 1, acc + part, raw)
  }

  function EntryAt(slots: seq<Slot>, k: nat): Option<DirEntry>
    requires k < |slots|
  {
    match NameBefore(slots, k - 1, [], slots[k])
    case None => None
    case Some(name) => Some(DirEntry(name, SlotKind(slots[k]), FileSize(slots[k]), ClusterIdx(slots[k])))
  }

  // ----- scanning a directory

  /** A slot the scan steps over: long name, "." or "..", or free. */
  predicate Skipped(s: Slot) { IsLongName(s) || IsFake(s) || s[0] == FREE_MARK }

  /** A slot on which `is_fake_direcotry` fails its assertion. */
  predicate Bad(s: Slot) { !IsLongName(s) && NameLower(s).None? }

  /** `read_directory` from slot `k` on; `None` is a failed assertion. */
  function Scan(slots: seq<Slot>, k: nat): Option<seq<DirEntry>>
    requires k <= |slots|
    decreases |slots| - k
  {
    if k == |slots| then None
    else if slots[k][0] == 0 then Some([])
    else if Bad(slots[k]) then None
    else if Skipped(slots[k]) then Scan(slots, k + 1)
    else
      match EntryAt(slots, k)
      case None => None
      case Some(e) =>
        match Scan(slots, k + 1)
        case None => None
        case Some(es) => Some([e] + es)
  }

  // ----- writing a new entry

  /** Number of long slots a name takes. */
  function LongSlots(name: seq<u8>): nat { (|name| + 12) / 13 }

  /** Character `i` of part `part` of the name, zero past its end. */
  function CharOf(name: seq<u8>, part: nat, i: nat): u8 {
    if 13 * part + i < |name| then name[13 * part + i] else 0
  }

  /** The byte at offset `o` of the long slot for part `part` of `name` (of `n` parts). */
  function LongByte(name: seq<u8>, n: nat, part: nat, o: nat): u8
    requires part < n && o < 32
  {
    if o == 0 then Ordinal(n, part)
    else if o <= 10 then (if o % 2 == 1 then CharOf(name, part, (o - 1) / 2) else 0)
    else if o == 11 then ATTR_LONG_NAME
    else if o <= 13 then 0
    else if o <= 25 then (if o % 2 == 0 then CharOf(name, part, 5 + (o - 14) / 2) else 0)
    else if o <= 27 then 0
    else if o % 2 == 0 then CharOf(name, part, 11 + (o - 28) / 2) else 0
  }

  /** The code's own ordinals: descending from the part next to the short slot, bit 6 on the last part. */
  function Ordinal(n: nat, part: nat): u8
    requires part < n
  {
    var ord := (n - part) % 0x100;
    if part == n - 1 then SetBit6(ord) else ord
  }

  function SetBit6(x: u8): u8 { if x / 0x40 % 2 == 1 then x else x + 0x40 }

  function LongSlot(name: seq<u8>, n: nat, part: nat): Slot
    requires part < n
  {
    seq(32, o requires 0 <= o < 32 => LongByte(name, n, part, o))
  }

  /** The short slot: 11 name bytes, attribute, start cluster halves, size zero. */
  function ShortSlot(name: seq<u8>, kind: Kind, cluster: nat): Slot
    requires cluster < TWO_32
  {
    var lo, hi := cluster % 0x1_0000, cluster / 0x1_0000;
    seq(32, o requires 0 <= o < 32 =>
      if o < 11 then (if o < |name| then name[o] else 0)
      else if o == 11 then (if kind.Directory? then ATTR_DIRECTORY else 0)
      else if o == 20 then hi % 0x100 else if o == 21 then hi / 0x100
      else if o == 26 then lo % 0x100 else if o == 27 then lo / 0x100
      else 0)
  }

  /** All slots of a new entry in disk order: last part first, short slot at the end. */
  function NewSlots(name: seq<u8>, kind: Kind, cluster: nat): (r: seq<Slot>)
    requires cluster < TWO_32
    ensures |r| == LongSlots(name) + 1
  {
    var n := LongSlots(name);
    seq(n, i requires 0 <= i < n => LongSlot(name, n, n - 1 - i)) + [ShortSlot(name, kind, cluster)]
  }

  // ----- reading back one long slot

  /** NUL-free 7-bit text. */
  predicate Ascii(name: seq<u8>) {
    forall i :: 0 <= i < |name| ==> 1 <= name[i] < 0x80
  }

  /** The thirteen characters of a part from `i` on, zero padded. */
  function Padded(name: seq<u8>, part: nat, i: nat): seq<u8>
    requires i <= 13
  {
    seq<u8>(13 - i, k requires 0 <= k < 13 - i => CharOf(name, part, i + k))
  }

  lemma LongSlotUnit(name: seq<u8>, n: nat, part: nat, i: nat)
    requires part < n && i < 13
    ensures LongSlot(name, n, part)[UnitAt(i)] == CharOf(name, part, i)
    ensures LongSlot(name, n, part)[UnitAt(i) + 1] == 0
  {
  }

  /** The ordinals mark only the last part, unless there are so many that an earlier one reaches 64. */
  lemma LongSlotFlags(name: seq<u8>, n: nat, part: nat)
    requires part < n
    ensures LongSlot(name, n, part)[11] == ATTR_LONG_NAME
    ensures n <= 63 ==> LongSlot(name, n, part)[0] != 0
    ensures n <= 63 ==> (IsLast(LongSlot(name, n, part)) <==> part == n - 1)
    ensures n - part == 64 ==> IsLast(LongSlot(name, n, part))
  {
  }

  lemma {:induction false} UnitsOfLongSlot(name: seq<u8>, n: nat, part: nat, i: nat)
    requires Ascii(name) && part < n && i <= 13
    ensures Units(LongSlot(name, n, part), i) == Some(Padded(name, part, i))
    decreases 13 - i
  {
    hide LongSlot, LongByte, UnitAt, Padded, CharOf;
    PaddedNext(name, part, i);
    if i < 13 {
      LongSlotUnit(name, n, part, i);
      UnitsOfLongSlot(name, n, part, i + 1);
    }
  }

  lemma PaddedNext(name: seq<u8>, part: nat, i: nat)
    requires Ascii(name) && i <= 13
    ensures i == 13 ==> Padded(name, part, i) == []
    ensures i < 13 ==> Padded(name, part, i) == [CharOf(name, part, i)] + Padded(name, part, i + 1) && CharOf(name, part, i) < 0x80
  {
  }

  function Min(a: nat, b: nat): nat { if a <= b then a else b }

  /** Part `part` of the name: thirteen characters, fewer in the last part. */
  function PartText(name: seq<u8>, part: nat): seq<u8>
    requires part < LongSlots(name)
  {
    name[13 * part..Min(13 * part + 13, |name|)]
  }

  lemma LongPartOfSlot(name: seq<u8>, part: nat)
    requires Ascii(name) && part < LongSlots(name)
    ensures LongPart(LongSlot(name, LongSlots(name), part)) == Some(PartText(name, part))
  {
    UnitsOfLongSlot(name, LongSlots(name), part, 0);
    var chars, len := Padded(name, part, 0), |PartText(name, part)|;
    assert chars[..len] == PartText(name, part);
    assert len < 13 ==> chars[len] == 0;
    assert forall k :: 0 <= k < len ==> chars[k] != 0;
    assert IndexOf(chars, 0) == len;
  }

  // ----- reading back the whole name

  /** The new slots sit in the directory from slot `p` on. */
  predicate Placed(slots: seq<Slot>, p: nat, name: seq<u8>, kind: Kind, cluster: nat)
    requires cluster < TWO_32
  {
    p + |NewSlots(name, kind, cluster)| <= |slots|
    && slots[p..p + |NewSlots(name, kind, cluster)|] == NewSlots(name, kind, cluster)
  }

  /** The slot `i` places before the short slot holds part `i`. */
  lemma PlacedPart(slots: seq<Slot>, p: nat, name: seq<u8>, kind: Kind, cluster: nat, i: nat)
    requires cluster < TWO_32 && Placed(slots, p, name, kind, cluster) && i < LongSlots(name)
    ensures slots[p + LongSlots(name) - 1 - i] == LongSlot(name, LongSlots(name), i)
  {
  }

  lemma PlacedShort(slots: seq<Slot>, p: nat, name: seq<u8>, kind: Kind, cluster: nat)
    requires cluster < TWO_32 && Placed(slots, p, name, kind, cluster)
    ensures slots[p + LongSlots(name)] == ShortSlot(name, kind, cluster)
  {
  }

  /** Appending part `i` to the parts before it. */
  lemma NextPart(name: seq<u8>, i: nat)
    requires i < LongSlots(name)
    ensures 13 * i <= |name|
    ensures name[..13 * i] + PartText(name, i) == name[..Min(13 * i + 13, |name|)]
    ensures i == LongSlots(name) - 1 <==> |name| <= 13 * i + 13
  {
  }

  /** One step of the backward walk over the new slots. */
  lemma WalkStep(slots: seq<Slot>, p: nat, name: seq<u8>, kind: Kind, cluster: nat, i: nat)
    requires cluster < TWO_32 && Placed(slots, p, name, kind, cluster)
    requires Ascii(name) && i < LongSlots(name)
    ensures 13 * i <= |name|
    ensures var n := LongSlots(name);
            var upto := name[..Min(13 * i + 13, |name|)];
            NameBefore(slots, p + n - 1 - i, name[..13 * i], slots[p + n])
            == if IsLast(LongSlot(name, n, i)) then Some(upto)
               else NameBefore(slots, p + n - 2 - i, upto, slots[p + n])
  {
    hide LongSlot, PartText, LongPart, Placed, NewSlots;
    PlacedPart(slots, p, name, kind, cluster, i);
    LongPartOfSlot(name, i);
    LongSlotFlags(name, LongSlots(name), i);
    NextPart(name, i);
  }

  /** With at most 63 parts only the last one carries bit 6, so the walk collects every part. */
  lemma {:induction false} WholeName(slots: seq<Slot>, p: nat, name: seq<u8>, kind: Kind, cluster: nat, i: nat)
    requires cluster < TWO_32 && Placed(slots, p, name, kind, cluster)
    requires Ascii(name) && i < LongSlots(name) <= 63
    ensures 13 * i <= |name|
    ensures var n := LongSlots(name);
            NameBefore(slots, p + n - 1 - i, name[..13 * i], slots[p + n]) == Some(name)
    decreases LongSlots(name) - i
  {
    hide LongSlot, NameBefore, Placed, NewSlots;
    WalkStep(slots, p, name, kind, cluster, i);
    LongSlotFlags(name, LongSlots(name), i);
    NextPart(name, i);
    if i == LongSlots(name) - 1 {
      assert name[..|name|] == name;
    } else {
      WholeName(slots, p, name, kind, cluster, i + 1);
    }
  }

  /** With 64 parts or more the ordinal 64 ends the walk early, so the name comes back truncated. */
  lemma {:induction false} TruncatedName(slots: seq<Slot>, p: nat, name: seq<u8>, kind: Kind, cluster: nat, i: nat)
    requires cluster < TWO_32 && Placed(slots, p, name, kind, cluster)
    requires Ascii(name) && i + 64 <= LongSlots(name)
    ensures 13 * i <= |name|
    ensures var n := LongSlots(name);
            NameBefore(slots, p + n - 1 - i, name[..13 * i], slots[p + n]) != Some(name)
    decreases LongSlots(name) - i
  {
    hide LongSlot, NameBefore, Placed, NewSlots;
    WalkStep(slots, p, name, kind, cluster, i);
    LongSlotFlags(name, LongSlots(name), i);
    NextPart(name, i);
    if !IsLast(LongSlot(name, LongSlots(name), i)) {
      TruncatedName(slots, p, name, kind, cluster, i + 1);
    }
  }

  // ----- the short slot

  /** Leading bytes of the short slot that make the scan drop or choke on it. */
  predicate FakeName(name: seq<u8>) {
    IsFake(ShortSlot(name, File, 0))
  }

  lemma ShortSlotFields(name: seq<u8>, kind: Kind, cluster: nat)
    requires cluster < TWO_32 && Ascii(name) && name != []
    ensures var s := ShortSlot(name, kind, cluster);
            && s[0] == name[0] && !IsLongName(s) && SlotKind(s) == kind
            && FileSize(s) == 0 && ClusterIdx(s) == cluster
            && (NameLower(s).None? <==> name[0] == SPACE)
            && (IsFake(s) <==> FakeName(name))
  {
    var s, t := ShortSlot(name, kind, cluster), ShortSlot(name, File, 0);
    assert s[..11] == t[..11];
    assert s[8..11] == t[8..11];
    assert forall k :: 0 <= k <= 11 ==> s[..k] == t[..k];
    assert LittleEndian(s, 27, 1) == s[27] && LittleEndian(s, 21, 1) == s[21];
    assert LittleEndian(s, 31, 1) == 0 && LittleEndian(s, 30, 2) == 0 && LittleEndian(s, 29, 3) == 0;
  }

  /** A name without spaces is never mistaken for "." or "..": its padded form has twelve characters. */
  lemma NoSpaceNotFake(name: seq<u8>)
    requires Ascii(name) && name != [] && SPACE !in name
    ensures !FakeName(name)
  {
  }

  // ----- the scan and the new entry

  /** Entries decoded before slot `p` only depend on the slots before it. */
  lemma {:induction false} NameBeforePrefix(a: seq<Slot>, b: seq<Slot>, p: nat, j: int, acc: seq<u8>, raw: Slot)
    requires j < p <= |a| && p <= |b| && a[..p] == b[..p]
    ensures NameBefore(a, j, acc, raw) == NameBefore(b, j, acc, raw)
    decreases j
  {
    if j >= 0 {
      assert a[j] == a[..p][j] && b[j] == b[..p][j];
      match LongPart(a[j]) {
        case None =>
        case Some(part) => NameBeforePrefix(a, b, p, j - 1, acc + part, raw);
      }
    }
  }

  lemma EntryAtPrefix(a: seq<Slot>, b: seq<Slot>, p: nat, k: nat)
    requires k < p <= |a| && p <= |b| && a[..p] == b[..p]
    ensures a[k] == b[k] && EntryAt(a, k) == EntryAt(b, k)
  {
    hide NameBefore;
    assert a[k] == a[..p][k] && b[k] == b[..p][k];
    NameBeforePrefix(a, b, p, k - 1, [], a[k]);
  }

  /** No slot before `p` ends the directory. */
  predicate LiveBefore(slots: seq<Slot>, p: nat)
    requires p <= |slots|
  {
    forall k :: 0 <= k < p ==> slots[k][0] != 0
  }

  function Concat(a: Option<seq<DirEntry>>, b: Option<seq<DirEntry>>): Option<seq<DirEntry>> {
    if a.None? || b.None? then None else Some(a.value + b.value)
  }

  /** Two directories that agree up to slot `p`, where the first ends: the second adds what follows `p`. */
  lemma {:induction false} ScanExtends(a: seq<Slot>, b: seq<Slot>, p: nat, k: nat)
    requires k <= p < |a| && p < |b| && a[..p] == b[..p]
    requires LiveBefore(a, p) && a[p][0] == 0
    ensures Scan(b, k) == Concat(Scan(a, k), Scan(b, p))
    decreases p - k
  {
    hide EntryAt, Bad, Skipped;
    if k == p {
      assert Scan(a, k) == Some([]);
      if Scan(b, p).Some? { assert [] + Scan(b, p).value == Scan(b, p).value; }
    } else {
      assert a[k] == a[..p][k] && b[k] == b[..p][k];
      ScanExtends(a, b, p, k + 1);
      EntryAtPrefix(a, b, p, k);
      if !Bad(a[k]) && !Skipped(a[k]) && EntryAt(a, k).Some? && Scan(a, k + 1).Some? && Scan(b, p).Some? {
        var e := EntryAt(a, k).value;
        assert ([e] + Scan(a, k + 1).value) + Scan(b, p).value == [e] + (Scan(a, k + 1).value + Scan(b, p).value);
      }
    }
  }

  /** The scan steps over the long slots in front of the new short slot, unless an ordinal byte is zero. */
  lemma {:induction false} ScanLongSlots(slots: seq<Slot>, p: nat, name: seq<u8>, kind: Kind, cluster: nat, i: nat)
    requires cluster < TWO_32 && Placed(slots, p, name, kind, cluster) && i <= LongSlots(name)
    ensures var n := LongSlots(name);
            || Scan(slots, p + i) == Scan(slots, p + n)
            || (n > 63 && Scan(slots, p + i) == Some([]))
    decreases LongSlots(name) - i
  {
    hide LongSlot, NewSlots;
    var n := LongSlots(name);
    if i < n {
      PlacedPart(slots, p, name, kind, cluster, n - 1 - i);
      LongSlotFlags(name, n, n - 1 - i);
      assert slots[p + i] == LongSlot(name, n, n - 1 - i);
      ScanLongSlots(slots, p, name, kind, cluster, i + 1);
    }
  }

  function NewEntry(name: seq<u8>, kind: Kind, cluster: nat): DirEntry {
    DirEntry(name, kind, 0, cluster)
  }

  /** Names the file system can store and read back. */
  predicate Storable(name: seq<u8>)
    requires name != []
  {
    |name| <= MAX_NAME && name[0] != SPACE && !FakeName(name)
  }

  /** What the scan finds at the new slots. */
  lemma ScanNewEntry(slots: seq<Slot>, p: nat, name: seq<u8>, kind: Kind, cluster: nat)
    requires cluster < TWO_32 && Placed(slots, p, name, kind, cluster)
    requires Ascii(name) && name != []
    requires var q := p + LongSlots(name) + 1; q < |slots| && slots[q][0] == 0
    ensures Scan(slots, p) == Some([NewEntry(name, kind, cluster)]) <==> Storable(name)
  {
    hide ShortSlot, LongSlot, Placed, NewSlots, NameBefore, NameLower, IsFake, FakeName, FileSize, ClusterIdx;
    var n := LongSlots(name);
    ShortSlotFields(name, kind, cluster);
    PlacedShort(slots, p, name, kind, cluster);
    ScanLongSlots(slots, p, name, kind, cluster, 0);
    assert Scan(slots, p + n + 1) == Some([]);
    var found := NameBefore(slots, p + n - 1, [], slots[p + n]);
    assert found == Some(name) <==> |name| <= MAX_NAME by {
      assert name[..0] == [];
      if n <= 63 {
        WholeName(slots, p, name, kind, cluster, 0);
      } else {
        TruncatedName(slots, p, name, kind, cluster, 0);
      }
    }
    assert slots[p + n][0] == name[0] != FREE_MARK;
    if name[0] != SPACE && !FakeName(name) && found.Some? {
      assert EntryAt(slots, p + n) == Some(DirEntry(found.value, kind, 0, cluster));
      var e := EntryAt(slots, p + n).value;
      assert [e] + [] == [e];
      assert Scan(slots, p + n) == Some([e]);
      assert Scan(slots, p + n).value[0].name == found.value;
    }
  }

  /**
   * Round trip at the level of slots: after writing the slots of a new entry over the end of a directory,
   * scanning returns the old entries followed by exactly the new one, if and only if the name is storable.
   */
  lemma CreateThenScan(a: seq<Slot>, b: seq<Slot>, p: nat, name: seq<u8>, kind: Kind, cluster: nat)
    requires cluster < TWO_32 && Ascii(name) && name != []
    requires p < |a| && p < |b| && a[..p] == b[..p] && LiveBefore(a, p) && a[p][0] == 0
    requires Scan(a, 0).Some?
    requires Placed(b, p, name, kind, cluster)
    requires var q := p + LongSlots(name) + 1; q < |b| && b[q][0] == 0
    ensures Scan(b, 0) == Some(Scan(a, 0).value + [NewEntry(name, kind, cluster)]) <==> Storable(name)
  {
    hide Scan, Storable, Placed, LiveBefore;
    ScanExtends(a, b, p, 0);
    ScanNewEntry(b, p, name, kind, cluster);
    var es, e := Scan(a, 0).value, NewEntry(name, kind, cluster);
    if Scan(b, p).Some? && es + Scan(b, p).value == es + [e] {
      assert Scan(b, p).value == (es + Scan(b, p).value)[|es|..];
      assert [e] == (es + [e])[|es|..];
    }
  }

  // ----- updating a file size in place

  function WithSize(s: Slot, size: nat): Slot
    requires size < TWO_32
  {
    Put32(s, 28, size)
  }

  /** A slot the scan turns into an entry. */
  predicate Regular(s: Slot) { s[0] != 0 && !Bad(s) && !Skipped(s) }

  /** Number of entries the scan produces from slots `j..k`. */
  function Rank(slots: seq<Slot>, j: nat, k: nat): nat
    requires j <= k <= |slots|
    decreases k - j
  {
    if j == k then 0 else (if Regular(slots[j]) then 1 else 0) + Rank(slots, j + 1, k)
  }

  lemma WithSizeFields(s: Slot, size: nat)
    requires size < TWO_32
    ensures var t := WithSize(s, size);
            && FileSize(t) == size && ClusterIdx(t) == ClusterIdx(s)
            && t[..28] == s[..28] && NameLower(t) == NameLower(s)
  {
  }

  lemma {:induction false} NameBeforeResize(slots: seq<Slot>, k: nat, size: nat, j: int, acc: seq<u8>, raw: Slot, raw': Slot)
    requires k < |slots| && j < |slots| && size < TWO_32 && !IsLongName(slots[k])
    requires NameLower(raw) == NameLower(raw')
    ensures NameBefore(slots, j, acc, raw) == NameBefore(slots[k := WithSize(slots[k], size)], j, acc, raw')
    decreases j
  {
    hide LongPart, NameLower;
    if j == k {
      WithSizeFields(slots[k], size);
      assert WithSize(slots[k], size)[11] == slots[k][11];
    } else if j >= 0 {
      match LongPart(slots[j]) {
        case None =>
        case Some(part) => NameBeforeResize(slots, k, size, j - 1, acc + part, raw, raw');
      }
    }
  }

  /** Rewriting the size of one regular slot changes the size of the matching entry and nothing else. */
  lemma {:induction false} ScanResize(slots: seq<Slot>, k: nat, size: nat, j: nat)
    requires k < |slots| && j <= |slots| && size < TWO_32
    requires Regular(slots[k]) && LiveBefore(slots, k)
    requires Scan(slots, j).Some?
    ensures var es, r := Scan(slots, j).value, Scan(slots[k := WithSize(slots[k], size)], j);
            if j > k then r == Some(es)
            else var i := Rank(slots, j, k); i < |es| && es[i].cluster == ClusterIdx(slots[k]) && r == Some(es[i := es[i].(size := size)])
    decreases |slots| - j
  {
    hide NameBefore, NameLower, WithSize, FileSize, ClusterIdx;
    var slots' := slots[k := WithSize(slots[k], size)];
    if j < |slots| {
      WithSizeFields(slots[k], size);
      assert slots'[k][0] == slots'[k][..28][0] && slots'[k][11] == slots'[k][..28][11];
      if slots[j][0] != 0 {
        ScanResize(slots, k, size, j + 1);
        NameBeforeResize(slots, k, size, j - 1, [], slots[j], slots'[j]);
        if Regular(slots[j]) && j <= k {
          var e, rest, i := EntryAt(slots, j).value, Scan(slots, j + 1).value, Rank(slots, j, k);
          if j == k {
            assert ([e] + rest)[0 := e.(size := size)] == [e.(size := size)] + rest;
          } else {
            var x := rest[i - 1].(size := size);
            assert ([e] + rest)[i] == rest[i - 1];
            assert ([e] + rest)[i := x] == [e] + rest[i - 1 := x];
          }
        }
      }
    }
  }
}
