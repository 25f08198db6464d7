/**
 * What directory slots mean: the text of short and long names, the fields of an entry, and which slots a scan lists,
 * each written out on the bytes of the slots.
 */
module Fat32Decoding {
  import opened Options
  import opened Sequences
  import opened Bytes
  import opened Fat32Slots

  // ----- short names

  /** `t` is `s` with the letters A to Z in lower case. */
  ghost predicate InLowerCase(s: seq<u8>, t: seq<u8>) {
    |t| == |s| && forall i :: 0 <= i < |s| ==> t[i] == if 'A' as int <= s[i] <= 'Z' as int then s[i] - 'A' as int + 'a' as int else s[i]
  }

  /** The slot's name field: the base padded with spaces to eight bytes, then the extension. */
  ghost predicate Holds83(s: Slot, base: seq<u8>, ext: seq<u8>) {
    && 1 <= |base| <= 8 && |ext| == 3 && SPACE !in base
    && s[..|base|] == base && s[8..11] == ext && forall i :: |base| <= i < 8 ==> s[i] == SPACE
  }

  /** The base, followed by a dot and the extension when it does not start with a space. */
  function Joined83(base: seq<u8>, ext: seq<u8>): seq<u8>
    requires |ext| == 3
  {
    if ext[0] == SPACE then base else base + [DOT] + ext
  }

  /** The name field has no space in front of the extension, and the extension has one behind its first byte. */
  predicate SpaceInside(base: seq<u8>, ext: seq<u8>)
    requires |ext| == 3
  {
    |base| == 8 && ext[0] != SPACE && (ext[1] == SPACE || ext[2] == SPACE)
  }

  /**
   * A short name is read in lower case, except for a full base whose shorter extension is padded: the space found is
   * then that of the extension, which is taken for part of the base and appears twice.
   */
  lemma ShortName(s: Slot, base: seq<u8>, ext: seq<u8>)
    requires Holds83(s, base, ext)
    ensures NameLower(s).Some?
    ensures InLowerCase(Joined83(base, ext), NameLower(s).value) <==> !SpaceInside(base, ext)
    ensures SpaceInside(base, ext) ==>
              InLowerCase(base + (if ext[1] == SPACE then ext[..1] else ext[..2]) + [DOT] + ext, NameLower(s).value)
  {
    var sp := IndexOf(s[..11], SPACE);
    assert forall i :: 0 <= i < |base| ==> s[i] == s[..|base|][i] == base[i];
    assert forall i :: 0 <= i < 3 ==> s[8 + i] == s[8..11][i] == ext[i];
    assert forall i :: 0 <= i < 11 ==> s[..11][i] == s[i];
    assert SPACE !in base ==> forall i :: 0 <= i < |base| ==> base[i] != SPACE;
    if |base| < 8 {
      assert s[|base|] == SPACE;
      assert sp == |base|;
    } else if ext[0] == SPACE {
      assert sp == 8;
    } else {
      assert s[..8] == base;
      assert sp == if ext[1] == SPACE then 9 else if ext[2] == SPACE then 10 else 11;
      assert s[..9] == base + ext[..1] && s[..10] == base + ext[..2];
    }
  }

  /** "ABCDEFGH.MD" comes back as "abcdefghmd.md ". */
  lemma PaddedExtension(s: Slot)
    requires Holds83(s, [65, 66, 67, 68, 69, 70, 71, 72], [77, 68, SPACE])
    ensures NameLower(s).Some?
    ensures InLowerCase([65, 66, 67, 68, 69, 70, 71, 72, 77, 68, DOT, 77, 68, SPACE], NameLower(s).value)
  {
    var base: seq<u8>, ext: seq<u8> := [65, 66, 67, 68, 69, 70, 71, 72], [77, 68, SPACE];
    ShortName(s, base, ext);
    assert base + ext[..2] + [DOT] + ext == [65, 66, 67, 68, 69, 70, 71, 72, 77, 68, DOT, 77, 68, SPACE];
  }

  /** The name fields of "." and "..". */
  predicate DotSlot(s: Slot) {
    s[0] == DOT && s[8] == SPACE && (s[1] == SPACE || (s[1] == DOT && s[2] == SPACE))
  }

  lemma FakeIsDotSlot(s: Slot)
    ensures IsFake(s) <==> DotSlot(s)
  {
    var sp := IndexOf(s[..11], SPACE);
    assert forall i :: 0 <= i < 11 ==> s[..11][i] == s[i];
    assert s[8..11][0] == s[8];
    if IsFake(s) {
      var n := NameLower(s).value;
      assert n[0] == LowerChar(s[0]);
      assert |n| == 2 ==> n[1] == LowerChar(s[1]);
    }
    if DotSlot(s) {
      assert sp == if s[1] == SPACE then 1 else 2;
      assert Lower([DOT]) == [DOT] && Lower([DOT, DOT]) == [DOT, DOT];
      assert s[..sp] == if sp == 1 then [DOT] else [DOT, DOT];
    }
  }

  lemma NamelessSlot(s: Slot)
    ensures NameLower(s).None? <==> s[0] == SPACE
  {
    assert s[..11][0] == s[0];
  }

  // ----- long names

  /** The thirteen units hold the text, then a zero unit if there is room, then zeros or the padding 0xFFFF. */
  ghost predicate HoldsText(s: Slot, t: seq<u8>) {
    && |t| <= 13 && Ascii(t)
    && forall i: nat :: i < 13 ==>
         var lo, hi := s[UnitAt(i)], s[UnitAt(i) + 1];
         if i < |t| then lo == t[i] && hi == 0
         else (lo == 0 && hi == 0) || (i > |t| && lo == 0xFF && hi == 0xFF)
  }

  /** Reading a long slot fails exactly at a character outside ASCII. */
  lemma {:induction false} UnitsReadable(s: Slot, i: nat)
    requires i <= 13
    ensures Units(s, i).Some? <==>
              forall k: nat :: i <= k < 13 ==>
                                 var lo, hi := s[UnitAt(k)], s[UnitAt(k) + 1]; (lo == 0xFF && hi == 0xFF) || (lo < 0x80 && hi == 0)
    decreases 13 - i
  {
    hide UnitAt;
    if i < 13 { UnitsReadable(s, i + 1); }
  }

  function UpToZero(u: seq<u8>): seq<u8> { u[..IndexOf(u, 0)] }

  lemma UpToZeroNext(c: u8, u: seq<u8>)
    ensures UpToZero([c] + u) == if c == 0 then [] else [c] + UpToZero(u)
  {
    assert ([c] + u)[1..] == u;
  }

  /** The characters from unit `i` on, up to the first zero unit, are the rest of the text. */
  lemma {:induction false} UnitsOfText(s: Slot, t: seq<u8>, i: nat)
    requires HoldsText(s, t) && i <= |t|
    ensures Units(s, i).Some? && UpToZero(Units(s, i).value) == t[i..]
    decreases 13 - i
  {
    hide UpToZero, Units;
    TextReadable(s, t, i);
    if i < 13 {
      UnitsNext(s, i);
      UpToZeroNext(s[UnitAt(i)], if Units(s, i + 1).Some? then Units(s, i + 1).value else []);
      if i < |t| { UnitsOfText(s, t, i + 1); }
    } else {
      UnitsEnd(s);
    }
  }

  lemma UnitsEnd(s: Slot)
    ensures Units(s, 13) == Some([]) && UpToZero([]) == []
  {
  }

  lemma UnitsNext(s: Slot, i: nat)
    requires i < 13 && Units(s, i).Some? && !(s[UnitAt(i)] == 0xFF && s[UnitAt(i) + 1] == 0xFF)
    ensures Units(s, i + 1).Some? && Units(s, i).value == [s[UnitAt(i)]] + Units(s, i + 1).value
  {
  }

  lemma TextReadable(s: Slot, t: seq<u8>, i: nat)
    requires HoldsText(s, t) && i <= 13
    ensures Units(s, i).Some?
  {
    hide UnitAt, Units;
    UnitsReadable(s, i);
  }

  lemma LongText(s: Slot, t: seq<u8>)
    requires HoldsText(s, t)
    ensures LongPart(s) == Some(t)
  {
    hide HoldsText, Units;
    UnitsOfText(s, t, 0);
    assert t[0..] == t;
  }

  /** The slots before slot `k` hold the parts of a long name, the first part nearest, the last one marked as last. */
  ghost predicate LongRun(slots: seq<Slot>, k: nat, parts: seq<seq<u8>>)
    requires k < |slots|
  {
    && 1 <= |parts| <= k
    && forall i :: 0 <= i < |parts| ==>
         var s := slots[k - 1 - i]; s[11] == 0x0F && HoldsText(s, parts[i]) && (s[0] / 64 % 2 == 1 <==> i == |parts| - 1)
  }

  function Whole(parts: seq<seq<u8>>): seq<u8> {
    if parts == [] then [] else parts[0] + Whole(parts[1..])
  }

  lemma WholeFrom(parts: seq<seq<u8>>, i: nat)
    requires i < |parts|
    ensures Whole(parts[i..]) == parts[i] + Whole(parts[i + 1..])
    ensures Whole(parts[|parts|..]) == []
  {
    assert parts[i..][1..] == parts[i + 1..];
  }

  /** One step of the backward walk. */
  lemma RunStep(slots: seq<Slot>, k: nat, parts: seq<seq<u8>>, i: nat, acc: seq<u8>)
    requires k < |slots| && LongRun(slots, k, parts) && i < |parts|
    ensures NameBefore(slots, k - 1 - i, acc, slots[k])
            == if i == |parts| - 1 then Some(acc + parts[i]) else NameBefore(slots, k - 2 - i, acc + parts[i], slots[k])
  {
    hide HoldsText, LongPart;
    LongText(slots[k - 1 - i], parts[i]);
  }

  lemma {:induction false} WalkRun(slots: seq<Slot>, k: nat, parts: seq<seq<u8>>, i: nat, acc: seq<u8>)
    requires k < |slots| && LongRun(slots, k, parts) && i < |parts|
    ensures NameBefore(slots, k - 1 - i, acc, slots[k]) == Some(acc + Whole(parts[i..]))
    decreases |parts| - i
  {
    hide NameBefore, LongRun, Whole;
    RunStep(slots, k, parts, i, acc);
    WholeFrom(parts, i);
    if i < |parts| - 1 {
      WalkRun(slots, k, parts, i + 1, acc + parts[i]);
      assert acc + parts[i] + Whole(parts[i + 1..]) == acc + (parts[i] + Whole(parts[i + 1..]));
    } else {
      assert parts[i] + [] == parts[i];
    }
  }

  // ----- the entry of a slot

  /** The number in four bytes, least significant first. */
  function Number(b0: int, b1: int, b2: int, b3: int): int { b0 + 0x100 * b1 + 0x1_0000 * b2 + 0x100_0000 * b3 }

  /** The fields of an entry on the bytes of its slot. */
  lemma EntryFields(slots: seq<Slot>, k: nat)
    requires k < |slots| && EntryAt(slots, k).Some?
    ensures var s, e := slots[k], EntryAt(slots, k).value;
            && (e.kind == Directory <==> s[11] == 0x10)
            && e.size == Number(s[28], s[29], s[30], s[31])
            && e.cluster == Number(s[26], s[27], s[20], s[21])
  {
    hide NameBefore;
    var s := slots[k];
    assert LittleEndian(s, 31, 1) == s[31] && LittleEndian(s, 27, 1) == s[27] && LittleEndian(s, 21, 1) == s[21];
    assert LittleEndian(s, 29, 3) == Number(s[29], s[30], s[31], 0);
  }

  /** A slot behind a slot of another entry has the short name, the first slot of a directory none. */
  lemma ShortEntry(slots: seq<Slot>, k: nat, base: seq<u8>, ext: seq<u8>)
    requires k < |slots| && Holds83(slots[k], base, ext) && (k > 0 ==> slots[k - 1][11] != 0x0F)
    ensures EntryAt(slots, k).Some? <==> k > 0
    ensures k > 0 && !SpaceInside(base, ext) ==> InLowerCase(Joined83(base, ext), EntryAt(slots, k).value.name)
  {
    hide NameLower, InLowerCase, Holds83;
    ShortName(slots[k], base, ext);
  }

  /** A slot behind the slots of a long name has that name, whoever wrote it. */
  lemma LongEntry(slots: seq<Slot>, k: nat, parts: seq<seq<u8>>)
    requires k < |slots| && LongRun(slots, k, parts)
    ensures EntryAt(slots, k).Some? && EntryAt(slots, k).value.name == Whole(parts)
  {
    hide NameBefore;
    assert parts[0..] == parts && [] + Whole(parts) == Whole(parts);
    WalkRun(slots, k, parts, 0, []);
  }

  // ----- which slots a scan lists

  /** A slot with an entry of its own: no part of a long name, not free, not "." or "..". */
  predicate Live(s: Slot) {
    s[11] != 0x0F && s[0] != 0xE5 && !DotSlot(s)
  }

  /** The places of the live slots from `k` up to `end`. */
  function LivePlaces(slots: seq<Slot>, k: nat, end: nat): (r: seq<nat>)
    requires k <= end <= |slots|
    ensures forall j :: j in r <==> k <= j < end && Live(slots[j])
    ensures forall i, j :: 0 <= i < j < |r| ==> r[i] < r[j]
    decreases end - k
  {
    if k == end then []
    else if Live(slots[k]) then
      var rest := LivePlaces(slots, k + 1, end);
      assert forall j :: 0 <= j < |rest| ==> rest[j] in rest;
      [k] + rest
    else LivePlaces(slots, k + 1, end)
  }

  /** `end` is the first slot from `k` on that starts with a zero byte. */
  predicate EndsAt(slots: seq<Slot>, k: nat, end: nat) {
    k <= end < |slots| && slots[end][0] == 0 && forall j :: k <= j < end ==> slots[j][0] != 0
  }

  /** The slot passes the scan's assertions. */
  predicate Sound(slots: seq<Slot>, j: nat)
    requires j < |slots|
  {
    && (slots[j][11] != 0x0F ==> slots[j][0] != SPACE)
    && (Live(slots[j]) ==> EntryAt(slots, j).Some?)
  }

  lemma SoundLive(slots: seq<Slot>, k: nat)
    requires k < |slots| && Sound(slots, k) && Live(slots[k])
    ensures EntryAt(slots, k).Some?
  {
  }

  lemma NoEntries(slots: seq<Slot>)
    ensures Entries(slots, [], [])
  {
  }

  lemma ScanEnd(slots: seq<Slot>, k: nat)
    requires k < |slots| && slots[k][0] == 0
    ensures Scan(slots, k) == Some([])
  {
  }

  /** One slot of the scan. */
  lemma ScanStep(slots: seq<Slot>, k: nat)
    requires k < |slots| && slots[k][0] != 0
    ensures var rest := Scan(slots, k + 1);
            Scan(slots, k) == if !Sound(slots, k) || rest.None? then None
                              else if Live(slots[k]) then Some([EntryAt(slots, k).value] + rest.value) else rest
  {
    hide EntryAt, DotSlot, IsFake, NameLower;
    FakeIsDotSlot(slots[k]);
    NamelessSlot(slots[k]);
  }

  /** The entries are those of the slots at these places. */
  ghost predicate Entries(slots: seq<Slot>, at: seq<nat>, es: seq<DirEntry>) {
    |es| == |at| && forall i :: 0 <= i < |es| ==> at[i] < |slots| && EntryAt(slots, at[i]) == Some(es[i])
  }

  lemma EntriesNext(slots: seq<Slot>, k: nat, at: seq<nat>, es: seq<DirEntry>)
    requires k < |slots| && EntryAt(slots, k).Some? && Entries(slots, at, es)
    ensures Entries(slots, [k] + at, [EntryAt(slots, k).value] + es)
  {
    hide EntryAt;
  }

  /** The scan lists exactly the live slots before the end mark, in their order. */
  lemma {:induction false} ScanLists(slots: seq<Slot>, k: nat, end: nat)
    requires EndsAt(slots, k, end)
    ensures Scan(slots, k).Some? <==> forall j :: k <= j < end ==> Sound(slots, j)
    ensures Scan(slots, k).Some? ==> Entries(slots, LivePlaces(slots, k, end), Scan(slots, k).value)
    decreases end - k
  {
    hide EntryAt, Sound, Live, Scan, Entries;
    if k < end {
      ScanStep(slots, k);
      ScanLists(slots, k + 1, end);
      if Scan(slots, k).Some? && Live(slots[k]) {
        assert EntryAt(slots, k).Some? by { SoundLive(slots, k); }
        EntriesNext(slots, k, LivePlaces(slots, k + 1, end), Scan(slots, k + 1).value);
      }
    } else {
      NoEntries(slots);
      ScanEnd(slots, k);
    }
  }

  /** Without an end mark the scan fails. */
  lemma {:induction false} NoEndFails(slots: seq<Slot>, k: nat)
    requires k <= |slots| && forall j :: k <= j < |slots| ==> slots[j][0] != 0
    ensures Scan(slots, k) == None
    decreases |slots| - k
  {
    hide EntryAt, Bad, Skipped;
    if k < |slots| { NoEndFails(slots, k + 1); }
  }
}
