/** A page directory or page table entry, and its packing into a 32-bit word. */
module TableEntry {

  const PAGES: nat := 0x10_0000

  /** A frame number and the twelve flag bits below it. */
  datatype Entry = Entry(frame: nat, flags: bv12) {
    predicate Present() { flags & 1 != 0 }
    predicate Writable() { flags & 2 != 0 }
    predicate User() { flags & 4 != 0 }
    /** Leaves the rights to the entry below it. */
    predicate Open() { Writable() && User() }
    /** For the kernel alone. */
    predicate System() { Writable() && !User() }
    function SetFrame(f: nat): Entry { this.(frame := f) }
    function SetPresent(v: bool): Entry { this.(flags := WithFlag(flags, 1, v)) }
    function SetWritable(v: bool): Entry { this.(flags := WithFlag(flags, 2, v)) }
    function SetUser(v: bool): Entry { this.(flags := WithFlag(flags, 4, v)) }
  }

  const ZERO: Entry := Entry(0, 0)

  function WithFlag(f: bv12, m: bv12, v: bool): bv12 { if v then f | m else f & !m }

  /** The four setters in a row, as every caller uses them. */
  function Filled(e: Entry, frame: nat, present: bool, writable: bool, user: bool): (r: Entry)
    ensures r.frame == frame && r.Present() == present && r.Writable() == writable && r.User() == user
  {
    FlagsIndependent(e.flags, present, writable, user);
    e.SetFrame(frame).SetPresent(present).SetWritable(writable).SetUser(user)
  }

  /** The three flags do not disturb each other. */
  lemma FlagsIndependent(f: bv12, p: bool, w: bool, u: bool)
    ensures var r := WithFlag(WithFlag(WithFlag(f, 1, p), 2, w), 4, u);
            (r & 1 != 0) == p && (r & 2 != 0) == w && (r & 4 != 0) == u
  {
  }

  // ----- the word in memory

  function AddressBits(frame: nat): bv32
    requires frame < PAGES
  {
    ((frame as bv20) as bv32) << 12
  }

  function Or(a: bv32, b: bv32): bv32 { a | b }
  function Wide(f: bv12): bv32 { f as bv32 }

  function Word(e: Entry): bv32
    requires e.frame < PAGES
  {
    Or(AddressBits(e.frame), Wide(e.flags))
  }

  /** `flags()` and `addr()` of a word. */
  function FlagBits(w: bv32): bv32 { w & 0xFFF }
  function FrameBits(w: bv32): bv32 { w & 0xFFFF_F000 }

  /** `addr()` and `flags()` take the word apart again. */
  lemma WordParts(e: Entry)
    requires e.frame < PAGES
    ensures FrameBits(Word(e)) == AddressBits(e.frame)
    ensures FlagBits(Word(e)) == Wide(e.flags)
  {
  }

  /** The bits of the word that the processor looks at (section 4.3 of the Intel SDM, volume 3A). */
  lemma WordBits(e: Entry)
    requires e.frame < PAGES
    ensures Word(e) >> 12 == (e.frame as bv20) as bv32
    ensures (Word(e) & 1 != 0) == e.Present() && (Word(e) & 2 != 0) == e.Writable() && (Word(e) & 4 != 0) == e.User()
  {
    Packed(e.frame as bv20, e.flags);
  }

  lemma Packed(f: bv20, g: bv12)
    ensures var w := Or((f as bv32) << 12, Wide(g));
            && w >> 12 == f as bv32
            && (w & 1 != 0) == (g & 1 != 0) && (w & 2 != 0) == (g & 2 != 0) && (w & 4 != 0) == (g & 4 != 0)
  {
  }

  /** `set_addr`: clearing all but the flags and or-ing an address in replaces the frame. */
  lemma SetAddrWord(e: Entry, frame: nat)
    requires e.frame < PAGES && frame < PAGES
    ensures Or(FlagBits(Word(e)), AddressBits(frame)) == Word(e.SetFrame(frame))
  {
  }

  /** `set_flags`: clearing the flags and or-ing new ones in keeps the frame. */
  lemma SetFlagsWord(e: Entry, f: bv12)
    requires e.frame < PAGES
    ensures Or(FrameBits(Word(e)), Wide(f)) == Word(e.(flags := f))
  {
  }

  // ----- which entry an address selects

  function DirectoryIndex(addr: bv32): bv32 { (addr >> 22) & 0x3FF }
  function TableIndex(addr: bv32): bv32 { (addr >> 12) & 0x3FF }
  function PageBits(addr: bv32): bv32 { addr >> 12 }

  function Join(d: bv32, t: bv32): bv32 { (d << 10) | t }

  lemma IndexParts(addr: bv32)
    ensures PageBits(addr) == Join(DirectoryIndex(addr), TableIndex(addr))
  {
  }

  lemma IndicesOfPage(addr: bv32)
    ensures DirectoryIndex(addr) == PageBits(addr) >> 10 && TableIndex(addr) == PageBits(addr) & 0x3FF
  {
  }

  /** Two addresses select the same entries of directory and table exactly when they lie on the same page. */
  lemma IndexDecidesPage(a: bv32, b: bv32)
    ensures DirectoryIndex(a) == DirectoryIndex(b) && TableIndex(a) == TableIndex(b) <==> PageBits(a) == PageBits(b)
  {
    hide DirectoryIndex, TableIndex, PageBits, Join;
    IndexParts(a);
    IndexParts(b);
    IndicesOfPage(a);
    IndicesOfPage(b);
  }
}
