/** Page-table words and addresses: include/asm/pgtable.h.

A page-table entry is a 64-bit word. `PTE_ADDR_MASK` and `PTE_FLAGS_MASK` cut it into 40
address bits (a frame number) and 24 flag bits. The rest of the project works on that
decoded form, `Word`; this module proves that decoding loses nothing and that each
mask-and-or expression of the source is the field operation used in its place. */
module Pgtable {
  import opened Bytes

  const PTE_PRESENT: bv64 := 0x1
  const PTE_WRITABLE: bv64 := 0x2
  const PTE_USER: bv64 := 0x4
  const PTE_HUGE: bv64 := 0x80
  const PTE_FLAGS_MASK: bv64 := 0xFFF0_0000_0000_0FFF
  const PTE_ADDR_MASK: bv64 := 0x000F_FFFF_FFFF_F000

  // Physical addresses have 52 bits, so there are 2^40 frames of 4096 bytes.
  const FRAMES: nat := 0x100_0000_0000

  // `rest` holds PWT..DIRTY (bits 3-6), GLOBAL..bit 11 (bits 8-11) and bits 52-63.
  datatype Flags = Flags(present: bool, writable: bool, user: bool, huge: bool, rest: bv20)

  datatype RawWord = Word(frame: nat, flags: Flags)
  type Word = w: RawWord | w.frame < FRAMES witness Word(0, NO_FLAGS)

  const NO_FLAGS := Flags(false, false, false, false, 0)
  const ZERO: Word := Word(0, NO_FLAGS)

  // A page is 512 words; physical memory is every page below 2^52.
  type Page = p: seq<Word> | |p| == 512 witness seq(512, _ => ZERO)
  type Ram = r: seq<Page> | |r| == FRAMES witness seq<Page>(FRAMES, _ => ZeroPage())

  function ZeroPage(): (p: Page)
    ensures forall i :: 0 <= i < 512 ==> p[i] == ZERO
  {
    seq(512, _ => ZERO)
  }

  // ---- the 64-bit form

  datatype Fields = Fields(frame: bv40, flags: Flags)

  function Bit(b: bool): bv64 { if b then 1 else 0 }

  function FlagBits(f: Flags): bv64 {
    Bit(f.present) | (Bit(f.writable) << 1) | (Bit(f.user) << 2) | (Bit(f.huge) << 7)
    | (((f.rest as bv64) & 0xF) << 3) | ((((f.rest as bv64) >> 4) & 0xF) << 8)
    | (((f.rest as bv64) >> 8) << 52)
  }

  function FlagsOf(b: bv64): Flags {
    Flags(b & PTE_PRESENT != 0, b & PTE_WRITABLE != 0, b & PTE_USER != 0, b & PTE_HUGE != 0,
          (((b >> 3) & 0xF) | (((b >> 8) & 0xF) << 4) | ((b >> 52) << 8)) as bv20)
  }

  function Join(f: Fields): bv64 {
    ((f.frame as bv64) << 12) | FlagBits(f.flags)
  }

  function AddressField(b: bv64): bv40 { ((b & PTE_ADDR_MASK) >> 12) as bv40 }

  function Split(b: bv64): Fields { Fields(AddressField(b), FlagsOf(b)) }

  lemma JoinSplitParts(b: bv64)
    ensures ((((b & PTE_ADDR_MASK) >> 12) as bv40 as bv64) << 12) == b & PTE_ADDR_MASK
    ensures (b & PTE_ADDR_MASK) | (b & PTE_FLAGS_MASK) == b
  {
  }

  // The flags are the bits that the processor looks at: section 4.5 of volume 3A of the Intel SDM.
  lemma HardwareBits(b: bv64)
    ensures FlagsOf(b).present <==> b & 0x1 != 0
    ensures FlagsOf(b).writable <==> b & 0x2 != 0
    ensures FlagsOf(b).user <==> b & 0x4 != 0
    ensures FlagsOf(b).huge <==> b & 0x80 != 0
    ensures FlagsOf(b).rest & 0x2 != 0 <==> b & 0x10 != 0
    ensures FlagsOf(b).rest & 0x8_0000 != 0 <==> b & 0x8000_0000_0000_0000 != 0
  {
  }

  lemma FlagsMasked(b: bv64)
    ensures FlagBits(FlagsOf(b)) == b & PTE_FLAGS_MASK
  {
  }

  lemma FlagsRoundTrip(f: Flags)
    ensures FlagsOf(FlagBits(f)) == f
    ensures FlagBits(f) & PTE_ADDR_MASK == 0
  {
  }

  lemma AddressRoundTrip(a: bv40, x: bv64)
    requires x & PTE_ADDR_MASK == 0
    ensures ((((a as bv64) << 12) | x) & PTE_ADDR_MASK) >> 12 == a as bv64
    ensures FlagsOf(((a as bv64) << 12) | x) == FlagsOf(x)
  {
  }

  // The two masks cut the word without loss, and every combination of fields is a word.
  lemma SplitJoin(b: bv64, f: Fields)
    ensures Join(Split(b)) == b
    ensures Split(Join(f)) == f
  {
    JoinSplitParts(b);
    FlagsMasked(b);
    FlagsRoundTrip(f.flags);
    AddressRoundTrip(f.frame, FlagBits(f.flags));
  }

  // The 40 address bits as five bytes, lowest first.
  function FrameBytes(f: bv40): (s: seq<bv8>)
    ensures |s| == 5
  {
    [(f & 0xFF) as bv8, ((f >> 8) & 0xFF) as bv8, ((f >> 16) & 0xFF) as bv8, ((f >> 24) & 0xFF) as bv8,
     ((f >> 32) & 0xFF) as bv8]
  }

  function FrameBits(s: seq<bv8>): bv40
    requires |s| == 5
  {
    (s[0] as bv40) | (s[1] as bv40 << 8) | (s[2] as bv40 << 16) | (s[3] as bv40 << 24) | (s[4] as bv40 << 32)
  }

  lemma FrameBitsBack(f: bv40, a: bv8, b: bv8, c: bv8, d: bv8, e: bv8)
    ensures FrameBits(FrameBytes(f)) == f
    ensures FrameBytes(FrameBits([a, b, c, d, e])) == [a, b, c, d, e]
  {
  }

  lemma FrameLimit()
    ensures Limit(5) == FRAMES
  {
  }

  function FrameNumber(frame: bv40): (n: nat)
    ensures n < FRAMES
  {
    NumberBelow(Numbers(FrameBytes(frame)));
    FrameLimit();
    LittleEndian(Numbers(FrameBytes(frame)))
  }

  function WithFrame(frame: nat, flags: Flags): Word
    requires frame < FRAMES
  {
    Word(frame, flags)
  }

  // The decoded form: the frame number read as a natural number.
  function Decode(f: Fields): Word {
    WithFrame(FrameNumber(f.frame), f.flags)
  }

  function Encode(w: Word): Fields {
    Fields(FrameBits(Octets(Digits(w.frame, 5))), w.flags)
  }

  lemma NumberOfBits(n: nat)
    requires n < FRAMES
    ensures FrameNumber(FrameBits(Octets(Digits(n, 5)))) == n
  {
    var s := Octets(Digits(n, 5));
    assert s == [s[0], s[1], s[2], s[3], s[4]];
    FrameBitsBack(0, s[0], s[1], s[2], s[3], s[4]);
    NumbersBack(Digits(n, 5));
    FrameLimit();
    DigitsBack(n, 5);
  }

  lemma ZeroFrame()
    ensures FrameBits(Octets(Digits(0, 5))) == 0
  {
    ZeroNumber();
    BitsOfNumber(0);
  }

  lemma ZeroNumber()
    ensures FrameNumber(0) == 0
  {
    assert FrameBytes(0) == [0, 0, 0, 0, 0];
    assert Numbers([0, 0, 0, 0, 0]) == [0, 0, 0, 0, 0];
    ZeroBytes();
  }

  lemma ZeroBytes()
    ensures LittleEndian([0, 0, 0, 0, 0]) == 0
  {
    var s: seq<Byte> := [0, 0, 0, 0, 0];
    assert s[1..] == [0, 0, 0, 0] && s[1..][1..] == [0, 0, 0] && s[1..][1..][1..] == [0, 0];
  }

  lemma BitsOfNumber(f: bv40)
    ensures FrameBits(Octets(Digits(FrameNumber(f), 5))) == f
  {
    NumberBack(Numbers(FrameBytes(f)));
    OctetsBack(FrameBytes(f));
    FrameBitsBack(f, 0, 0, 0, 0, 0);
  }

  lemma EncodeDecode(f: Fields, w: Word)
    ensures Encode(Decode(f)) == f
    ensures Decode(Encode(w)) == w
  {
    BitsOfNumber(f.frame);
    NumberOfBits(w.frame);
  }

  // The entry that a 64-bit word stands for, and the frame that an address lies in.
  function Entry(b: bv64): Word { Decode(Split(b)) }

  function FrameOf(phys: bv64): nat { FrameNumber(Split(phys).frame) }

  function OrUserFlags(f: Flags, user: bool): Flags { f.(user := f.user || user) }

  function TableFlags(user: bool): Flags { Flags(true, true, user, false, 0) }

  // `*pgd |= user_flag`
  function OrUser(w: Word, user: bool): Word {
    w.(flags := OrUserFlags(w.flags, user))
  }

  // `(new_table & PTE_ADDR_MASK) | PTE_PRESENT | PTE_WRITABLE | user_flag`
  function TableWord(frame: nat, user: bool): Word
    requires frame < FRAMES
  {
    Word(frame, TableFlags(user))
  }

  // `(phys & PTE_ADDR_MASK) | flags | PTE_PRESENT`
  function LeafWord(frame: nat, flags: Flags): Word
    requires frame < FRAMES
  {
    Word(frame, flags.(present := true))
  }

  // `new_phys | (old & PTE_FLAGS_MASK)`
  function Retarget(word: Word, frame: nat): Word
    requires frame < FRAMES
  {
    word.(frame := frame)
  }

  // ---- the expressions of arch/mm/init.c

  function UserFlag(user: bool): bv64 { if user then PTE_USER else 0 }

  lemma OrUserBits(b: bv64)
    ensures FlagsOf(b | PTE_USER) == OrUserFlags(FlagsOf(b), true)
    ensures (b | PTE_USER) & PTE_ADDR_MASK == b & PTE_ADDR_MASK
  {
  }

  lemma SameFrame(x: bv64, b: bv64)
    requires x & PTE_ADDR_MASK == b & PTE_ADDR_MASK
    ensures AddressField(x) == AddressField(b)
  {
    FieldSame(x, b);
  }

  lemma FieldSame(x: bv64, b: bv64)
    requires x & PTE_ADDR_MASK == b & PTE_ADDR_MASK
    ensures ((x & PTE_ADDR_MASK) >> 12) as bv40 == ((b & PTE_ADDR_MASK) >> 12) as bv40
  {
  }

  lemma EntryParts(x: bv64, f: Fields)
    requires f == Split(x)
    ensures Entry(x) == WithFrame(FrameNumber(f.frame), f.flags)
  {
  }

  // A word with the address bits of one word and known flags.
  lemma EntryFrom(x: bv64, b: bv64, flags: Flags)
    requires x & PTE_ADDR_MASK == b & PTE_ADDR_MASK && FlagsOf(x) == flags
    ensures Entry(x) == WithFrame(FrameOf(b), flags)
  {
    SameFrame(x, b);
    EntryParts(x, Split(x));
  }

  lemma OrUserParts(b: bv64, user: bool)
    ensures OrUser(Entry(b), user) == WithFrame(FrameOf(b), OrUserFlags(FlagsOf(b), user))
  {
    EntryParts(b, Split(b));
  }

  lemma UserSet(b: bv64)
    ensures Entry(b | PTE_USER) == OrUser(Entry(b), true)
  {
    OrUserBits(b);
    EntryFrom(b | PTE_USER, b, OrUserFlags(FlagsOf(b), true));
    OrUserParts(b, true);
  }

  // `word |= user_flag`, for both values of user_flag: sets the user flag, when asked, and
  // touches nothing else.
  lemma OrUserEntry(b: bv64)
    ensures Entry(b | PTE_USER) == OrUser(Entry(b), true)
    ensures Entry(b | 0) == OrUser(Entry(b), false)
  {
    UserSet(b);
    assert b | 0 == b;
    OrUserParts(b, false);
  }

  // An address or-ed with flag bits has that address and those flags.
  lemma AddressOrFlags(phys: bv64, flags: bv64)
    requires flags & PTE_ADDR_MASK == 0
    ensures FlagsOf((phys & PTE_ADDR_MASK) | flags) == FlagsOf(flags)
    ensures ((phys & PTE_ADDR_MASK) | flags) & PTE_ADDR_MASK == phys & PTE_ADDR_MASK
  {
  }

  lemma BuiltEntry(phys: bv64, flags: bv64)
    requires flags & PTE_ADDR_MASK == 0
    ensures Entry((phys & PTE_ADDR_MASK) | flags) == WithFrame(FrameOf(phys), FlagsOf(flags))
  {
    AddressOrFlags(phys, flags);
    EntryFrom((phys & PTE_ADDR_MASK) | flags, phys, FlagsOf(flags));
  }

  lemma TableBits()
    ensures FlagsOf(PTE_PRESENT | PTE_WRITABLE | UserFlag(false)) == TableFlags(false)
    ensures FlagsOf(PTE_PRESENT | PTE_WRITABLE | UserFlag(true)) == TableFlags(true)
  {
  }

  // Lines 33, 41 and 49: the entry for a new table.
  lemma TableEntry(phys: bv64, user: bool)
    ensures Entry((phys & PTE_ADDR_MASK) | PTE_PRESENT | PTE_WRITABLE | UserFlag(user)) ==
      TableWord(FrameOf(phys), user)
  {
    TableBits();
    var flags := PTE_PRESENT | PTE_WRITABLE | UserFlag(user);
    BuiltEntry(phys, flags);
    assert (phys & PTE_ADDR_MASK) | PTE_PRESENT | PTE_WRITABLE | UserFlag(user) == (phys & PTE_ADDR_MASK) | flags;
  }

  lemma LeafBits(flags: bv64)
    requires flags & PTE_ADDR_MASK == 0
    ensures FlagsOf(flags | PTE_PRESENT) == FlagsOf(flags).(present := true)
    ensures (flags | PTE_PRESENT) & PTE_ADDR_MASK == 0
  {
  }

  // Line 55: the entry for a page, whatever flags outside the address bits are asked for.
  lemma LeafEntry(phys: bv64, flags: bv64)
    requires flags & PTE_ADDR_MASK == 0
    ensures Entry((phys & PTE_ADDR_MASK) | flags | PTE_PRESENT) == LeafWord(FrameOf(phys), FlagsOf(flags))
  {
    LeafBits(flags);
    BuiltEntry(phys, flags | PTE_PRESENT);
    assert (phys & PTE_ADDR_MASK) | flags | PTE_PRESENT == (phys & PTE_ADDR_MASK) | (flags | PTE_PRESENT);
  }

  lemma KeptBits(phys: bv64, b: bv64)
    requires phys & PTE_FLAGS_MASK == 0
    ensures FlagsOf(b & PTE_FLAGS_MASK) == FlagsOf(b) && b & PTE_FLAGS_MASK & PTE_ADDR_MASK == 0
    ensures phys == phys & PTE_ADDR_MASK
  {
  }

  // Lines 96, 103, 113 and 120: an entry moved to another frame, whose address has no flag bits.
  lemma RetargetEntry(phys: bv64, b: bv64)
    requires phys & PTE_FLAGS_MASK == 0
    ensures Entry(phys | (b & PTE_FLAGS_MASK)) == Retarget(Entry(b), FrameOf(phys))
  {
    KeptBits(phys, b);
    BuiltEntry(phys, b & PTE_FLAGS_MASK);
  }

  // What alloc_page returns is the address of its frame and has no flag bits.
  lemma PageAddress(frame: bv40)
    ensures FrameOf((frame as bv64) << 12) == FrameNumber(frame)
    ensures ((frame as bv64) << 12) & PTE_FLAGS_MASK == 0
  {
  }

  // So the entry of a cloned page or table is the old one, moved to the new frame.
  lemma ClonedEntry(frame: bv40, b: bv64)
    ensures Entry(((frame as bv64) << 12) | (b & PTE_FLAGS_MASK)) == Retarget(Entry(b), FrameNumber(frame))
  {
    PageAddress(frame);
    RetargetEntry((frame as bv64) << 12, b);
  }

  // ---- virtual addresses

  function PgdIndex(va: nat): (i: nat) ensures i < 512 { (va / 0x80_0000_0000) % 512 }
  function PudIndex(va: nat): (i: nat) ensures i < 512 { (va / 0x4000_0000) % 512 }
  function PmdIndex(va: nat): (i: nat) ensures i < 512 { (va / 0x20_0000) % 512 }
  function PteIndex(va: nat): (i: nat) ensures i < 512 { (va / 0x1000) % 512 }

  // The 36-bit page number: address bits 12 to 47.
  function PageNumber(va: nat): nat { (va / 4096) % 0x10_0000_0000 }

  // The four indices together are exactly the page number.
  lemma IndicesArePageNumber(va: nat)
    ensures PageNumber(va) == ((PgdIndex(va) * 512 + PudIndex(va)) * 512 + PmdIndex(va)) * 512 + PteIndex(va)
  {
    var p := va / 4096;
    assert va / 0x20_0000 == p / 512;
    assert va / 0x4000_0000 == va / 0x20_0000 / 512;
    assert va / 0x80_0000_0000 == va / 0x4000_0000 / 512;
    DigitsBase512(p, p / 512, p / 512 / 512, p / 512 / 512 / 512);
  }

  lemma ModUnique(p: int, q: int, v: int)
    requires p == q * 0x10_0000_0000 + v && 0 <= v < 0x10_0000_0000
    ensures p % 0x10_0000_0000 == v
  {
  }

  lemma DigitsBase512(p: nat, q1: nat, q2: nat, q3: nat)
    requires q1 == p / 512 && q2 == q1 / 512 && q3 == q2 / 512
    ensures p % 0x10_0000_0000 == ((q3 % 512 * 512 + q2 % 512) * 512 + q1 % 512) * 512 + p % 512
  {
    var i1, i2, i3, i4, q4 := p % 512, q1 % 512, q2 % 512, q3 % 512, q3 / 512;
    var v := ((i4 * 512 + i3) * 512 + i2) * 512 + i1;
    assert p == q4 * 0x10_0000_0000 + v && 0 <= v < 0x10_0000_0000;
    ModUnique(p, q4, v);
  }
}
