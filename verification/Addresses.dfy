/** The Sv39 format in plain arithmetic: how an address splits into indices and how an entry
    packs a frame and its flags (section 4.4.1 of the RISC-V Privileged Architecture, version 20211203). */
module Sv39Format {
  import opened Bits

  const PAGE_SIZE: nat := 4096
  const ENTRIES: nat := 512

  /** Number of pages that three 9-bit indices can tell apart. */
  const VPNS: nat := 0x800_0000

  /** The number of a physical frame whose address fits a word. */
  type Frame = f: nat | f < 0x10_0000_0000_0000

  /** The nine flag bits the kernel defines. */
  type Flags = f: nat | f < 512

  const VALID: Flags := 1
  const READABLE: Flags := 2
  const WRITABLE: Flags := 4
  const EXECUTABLE: Flags := 8
  const USER: Flags := 16

  predicate IsValid(flags: nat) {
    flags % 2 == 1
  }

  predicate IsReadable(flags: nat) {
    flags / 2 % 2 == 1
  }

  predicate IsWritable(flags: nat) {
    flags / 4 % 2 == 1
  }

  predicate IsExecutable(flags: nat) {
    flags / 8 % 2 == 1
  }

  predicate IsUser(flags: nat) {
    flags / 16 % 2 == 1
  }

  function BaseAddr(f: Frame): Word {
    f * PAGE_SIZE
  }

  /** The frame that holds pa. */
  function FrameAt(pa: Word): Frame {
    pa / PAGE_SIZE
  }

  /** The index of va in a node of the given level. */
  function Index(va: Word, level: nat): (i: nat)
    requires level <= 2
    ensures i < ENTRIES
  {
    if level == 0 then va / PAGE_SIZE % 512
    else if level == 1 then va / PAGE_SIZE / 512 % 512
    else va / PAGE_SIZE / 0x4_0000 % 512
  }

  /** The page number the walk can see: the indices of all three levels. */
  function Vpn(va: Word): (v: nat)
    ensures v < VPNS
  {
    va / PAGE_SIZE % VPNS
  }

  /** A 64-bit word split at bit 10: the page number above, flags and bits 8 and 9 below. */
  datatype Pte = Pte(ppn: nat, low: nat)

  function PteOf(w: Word): Pte {
    Pte(w / 1024, w % 1024)
  }

  /** The frame an entry refers to; bits 62 and 63 of the word are lost. */
  function Target(e: Pte): Frame {
    if e.ppn < 0x10_0000_0000_0000 then e.ppn else e.ppn % 0x10_0000_0000_0000
  }

  function WithValid(flags: Flags): (r: Flags)
    ensures IsValid(r)
  {
    if IsValid(flags) then flags else flags + 1
  }

  function SetWritable(flags: Flags, writable: bool): Flags {
    if writable && !IsWritable(flags) then flags + 4
    else if !writable && IsWritable(flags) then flags - 4
    else flags
  }

  /** The positions of the bits that are set: 0 for V, 1 for R, 2 for W, 3 for X, 4 for U. */
  function FlagSet(flags: nat): set<nat> {
    set k: nat | k < 9 && Bit(flags, k)
  }

  /** Setting V sets bit 0 and keeps the other eight bits. */
  lemma ValidBits(flags: Flags, k: nat)
    requires k < 9
    ensures Bit(WithValid(flags), k) <==> k == 0 || Bit(flags, k)
  {
    if !IsValid(flags) {
      assert (flags + 1) / 2 == flags / 2;
    }
  }

  /** Setting or clearing W decides bit 2 and keeps the other eight bits. */
  lemma WritableBits(flags: Flags, writable: bool, k: nat)
    requires k < 9
    ensures Bit(SetWritable(flags, writable), k) <==> if k == 2 then writable else Bit(flags, k)
  {
    var quarter := flags / 2 / 2;
    assert quarter == flags / 4;
    BitAbove(flags, k);
    BitAbove(SetWritable(flags, writable), k);
    if SetWritable(flags, writable) == flags + 4 {
      assert (flags + 4) / 2 == flags / 2 + 2 && (flags + 4) / 2 / 2 == quarter + 1 && (quarter + 1) / 2 == quarter / 2;
    } else if SetWritable(flags, writable) == flags - 4 {
      assert (flags - 4) / 2 == flags / 2 - 2 && (flags - 4) / 2 / 2 == quarter - 1 && (quarter - 1) / 2 == quarter / 2;
    }
  }

  /** The bits from the third on are those of a quarter of the number. */
  lemma BitAbove(x: nat, k: nat)
    ensures k >= 2 ==> (Bit(x, k) <==> Bit(x / 2 / 2, k - 2))
    ensures k >= 3 ==> (Bit(x, k) <==> Bit(x / 2 / 2 / 2, k - 3))
  {
  }

  /** The tests of the flags are tests of their bits. */
  lemma FlagTests(flags: nat)
    ensures IsValid(flags) <==> Bit(flags, 0)
    ensures IsReadable(flags) <==> Bit(flags, 1)
    ensures IsWritable(flags) <==> Bit(flags, 2)
    ensures IsExecutable(flags) <==> Bit(flags, 3)
    ensures IsUser(flags) <==> Bit(flags, 4)
  {
    assert flags / 4 == flags / 2 / 2 && flags / 8 == flags / 2 / 2 / 2 && flags / 16 == flags / 2 / 2 / 2 / 2;
    BitAbove(flags, 2);
    BitAbove(flags, 3);
    assert Bit(flags, 4) == Bit(flags / 2, 3);
    BitAbove(flags / 2, 3);
  }

  /** Flags with the same nine bits are the same. */
  lemma {:induction false} SameBits(a: nat, b: nat, n: nat)
    requires a < Pow2(n) && b < Pow2(n) && forall k :: 0 <= k < n ==> (Bit(a, k) <==> Bit(b, k))
    ensures a == b
    decreases n
  {
    if n > 0 {
      assert Bit(a, 0) <==> Bit(b, 0);
      forall k | 0 <= k < n - 1
        ensures Bit(a / 2, k) <==> Bit(b / 2, k)
      {
        assert Bit(a, k + 1) <==> Bit(b, k + 1);
      }
      SameBits(a / 2, b / 2, n - 1);
    }
  }

  /** The two-megabyte region of a page, by its two upper indices: vpn >> 9. */
  datatype Region = Region(top: nat, mid: nat)

  function RegionOf(vpn: nat): Region {
    Region(vpn / 512 / 512, vpn / 512 % 512)
  }

  lemma SplitPage(n: nat)
    ensures n % VPNS == n / 0x4_0000 % 512 * 0x4_0000 + n / 512 % 512 * 512 + n % 512
    ensures n / 0x4_0000 % 512 == n % VPNS / 512 / 512
    ensures n / 512 % 512 == n % VPNS / 512 % 512
    ensures n % 512 == n % VPNS % 512
  {
    var a := n / 512;
    var b := a / 512;
    var low := b % 512 * 0x4_0000 + a % 512 * 512 + n % 512;
    ModUnique(n, 0x4_0000, b, a % 512 * 512 + n % 512);
    ModUnique(n, VPNS, b / 512, low);
    ModUnique(low, 512, b % 512 * 512 + a % 512, n % 512);
    ModUnique(b % 512 * 512 + a % 512, 512, b % 512, a % 512);
  }

  /** The three indices recombine to the page number. */
  lemma IndicesRecombine(va: Word)
    ensures Vpn(va) == Index(va, 2) * 0x4_0000 + Index(va, 1) * 512 + Index(va, 0)
    ensures RegionOf(Vpn(va)) == Region(Index(va, 2), Index(va, 1))
    ensures Index(va, 0) == Vpn(va) % 512
  {
    SplitPage(va / PAGE_SIZE);
  }

  /** Region and last index determine the page; the region stands for vpn >> 9. */
  lemma RegionIsShift(v: nat, w: nat)
    ensures RegionOf(v) == RegionOf(w) <==> v / 512 == w / 512
    ensures RegionOf(v) == RegionOf(w) && v % 512 == w % 512 <==> v == w
    ensures v < VPNS ==> RegionOf(v).top < ENTRIES && RegionOf(v).mid < ENTRIES
  {
  }
}

/** Addresses, page numbers and page-table entries, computed as the kernel computes them
    (kernel/src/mm/memory.rs, kernel/src/mm/page_table.rs). */
module Addresses {
  import opened Wrappers
  import opened Bits
  import opened Arithmetics
  import opened Sv39Format

  const VA_OFFSET_WIDTH: nat := 12
  const VA_INDEX_WIDTH: nat := 9

  /** `Frame::from` and `VirtFrame::from`: the number of the page that holds an address. */
  function FrameOf(pa: Word): (f: Frame)
    ensures f == pa / PAGE_SIZE
  {
    PgRoundDown(pa) / PAGE_SIZE
  }

  // ----------------------------------------------------------- index paths

  /** `VirtAddr::pte_index` for the three levels the walk uses. */
  function PteIndex(va: Word, level: nat): (i: nat)
    requires level <= 2
    ensures i == Index(va, level)
  {
    var vpn := FrameOf(va);
    Shifts(1);
    RightShifts(vpn);
    LowNine(Shr(vpn, level * VA_INDEX_WIDTH));
    And(Shr(vpn, level * VA_INDEX_WIDTH), Shl(1, VA_INDEX_WIDTH) - 1)
  }

  lemma VpnOfAligned(va: Word, vb: Word)
    ensures va < 0x80_0000_0000 && vb < 0x80_0000_0000 && va % PAGE_SIZE == 0 && vb % PAGE_SIZE == 0 ==>
              (Vpn(va) == Vpn(vb) <==> va == vb)
    ensures va % 0x80_0000_0000 == vb % 0x80_0000_0000 ==> Vpn(va) == Vpn(vb)
  {
    assert va % 0x80_0000_0000 / PAGE_SIZE == Vpn(va);
    assert vb % 0x80_0000_0000 / PAGE_SIZE == Vpn(vb);
  }

  predicate SamePath(va: Word, vb: Word) {
    && PteIndex(va, 2) == PteIndex(vb, 2)
    && PteIndex(va, 1) == PteIndex(vb, 1)
    && PteIndex(va, 0) == PteIndex(vb, 0)
  }

  /** Two addresses share the index path exactly when their page numbers agree below bit 27;
      for page-aligned addresses below 2^39 that means they are equal, and bits 39 and up
      never matter. */
  lemma SamePathIff(va: Word, vb: Word)
    ensures SamePath(va, vb) <==> Vpn(va) == Vpn(vb)
    ensures va < 0x80_0000_0000 && vb < 0x80_0000_0000 && va % PAGE_SIZE == 0 && vb % PAGE_SIZE == 0 ==>
              (SamePath(va, vb) <==> va == vb)
    ensures va % 0x80_0000_0000 == vb % 0x80_0000_0000 ==> SamePath(va, vb)
  {
    IndicesRecombine(va);
    IndicesRecombine(vb);
    VpnOfAligned(va, vb);
  }

  // ---------------------------------------------------------------- offsets

  /** `VirtAddr::offset` as written: the mask is the width, 12, so only bits 2 and 3 survive. */
  function Offset(va: Word): (o: nat)
    ensures o == va % 16 - va % 4
  {
    BitsTwoAndThree(va);
    And(va, VA_OFFSET_WIDTH)
  }

  /** The offset the name promises: the low twelve bits. */
  function OffsetIntended(va: Word): (o: nat)
    ensures o == va % PAGE_SIZE
  {
    Shifts(1);
    LowTwelve(va);
    And(va, Shl(1, VA_OFFSET_WIDTH) - 1)
  }

  function WithOffset(pa: Word, offset: Word): (r: Word)
    ensures r == pa / PAGE_SIZE * PAGE_SIZE + offset % PAGE_SIZE
  {
    Shifts(1);
    var mask := Shl(1, VA_OFFSET_WIDTH) - 1;
    AboveTwelve(pa);
    LowTwelve(offset);
    OrBelowTwelve(pa - pa % PAGE_SIZE, offset % PAGE_SIZE);
    Or(And(pa, Not(mask)), And(offset, mask))
  }

  // ------------------------------------------------------------ page-table entries

  /** `flags | VALID`. */
  function OrValid(flags: Flags): (r: Flags)
    ensures r == WithValid(flags)
  {
    OrBit(flags, 0);
    Or(flags, VALID)
  }

  lemma WritableBit(flags: Flags)
    ensures Or(flags, 4) == if IsWritable(flags) then flags else flags + 4
    ensures And(flags, 507) == if IsWritable(flags) then flags - 4 else flags
  {
    Pow2Values();
    assert Bit(flags, 2) == Bit(flags / 2, 1) == Bit(flags / 2 / 2, 0);
    assert flags / 2 / 2 == flags / 4;
    OrBit(flags, 2);
    AndNotBit(flags, 9, 2);
  }

  lemma WritableBound(flags: Flags)
    ensures !IsWritable(flags) ==> flags + 4 < 512
  {
  }

  /** `flags & !WRITABLE` or `flags | WRITABLE`. */
  function MaskWritable(flags: Flags, writable: bool): (r: Flags)
    ensures r == SetWritable(flags, writable)
  {
    WritableBit(flags);
    WritableBound(flags);
    if writable then Or(flags, WRITABLE) else And(flags, 511 - WRITABLE)
  }

  lemma PteParts(n: nat, low: nat, w: Word)
    requires low < 1024 && w == n * 1024 + low
    ensures PteOf(w) == Pte(n, low)
  {
  }

  lemma PackedEntry(f: Frame, flags: Flags)
    ensures Or(Shl(f, 10), flags) < TWO64 && PteOf(Or(Shl(f, 10), flags)) == Pte(f, flags)
  {
    PackedSum(f, flags);
    PteParts(f, flags, f * 1024 + flags);
  }

  lemma PackedSum(f: Frame, flags: Flags)
    ensures Or(Shl(f, 10), flags) == f * 1024 + flags
  {
    Shifts(f);
    ModUnique(f * 1024, TWO64, 0, f * 1024);
    ModUnique(f * 1024, 1024, f, 0);
    OrBelowTen(f * 1024, flags);
  }

  /** `PageTableEntry::make_entry`: the shift never loses a bit of a 64-bit address. */
  function MakeEntry(pa: Word, flags: Flags): (e: Word)
    ensures PteOf(e) == Pte(FrameAt(pa), flags)
  {
    PackedEntry(FrameOf(pa), flags);
    Or(Shl(FrameOf(pa), 10), flags)
  }

  /** `PageTableEntry::flags`: `from_bits` knows nine bits, so bit 9 makes `unwrap` panic. */
  function EntryFlags(bits: Word): (r: Outcome<Flags>)
    ensures r == if PteOf(bits).low < 512 then Ok(PteOf(bits).low) else Panic
  {
    Shifts(1);
    LowTen(bits);
    var raw := And(bits, Shl(1, 10) - 1);
    if raw < 512 then Ok(raw) else Panic
  }

  function EntryIsValid(bits: Word): (r: Outcome<bool>)
    ensures r == if PteOf(bits).low < 512 then Ok(IsValid(PteOf(bits).low)) else Panic
  {
    var flags :- EntryFlags(bits);
    AndRun(flags, 1, 0);
    Ok(And(flags, VALID) == VALID)
  }

  lemma TargetAddress(n: nat)
    requires n < 0x40_0000_0000_0000
    ensures n * 4096 % TWO64 == n % 0x10_0000_0000_0000 * 4096
  {
  }

  lemma ShiftedTarget(bits: Word)
    ensures Shl(Shr(bits, 10), 12) == bits / 1024 % 0x10_0000_0000_0000 * 4096
  {
    RightShifts(bits);
    Shifts(bits / 1024);
    TargetAddress(bits / 1024);
  }

  lemma TargetIs(e: Pte)
    requires e.ppn < 0x40_0000_0000_0000
    ensures BaseAddr(Target(e)) == e.ppn % 0x10_0000_0000_0000 * 4096
  {
  }

  /** `PTE2PA`: bits 62 and 63 of an entry are shifted out. */
  function ReferencingAddress(bits: Word): (pa: Word)
    ensures pa == BaseAddr(Target(PteOf(bits)))
  {
    ShiftedTarget(bits);
    TargetIs(PteOf(bits));
    Shl(Shr(bits, 10), 12)
  }

  /** Encoding then decoding gives back the page of pa and exactly the flags, for every
      64-bit address; for a 56-bit physical address the ten reserved high bits stay zero. */
  lemma EntryRoundTrip(pa: Word, flags: Flags)
    ensures ReferencingAddress(MakeEntry(pa, flags)) == PgRoundDown(pa)
    ensures EntryFlags(MakeEntry(pa, flags)) == Ok(flags)
    ensures MakeEntry(pa, flags) < 0x4000_0000_0000_0000
    ensures pa < 0x100_0000_0000_0000 ==> MakeEntry(pa, flags) < 0x40_0000_0000_0000
  {
  }
}
