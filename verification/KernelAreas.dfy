/** The areas of the kernel space and their union (kernel/src/mm/address_space.rs). */
module KernelAreas {
  import opened Wrappers
  import opened Bits
  import opened Sv39Format
  import opened Layout
  import opened PageTables
  import opened Requests
  import opened Areas

  const RX: Flags := READABLE + EXECUTABLE
  const RW: Flags := READABLE + WRITABLE
  const RO: Flags := READABLE

  lemma {:induction false} NoHighBit(x: nat, n: nat, k: nat)
    requires x < Pow2(n) && n <= k
    ensures !Bit(x, k)
    decreases k
  {
    if k > 0 {
      NoHighBit(x / 2, if n == 0 then 0 else n - 1, k - 1);
    }
  }

  /** Five flags are the set of those whose tests hold. */
  lemma FewFlags(flags: Flags, fs: set<nat>)
    requires flags < 32 && (forall k :: k in fs ==> k < 5)
    requires (0 in fs <==> IsValid(flags)) && (1 in fs <==> IsReadable(flags)) && (2 in fs <==> IsWritable(flags))
    requires (3 in fs <==> IsExecutable(flags)) && (4 in fs <==> IsUser(flags))
    ensures FlagSet(flags) == fs
  {
    forall k: nat | k < 9
      ensures Bit(flags, k) <==> k in fs
    {
      OneFlag(flags, k);
    }
  }

  lemma OneFlag(flags: Flags, k: nat)
    requires flags < 32 && k < 9
    ensures Bit(flags, k) <==>
              if k == 0 then IsValid(flags) else if k == 1 then IsReadable(flags) else if k == 2 then IsWritable(flags)
              else if k == 3 then IsExecutable(flags) else k == 4 && IsUser(flags)
  {
    FlagTests(flags);
    if k >= 5 {
      Pow2Values();
      NoHighBit(flags, 5, k);
    }
  }

  /** The permission sets with V, by the positions of their bits. */
  lemma FlagSets()
    ensures FlagSet(WithValid(RW)) == {0, 1, 2}
    ensures FlagSet(WithValid(RX)) == {0, 1, 3}
    ensures FlagSet(WithValid(RO)) == {0, 1}
  {
    hide FlagSet;
    FewFlags(WithValid(RW), {0, 1, 2});
    FewFlags(WithValid(RX), {0, 1, 3});
    FewFlags(WithValid(RO), {0, 1});
  }

  /** An area with a single tracked frame. */
  function OneFrameArea(va: Word, begin: PageNo, end: PageNo, g: FrameSource, perms: Flags): VirtArea {
    TrackFrame(VirtArea(begin, end, [], perms, false), va, g)
  }

  lemma OneFrameView(va: Word, begin: PageNo, end: PageNo, g: FrameSource, perms: Flags)
    requires va % PAGE_SIZE == 0 && !g.CowShared?
    ensures var a := OneFrameArea(va, begin, end, g, perms);
            AreaFine(a) && AreaView(a) == map[Vpn(va) := Leaf(g.frame, WithValid(perms))]
  {
    var a := OneFrameArea(va, begin, end, g, perms);
    var r := Map(va, BaseAddr(g.frame), perms);
    assert a.frames == [(va, g)];
    assert AreaRequests(a) == [r];
    BaseAddrIs(g.frame, BaseAddr(g.frame));
    MappableIff([r], {});
    assert [r][1..] == [] && Asked([r][1..]) == map[];
  }

  /** An identity area covers exactly its range. */
  lemma RangeView(begin: PageNo, end: PageNo, perms: Flags)
    requires begin <= end <= VPNS
    ensures var a := VirtArea(begin, end, [], perms, true);
            && AreaFine(a)
            && (forall n: nat :: n in AreaView(a) <==> begin <= n < end)
            && (forall n: nat :: begin <= n < end ==> AreaView(a)[n] == Leaf(n, WithValid(perms)))
  {
    var rs := RangeRequests(begin, end, perms);
    forall i | 0 <= i < |rs|
      ensures Aligned(rs[i]) && Vpn(rs[i].va) == begin + i && LeafFor(rs[i]) == Leaf(begin + i, WithValid(perms))
    {
      VpnOfFrame(begin + i);
    }
    MappableIff(rs, {});
    AskedIff(rs, {});
    forall n: nat | begin <= n < end
      ensures n in Asked(rs) && Asked(rs)[n] == Leaf(n, WithValid(perms))
    {
      assert Vpn(rs[n - begin].va) == n;
    }
  }

  lemma VpnOfFrame(n: nat)
    requires n < VPNS
    ensures Vpn(BaseAddr(n)) == n && BaseAddr(n) % PAGE_SIZE == 0 && FrameAt(BaseAddr(n)) == n
  {
  }

  /** An identity area from address to address, both page-aligned. */
  function IdArea(begin: Word, end: Word, perms: Flags): VirtArea
    requires end + PAGE_SIZE - 1 < TWO64
  {
    NewArea(begin, end, perms, true).value
  }

  /** `VirtArea::make_trampoline`. */
  function TrampolineArea(l: Linker): VirtArea {
    TrackFrame(NewArea(TRAMPOLINE_BASE_VA, MAX_VA, RX, false).value, TRAMPOLINE_BASE_VA,
               PhysBorrowed(FrameAt(l.trampoline)))
  }

  function DeviceAreas(): seq<VirtArea> {
    [IdArea(VIRTIO_BASE, VIRTIO_BASE + PAGE_SIZE, RW)]
    + ([IdArea(UART_BASE, UART_BASE + PAGE_SIZE, RW)]
       + ([IdArea(PLIC_BASE, PLIC_BASE + PLIC_SIZE, RW)]
          + [IdArea(CLINT_BASE, CLINT_BASE + CLINT_SIZE, RW)]))
  }

  function ImageAreas(l: Linker): seq<VirtArea>
    requires LinkerOk(l)
  {
    [IdArea(l.bssEnd, l.stackEnd, RW)]
    + ([IdArea(l.dataEnd, l.bssEnd, RW)]
       + ([IdArea(l.rodataEnd, l.dataEnd, RW)]
          + ([IdArea(l.textEnd, l.rodataEnd, RO)]
             + ([IdArea(l.textStart, l.textEnd, RX)] + DeviceAreas()))))
  }

  /** The areas of `make_kernel`, in its order. */
  function KernelAreaList(l: Linker): seq<VirtArea>
    requires LinkerOk(l)
  {
    [TrampolineArea(l)] + ([IdArea(l.stackEnd, l.heapEnd, RW)] + ImageAreas(l))
  }

  // -------------------------------------------------- areas stacked from high to low

  /** A leaf that page n of the kernel space may have: the page itself or the trampoline,
      with one of the three permission sets the kernel uses. */
  predicate KernelLeaf(n: nat, leaf: Leaf) {
    && (leaf.frame == n || (n == TRAMPOLINE_VPN && leaf.frame < 0x8_8000))
    && leaf.flags in {WithValid(RW), WithValid(RO), WithValid(RX)}
  }

  /** The area owns none of the frames it maps. */
  predicate BorrowsOnly(a: VirtArea) {
    forall k :: 0 <= k < |a.frames| ==> a.frames[k].1.PhysBorrowed?
  }

  /** All areas are fine, own no frame, lie below bound and hold kernel leaves, and no two
      share a page. */
  ghost predicate Stacked(areas: seq<VirtArea>, bound: nat) {
    && (forall a :: a in areas ==> AreaFine(a) && BorrowsOnly(a))
    && (forall a, n :: a in areas && n in AreaView(a) ==> n < bound && KernelLeaf(n, AreaView(a)[n]))
    && AreasDisjoint(areas)
  }

  lemma StackOne(a: VirtArea, rest: seq<VirtArea>, low: nat, high: nat)
    requires Stacked(rest, low) && AreaFine(a) && BorrowsOnly(a) && low <= high
    requires forall n :: n in AreaView(a) ==> low <= n < high && KernelLeaf(n, AreaView(a)[n])
    ensures Stacked([a] + rest, high)
  {
  }

  /** Stacking an identity range that starts at or above everything below it. */
  lemma StackRange(begin: Word, end: Word, perms: Flags, rest: seq<VirtArea>)
    requires begin <= end < 0x80_0000_0000 && begin % PAGE_SIZE == 0 && end % PAGE_SIZE == 0
    requires perms in {RW, RO, RX} && Stacked(rest, begin / PAGE_SIZE)
    ensures Stacked([IdArea(begin, end, perms)] + rest, end / PAGE_SIZE)
  {
    var lo, hi := begin / PAGE_SIZE, end / PAGE_SIZE;
    RoundAligned(end);
    assert IdArea(begin, end, perms) == VirtArea(lo, hi, [], perms, true);
    RangeView(lo, hi, perms);
    StackOne(VirtArea(lo, hi, [], perms, true), rest, lo, hi);
  }

  lemma RoundAligned(end: nat)
    requires end % PAGE_SIZE == 0
    ensures (end + PAGE_SIZE - 1) / PAGE_SIZE == end / PAGE_SIZE
  {
  }

  lemma StackedWeaken(areas: seq<VirtArea>, bound: nat, bound': nat)
    requires Stacked(areas, bound) && bound <= bound'
    ensures Stacked(areas, bound')
  {
  }

  lemma DevicesStacked()
    ensures Stacked(DeviceAreas(), 0x8_0000)
  {
    assert Stacked([], CLINT_BASE / PAGE_SIZE);
    StackRange(CLINT_BASE, CLINT_BASE + CLINT_SIZE, RW, []);
    var clint := [IdArea(CLINT_BASE, CLINT_BASE + CLINT_SIZE, RW)];
    assert clint + [] == clint;
    StackedWeaken(clint, (CLINT_BASE + CLINT_SIZE) / PAGE_SIZE, PLIC_BASE / PAGE_SIZE);
    StackRange(PLIC_BASE, PLIC_BASE + PLIC_SIZE, RW, clint);
    var plic := [IdArea(PLIC_BASE, PLIC_BASE + PLIC_SIZE, RW)] + clint;
    StackedWeaken(plic, (PLIC_BASE + PLIC_SIZE) / PAGE_SIZE, UART_BASE / PAGE_SIZE);
    StackRange(UART_BASE, UART_BASE + PAGE_SIZE, RW, plic);
    var uart := [IdArea(UART_BASE, UART_BASE + PAGE_SIZE, RW)] + plic;
    StackRange(VIRTIO_BASE, VIRTIO_BASE + PAGE_SIZE, RW, uart);
    StackedWeaken(DeviceAreas(), (VIRTIO_BASE + PAGE_SIZE) / PAGE_SIZE, 0x8_0000);
  }

  lemma ImageStacked(l: Linker)
    requires LinkerOk(l)
    ensures Stacked(ImageAreas(l), l.stackEnd / PAGE_SIZE)
  {
    DevicesStacked();
    StackRange(l.textStart, l.textEnd, RX, DeviceAreas());
    var text := [IdArea(l.textStart, l.textEnd, RX)] + DeviceAreas();
    StackRange(l.textEnd, l.rodataEnd, RO, text);
    var rodata := [IdArea(l.textEnd, l.rodataEnd, RO)] + text;
    StackRange(l.rodataEnd, l.dataEnd, RW, rodata);
    var data := [IdArea(l.rodataEnd, l.dataEnd, RW)] + rodata;
    StackRange(l.dataEnd, l.bssEnd, RW, data);
    StackRange(l.bssEnd, l.stackEnd, RW, [IdArea(l.dataEnd, l.bssEnd, RW)] + data);
  }

  lemma TrampolineView(l: Linker)
    ensures AreaFine(TrampolineArea(l)) && BorrowsOnly(TrampolineArea(l))
    ensures AreaView(TrampolineArea(l)) == map[TRAMPOLINE_VPN := Leaf(FrameAt(l.trampoline), WithValid(RX))]
  {
    var a := NewArea(TRAMPOLINE_BASE_VA, MAX_VA, RX, false).value;
    OneFrameView(TRAMPOLINE_BASE_VA, a.begin, a.end, PhysBorrowed(FrameAt(l.trampoline)), RX);
  }

  /** The areas of the kernel space never overlap, whatever the sizes of the sections. */
  lemma KernelStacked(l: Linker)
    requires LinkerOk(l)
    ensures Stacked(KernelAreaList(l), TRAMPOLINE_VPN + 1)
  {
    ImageStacked(l);
    StackRange(l.stackEnd, l.heapEnd, RW, ImageAreas(l));
    var ram := [IdArea(l.stackEnd, l.heapEnd, RW)] + ImageAreas(l);
    TrampolineView(l);
    StackedWeaken(ram, l.heapEnd / PAGE_SIZE, TRAMPOLINE_VPN);
    StackOne(TrampolineArea(l), ram, TRAMPOLINE_VPN, TRAMPOLINE_VPN + 1);
  }

  // --------------------------------------------------------- reading the union

  lemma UnionSplit(areas: seq<VirtArea>)
    requires areas != []
    ensures UnionView(areas) == UnionView(areas[1..]) + AreaView(areas[0])
  {
    AskedAppend(AreaRequests(areas[0]), Flatten(areas[1..]));
  }

  /** In a disjoint list every area keeps its pages in the union. */
  lemma {:induction false} UnionContains(areas: seq<VirtArea>, k: nat, n: nat)
    requires AreasDisjoint(areas) && k < |areas| && n in AreaView(areas[k])
    ensures n in UnionView(areas) && UnionView(areas)[n] == AreaView(areas[k])[n]
    decreases |areas|
  {
    UnionSplit(areas);
    if k > 0 {
      DisjointFirst(areas);
      var rest := areas[1..];
      assert AreaView(rest[k - 1]).Keys !! AreaView(areas[0]).Keys;
      UnionContains(rest, k - 1, n);
    }
  }

  /** Every page of the union comes from some area. */
  lemma {:induction false} UnionFrom(areas: seq<VirtArea>, n: nat) returns (k: nat)
    requires n in UnionView(areas)
    ensures k < |areas| && n in AreaView(areas[k]) && UnionView(areas)[n] == AreaView(areas[k])[n]
    decreases |areas|
  {
    UnionSplit(areas);
    if n in AreaView(areas[0]) {
      k := 0;
    } else {
      k := UnionFrom(areas[1..], n);
      k := k + 1;
    }
  }

  /** The map of the kernel space. */
  function KernelView(l: Linker): map<nat, Leaf>
    requires LinkerOk(l)
  {
    UnionView(KernelAreaList(l))
  }

  /** The heap pages of view are mapped to themselves. */
  ghost predicate HeapIdentity(l: Linker, view: map<nat, Leaf>) {
    forall n: nat :: InLinkerHeap(l, n) ==> n in view && view[n].frame == n
  }

  /** The kernel maps the trampoline page, and its whole heap to itself, writable. */
  lemma KernelViewHolds(l: Linker)
    requires LinkerOk(l)
    ensures TRAMPOLINE_VPN in KernelView(l)
    ensures KernelView(l)[TRAMPOLINE_VPN] == Leaf(FrameAt(l.trampoline), WithValid(RX))
    ensures forall n: nat :: InLinkerHeap(l, n) ==> n in KernelView(l) && KernelView(l)[n] == Leaf(n, WithValid(RW))
  {
    var areas := KernelAreaList(l);
    KernelStacked(l);
    TrampolineView(l);
    UnionContains(areas, 0, TRAMPOLINE_VPN);
    forall n: nat | InLinkerHeap(l, n)
      ensures n in KernelView(l) && KernelView(l)[n] == Leaf(n, WithValid(RW))
    {
      HeapAreaView(l, n);
      assert areas[1] == IdArea(l.stackEnd, l.heapEnd, RW);
      UnionContains(areas, 1, n);
    }
  }

  /** Every page the kernel maps is mapped to itself, but for the trampoline, and no leaf has
      other than the three permission sets. */
  lemma KernelViewLeaves(l: Linker, n: nat)
    requires LinkerOk(l) && n in KernelView(l)
    ensures n <= TRAMPOLINE_VPN && KernelLeaf(n, KernelView(l)[n])
  {
    var areas := KernelAreaList(l);
    KernelStacked(l);
    var k := UnionFrom(areas, n);
    assert areas[k] in areas;
  }

  /** But for the trampoline, the kernel maps nothing above its RAM. */
  lemma KernelViewBelow(l: Linker, n: nat)
    requires LinkerOk(l) && n in KernelView(l) && n != TRAMPOLINE_VPN
    ensures n < l.heapEnd / PAGE_SIZE
  {
    var ram := [IdArea(l.stackEnd, l.heapEnd, RW)] + ImageAreas(l);
    ImageStacked(l);
    StackRange(l.stackEnd, l.heapEnd, RW, ImageAreas(l));
    TrampolineView(l);
    var k := UnionFrom(KernelAreaList(l), n);
    assert k > 0;
    assert KernelAreaList(l)[k] == ram[k - 1] && ram[k - 1] in ram;
  }

  lemma HeapAreaView(l: Linker, n: nat)
    requires LinkerOk(l) && InLinkerHeap(l, n)
    ensures var a := IdArea(l.stackEnd, l.heapEnd, RW);
            n in AreaView(a) && AreaView(a)[n] == Leaf(n, WithValid(RW))
  {
    RoundAligned(l.heapEnd);
    RangeView(l.stackEnd / PAGE_SIZE, l.heapEnd / PAGE_SIZE, RW);
  }

  // ------------------------------------------------------------- section by section

  datatype Section = Section(begin: Word, end: Word, perms: Flags)

  /** Heap, boot stack, bss, data, rodata, text and the four devices. */
  function Sections(l: Linker): seq<Section> {
    [Section(l.stackEnd, l.heapEnd, RW), Section(l.bssEnd, l.stackEnd, RW), Section(l.dataEnd, l.bssEnd, RW),
     Section(l.rodataEnd, l.dataEnd, RW), Section(l.textEnd, l.rodataEnd, RO), Section(l.textStart, l.textEnd, RX),
     Section(VIRTIO_BASE, VIRTIO_BASE + PAGE_SIZE, RW), Section(UART_BASE, UART_BASE + PAGE_SIZE, RW),
     Section(PLIC_BASE, PLIC_BASE + PLIC_SIZE, RW), Section(CLINT_BASE, CLINT_BASE + CLINT_SIZE, RW)]
  }

  predicate InSection(s: Section, n: nat) {
    s.begin / PAGE_SIZE <= n < s.end / PAGE_SIZE
  }

  ghost predicate InSomeSection(l: Linker, n: nat) {
    exists k :: 0 <= k < |Sections(l)| && InSection(Sections(l)[k], n)
  }

  lemma SectionsFit(l: Linker, k: nat)
    requires LinkerOk(l) && k < |Sections(l)|
    ensures var s := Sections(l)[k];
            s.begin <= s.end < 0x80_0000_0000 && s.begin % PAGE_SIZE == 0 && s.end % PAGE_SIZE == 0
  {
  }

  lemma SectionAreas(l: Linker, k: nat)
    requires LinkerOk(l) && k < |Sections(l)|
    ensures var s := Sections(l)[k];
            |KernelAreaList(l)| == 11 && s.end + PAGE_SIZE - 1 < TWO64
            && KernelAreaList(l)[k + 1] == IdArea(s.begin, s.end, s.perms)
  {
    SectionsFit(l, k);
  }

  lemma SectionView(l: Linker, k: nat, n: nat)
    requires LinkerOk(l) && k < |Sections(l)|
    ensures |KernelAreaList(l)| == 11
    ensures var s, view := Sections(l)[k], AreaView(KernelAreaList(l)[k + 1]);
            && (n in view <==> InSection(s, n))
            && (n in view ==> view[n] == Leaf(n, WithValid(s.perms)))
  {
    hide KernelAreaList, AreaView, AreaFine, Sections;
    var s := Sections(l)[k];
    SectionAreas(l, k);
    SectionsFit(l, k);
    RoundAligned(s.end);
    RangeView(s.begin / PAGE_SIZE, s.end / PAGE_SIZE, s.perms);
  }

  /** The kernel maps exactly the trampoline page and the pages of its sections, each page of a
      section to itself with the permissions of that section. */
  lemma KernelViewExact(l: Linker, n: nat)
    requires LinkerOk(l)
    ensures n in KernelView(l) <==> n == TRAMPOLINE_VPN || InSomeSection(l, n)
    ensures forall k :: 0 <= k < |Sections(l)| && InSection(Sections(l)[k], n) ==>
              n in KernelView(l) && KernelView(l)[n] == Leaf(n, WithValid(Sections(l)[k].perms))
  {
    KernelViewHolds(l);
    KernelStacked(l);
    forall k | 0 <= k < |Sections(l)| && InSection(Sections(l)[k], n)
      ensures n in KernelView(l) && KernelView(l)[n] == Leaf(n, WithValid(Sections(l)[k].perms))
    {
      SectionView(l, k, n);
      UnionContains(KernelAreaList(l), k + 1, n);
    }
    if n in KernelView(l) && n != TRAMPOLINE_VPN {
      var k := UnionFrom(KernelAreaList(l), n);
      TrampolineView(l);
      SectionView(l, k - 1, n);
    }
  }
}
