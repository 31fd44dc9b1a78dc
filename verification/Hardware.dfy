/** The Sv39 address translation of the hardware, after sections 4.1.11, 4.3.2 and 4.4 of the
    RISC-V Privileged Architecture, version 20211203: the walk up to the leaf it finds, and the
    access that the leaf permits; the accessed and dirty bits are not part of it. */
module Sv39Hardware {
  import opened Wrappers
  import opened Bits
  import opened Sv39Format
  import opened Machines

  datatype Translation = PageFault | Translated(pa: nat, low: nat)

  /** Step 3: V is clear, or W is set without R, or a reserved high bit is set. */
  predicate Malformed(e: Pte) {
    !IsValid(e.low) || (!IsReadable(e.low) && IsWritable(e.low)) || e.ppn >= 0x1000_0000_0000
  }

  predicate PointsToLeaf(e: Pte) {
    IsReadable(e.low) || IsExecutable(e.low)
  }

  /** U, A and D are reserved in a pointer to the next level. */
  predicate ReservedInPointer(e: Pte) {
    e.low / 16 % 2 == 1 || e.low / 64 % 2 == 1 || e.low / 128 % 2 == 1
  }

  /** Pages covered by a leaf of the given level. */
  function Span(level: nat): (n: nat)
    requires level <= 2
    ensures n > 0
  {
    if level == 0 then 1 else if level == 1 then 512 else 0x4_0000
  }

  function HwWalk(mem: Memory, a: Frame, va: Word, level: nat): Translation
    requires level <= 2
    decreases level
  {
    if a !in mem then PageFault
    else
      var e := mem[a][Index(va, level)];
      if Malformed(e) then PageFault
      else if PointsToLeaf(e) then
        if e.ppn % Span(level) != 0 then PageFault
        else Translated((e.ppn + va / PAGE_SIZE % Span(level)) * PAGE_SIZE + va % PAGE_SIZE, e.low)
      else if level == 0 || ReservedInPointer(e) then PageFault
      else HwWalk(mem, e.ppn, va, level - 1)
  }

  /** Bits 63 to 39 must equal bit 38. */
  predicate Canonical(va: Word) {
    va < 0x40_0000_0000 || va >= TWO64 - 0x40_0000_0000
  }

  /** satp: mode in the top four bits, the root's page number in the low 44. */
  function HwTranslate(mem: Memory, satp: Word, va: Word): Translation {
    if satp / 0x1000_0000_0000_0000 != 8 || !Canonical(va) then PageFault
    else HwWalk(mem, satp % 0x1000_0000_0000, va, 2)
  }

  datatype Access = Loads | Stores | Fetches

  datatype Mode = UserMode | Supervisor

  /** Step 5: the access has its flag, and U is set exactly for user mode; the kernel never sets
      the SUM bit, so its own accesses to user pages fault. */
  predicate Permits(low: nat, access: Access, mode: Mode) {
    && (IsUser(low) <==> mode.UserMode?)
    && match access
       case Loads => IsReadable(low)
       case Stores => IsWritable(low)
       case Fetches => IsExecutable(low)
  }

  /** The physical address that an access at va reaches; None is a fault. */
  function HwAccess(mem: Memory, satp: Word, va: Word, access: Access, mode: Mode): Option<nat> {
    match HwTranslate(mem, satp, va)
    case PageFault => None
    case Translated(pa, low) => if Permits(low, access, mode) then Some(pa) else None
  }

  /** The frame and word that a store of an aligned word reaches; None is a fault. */
  function StoreTarget(mem: Memory, satp: Word, va: Word, mode: Mode): (r: Option<(Frame, nat)>)
    ensures r.Some? ==> r.value.0 in mem && r.value.1 < ENTRIES
  {
    match HwAccess(mem, satp, va, Stores, mode)
    case None => None
    case Some(pa) =>
      if pa < TWO64 && pa % 8 == 0 && pa / PAGE_SIZE in mem then Some((pa / PAGE_SIZE, pa % PAGE_SIZE / 8)) else None
  }
}

/** `make_satp` and `translate` (kernel/src/mm/page_table.rs) against the hardware. */
module Translating {
  import opened Wrappers
  import opened Bits
  import opened Sv39Format
  import opened Addresses
  import opened Machines
  import opened PageTables
  import opened TableShapes
  import opened Mapping
  import opened Sv39Hardware
  import opened Layout

  lemma Pow2Sixty()
    ensures Pow2(60) == 0x1000_0000_0000_0000
  {
    Pow2Values();
    Pow2Add(18, 12);
    Pow2Add(30, 30);
  }

  lemma OrMode(root: Frame)
    ensures Or(0x8000_0000_0000_0000, root) == 0x8000_0000_0000_0000 + root
  {
    Pow2Sixty();
    OrDisjoint(0x8000_0000_0000_0000, root, 60);
  }

  lemma SatpIs(root: Frame)
    ensures Or(0x8000_0000_0000_0000, Shr(BaseAddr(root), 12)) == 0x8000_0000_0000_0000 + root
  {
    hide Or, Shr;
    RightShifts(BaseAddr(root));
    OrMode(root);
  }

  /** `PageTableGuard::make_satp`. */
  function MakeSatp(root: Frame): (satp: Word)
    ensures satp == 0x8000_0000_0000_0000 + root
  {
    SatpIs(root);
    Or(0x8000_0000_0000_0000, Shr(BaseAddr(root), 12))
  }

  /** A leaf the hardware accepts: readable or executable, not writable alone, and inside the
      56-bit physical space. */
  predicate HwLeaf(leaf: Leaf) {
    && (IsReadable(leaf.flags) || IsExecutable(leaf.flags))
    && (IsWritable(leaf.flags) ==> IsReadable(leaf.flags))
    && leaf.frame < 0x1000_0000_0000
  }

  /** The translation that the map of a table calls for. */
  function Expected(view: map<nat, Leaf>, va: Word): Translation {
    var vpn := Vpn(va);
    if vpn in view && HwLeaf(view[vpn]) then Translated(BaseAddr(view[vpn].frame) + va % PAGE_SIZE, view[vpn].flags)
    else PageFault
  }

  lemma HwThrough(mem: Memory, a: Frame, va: Word, level: nat, f: Frame)
    requires 1 <= level <= 2 && a in mem && mem[a][Index(va, level)] == Pointer(f) && f < 0x1000_0000_0000
    ensures HwWalk(mem, a, va, level) == HwWalk(mem, f, va, level - 1)
  {
  }

  lemma HwStops(mem: Memory, a: Frame, va: Word, level: nat)
    requires 1 <= level <= 2 && a in mem && mem[a][Index(va, level)] == Pte(0, 0)
    ensures HwWalk(mem, a, va, level) == PageFault
  {
  }

  /** At the last level the hardware accepts exactly the valid, well-formed leaves. */
  lemma HwLast(mem: Memory, a: Frame, va: Word, e: Pte)
    requires a in mem && e == mem[a][Index(va, 0)] && LeafEntry(e)
    ensures HwWalk(mem, a, va, 0) ==
              if IsValid(e.low) && HwLeaf(LeafOf(e)) then Translated(e.ppn * PAGE_SIZE + va % PAGE_SIZE, e.low)
              else PageFault
  {
  }

  /** All nodes lie below the 56-bit physical limit. */
  ghost predicate NodesLow(s: Shape) {
    && s.root < 0x1000_0000_0000
    && (forall i :: i in s.dirs ==> s.dirs[i] < 0x1000_0000_0000)
    && (forall q :: q in s.leaves ==> s.leaves[q] < 0x1000_0000_0000)
  }

  lemma HwTree(mem: Memory, s: Shape, va: Word)
    requires Tree(mem, s) && NodesLow(s)
    ensures HwWalk(mem, s.root, va, 2) ==
              var q := RegionOf(Vpn(va));
              if q in s.leaves then HwWalk(mem, s.leaves[q], va, 0) else PageFault
  {
    IndicesRecombine(va);
    var q := RegionOf(Vpn(va));
    if q.top in s.dirs {
      HwThrough(mem, s.root, va, 2, s.dirs[q.top]);
      if q in s.leaves {
        HwThrough(mem, s.dirs[q.top], va, 1, s.leaves[q]);
      } else {
        assert q == Region(q.top, q.mid);
        HwStops(mem, s.dirs[q.top], va, 1);
      }
    } else {
      HwStops(mem, s.root, va, 2);
    }
  }

  lemma OwnedIsLow(m: Machine, nodes: seq<Frame>, s: Shape)
    requires Owned(m, nodes, s)
    ensures NodesLow(s)
  {
  }

  /** What the hardware translates, for every address below MAX_VA: the pages the table maps
      with a leaf the hardware accepts, and nothing else. */
  lemma HardwareAgrees(m: Machine, t: Table, va: Word)
    requires Wf(m, t) && va < MAX_VA
    ensures HwTranslate(m.mem, MakeSatp(t.root), va) == Expected(Denote(m.mem, t.root), va)
  {
    var s :| Shaped(m, t, s);
    DenoteIsView(m.mem, s);
    OwnedIsLow(m, t.nodes, s);
    HwFromSatp(m.mem, t.root, va);
    HwView(m.mem, s, va);
  }

  lemma HwFromSatp(mem: Memory, root: Frame, va: Word)
    requires root < 0x1000_0000_0000 && va < MAX_VA
    ensures HwTranslate(mem, MakeSatp(root), va) == HwWalk(mem, root, va, 2)
  {
    SatpFields(root);
  }

  lemma HwView(mem: Memory, s: Shape, va: Word)
    requires Tree(mem, s) && NodesLow(s)
    ensures HwWalk(mem, s.root, va, 2) == Expected(View(mem, s), va)
  {
    HwTree(mem, s, va);
    if RegionOf(Vpn(va)) in s.leaves {
      HwRegion(mem, s, va);
    }
  }

  lemma SatpFields(root: Frame)
    requires root < 0x1000_0000_0000
    ensures MakeSatp(root) / 0x1000_0000_0000_0000 == 8 && MakeSatp(root) % 0x1000_0000_0000 == root
  {
  }

  lemma HwRegion(mem: Memory, s: Shape, va: Word)
    requires LeavesOk(mem, s) && RegionOf(Vpn(va)) in s.leaves
    ensures HwWalk(mem, s.leaves[RegionOf(Vpn(va))], va, 0) == Expected(View(mem, s), va)
  {
    IndicesRecombine(va);
    var e := SlotEntry(mem, s, Vpn(va));
    HwLast(mem, s.leaves[RegionOf(Vpn(va))], va, e);
  }

  // ------------------------------------------------------- software translation

  /** What `va.offset()` keeps as written: bits 2 and 3. */
  function MaskedOffset(va: Word): (o: nat)
    ensures o < 16
  {
    FourInSixteen(va);
    va % 16 - va % 4
  }

  lemma FourInSixteen(va: nat)
    ensures va % 4 == va % 16 % 4
  {
    ModUnique(va, 4, 4 * (va / 16) + va % 16 / 4, va % 16 % 4);
  }

  lemma WithMaskedOffset(f: Frame, va: Word)
    ensures WithOffset(BaseAddr(f), Offset(va)) == BaseAddr(f) + MaskedOffset(va)
  {
    SmallUnchanged(Offset(va));
    BaseUnchanged(f);
  }

  lemma SmallUnchanged(o: nat)
    requires o < 16
    ensures o % PAGE_SIZE == o
  {
  }

  lemma BaseUnchanged(f: Frame)
    ensures BaseAddr(f) / PAGE_SIZE * PAGE_SIZE == BaseAddr(f)
  {
  }

  /** `PageTableGuard::translate` as written: the slot is not checked for validity, and the
      offset is masked with 12. */
  function Translate(mem: Memory, root: Frame, va: Word): Outcome<Option<(Word, Flags)>> {
    match Find(mem, root, va)
    case Fault => Panic
    case Missing => Ok(None)
    case Slot(f, i) =>
      var e := mem[f][i];
      if e.low >= 512 then Panic else Ok(Some((BaseAddr(Target(e)) + MaskedOffset(va), e.low)))
  }

  /** The translation that is meant: none for an unmapped page, and the whole offset kept. */
  ghost function TranslateIntended(view: map<nat, Leaf>, va: Word): Option<(Word, Flags)> {
    if Vpn(va) in view then Some((BaseAddr(view[Vpn(va)].frame) + va % PAGE_SIZE, view[Vpn(va)].flags)) else None
  }

  lemma TranslateTree(mem: Memory, s: Shape, va: Word)
    requires Tree(mem, s)
    ensures RegionOf(Vpn(va)) !in s.leaves ==> Translate(mem, s.root, va) == Ok(None)
    ensures RegionOf(Vpn(va)) in s.leaves ==>
              var e := SlotEntry(mem, s, Vpn(va));
              LeafEntry(e) && Translate(mem, s.root, va) == Ok(Some((BaseAddr(e.ppn) + MaskedOffset(va), e.low)))
  {
    WalkTree(mem, s, va);
  }

  lemma OffsetKept(va: Word)
    ensures MaskedOffset(va) == va % PAGE_SIZE <==> va % PAGE_SIZE in {0, 4, 8, 12}
  {
    var r := va % PAGE_SIZE;
    ModUnique(va, 16, 256 * (va / PAGE_SIZE) + r / 16, r % 16);
    ModUnique(va, 4, 1024 * (va / PAGE_SIZE) + r / 4, r % 4);
    SmallOffset(r);
  }

  lemma SmallOffset(r: nat)
    ensures r % 16 - r % 4 == r <==> r in {0, 4, 8, 12}
  {
  }

  /** `translate` never panics, and answers for exactly the addresses whose two-megabyte
      region holds some mapped page. */
  lemma TranslateAnswersIff(m: Machine, t: Table, va: Word)
    requires Wf(m, t)
    ensures Translate(m.mem, t.root, va).Ok?
    ensures Translate(m.mem, t.root, va).value.Some? <==> RegionOf(Vpn(va)) in Regions(Denote(m.mem, t.root))
  {
    var s :| Shaped(m, t, s);
    DenoteIsView(m.mem, s);
    TranslateTree(m.mem, s, va);
    assert RegionOf(Vpn(va)) in s.leaves <==> RegionOf(Vpn(va)) in s.leaves.Keys;
  }

  /** The code translates as meant exactly when its region is empty, or the page is mapped
      and the offset has no bit but 2 and 3. */
  lemma TranslateAgreesIff(m: Machine, t: Table, va: Word)
    requires Wf(m, t)
    ensures var view := Denote(m.mem, t.root);
            Translate(m.mem, t.root, va) == Ok(TranslateIntended(view, va)) <==>
              RegionOf(Vpn(va)) !in Regions(view) || (Vpn(va) in view && va % PAGE_SIZE in {0, 4, 8, 12})
  {
    var s :| Shaped(m, t, s);
    DenoteIsView(m.mem, s);
    TranslateCases(m.mem, s, va);
    assert RegionOf(Vpn(va)) in s.leaves <==> RegionOf(Vpn(va)) in s.leaves.Keys;
  }

  lemma TranslateCases(mem: Memory, s: Shape, va: Word)
    requires Tree(mem, s)
    ensures Translate(mem, s.root, va) == Ok(TranslateIntended(View(mem, s), va)) <==>
              RegionOf(Vpn(va)) !in s.leaves || (Vpn(va) in View(mem, s) && va % PAGE_SIZE in {0, 4, 8, 12})
  {
    hide RootOk, DirsOk, Apart, Translate, MaskedOffset;
    TranslateTree(mem, s, va);
    OffsetKept(va);
    if Vpn(va) in View(mem, s) {
      var e := SlotEntry(mem, s, Vpn(va));
      assert View(mem, s)[Vpn(va)] == Leaf(e.ppn, e.low);
    }
  }

  /** What the hardware makes of an intended translation. */
  ghost function Accepted(view: map<nat, Leaf>, va: Word): Translation {
    match TranslateIntended(view, va)
    case None => PageFault
    case Some((pa, flags)) => if HwLeaf(view[Vpn(va)]) then Translated(pa, flags) else PageFault
  }

  lemma ExpectedIsAccepted(view: map<nat, Leaf>, va: Word)
    ensures Expected(view, va) == Accepted(view, va)
  {
  }

  /** The intended translation is the hardware's, wherever the hardware accepts the leaf. */
  lemma IntendedIsHardware(m: Machine, t: Table, va: Word)
    requires Wf(m, t) && va < MAX_VA
    ensures HwTranslate(m.mem, MakeSatp(t.root), va) == Accepted(Denote(m.mem, t.root), va)
  {
    HardwareAgrees(m, t, va);
    ExpectedIsAccepted(Denote(m.mem, t.root), va);
  }
}
