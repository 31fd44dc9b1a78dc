/** What a kernel space costs (kernel/src/mm/address_space.rs, kernel/src/mm/layout.rs): the nodes
    that its map needs, whatever the sizes of the sections. */
module KernelCosts {
  import opened Wrappers
  import opened Bits
  import opened Sv39Format
  import opened Layout
  import opened Machines
  import opened PageTables
  import opened KernelAreas
  import opened AddressSpaces

  /** Pages of the 128 megabytes of RAM. */
  predicate InRam(n: nat) {
    0x8_0000 <= n < 0x8_8000
  }

  /** Pages of CLINT, PLIC, UART and virtio. */
  predicate InDevice(n: nat) {
    0x2000 <= n < 0x2010 || 0xc000 <= n < 0xc400 || 0x1_0000 <= n < 0x1_0002
  }

  lemma SectionPages(l: Linker, k: nat, n: nat)
    requires LinkerOk(l) && k < |Sections(l)| && InSection(Sections(l)[k], n)
    ensures InRam(n) || InDevice(n)
  {
  }

  lemma RamSection(l: Linker, n: nat)
    requires LinkerOk(l) && InRam(n)
    ensures InSomeSection(l, n)
  {
    var k := if n >= l.stackEnd / PAGE_SIZE then 0 else if n >= l.bssEnd / PAGE_SIZE then 1
             else if n >= l.dataEnd / PAGE_SIZE then 2 else if n >= l.rodataEnd / PAGE_SIZE then 3
             else if n >= l.textEnd / PAGE_SIZE then 4 else 5;
    assert InSection(Sections(l)[k], n);
  }

  lemma DeviceSection(l: Linker, n: nat)
    requires InDevice(n)
    ensures InSomeSection(l, n)
  {
    var k := if n < 0x2010 then 9 else if n < 0xc400 then 8 else if n == 0x1_0000 then 7 else 6;
    assert InSection(Sections(l)[k], n);
  }

  /** The sections of the kernel fill RAM without a gap, so its pages do not depend on them. */
  lemma KernelPages(l: Linker, n: nat)
    requires LinkerOk(l)
    ensures n in KernelView(l) <==> InRam(n) || InDevice(n) || n == TRAMPOLINE_VPN
  {
    KernelViewExact(l, n);
    if InRam(n) {
      RamSection(l, n);
    } else if InDevice(n) {
      DeviceSection(l, n);
    } else if InSomeSection(l, n) {
      var k :| 0 <= k < |Sections(l)| && InSection(Sections(l)[k], n);
      SectionPages(l, k, n);
    }
  }

  // ------------------------------------------------------------------ counting

  /** The first n two-megabyte regions of RAM. */
  function RamRegions(n: nat): set<Region> {
    if n == 0 then {} else RamRegions(n - 1) + {Region(2, n - 1)}
  }

  lemma {:induction false} RamRegionsCount(n: nat)
    ensures |RamRegions(n)| == n
    ensures forall q :: q in RamRegions(n) <==> q.top == 2 && q.mid < n
  {
    if n > 0 {
      RamRegionsCount(n - 1);
      assert Region(2, n - 1) !in RamRegions(n - 1);
    }
  }

  /** The regions of the devices and of the trampoline. */
  function OtherRegions(): set<Region> {
    {Region(0, 16), Region(0, 96), Region(0, 97), Region(0, 128), Region(255, 511)}
  }

  lemma OtherRegionsCount()
    ensures |OtherRegions()| == 5 && forall q :: q in OtherRegions() ==> q.top != 2
  {
  }

  lemma PageRegions(n: nat)
    ensures InRam(n) ==> RegionOf(n) == Region(2, (n - 0x8_0000) / 512) && (n - 0x8_0000) / 512 < 64
    ensures InDevice(n) || n == TRAMPOLINE_VPN ==> RegionOf(n) in OtherRegions()
  {
  }

  lemma RamRegionPage(mid: nat)
    requires mid < 64
    ensures InRam(0x8_0000 + 512 * mid) && RegionOf(0x8_0000 + 512 * mid) == Region(2, mid)
  {
    assert (0x8_0000 + 512 * mid) / 512 == 1024 + mid;
  }

  lemma OtherRegionPages()
    ensures RegionOf(0x2000) == Region(0, 16) && RegionOf(0xc000) == Region(0, 96) && RegionOf(0xc200) == Region(0, 97)
    ensures RegionOf(0x1_0000) == Region(0, 128) && RegionOf(TRAMPOLINE_VPN) == Region(255, 511)
  {
  }

  lemma RegionInUse(l: Linker, n: nat)
    requires LinkerOk(l) && (InRam(n) || InDevice(n) || n == TRAMPOLINE_VPN)
    ensures RegionOf(n) in Regions(KernelView(l)) && RegionOf(n).top in Dirs(KernelView(l))
  {
    KernelPages(l, n);
  }

  lemma RegionsInUse(l: Linker, q: Region)
    requires LinkerOk(l) && ((q.top == 2 && q.mid < 64) || q in OtherRegions())
    ensures q in Regions(KernelView(l))
  {
    if q.top == 2 {
      RamRegionPage(q.mid);
      RegionInUse(l, 0x8_0000 + 512 * q.mid);
    } else {
      OtherRegionPages();
      RegionInUse(l, 0x2000);
      RegionInUse(l, 0xc000);
      RegionInUse(l, 0xc200);
      RegionInUse(l, 0x1_0000);
      RegionInUse(l, TRAMPOLINE_VPN);
    }
  }

  lemma KernelRegions(l: Linker, ram: set<Region>)
    requires LinkerOk(l) && forall q :: q in ram <==> q.top == 2 && q.mid < 64
    ensures Regions(KernelView(l)) == ram + OtherRegions()
  {
    forall n | n in KernelView(l)
      ensures RegionOf(n) in ram + OtherRegions()
    {
      KernelPages(l, n);
      PageRegions(n);
    }
    forall q | q in ram + OtherRegions()
      ensures q in Regions(KernelView(l))
    {
      RegionsInUse(l, q);
    }
  }

  lemma KernelDirs(l: Linker)
    requires LinkerOk(l)
    ensures Dirs(KernelView(l)) == {0, 2, 255}
  {
    forall n | n in KernelView(l)
      ensures RegionOf(n).top in {0, 2, 255}
    {
      KernelPages(l, n);
      PageRegions(n);
    }
    RegionInUse(l, 0x2000);
    RegionInUse(l, 0x8_0000);
    RegionInUse(l, TRAMPOLINE_VPN);
    OtherRegionPages();
    RamRegionPage(0);
  }

  /** A kernel space has a root, three nodes for gigabytes and 69 for two-megabyte regions. */
  lemma KernelNodeCount(l: Linker)
    requires LinkerOk(l)
    ensures NodeCount(KernelView(l)) == 73
  {
    hide KernelView, OtherRegions, Regions, Dirs;
    var ram := AllRamRegions();
    KernelRegions(l, ram);
    KernelDirs(l);
    OtherRegionsCount();
    UnionCount(ram, OtherRegions());
    ThreeDirs();
  }

  lemma AllRamRegions() returns (ram: set<Region>)
    ensures |ram| == 64 && forall q :: q in ram <==> q.top == 2 && q.mid < 64
  {
    var n: nat := 64;
    RamRegionsCount(n);
    ram := RamRegions(n);
  }

  lemma UnionCount(ram: set<Region>, others: set<Region>)
    requires (forall q :: q in ram ==> q.top == 2) && (forall q :: q in others ==> q.top != 2)
    ensures |ram + others| == |ram| + |others|
  {
    assert ram !! others;
  }

  lemma ThreeDirs()
    ensures var dirs: set<nat> := {0, 2, 255}; |dirs| == 3
  {
  }

  /** `make_kernel` succeeds exactly with 73 free frames, and takes them all as nodes. */
  lemma MakeKernelTakes(m: Machine, l: Linker)
    requires MachineOk(m) && LinkerOk(l)
    ensures MakeKernel(m, l).Ok? <==> Free(m) >= 73
    ensures MakeKernel(m, l).Ok? ==> |OwnedFrames(MakeKernel(m, l).value.1)| == 73
  {
    MakeKernelExact(m, l);
    KernelNodeCount(l);
  }
}
