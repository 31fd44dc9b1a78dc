/** Address spaces as objects (kernel/src/mm/address_space.rs): a page table and the areas it
    maps, made, edited and dropped in place over the frame allocator and physical memory. */
module AddrSpaces {
  import opened Wrappers
  import opened Bits
  import opened Sv39Format
  import opened Layout
  import opened FrameAllocators
  import opened Machines
  import opened PageTables
  import opened Locking
  import opened Requests
  import opened Areas
  import opened KernelAreas
  import opened AddressSpaces
  import opened UserSpaces
  import opened PageTableGuards

  class AddrSpace {
    const pageTable: PageTableGuard
    var virtAreas: seq<VirtArea>

    constructor (pageTable: PageTableGuard, virtAreas: seq<VirtArea>)
      ensures this.pageTable == pageTable && this.virtAreas == virtAreas
    {
      this.pageTable := pageTable;
      this.virtAreas := virtAreas;
    }

    ghost function SpaceOf(): Space
      reads this, pageTable
    {
      Space(pageTable.TableOf(), virtAreas)
    }

    /** `AddrSpace::verify`, from the last area to the first. */
    method Verify(ram: PhysicalMemory) returns (passed: bool)
      ensures passed <==> AreasVerify(MemoryOf(ram.frames), pageTable.rootNode, virtAreas)
    {
      var i := |virtAreas|;
      while i > 0
        invariant 0 <= i <= |virtAreas|
        invariant AreasVerify(MemoryOf(ram.frames), pageTable.rootNode, virtAreas[i..])
      {
        i := i - 1;
        passed := pageTable.VerifyVirtArea(ram, virtAreas[i]);
        if !passed {
          return false;
        }
        assert forall k :: 0 < k < |virtAreas[i..]| ==> virtAreas[i..][k] == virtAreas[i + 1..][k - 1];
      }
      return true;
    }

    /** `AddrSpace::init_trapframe`. */
    method AddTrapframe(ram: PhysicalMemory, alloc: FrameAllocator) returns (r: Outcome<Word>)
      requires HeapOk(alloc)
      modifies this, pageTable, ram, alloc
      ensures match InitTrapframe(old(MachineOf(ram, alloc)), old(SpaceOf()))
              case Panic => r.Panic?
              case Ok((m, sp, f)) =>
                r == Ok(BaseAddr(f)) && HeapOk(alloc) && MachineOf(ram, alloc) == m && SpaceOf() == sp
    {
      var frame := AllocateZeroedFrame(ram, alloc);
      if frame.Panic? {
        return Panic;
      }
      var area := TrapframeArea(frame.value);
      var mapped := pageTable.MapVirtArea(ram, alloc, area);
      if mapped.Panic? {
        return Panic;
      }
      virtAreas := virtAreas + [area];
      return Ok(BaseAddr(frame.value));
    }

    /** `lock_space` (writable false) and `unlock_space` (writable true). */
    method Relabel(ram: PhysicalMemory, alloc: FrameAllocator, l: Linker, writable: bool) returns (r: Outcome<()>)
      requires HeapOk(alloc) && LinkerOk(l)
      modifies ram, alloc
      ensures match RelabelSpace(old(MachineOf(ram, alloc)), l, SpaceOf(), writable)
              case Panic => r.Panic?
              case Ok(m) => r == Ok(()) && HeapOk(alloc) && MachineOf(ram, alloc) == m
    {
      var other := MakeKernelSpace(ram, alloc, l);
      if other.Panic? {
        return Panic;
      }
      var done := pageTable.RelabelNodes(ram, writable);
      if done.Panic? {
        return Panic;
      }
      r := other.value.Drop(ram, alloc);
    }

    /** Dropping the space: the fields in order, so the nodes before the frames of the areas. */
    method Drop(ram: PhysicalMemory, alloc: FrameAllocator) returns (r: Outcome<()>)
      requires HeapOk(alloc)
      modifies alloc
      ensures match DropSpace(old(MachineOf(ram, alloc)), SpaceOf())
              case Panic => r.Panic?
              case Ok(m) => r == Ok(()) && HeapOk(alloc) && MachineOf(ram, alloc) == m
    {
      ReleaseAllAppend(MachineOf(ram, alloc), pageTable.nodeFrames, ExclusiveFrames(virtAreas));
      r := DropNodes(ram, alloc, pageTable.nodeFrames);
      if r.Ok? {
        r := DropAreas(ram, alloc, virtAreas);
      }
    }
  }

  /** Dropping one `FrameGuard`. */
  method DropGuard(ram: PhysicalMemory, alloc: FrameAllocator, f: Frame) returns (r: Outcome<()>)
    requires HeapOk(alloc)
    modifies alloc
    ensures match Release(old(MachineOf(ram, alloc)), f)
            case Panic => r.Panic?
            case Ok(m) => r == Ok(()) && HeapOk(alloc) && MachineOf(ram, alloc) == m
  {
    BaseOfFirst(alloc);
    r := alloc.Deallocate(BaseAddr(f));
  }

  method DropNodes(ram: PhysicalMemory, alloc: FrameAllocator, nodes: seq<Frame>) returns (r: Outcome<()>)
    requires HeapOk(alloc)
    modifies alloc
    ensures match ReleaseAll(old(MachineOf(ram, alloc)), nodes)
            case Panic => r.Panic?
            case Ok(m) => r == Ok(()) && HeapOk(alloc) && MachineOf(ram, alloc) == m
  {
    ghost var target := ReleaseAll(MachineOf(ram, alloc), nodes);
    var i := 0;
    while i < |nodes|
      invariant HeapOk(alloc) && 0 <= i <= |nodes|
      invariant ReleaseAll(MachineOf(ram, alloc), nodes[i..]) == target
    {
      assert nodes[i..][0] == nodes[i] && nodes[i..][1..] == nodes[i + 1..];
      var done := DropGuard(ram, alloc, nodes[i]);
      if done.Panic? {
        return Panic;
      }
      i := i + 1;
    }
    return Ok(());
  }

  /** The `VirtFrameGuard`s of one area; a borrowed frame is not given back. */
  method DropArea(ram: PhysicalMemory, alloc: FrameAllocator, frames: seq<(Word, FrameSource)>) returns (r: Outcome<()>)
    requires HeapOk(alloc)
    modifies alloc
    ensures match ReleaseAll(old(MachineOf(ram, alloc)), ExclusiveOf(frames))
            case Panic => r.Panic?
            case Ok(m) => r == Ok(()) && HeapOk(alloc) && MachineOf(ram, alloc) == m
  {
    ghost var target := ReleaseAll(MachineOf(ram, alloc), ExclusiveOf(frames));
    var i := 0;
    while i < |frames|
      invariant HeapOk(alloc) && 0 <= i <= |frames|
      invariant ReleaseAll(MachineOf(ram, alloc), ExclusiveOf(frames[i..])) == target
    {
      ExclusiveNext(frames, i);
      if frames[i].1.ExclusivelyAllocated? {
        var done := DropGuard(ram, alloc, frames[i].1.frame);
        if done.Panic? {
          return Panic;
        }
      }
      i := i + 1;
    }
    return Ok(());
  }

  lemma ExclusiveNext(frames: seq<(Word, FrameSource)>, i: nat)
    requires i < |frames|
    ensures var left, rest := ExclusiveOf(frames[i..]), ExclusiveOf(frames[i + 1..]);
            if frames[i].1.ExclusivelyAllocated? then left != [] && left[0] == frames[i].1.frame && left[1..] == rest
            else left == rest
  {
  }

  method DropAreas(ram: PhysicalMemory, alloc: FrameAllocator, areas: seq<VirtArea>) returns (r: Outcome<()>)
    requires HeapOk(alloc)
    modifies alloc
    ensures match ReleaseAll(old(MachineOf(ram, alloc)), ExclusiveFrames(areas))
            case Panic => r.Panic?
            case Ok(m) => r == Ok(()) && HeapOk(alloc) && MachineOf(ram, alloc) == m
  {
    ghost var target := ReleaseAll(MachineOf(ram, alloc), ExclusiveFrames(areas));
    var i := 0;
    while i < |areas|
      invariant HeapOk(alloc) && 0 <= i <= |areas|
      invariant ReleaseAll(MachineOf(ram, alloc), ExclusiveFrames(areas[i..])) == target
    {
      assert areas[i..][1..] == areas[i + 1..];
      ReleaseAllAppend(MachineOf(ram, alloc), ExclusiveOf(areas[i].frames), ExclusiveFrames(areas[i + 1..]));
      var done := DropArea(ram, alloc, areas[i].frames);
      if done.Panic? {
        return Panic;
      }
      i := i + 1;
    }
    return Ok(());
  }

  lemma {:induction false} ReleaseAllAppend(m: Machine, a: seq<Frame>, b: seq<Frame>)
    ensures ReleaseAll(m, a + b) ==
              match ReleaseAll(m, a)
              case Panic => Panic
              case Ok(m') => ReleaseAll(m', b)
    decreases |a|
  {
    if a == [] {
      assert a + b == b;
    } else {
      assert (a + b)[1..] == a[1..] + b;
      var o := Release(m, a[0]);
      if o.Ok? {
        ReleaseAllAppend(o.value, a[1..], b);
      }
    }
  }

  // ------------------------------------------------------------------- creation

  /** The end of `make_kernel` and `make_init`: a new page table, filled area by area. */
  method MakeSpace(ram: PhysicalMemory, alloc: FrameAllocator, areas: seq<VirtArea>) returns (r: Outcome<AddrSpace>)
    requires HeapOk(alloc)
    modifies ram, alloc
    ensures match MakeTable(old(MachineOf(ram, alloc)), areas)
            case Panic => r.Panic?
            case Ok((m, t)) =>
              && r.Ok? && fresh(r.value) && fresh(r.value.pageTable) && HeapOk(alloc) && MachineOf(ram, alloc) == m
              && r.value.SpaceOf() == Space(t, areas)
  {
    var root := AllocateZeroedFrame(ram, alloc);
    if root.Panic? {
      return Panic;
    }
    var pageTable := new PageTableGuard(root.value);
    var mapped := MapVirtAreas(ram, alloc, pageTable, areas);
    if mapped.Panic? {
      return Panic;
    }
    var space := new AddrSpace(pageTable, areas);
    return Ok(space);
  }

  method MapVirtAreas(ram: PhysicalMemory, alloc: FrameAllocator, pageTable: PageTableGuard, areas: seq<VirtArea>)
    returns (r: Outcome<()>)
    requires HeapOk(alloc)
    modifies ram, alloc, pageTable
    ensures match MapAreas(old(MachineOf(ram, alloc)), old(pageTable.TableOf()), areas)
            case Panic => r.Panic?
            case Ok((m, t)) => r == Ok(()) && HeapOk(alloc) && MachineOf(ram, alloc) == m && pageTable.TableOf() == t
  {
    ghost var target := MapAreas(MachineOf(ram, alloc), pageTable.TableOf(), areas);
    var i := 0;
    while i < |areas|
      invariant HeapOk(alloc) && 0 <= i <= |areas|
      invariant MapAreas(MachineOf(ram, alloc), pageTable.TableOf(), areas[i..]) == target
    {
      assert areas[i..][0] == areas[i] && areas[i..][1..] == areas[i + 1..];
      var done := pageTable.MapVirtArea(ram, alloc, areas[i]);
      if done.Panic? {
        return Panic;
      }
      i := i + 1;
    }
    return Ok(());
  }

  /** `AddrSpace::make_kernel`. */
  method MakeKernelSpace(ram: PhysicalMemory, alloc: FrameAllocator, l: Linker) returns (r: Outcome<AddrSpace>)
    requires HeapOk(alloc) && LinkerOk(l)
    modifies ram, alloc
    ensures match MakeKernel(old(MachineOf(ram, alloc)), l)
            case Panic => r.Panic?
            case Ok((m, sp)) =>
              && r.Ok? && fresh(r.value) && fresh(r.value.pageTable) && HeapOk(alloc) && MachineOf(ram, alloc) == m
              && r.value.SpaceOf() == sp
  {
    r := MakeSpace(ram, alloc, KernelAreaList(l));
  }

  /** `FrameGuard::allocate_with_data`, a word at a time. */
  method AllocateDataFrame(ram: PhysicalMemory, alloc: FrameAllocator, data: seq<Byte>) returns (r: Outcome<Frame>)
    requires HeapOk(alloc)
    modifies ram, alloc
    ensures match AllocateWithData(old(MachineOf(ram, alloc)), data)
            case Panic => r.Panic?
            case Ok((m, f)) => r == Ok(f) && HeapOk(alloc) && MachineOf(ram, alloc) == m
  {
    r := AllocateZeroedFrame(ram, alloc);
    if r.Panic? {
      return Panic;
    }
    var words: WordNode := seq(ENTRIES, i => 0);
    var i := 0;
    while i < ENTRIES
      invariant 0 <= i <= ENTRIES && |words| == ENTRIES
      invariant forall k :: 0 <= k < i ==> words[k] == WordAt(data, k)
    {
      words := words[i := WordAt(data, i)];
      i := i + 1;
    }
    assert NodeOf(words) == Pack(data);
    ghost var mem := MemoryOf(ram.frames);
    ram.frames := ram.frames[r.value := words];
    assert MemoryOf(ram.frames) == mem[r.value := Pack(data)];
  }

  /** `AddrSpace::make_init`. */
  method MakeInitSpace(ram: PhysicalMemory, alloc: FrameAllocator, l: Linker, text: seq<Byte>)
    returns (r: Outcome<AddrSpace>)
    requires HeapOk(alloc) && LinkerOk(l)
    modifies ram, alloc
    ensures match MakeInit(old(MachineOf(ram, alloc)), l, text)
            case Panic => r.Panic?
            case Ok((m, sp)) =>
              && r.Ok? && fresh(r.value) && fresh(r.value.pageTable) && HeapOk(alloc) && MachineOf(ram, alloc) == m
              && r.value.SpaceOf() == sp
  {
    if !InReach(|text|) {
      return Panic;
    }
    var stack := AllocateZeroedFrame(ram, alloc);
    if stack.Panic? {
      return Panic;
    }
    var code := AllocateDataFrame(ram, alloc, text);
    if code.Panic? {
      return Panic;
    }
    r := MakeSpace(ram, alloc, InitAreas(l, |text|, stack.value, code.value));
  }
}
