/** The page table as an object that edits physical frames in place
    (kernel/src/mm/page_table.rs, kernel/src/mm/memory.rs). Words are read and written with the
    kernel's own bit operations; every method is tied to its function on values. */
module PageTableGuards {
  import opened Wrappers
  import opened Bits
  import opened Sv39Format
  import opened Arithmetics
  import opened Addresses
  import opened FrameAllocators
  import opened Machines
  import opened PageTables
  import opened Mapping
  import opened Locking
  import opened Requests
  import opened Areas
  import opened Translating

  /** A frame as 512 raw words. */
  type WordNode = n: seq<Word> | |n| == ENTRIES witness seq(ENTRIES, i => 0)

  function NodeOf(words: WordNode): Node {
    seq(ENTRIES, i requires 0 <= i < ENTRIES => PteOf(words[i]))
  }

  ghost function MemoryOf(frames: map<Frame, WordNode>): Memory {
    map f | f in frames :: NodeOf(frames[f])
  }

  lemma MemoryOfWrite(frames: map<Frame, WordNode>, f: Frame, i: nat, w: Word)
    requires f in frames && i < ENTRIES
    ensures MemoryOf(frames[f := frames[f][i := w]]) == Write(MemoryOf(frames), f, i, PteOf(w))
  {
    assert NodeOf(frames[f][i := w]) == NodeOf(frames[f])[i := PteOf(w)];
  }

  lemma MemoryOfZeroed(frames: map<Frame, WordNode>, f: Frame, words: WordNode)
    requires forall i :: 0 <= i < ENTRIES ==> words[i] == 0
    ensures MemoryOf(frames[f := words]) == MemoryOf(frames)[f := ZeroNode()]
  {
    assert NodeOf(words) == ZeroNode();
  }

  class PhysicalMemory {
    var frames: map<Frame, WordNode>

    constructor (frames: map<Frame, WordNode>)
      ensures this.frames == frames
    {
      this.frames := frames;
    }
  }

  /** The linker aligns the heap, and it lies below the 56-bit physical limit. */
  ghost predicate HeapOk(alloc: FrameAllocator)
    reads alloc
  {
    && alloc.baseAddr % PAGE_SIZE == 0
    && alloc.baseAddr + |alloc.pageAllocated| * PAGE_SIZE <= 0x100_0000_0000_0000
  }

  ghost function MachineOf(ram: PhysicalMemory, alloc: FrameAllocator): (m: Machine)
    requires HeapOk(alloc)
    reads ram, alloc
    ensures HeapFits(m)
  {
    Machine(MemoryOf(ram.frames), alloc.pageAllocated, FrameAt(alloc.baseAddr))
  }

  lemma BaseOfFirst(alloc: FrameAllocator)
    requires HeapOk(alloc)
    ensures BaseAddr(FrameAt(alloc.baseAddr)) == alloc.baseAddr
  {
  }

  /** `FrameGuard::allocate_zeroed`; the guard is represented by the frame it holds. */
  method AllocateZeroedFrame(ram: PhysicalMemory, alloc: FrameAllocator) returns (r: Outcome<Frame>)
    requires HeapOk(alloc)
    modifies ram, alloc
    ensures match AllocateZeroed(old(MachineOf(ram, alloc)))
            case Panic => r.Panic?
            case Ok((m, f)) => r == Ok(f) && HeapOk(alloc) && MachineOf(ram, alloc) == m
  {
    BaseOfFirst(alloc);
    AllocatePageAgrees(alloc.pageAllocated, alloc.baseAddr, PAGE_SIZE);
    var pa := alloc.Allocate(PAGE_SIZE);
    if pa.Panic? {
      return Panic;
    }
    var f := FrameOf(pa.value);
    var words: WordNode := if f in ram.frames then ram.frames[f] else seq(ENTRIES, i => 0);
    var i := 0;
    while i < ENTRIES
      invariant 0 <= i <= ENTRIES && |words| == ENTRIES
      invariant forall k :: 0 <= k < i ==> words[k] == 0
    {
      words := words[i := 0];
      i := i + 1;
    }
    MemoryOfZeroed(ram.frames, f, words);
    ram.frames := ram.frames[f := words];
    return Ok(f);
  }

  /** The address of the next page of a range, which heads the requests that remain. */
  method BaseOfPage(page: PageNo, end: PageNo, perms: Flags, ghost rs: seq<Request>) returns (va: Word)
    requires page < end && rs == RangeRequests(page, end, perms)
    ensures rs != [] && rs[0] == Map(va, va, perms) && rs[1..] == RangeRequests(page + 1, end, perms)
  {
    return BaseAddr(page);
  }

  class PageTableGuard {
    const rootNode: Frame
    var nodeFrames: seq<Frame>

    constructor (root: Frame)
      ensures rootNode == root && nodeFrames == [root]
    {
      rootNode := root;
      nodeFrames := [root];
    }

    ghost function TableOf(): Table
      reads this
    {
      Table(rootNode, nodeFrames)
    }

    /** `PageTableGuard::find`. */
    method FindSlot(ram: PhysicalMemory, va: Word) returns (w: Walked)
      ensures w == Find(MemoryOf(ram.frames), rootNode, va)
    {
      ghost var mem := MemoryOf(ram.frames);
      var table, level := rootNode, 2;
      while true
        invariant 0 <= level <= 2
        invariant Walk(mem, rootNode, va, 2) == Walk(mem, table, va, level)
        decreases level
      {
        if table !in ram.frames {
          return Fault;
        }
        var index := PteIndex(va, level);
        if level == 0 {
          return Slot(table, index);
        }
        var pte := ram.frames[table][index];
        WalkWord(mem, table, va, level, pte);
        var valid := EntryIsValid(pte);
        if valid.Panic? {
          return Fault;
        }
        if !valid.value {
          return Missing;
        }
        table := FrameOf(ReferencingAddress(pte));
        level := level - 1;
      }
    }

    /** `PageTableGuard::allocate_node`. */
    method AllocateNode(ram: PhysicalMemory, alloc: FrameAllocator) returns (r: Outcome<Frame>)
      requires HeapOk(alloc)
      modifies this, ram, alloc
      ensures match AllocateZeroed(old(MachineOf(ram, alloc)))
              case Panic => r.Panic?
              case Ok((m, f)) =>
                r == Ok(f) && HeapOk(alloc) && MachineOf(ram, alloc) == m && nodeFrames == old(nodeFrames) + [f]
    {
      r := AllocateZeroedFrame(ram, alloc);
      if r.Ok? {
        nodeFrames := nodeFrames + [r.value];
      }
    }

    /** `PageTableGuard::find_allocate`. */
    method FindAllocateSlot(ram: PhysicalMemory, alloc: FrameAllocator, va: Word) returns (r: Outcome<(Frame, nat)>)
      requires HeapOk(alloc)
      modifies this, ram, alloc
      ensures match FindAllocate(old(MachineOf(ram, alloc)), old(nodeFrames), rootNode, va, 2)
              case Panic => r.Panic?
              case Ok(g) =>
                && r == Ok((g.frame, g.index)) && HeapOk(alloc) && MachineOf(ram, alloc) == g.m && nodeFrames == g.nodes
                && g.frame in ram.frames
    {
      ghost var start := FindAllocate(MachineOf(ram, alloc), nodeFrames, rootNode, va, 2);
      var table, level := rootNode, 2;
      while true
        invariant 0 <= level <= 2 && HeapOk(alloc)
        invariant FindAllocate(MachineOf(ram, alloc), nodeFrames, table, va, level) == start
        decreases level
      {
        var index := PteIndex(va, level);
        if table !in ram.frames {
          FindAllocateFaults(MachineOf(ram, alloc), nodeFrames, table, va, level);
          return Panic;
        }
        if level == 0 {
          return Ok((table, index));
        }
        var next := DescendSlot(ram, alloc, table, index);
        if next.Panic? {
          return Panic;
        }
        table := next.value;
        level := level - 1;
      }
    }

    /** The body of the loop for an interior level. */
    method DescendSlot(ram: PhysicalMemory, alloc: FrameAllocator, table: Frame, index: nat) returns (r: Outcome<Frame>)
      requires HeapOk(alloc) && table in ram.frames && index < ENTRIES
      modifies this, ram, alloc
      ensures match Descend(old(MachineOf(ram, alloc)), old(nodeFrames), table, index)
              case Panic => r.Panic?
              case Ok((m, nodes, next)) =>
                r == Ok(next) && HeapOk(alloc) && MachineOf(ram, alloc) == m && nodeFrames == nodes
    {
      var pte := ram.frames[table][index];
      DescendWord(MachineOf(ram, alloc), nodeFrames, table, index, pte);
      var valid := EntryIsValid(pte);
      if valid.Panic? {
        return Panic;
      }
      if valid.value {
        return Ok(FrameOf(ReferencingAddress(pte)));
      }
      var node := AllocateNode(ram, alloc);
      if node.Panic? {
        return Panic;
      }
      pte := MakeEntry(BaseAddr(node.value), VALID);
      NodeEntry(node.value, pte);
      MemoryOfWrite(ram.frames, table, index, pte);
      ram.frames := ram.frames[table := ram.frames[table][index := pte]];
      return Ok(FrameOf(ReferencingAddress(pte)));
    }
  
    /** `PageTableGuard::map_one_allocate`. */
    method MapPage(ram: PhysicalMemory, alloc: FrameAllocator, va: Word, pa: Word, flags: Flags)
      returns (r: Outcome<()>)
      requires HeapOk(alloc)
      modifies this, ram, alloc
      ensures match MapOneAllocate(old(MachineOf(ram, alloc)), old(TableOf()), va, pa, flags)
              case Panic => r.Panic?
              case Ok((m, t)) => r == Ok(()) && HeapOk(alloc) && MachineOf(ram, alloc) == m && TableOf() == t
    {
      var slot := FindAllocateSlot(ram, alloc, va);
      if slot.Panic? {
        return Panic;
      }
      var (frame, index) := slot.value;
      ghost var g := Grown(MachineOf(ram, alloc), nodeFrames, frame, index);
      FinishWord(g, rootNode, pa, flags, ram.frames[frame][index]);
      var valid := EntryIsValid(ram.frames[frame][index]);
      if valid.Panic? || valid.value {
        return Panic;
      }
      var pte := MakeEntry(pa, OrValid(flags));
      MemoryOfWrite(ram.frames, frame, index, pte);
      ram.frames := ram.frames[frame := ram.frames[frame][index := pte]];
      if ReferencingAddress(pte) != pa || EntryFlags(pte) != Ok(OrValid(flags)) {
        return Panic;
      }
      return Ok(());
    }

    /** One turn of the mapping loops: the first of the requests that remain. */
    method MapFirst(ram: PhysicalMemory, alloc: FrameAllocator, va: Word, pa: Word, flags: Flags,
                    ghost rs: seq<Request>)
      returns (r: Outcome<()>)
      requires HeapOk(alloc)
      requires rs != [] ==> rs[0] == Map(va, pa, flags)
      modifies this, ram, alloc
      ensures r.Ok? ==> HeapOk(alloc)
      ensures r.Panic? && rs != [] ==> MapAll(old(MachineOf(ram, alloc)), old(TableOf()), rs).Panic?
      ensures r.Ok? && rs != [] ==>
                MapAll(old(MachineOf(ram, alloc)), old(TableOf()), rs) ==
                  MapAll(MachineOf(ram, alloc), TableOf(), rs[1..])
    {
      if va % PAGE_SIZE != 0 || pa % PAGE_SIZE != 0 {
        return Panic;
      }
      r := MapPage(ram, alloc, va, pa, flags);
    }

    /** `PageTableGuard::map_virt_area_allocate`. */
    method MapVirtArea(ram: PhysicalMemory, alloc: FrameAllocator, area: VirtArea) returns (r: Outcome<()>)
      requires HeapOk(alloc)
      modifies this, ram, alloc
      ensures match MapArea(old(MachineOf(ram, alloc)), old(TableOf()), area)
              case Panic => r.Panic?
              case Ok((m, t)) => r == Ok(()) && HeapOk(alloc) && MachineOf(ram, alloc) == m && TableOf() == t
    {
      if Backward(area) {
        r := MapBackward(ram, alloc, area);
      } else if area.identical {
        r := MapRange(ram, alloc, area.begin, area.end, area.perms);
      } else {
        r := MapFrames(ram, alloc, area);
      }
    }

    /** The branch for identity-mapped ranges. */
    method MapRange(ram: PhysicalMemory, alloc: FrameAllocator, begin: PageNo, end: PageNo, perms: Flags)
      returns (r: Outcome<()>)
      requires HeapOk(alloc) && begin <= end
      modifies this, ram, alloc
      ensures match MapAll(old(MachineOf(ram, alloc)), old(TableOf()), RangeRequests(begin, end, perms))
              case Panic => r.Panic?
              case Ok((m, t)) => r == Ok(()) && HeapOk(alloc) && MachineOf(ram, alloc) == m && TableOf() == t
    {
      ghost var rs := RangeRequests(begin, end, perms);
      ghost var target := MapAll(MachineOf(ram, alloc), TableOf(), rs);
      var pages := new SimpleRangeIterator(begin, end);
      while true
        invariant HeapOk(alloc) && pages.current <= end && rs == RangeRequests(pages.current, end, perms)
        invariant MapAll(MachineOf(ram, alloc), TableOf(), rs) == target
        decreases end - pages.current
      {
        var page := pages.Next();
        if page.value.None? {
          return Ok(());
        }
        var va := BaseOfPage(page.value.value, end, perms, rs);
        r := MapFirst(ram, alloc, va, va, perms, rs);
        if r.Panic? {
          return Panic;
        }
        rs := rs[1..];
      }
    }

    /** The same loop over a range whose end lies below its begin: it never meets the end, and
        panics at the latest when the address of a page overflows. */
    method MapBackward(ram: PhysicalMemory, alloc: FrameAllocator, area: VirtArea) returns (r: Outcome<()>)
      requires HeapOk(alloc) && Backward(area)
      modifies this, ram, alloc
      ensures r.Panic?
    {
      var pages := new SimpleRangeIterator(area.begin, area.end);
      while true
        invariant HeapOk(alloc) && area.end < pages.current <= 0x10_0000_0000_0000
        decreases 0x10_0000_0000_0000 - pages.current
      {
        var page := pages.Next();
        var n := page.value.value;
        if n * PAGE_SIZE >= TWO64 {
          return Panic;
        }
        r := MapFirst(ram, alloc, n * PAGE_SIZE, n * PAGE_SIZE, area.perms, []);
        if r.Panic? {
          return Panic;
        }
      }
    }

    /** The branch for tracked frames. */
    method MapFrames(ram: PhysicalMemory, alloc: FrameAllocator, area: VirtArea) returns (r: Outcome<()>)
      requires HeapOk(alloc) && !area.identical
      modifies this, ram, alloc
      ensures match MapArea(old(MachineOf(ram, alloc)), old(TableOf()), area)
              case Panic => r.Panic?
              case Ok((m, t)) => r == Ok(()) && HeapOk(alloc) && MachineOf(ram, alloc) == m && TableOf() == t
    {
      ghost var target := MapArea(MachineOf(ram, alloc), TableOf(), area);
      ghost var rs := AreaRequests(area);
      var i := 0;
      while i < |area.frames|
        invariant HeapOk(alloc) && 0 <= i <= |area.frames|
        invariant MapAll(MachineOf(ram, alloc), TableOf(), rs[i..]) == target
      {
        var (va, source) := area.frames[i];
        assert rs[i..][0] == FrameRequest(area.frames[i], area.perms) && rs[i..][1..] == rs[i + 1..];
        if source.CowShared? {
          return Panic;
        }
        var done := MapFirst(ram, alloc, va, BaseAddr(source.frame), area.perms, rs[i..]);
        if done.Panic? {
          return Panic;
        }
        i := i + 1;
      }
      return Ok(());
    }

    /** `PageTableGuard::map_one`. */
    method MapPageInPlace(ram: PhysicalMemory, va: Word, pa: Word, flags: Flags) returns (r: Outcome<Option<()>>)
      modifies ram
      ensures match MapOne(old(MemoryOf(ram.frames)), rootNode, va, pa, flags)
              case Panic => r.Panic?
              case Ok(None) => r == Ok(None) && ram.frames == old(ram.frames)
              case Ok(Some(mem)) => r == Ok(Some(())) && MemoryOf(ram.frames) == mem
    {
      var w := FindSlot(ram, va);
      match w
      case Fault => return Panic;
      case Missing => return Ok(None);
      case Slot(frame, index) =>
        var valid := EntryIsValid(ram.frames[frame][index]);
        if valid.Panic? || valid.value {
          return Panic;
        }
        var pte := MakeEntry(pa, OrValid(flags));
        MemoryOfWrite(ram.frames, frame, index, pte);
        ram.frames := ram.frames[frame := ram.frames[frame][index := pte]];
        return Ok(Some(()));
    }

    /** `PageTableGuard::translate`. */
    method TranslateAddr(ram: PhysicalMemory, va: Word) returns (r: Outcome<Option<(Word, Flags)>>)
      ensures r == Translate(MemoryOf(ram.frames), rootNode, va)
    {
      var w := FindSlot(ram, va);
      match w
      case Fault => return Panic;
      case Missing => return Ok(None);
      case Slot(frame, index) =>
        var pte := ram.frames[frame][index];
        var flags := EntryFlags(pte);
        if flags.Panic? {
          return Panic;
        }
        TranslatedWord(pte, va);
        hide WithOffset, ReferencingAddress, Offset, MaskedOffset;
        return Ok(Some((WithOffset(ReferencingAddress(pte), Offset(va)), flags.value)));
    }

    /** One turn of the verification loops. */
    method VerifyPage(ram: PhysicalMemory, va: Word, pa: Word, flags: Flags) returns (passed: bool)
      ensures passed == Verifies(MemoryOf(ram.frames), rootNode, Map(va, pa, flags))
    {
      var w := FindSlot(ram, va);
      match w
      case Fault => return false;
      case Missing => return true;
      case Slot(frame, index) =>
        var pte := ram.frames[frame][index];
        return EntryFlags(pte).Ok? && ReferencingAddress(pte) == pa && EntryFlags(pte) == Ok(OrValid(flags));
    }

    /** `PageTableGuard::verify_virt_area_mapping`; false stands for a failed assertion. */
    method VerifyVirtArea(ram: PhysicalMemory, area: VirtArea) returns (passed: bool)
      ensures passed <==> !Backward(area) && VerifiesAll(MemoryOf(ram.frames), rootNode, AreaRequests(area))
    {
      if area.identical {
        passed := VerifyRange(ram, area);
      } else {
        passed := VerifyFrames(ram, area);
      }
    }

    /** The branch for identity-mapped ranges; the range iterator stops only on equality. */
    method VerifyRange(ram: PhysicalMemory, area: VirtArea) returns (passed: bool)
      requires area.identical
      ensures passed <==> area.begin <= area.end && VerifiesAll(MemoryOf(ram.frames), rootNode, AreaRequests(area))
    {
      ghost var rs, mem := AreaRequests(area), MemoryOf(ram.frames);
      var pages := new SimpleRangeIterator(area.begin, area.end);
      while true
        invariant area.begin <= pages.current <= 0x10_0000_0000_0000
        invariant area.begin <= area.end ==> pages.current <= area.end
        invariant area.begin <= area.end ==>
                    forall i :: 0 <= i < pages.current - area.begin ==> Verifies(mem, rootNode, rs[i])
        decreases 0x10_0000_0000_0000 - pages.current
      {
        var page := pages.Next();
        if page.value.None? {
          return true;
        }
        var n := page.value.value;
        if n * PAGE_SIZE >= TWO64 {
          return false;
        }
        var ok := VerifyPage(ram, n * PAGE_SIZE, n * PAGE_SIZE, area.perms);
        assert area.begin <= area.end ==> rs[n - area.begin] == Map(BaseAddr(n), BaseAddr(n), area.perms);
        if !ok {
          return false;
        }
      }
    }

    /** The branch for tracked frames. */
    method VerifyFrames(ram: PhysicalMemory, area: VirtArea) returns (passed: bool)
      requires !area.identical
      ensures passed <==> VerifiesAll(MemoryOf(ram.frames), rootNode, AreaRequests(area))
    {
      ghost var rs, mem := AreaRequests(area), MemoryOf(ram.frames);
      var i := 0;
      while i < |area.frames|
        invariant 0 <= i <= |area.frames|
        invariant forall k :: 0 <= k < i ==> Verifies(mem, rootNode, rs[k])
      {
        var (va, source) := area.frames[i];
        assert rs[i] == FrameRequest(area.frames[i], area.perms);
        if source.CowShared? {
          return false;
        }
        var ok := VerifyPage(ram, va, BaseAddr(source.frame), area.perms);
        if !ok {
          return false;
        }
        i := i + 1;
      }
      return true;
    }

    /** `lock_table` (writable false) and `unlock_table` (writable true). */
    method RelabelNodes(ram: PhysicalMemory, writable: bool) returns (r: Outcome<()>)
      modifies ram
      ensures match RelabelAll(old(MemoryOf(ram.frames)), rootNode, nodeFrames, writable)
              case Panic => r.Panic?
              case Ok(mem) => r == Ok(()) && MemoryOf(ram.frames) == mem
    {
      ghost var target := RelabelAll(MemoryOf(ram.frames), rootNode, nodeFrames, writable);
      var i := 0;
      while i < |nodeFrames|
        invariant 0 <= i <= |nodeFrames|
        invariant RelabelAll(MemoryOf(ram.frames), rootNode, nodeFrames[i..], writable) == target
      {
        assert nodeFrames[i..][0] == nodeFrames[i] && nodeFrames[i..][1..] == nodeFrames[i + 1..];
        var done := RelabelNode(ram, BaseAddr(nodeFrames[i]), writable);
        if done.Panic? {
          return Panic;
        }
        i := i + 1;
      }
      return Ok(());
    }

    /** One turn of the loop. */
    method RelabelNode(ram: PhysicalMemory, va: Word, writable: bool) returns (r: Outcome<()>)
      modifies ram
      ensures match Relabel(old(MemoryOf(ram.frames)), rootNode, va, writable)
              case Panic => r.Panic?
              case Ok(mem) => r == Ok(()) && MemoryOf(ram.frames) == mem
    {
      var w := FindSlot(ram, va);
      match w
      case Fault => return Panic;
      case Missing => return Panic;
      case Slot(frame, index) =>
        var pte := ram.frames[frame][index];
        var flags := EntryFlags(pte);
        if flags.Panic? {
          return Panic;
        }
        var edited := MakeEntry(ReferencingAddress(pte), MaskWritable(flags.value, writable));
        BaseAddrIs(Target(PteOf(pte)), ReferencingAddress(pte));
        MemoryOfWrite(ram.frames, frame, index, edited);
        ram.frames := ram.frames[frame := ram.frames[frame][index := edited]];
        return Ok(());
    }
  }

  lemma TranslatedWord(pte: Word, va: Word)
    ensures WithOffset(ReferencingAddress(pte), Offset(va)) == BaseAddr(Target(PteOf(pte))) + MaskedOffset(va)
  {
    WithMaskedOffset(Target(PteOf(pte)), va);
  }

  lemma FinishWord(g: Grown, root: Frame, pa: Word, flags: Flags, before: Word)
    requires g.frame in g.m.mem && g.index < ENTRIES && g.m.mem[g.frame][g.index] == PteOf(before)
    ensures var pte := MakeEntry(pa, OrValid(flags));
            FinishMap(g, root, pa, flags) ==
              if EntryIsValid(before) != Ok(false) || ReferencingAddress(pte) != pa
                || EntryFlags(pte) != Ok(OrValid(flags)) then Panic
              else Ok((g.m.(mem := Write(g.m.mem, g.frame, g.index, PteOf(pte))), Table(root, g.nodes)))
  {
  }

  /** What `find_allocate` asserts about the entry it wrote for a new node. */
  lemma NodeEntry(f: Frame, pte: Word)
    requires pte == MakeEntry(BaseAddr(f), VALID)
    ensures ReferencingAddress(pte) == BaseAddr(f) && EntryFlags(pte) == Ok(VALID)
    ensures FrameOf(ReferencingAddress(pte)) == f && PteOf(pte) == Pte(f, VALID)
  {
  }

  lemma WalkWord(mem: Memory, table: Frame, va: Word, level: nat, pte: Word)
    requires 1 <= level <= 2 && table in mem && mem[table][Index(va, level)] == PteOf(pte)
    ensures EntryIsValid(pte).Panic? ==> Walk(mem, table, va, level) == Fault
    ensures EntryIsValid(pte) == Ok(false) ==> Walk(mem, table, va, level) == Missing
    ensures EntryIsValid(pte) == Ok(true) ==>
              Walk(mem, table, va, level) == Walk(mem, FrameOf(ReferencingAddress(pte)), va, level - 1)
  {
    FrameOfTarget(pte);
  }

  lemma FrameOfTarget(pte: Word)
    ensures FrameOf(ReferencingAddress(pte)) == Target(PteOf(pte))
  {
  }

  lemma FindAllocateFaults(m: Machine, nodes: seq<Frame>, table: Frame, va: Word, level: nat)
    requires HeapFits(m) && level <= 2 && table !in m.mem
    ensures FindAllocate(m, nodes, table, va, level).Panic?
  {
  }

  lemma DescendWord(m: Machine, nodes: seq<Frame>, table: Frame, index: nat, pte: Word)
    requires HeapFits(m) && table in m.mem && index < ENTRIES && m.mem[table][index] == PteOf(pte)
    ensures EntryIsValid(pte).Panic? ==> Descend(m, nodes, table, index).Panic?
    ensures EntryIsValid(pte) == Ok(true) ==>
              Descend(m, nodes, table, index) == Ok((m, nodes, FrameOf(ReferencingAddress(pte))))
    ensures EntryIsValid(pte) == Ok(false) ==>
              Descend(m, nodes, table, index) ==
                match AllocateZeroed(m)
                case Panic => Panic
                case Ok((m', f)) => Ok((m'.(mem := Write(m'.mem, table, index, Pte(f, VALID))), nodes + [f], f))
  {
    FrameOfTarget(pte);
  }
}
