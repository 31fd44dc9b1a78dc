/** Physical memory together with the frame allocator that hands its frames out. */
module Machines {
  import opened Wrappers
  import opened Bits
  import opened Sv39Format
  import opened Arithmetics
  import opened FrameAllocators
  import opened FrameRuns

  /** A frame read as 512 entries. */
  type Node = n: seq<Pte> | |n| == ENTRIES witness seq(ENTRIES, i => Pte(0, 0))

  type Memory = map<Frame, Node>

  function ZeroNode(): (n: Node)
    ensures forall i :: 0 <= i < ENTRIES ==> n[i] == Pte(0, 0)
  {
    seq(ENTRIES, i => Pte(0, 0))
  }

  function Write(mem: Memory, f: Frame, i: nat, e: Pte): Memory
    requires f in mem && i < ENTRIES
  {
    mem[f := mem[f][i := e]]
  }

  /** first is the number of the frame at the allocator's base address. */
  datatype Machine = Machine(mem: Memory, pages: seq<Word>, first: Frame)

  /** The heap lies below the 56-bit physical limit. */
  predicate HeapFits(m: Machine) {
    m.first + |m.pages| <= 0x1000_0000_0000
  }

  /** Every frame was requested alone. */
  ghost predicate MachineOk(m: Machine) {
    HeapFits(m) && forall i :: 0 <= i < |m.pages| ==> m.pages[i] == 0 || m.pages[i] == 1
  }

  predicate InHeap(m: Machine, f: nat) {
    m.first <= f < m.first + |m.pages|
  }

  predicate Live(m: Machine, f: nat) {
    InHeap(m, f) && m.pages[f - m.first] != 0
  }

  function Free(m: Machine): nat {
    FreeCount(m.pages)
  }

  /** `FrameGuard::allocate_zeroed`. */
  function AllocateZeroed(m: Machine): (r: Outcome<(Machine, Frame)>)
    requires HeapFits(m)
    ensures r.Ok? ==> HeapFits(r.value.0)
  {
    var (pages, pa) :- AllocateOne(m.pages, BaseAddr(m.first));
    var f := pa / PAGE_SIZE;
    Ok((Machine(m.mem[f := ZeroNode()], pages, m.first), f))
  }

  /** Dropping a `FrameGuard`. */
  function Release(m: Machine, f: Frame): Outcome<Machine> {
    var pages :- Deallocation(m.pages, BaseAddr(m.first), BaseAddr(f));
    Ok(m.(pages := pages))
  }

  /** m' is m with frame f taken and zeroed. */
  ghost predicate Takes(m: Machine, m': Machine, f: Frame) {
    && m'.first == m.first && |m'.pages| == |m.pages| && Free(m) == Free(m') + 1
    && !Live(m, f) && Live(m', f) && (forall g :: g != f ==> Live(m', g) == Live(m, g))
    && m'.mem == m.mem[f := ZeroNode()]
  }

  /** An allocated frame was free, and nothing else changes hands; the allocator fails exactly
      when no page is free. */
  lemma AllocateZeroedTakes(m: Machine)
    requires MachineOk(m)
    ensures match AllocateZeroed(m)
            case Panic => Free(m) == 0
            case Ok((m', f)) => Free(m) > 0 && MachineOk(m') && Takes(m, m', f)
  {
    FreeCountZero(m.pages);
    var i := FirstFree(m.pages);
    if i < |m.pages| {
      FreeCountUpdate(m.pages, i, 1);
      assert (BaseAddr(m.first) + i * PAGE_SIZE) / PAGE_SIZE == m.first + i;
    }
  }

  /** Releasing a live frame never panics and frees that frame only. */
  lemma ReleaseFrees(m: Machine, f: Frame)
    requires MachineOk(m) && Live(m, f)
    ensures Release(m, f) == Ok(m.(pages := m.pages[f - m.first := 0]))
    ensures var m' := Release(m, f).value;
            && MachineOk(m') && Free(m') == Free(m) + 1
            && !Live(m', f) && forall g :: g != f ==> Live(m', g) == Live(m, g)
  {
    var i := f - m.first;
    DeallocatePage(m.pages, BaseAddr(m.first), i, BaseAddr(f));
    FreeCountUpdate(m.pages, i, 0);
  }
}
