/** Making, locking and dropping address spaces (kernel/src/mm/address_space.rs). */
module AddressSpaces {
  import opened Wrappers
  import opened Bits
  import opened Sv39Format
  import opened Layout
  import opened Machines
  import opened PageTables
  import opened TableShapes
  import opened Mapping
  import opened Locking
  import opened Requests
  import opened Areas
  import opened KernelAreas

  datatype Space = Space(table: Table, areas: seq<VirtArea>)

  // ------------------------------------------------------------------ ownership

  /** The exclusively allocated frames an area tracks. */
  function ExclusiveOf(frames: seq<(Word, FrameSource)>): seq<Frame> {
    if frames == [] then []
    else if frames[0].1.ExclusivelyAllocated? then [frames[0].1.frame] + ExclusiveOf(frames[1..])
    else ExclusiveOf(frames[1..])
  }

  function ExclusiveFrames(areas: seq<VirtArea>): seq<Frame> {
    if areas == [] then [] else ExclusiveOf(areas[0].frames) + ExclusiveFrames(areas[1..])
  }

  /** The frames that dropping a space gives back, in the order of the drops: the nodes of the
      table, then the frames of the areas. */
  function OwnedFrames(sp: Space): seq<Frame> {
    sp.table.nodes + ExclusiveFrames(sp.areas)
  }

  function ReleaseAll(m: Machine, fs: seq<Frame>): Outcome<Machine>
    decreases |fs|
  {
    if fs == [] then Ok(m)
    else
      var m' :- Release(m, fs[0]);
      ReleaseAll(m', fs[1..])
  }

  /** Dropping an `AddrSpace`. */
  function DropSpace(m: Machine, sp: Space): Outcome<Machine> {
    ReleaseAll(m, OwnedFrames(sp))
  }

  /** From m to m' an owner's frames went from fs to fs': the new ones were free, no other
      frame changed hands, and no memory outside fs' was touched. */
  ghost predicate Extends(m: Machine, fs: seq<Frame>, m': Machine, fs': seq<Frame>) {
    && m'.first == m.first && |m'.pages| == |m.pages| && MachineOk(m')
    && Free(m) + |fs| == Free(m') + |fs'| && Distinct(fs')
    && (forall f: Frame :: f in fs ==> f in fs')
    && (forall f: Frame :: f in fs' && f !in fs ==> !Live(m, f))
    && (forall f: Frame :: Live(m', f) <==> Live(m, f) || (f in fs' && f !in fs))
    && (forall f :: f in m.mem && f !in fs' ==> f in m'.mem && m'.mem[f] == m.mem[f])
  }

  lemma ExtendsTrans(m: Machine, a: seq<Frame>, m1: Machine, b: seq<Frame>, m2: Machine, c: seq<Frame>)
    requires Extends(m, a, m1, b) && Extends(m1, b, m2, c)
    ensures Extends(m, a, m2, c)
  {
  }

  /** An owner that keeps other live frames while it acquires b over a. */
  lemma ExtendsBeside(m: Machine, a: seq<Frame>, m': Machine, b: seq<Frame>, fs: seq<Frame>, fs': seq<Frame>)
    requires Extends(m, a, m', b) && Distinct(fs') && |fs'| - |fs| == |b| - |a|
    requires forall f: Frame :: f in fs ==> f in fs'
    requires forall f: Frame :: f in b ==> f in fs'
    requires forall f: Frame :: f in fs' && f !in fs <==> f in b && f !in a
    ensures Extends(m, fs, m', fs')
  {
  }

  /** m' is m with the live frames fs given back. */
  ghost predicate Returned(m: Machine, m': Machine, fs: seq<Frame>) {
    && m'.first == m.first && |m'.pages| == |m.pages| && MachineOk(m') && m'.mem == m.mem
    && Free(m') == Free(m) + |fs|
    && (forall f: Frame :: Live(m', f) <==> Live(m, f) && f !in fs)
  }

  /** Dropping distinct live frames never panics and frees exactly those. */
  lemma {:induction false} ReleaseAllReturns(m: Machine, fs: seq<Frame>)
    requires MachineOk(m) && Distinct(fs) && AllLive(m, fs)
    ensures ReleaseAll(m, fs).Ok? && Returned(m, ReleaseAll(m, fs).value, fs)
    decreases |fs|
  {
    if fs != [] {
      ReleaseFrees(m, fs[0]);
      var m' := Release(m, fs[0]).value;
      var rest := fs[1..];
      assert forall f :: f in fs <==> f == fs[0] || f in rest;
      assert fs[0] !in rest;
      ReleaseAllReturns(m', rest);
    }
  }

  /** The page vector is determined by which frames are live. */
  lemma PagesFromLive(m: Machine, m': Machine)
    requires MachineOk(m) && MachineOk(m') && m'.first == m.first && |m'.pages| == |m.pages|
    requires forall f: Frame :: Live(m', f) <==> Live(m, f)
    ensures m'.pages == m.pages
  {
    forall i | 0 <= i < |m.pages|
      ensures m'.pages[i] == m.pages[i]
    {
      assert Live(m', m.first + i) <==> Live(m, m.first + i);
    }
  }

  /** Giving back what was acquired restores the page vector exactly. */
  lemma AcquireThenReturn(m: Machine, m1: Machine, m2: Machine, fs: seq<Frame>)
    requires MachineOk(m) && Extends(m, [], m1, fs) && Returned(m1, m2, fs)
    ensures m2.pages == m.pages
  {
    PagesFromLive(m, m2);
  }

  // ---------------------------------------------------------------- kernel space

  /** `AddrSpace::make_kernel`. */
  function MakeKernel(m: Machine, l: Linker): Outcome<(Machine, Space)>
    requires HeapFits(m) && LinkerOk(l)
  {
    var (m', t) :- MakeTable(m, KernelAreaList(l));
    Ok((m', Space(t, KernelAreaList(l))))
  }

  lemma {:induction false} NothingExclusive(frames: seq<(Word, FrameSource)>)
    requires forall k :: 0 <= k < |frames| ==> frames[k].1.PhysBorrowed?
    ensures ExclusiveOf(frames) == []
  {
    if frames != [] {
      NothingExclusive(frames[1..]);
    }
  }

  /** Areas that only borrow their frames give none back. */
  lemma {:induction false} BorrowersOwnNothing(areas: seq<VirtArea>)
    requires forall a :: a in areas ==> BorrowsOnly(a)
    ensures ExclusiveFrames(areas) == []
    decreases |areas|
  {
    if areas != [] {
      assert areas[0] in areas;
      NothingExclusive(areas[0].frames);
      BorrowersOwnNothing(areas[1..]);
    }
  }

  lemma KernelOwnsNodes(l: Linker, t: Table)
    requires LinkerOk(l)
    ensures OwnedFrames(Space(t, KernelAreaList(l))) == t.nodes
  {
    KernelStacked(l);
    BorrowersOwnNothing(KernelAreaList(l));
  }

  lemma BuiltAcquires(m: Machine, view: map<nat, Leaf>, m': Machine, t: Table)
    requires Built(m, view, m', t)
    ensures Extends(m, [], m', t.nodes)
  {
    var s :| Shaped(m', t, s);
  }

  /** `make_kernel` succeeds exactly when the free frames suffice for its nodes; the space then
      tracks and maps exactly the kernel areas, and it took exactly its nodes. */
  lemma MakeKernelExact(m: Machine, l: Linker)
    requires MachineOk(m) && LinkerOk(l)
    ensures MakeKernel(m, l).Ok? <==> NodeCount(KernelView(l)) <= Free(m)
    ensures MakeKernel(m, l).Ok? ==>
              var (m', sp) := MakeKernel(m, l).value;
              && Built(m, KernelView(l), m', sp.table) && sp.areas == KernelAreaList(l)
              && OwnedFrames(sp) == sp.table.nodes && Extends(m, [], m', OwnedFrames(sp))
  {
    KernelStacked(l);
    MakeTableExact(m, KernelAreaList(l));
    var r := MakeTable(m, KernelAreaList(l));
    if r.Ok? {
      KernelOwnsNodes(l, r.value.1);
      BuiltAcquires(m, KernelView(l), r.value.0, r.value.1);
    }
  }

  /** Making a kernel space and dropping it leaves the allocator as it was. */
  lemma MakeThenDrop(m: Machine, l: Linker)
    requires MachineOk(m) && LinkerOk(l) && MakeKernel(m, l).Ok?
    ensures var (m', sp) := MakeKernel(m, l).value;
            DropSpace(m', sp).Ok? && DropSpace(m', sp).value.pages == m.pages
  {
    MakeKernelExact(m, l);
    var (m', sp) := MakeKernel(m, l).value;
    ReleaseAllReturns(m', OwnedFrames(sp));
    AcquireThenReturn(m, m', DropSpace(m', sp).value, OwnedFrames(sp));
  }

  // -------------------------------------------------------------- frame lemmas

  /** mem' holds the frames of nodes as mem does. */
  ghost predicate Agree(mem: Memory, mem': Memory, nodes: seq<Frame>) {
    forall f: Frame :: f in nodes && f in mem ==> f in mem' && mem'[f] == mem[f]
  }

  lemma TreeFrame(mem: Memory, mem': Memory, s: Shape, nodes: seq<Frame>)
    requires Tree(mem, s) && Lists(nodes, s) && Agree(mem, mem', nodes)
    ensures Tree(mem', s) && View(mem', s) == View(mem, s)
  {
    assert mem'[s.root] == mem[s.root];
    assert forall i :: i in s.dirs ==> s.dirs[i] in mem' && mem'[s.dirs[i]] == mem[s.dirs[i]];
    assert forall q :: q in s.leaves ==> s.leaves[q] in mem' && mem'[s.leaves[q]] == mem[s.leaves[q]];
    TreeSame(mem, mem', s);
  }

  lemma TreeSame(mem: Memory, mem': Memory, s: Shape)
    requires Tree(mem, s) && s.root in mem' && mem'[s.root] == mem[s.root]
    requires forall i :: i in s.dirs ==> s.dirs[i] in mem' && mem'[s.dirs[i]] == mem[s.dirs[i]]
    requires forall q :: q in s.leaves ==> s.leaves[q] in mem' && mem'[s.leaves[q]] == mem[s.leaves[q]]
    ensures Tree(mem', s) && View(mem', s) == View(mem, s)
  {
    assert RootOk(mem', s);
    assert DirsOk(mem', s);
    LeavesSame(mem, s, mem', s);
    ViewSame(mem, s, mem', s);
  }

  /** A table only depends on its own nodes: whatever else changes in memory or in the
      allocator, it stays well formed and keeps its map. */
  lemma WfFrame(m: Machine, t: Table, m': Machine)
    requires Wf(m, t) && MachineOk(m') && AllLive(m', t.nodes) && Agree(m.mem, m'.mem, t.nodes)
    ensures Wf(m', t) && Denote(m'.mem, t.root) == Denote(m.mem, t.root)
  {
    var s :| Shaped(m, t, s);
    TreeFrame(m.mem, m'.mem, s, t.nodes);
    DenoteIsView(m.mem, s);
    DenoteIsView(m'.mem, s);
    assert Shaped(m', t, s);
  }

  lemma WfLive(m: Machine, t: Table)
    requires Wf(m, t)
    ensures MachineOk(m) && AllLive(m, t.nodes) && Distinct(t.nodes)
  {
  }

  // -------------------------------------------------------------- locking spaces

  /** `lock_space` and `unlock_space`: the flags are edited while another kernel space is
      loaded, which is made before and dropped after. */
  function RelabelSpace(m: Machine, l: Linker, sp: Space, writable: bool): Outcome<Machine>
    requires HeapFits(m) && LinkerOk(l)
  {
    var (m1, other) :- MakeKernel(m, l);
    var m2 :- RelabelTable(m1, sp.table, writable);
    DropSpace(m2, other)
  }

  /** The allocator is as before, and no live or borrowed frame outside t has changed. */
  ghost predicate OthersKept(m: Machine, t: Table, m': Machine) {
    && m'.first == m.first && m'.pages == m.pages
    && (forall f :: f in m.mem && f !in t.nodes && (Live(m, f) || !InHeap(m, f)) ==>
          f in m'.mem && m'.mem[f] == m.mem[f])
  }

  /** The effect of locking or unlocking: the table has its flags edited, all else is kept. */
  ghost predicate SpaceRelabelled(m: Machine, t: Table, w: bool, m': Machine) {
    && OthersKept(m, t, m') && Wf(m', t)
    && Denote(m'.mem, t.root) == RelabelView(Denote(m.mem, t.root), IdentityPages(t.nodes), w)
  }

  lemma NodesReachableSame(m: Machine, m': Machine, t: Table)
    requires Denote(m'.mem, t.root) == Denote(m.mem, t.root)
    ensures NodesReachable(m', t) <==> NodesReachable(m, t)
  {
  }

  lemma AfterMakeKernel(m: Machine, l: Linker, t: Table)
    requires MachineOk(m) && LinkerOk(l) && Wf(m, t) && MakeKernel(m, l).Ok?
    ensures var m1 := MakeKernel(m, l).value.0;
            Wf(m1, t) && Denote(m1.mem, t.root) == Denote(m.mem, t.root)
  {
    MakeKernelExact(m, l);
    WfLive(m, t);
    var (m1, other) := MakeKernel(m, l).value;
    assert AllLive(m1, t.nodes);
    WfFrame(m, t, m1);
  }

  /** Locking a space succeeds exactly when a second kernel space can be made and every node's
      identity page has a slot. */
  lemma RelabelSpaceOkIff(m: Machine, l: Linker, sp: Space, w: bool)
    requires MachineOk(m) && LinkerOk(l) && Wf(m, sp.table)
    ensures RelabelSpace(m, l, sp, w).Ok? <==> NodeCount(KernelView(l)) <= Free(m) && NodesReachable(m, sp.table)
  {
    MakeKernelExact(m, l);
    var r := MakeKernel(m, l);
    if r.Ok? {
      var (m1, other) := r.value;
      AfterMakeKernel(m, l, sp.table);
      NodesReachableSame(m, m1, sp.table);
      RelabelTableOkIff(m1, sp.table, w);
      var r2 := RelabelTable(m1, sp.table, w);
      if r2.Ok? {
        RelabelTableEdits(m1, sp.table, w);
        SamePagesLive(m1, r2.value, OwnedFrames(other));
        ReleaseAllReturns(r2.value, OwnedFrames(other));
      }
    }
  }

  lemma SamePagesLive(m: Machine, m': Machine, fs: seq<Frame>)
    requires MachineOk(m) && m' == m.(mem := m'.mem)
    ensures MachineOk(m') && (AllLive(m, fs) <==> AllLive(m', fs)) && Free(m') == Free(m)
    ensures forall f: Frame :: Live(m', f) <==> Live(m, f)
  {
  }

  lemma RelabelSpaceEdits(m: Machine, l: Linker, sp: Space, w: bool)
    requires MachineOk(m) && LinkerOk(l) && Wf(m, sp.table) && RelabelSpace(m, l, sp, w).Ok?
    ensures SpaceRelabelled(m, sp.table, w, RelabelSpace(m, l, sp, w).value)
  {
    var t := sp.table;
    MakeKernelExact(m, l);
    var (m1, other) := MakeKernel(m, l).value;
    AfterMakeKernel(m, l, t);
    RelabelTableEdits(m1, t, w);
    var m2 := RelabelTable(m1, t, w).value;
    SamePagesLive(m1, m2, OwnedFrames(other));
    ReleaseAllReturns(m2, OwnedFrames(other));
    var m3 := DropSpace(m2, other).value;
    PagesFromLive(m, m3);
    WfLive(m, t);
    WfFrame(m2, t, m3);
    OthersUntouched(m, t, m1, other.table.nodes, m2);
  }

  lemma OthersUntouched(m: Machine, t: Table, m1: Machine, taken: seq<Frame>, m2: Machine)
    requires Grew(m, [], m1, taken) && OnlyNodesDiffer(m1.mem, m2.mem, t.nodes)
    ensures forall f :: f in m.mem && f !in t.nodes && (Live(m, f) || !InHeap(m, f)) ==>
              f in m2.mem && m2.mem[f] == m.mem[f]
  {
  }

  /** The allocator of m manages the heap of the linker script. */
  predicate HeapMatches(m: Machine, l: Linker) {
    m.first == l.stackEnd / PAGE_SIZE && m.first + |m.pages| == l.heapEnd / PAGE_SIZE
  }

  /** Every node of a table is in the identity-mapped heap of a kernel space, so locking it
      never meets a missing slot. */
  lemma KernelReachable(m: Machine, l: Linker, t: Table)
    requires Wf(m, t) && LinkerOk(l) && HeapMatches(m, l) && HeapIdentity(l, Denote(m.mem, t.root))
    ensures NodesReachable(m, t)
  {
    WfLive(m, t);
    forall f: Frame | f in t.nodes
      ensures RegionOf(IdentityPage(f)) in Regions(Denote(m.mem, t.root))
    {
      assert Live(m, f) && InLinkerHeap(l, f);
      VpnOfFrame(f);
      assert f in Denote(m.mem, t.root);
    }
  }

  /** Editing flags moves no page. */
  lemma RelabelKeepsIdentity(l: Linker, view: map<nat, Leaf>, pages: set<nat>, w: bool)
    requires HeapIdentity(l, view)
    ensures HeapIdentity(l, RelabelView(view, pages, w))
  {
  }

  lemma SlotOfMapped(mem: Memory, root: Frame, f: Frame)
    requires f < VPNS && f in Denote(mem, root)
    ensures SlotWritable(mem, root, BaseAddr(f)) <==> IsWritable(Denote(mem, root)[f].flags)
  {
  }

  /** A new kernel space can be locked, and unlocking it restores the memory to the bit. */
  lemma KernelLockCycle(m: Machine, l: Linker)
    requires MachineOk(m) && LinkerOk(l) && HeapMatches(m, l) && MakeKernel(m, l).Ok?
    ensures var (m1, sp) := MakeKernel(m, l).value;
            && RelabelTable(m1, sp.table, false).Ok?
            && RelabelTable(RelabelTable(m1, sp.table, false).value, sp.table, true) == Ok(m1)
  {
    MakeKernelExact(m, l);
    var (m1, sp) := MakeKernel(m, l).value;
    KernelTableCycle(m1, l, sp.table);
  }

  lemma KernelTableCycle(m: Machine, l: Linker, t: Table)
    requires Wf(m, t) && LinkerOk(l) && HeapMatches(m, l) && Denote(m.mem, t.root) == KernelView(l)
    ensures RelabelTable(m, t, false).Ok? && RelabelTable(RelabelTable(m, t, false).value, t, true) == Ok(m)
  {
    KernelHeap(l, Denote(m.mem, t.root));
    KernelReachable(m, l, t);
    KernelWritable(m, l, t);
    UnlockUndoesLockIff(m, t);
  }

  lemma KernelHeap(l: Linker, view: map<nat, Leaf>)
    requires LinkerOk(l) && view == KernelView(l)
    ensures HeapIdentity(l, view)
    ensures forall n: nat :: InLinkerHeap(l, n) ==> n in view && IsWritable(view[n].flags)
  {
    KernelViewHolds(l);
  }

  lemma KernelWritable(m: Machine, l: Linker, t: Table)
    requires Wf(m, t) && LinkerOk(l) && HeapMatches(m, l)
    requires forall n: nat :: InLinkerHeap(l, n) ==>
               n in Denote(m.mem, t.root) && IsWritable(Denote(m.mem, t.root)[n].flags)
    ensures NodesWritable(m, t)
  {
    WfLive(m, t);
    forall f: Frame | f in t.nodes
      ensures SlotWritable(m.mem, t.root, BaseAddr(f))
    {
      assert Live(m, f) && InLinkerHeap(l, f);
      SlotOfMapped(m.mem, t.root, f);
    }
  }
}
