/** Trap frames as frames of memory (kernel/src/asm/trampoline.S, kernel/src/process/process.rs):
    over every run the trap frame of each process is its own, and the loads and stores of the
    trampoline, translated by the hardware through the process's table, reach that frame only.
    So the trap pages by `satp` that the trampoline is proved on are the memory of the run. */
module TrapSpaces {
  import opened Wrappers
  import opened Bits
  import opened Sv39Format
  import opened Layout
  import opened Machines
  import opened PageTables
  import opened Mapping
  import opened Requests
  import opened Areas
  import opened KernelAreas
  import opened AddressSpaces
  import opened UserSpaces
  import opened Sv39Hardware
  import opened Translating
  import opened SpaceFacts
  import opened Ownership
  import opened SpaceRuns
  import opened PageTableGuards
  import T = Trampoline
  import C = TrapCycles

  // -------------------------------------------------------- data frames over steps

  function DataAt(s: System, i: nat): seq<Frame>
    requires IsSpace(s, i)
  {
    ExclusiveFrames(s.holders[i].sp.areas)
  }

  /** Frame f is a data frame of space i, and memory. */
  ghost predicate HasData(s: System, i: nat, f: Frame) {
    IsSpace(s, i) && f in DataAt(s, i) && f in s.m.mem
  }

  /** Frame f is live, and of all holders only space i has it, and not as a node. */
  ghost predicate Private(s: System, i: nat, f: Frame) {
    && Live(s.m, f)
    && (forall j :: j in s.holders && j != i ==> f !in FramesOf(s.holders[j]))
    && (forall j :: IsSpace(s, j) ==> f !in TableAt(s, j).nodes)
  }

  lemma OnlyHolder(m: Machine, holders: map<nat, Holder>, i: nat, f: Frame)
    requires OneOwner(m, holders) && i in holders && f in FramesOf(holders[i])
    ensures Live(m, f) && forall j :: j in holders && j != i ==> f !in FramesOf(holders[j])
  {
    assert Holds(holders, i, f);
    forall j | j in holders && j != i
      ensures f !in FramesOf(holders[j])
    {
      assert f in FramesOf(holders[j]) ==> Holds(holders, j, f);
    }
  }

  /** The data frames of a space are private to it. */
  lemma DataIsPrivate(s: System, i: nat, f: Frame)
    requires OneOwner(s.m, s.holders) && HasData(s, i, f)
    ensures Private(s, i, f)
  {
    assert f in OwnedFrames(s.holders[i].sp);
    OnlyHolder(s.m, s.holders, i, f);
    if f in TableAt(s, i).nodes {
      TwiceIsNotDistinct(TableAt(s, i).nodes, DataAt(s, i), f);
    }
    forall j | IsSpace(s, j)
      ensures f !in TableAt(s, j).nodes
    {
      assert j != i ==> f !in OwnedFrames(s.holders[j].sp);
    }
  }

  /** Frame f of space i has in s' the content it has in s. */
  ghost predicate DataStays(s: System, s': System, i: nat, f: Frame) {
    HasData(s', i, f) && f in s.m.mem && s'.m.mem[f] == s.m.mem[f]
  }

  lemma GrowthKeepsData(s: System, j: nat, h: Holder, m': Machine, i: nat, f: Frame)
    requires HasData(s, i, f) && Private(s, i, f) && i != j
    requires Extends(s.m, FramesAt(s.holders, j), m', FramesOf(h))
    ensures DataStays(s, System(m', s.holders[j := h]), i, f)
  {
    assert f !in FramesAt(s.holders, j);
  }

  lemma NewSpaceKeepsData(l: Linker, s: System, op: Op, s': System, i: nat, f: Frame)
    requires LinkerOk(l) && MachineOk(s.m) && Step(l, s, op, s') && HasData(s, i, f) && Private(s, i, f)
    requires op.NewKernel? || op.NewInit? || op.NewGuard?
    ensures DataStays(s, s', i, f)
  {
    match op
    case NewKernel(j) =>
      MakeKernelExact(s.m, l);
      GrowthKeepsData(s, j, s'.holders[j], s'.m, i, f);
    case NewInit(j, text) =>
      var stack, code := MakeInitExact(s.m, l, text);
      GrowthKeepsData(s, j, s'.holders[j], s'.m, i, f);
    case NewGuard(j) =>
      AllocateExtends(s.m);
      GrowthKeepsData(s, j, s'.holders[j], s'.m, i, f);
  }

  lemma OwnTrapframeKeepsData(m: Machine, sp: Space, f: Frame)
    requires SpaceOk(m, sp) && HeapFits(m) && InitTrapframe(m, sp).Ok? && f in ExclusiveFrames(sp.areas) && f in m.mem
    ensures var (m', sp', _) := InitTrapframe(m, sp).value;
            f in ExclusiveFrames(sp'.areas) && f in m'.mem && m'.mem[f] == m.mem[f]
  {
    InitTrapframeAdds(m, sp);
    ExclusiveAppend(sp.areas, TrapframeArea(InitTrapframe(m, sp).value.2));
  }

  lemma AddTrapframeKeepsData(l: Linker, s: System, j: nat, s': System, i: nat, f: Frame)
    requires LinkerOk(l) && Step(l, s, AddTrapframe(j), s') && SpaceOk(s.m, s.holders[j].sp)
    requires HasData(s, i, f) && Private(s, i, f)
    ensures DataStays(s, s', i, f)
  {
    if i == j {
      OwnTrapframeKeepsData(s.m, s.holders[j].sp, f);
    } else {
      InitTrapframeAdds(s.m, s.holders[j].sp);
      GrowthKeepsData(s, j, s'.holders[j], s'.m, i, f);
    }
  }

  lemma MapPagesKeepsData(l: Linker, s: System, j: nat, rs: seq<Request>, s': System, i: nat, f: Frame)
    requires LinkerOk(l) && Step(l, s, MapPages(j, rs), s') && SpaceOk(s.m, s.holders[j].sp)
    requires HasData(s, i, f) && Private(s, i, f)
    ensures DataStays(s, s', i, f)
  {
    hide SpaceOk;
    hide MapAll;
    MapPagesExtends(s.m, s.holders[j].sp, rs);
    hide Wf;
    hide Denote;
    if i != j {
      GrowthKeepsData(s, j, s'.holders[j], s'.m, i, f);
    }
  }

  lemma EditSpares(m: Machine, t: Table, op: Op, f: Frame)
    requires Wf(m, t) && op.MapInPlace? && f in m.mem && f !in t.nodes
    ensures var r := MapOne(m.mem, t.root, op.va, op.pa, op.flags);
            r.Ok? && r.value.Some? ==> f in r.value.value && r.value.value[f] == m.mem[f]
  {
    MapOneFills(m, t, op.va, op.pa, op.flags);
  }

  lemma RelockSpares(m: Machine, l: Linker, sp: Space, w: bool, f: Frame)
    requires MachineOk(m) && LinkerOk(l) && Wf(m, sp.table) && RelabelSpace(m, l, sp, w).Ok?
    requires f in m.mem && Live(m, f) && f !in sp.table.nodes
    ensures var m' := RelabelSpace(m, l, sp, w).value;
            f in m'.mem && m'.mem[f] == m.mem[f]
  {
    RelabelSpaceEdits(m, l, sp, w);
  }

  lemma RelockKeepsData(l: Linker, s: System, j: nat, w: bool, s': System, i: nat, f: Frame)
    requires LinkerOk(l) && Step(l, s, Relock(j, w), s') && SpaceOk(s.m, s.holders[j].sp)
    requires HasData(s, i, f) && Private(s, i, f)
    ensures DataStays(s, s', i, f)
  {
    WfLive(s.m, TableAt(s, j));
    hide Wf, MachineOk, RelabelSpace, ExclusiveFrames;
    RelockSpares(s.m, l, s.holders[j].sp, w, f);
  }

  lemma InPlaceKeepsData(l: Linker, s: System, op: Op, s': System, i: nat, f: Frame)
    requires LinkerOk(l) && op.MapInPlace? && Step(l, s, op, s') && SpaceOk(s.m, s.holders[op.i].sp)
    requires HasData(s, i, f) && Private(s, i, f)
    ensures DataStays(s, s', i, f)
  {
    hide Wf, MachineOk, MapOne, ExclusiveFrames;
    EditSpares(s.m, TableAt(s, op.i), op, f);
  }

  lemma DropKeepsData(l: Linker, s: System, j: nat, s': System, i: nat, f: Frame)
    requires LinkerOk(l) && Step(l, s, Drop(j), s') && HasData(s, i, f) && i != j
    requires MachineOk(s.m) && Distinct(FramesOf(s.holders[j])) && AllLive(s.m, FramesOf(s.holders[j]))
    ensures DataStays(s, s', i, f)
  {
    ReleaseAllReturns(s.m, FramesOf(s.holders[j]));
  }

  lemma StoreKeepsData(l: Linker, s: System, op: Op, s': System, i: nat, f: Frame)
    requires LinkerOk(l) && op.StoreWord? && op.owner != i && Step(l, s, op, s') && HasData(s, i, f) && Private(s, i, f)
    ensures DataStays(s, s', i, f)
  {
    var (g, k) := StoreTarget(s.m.mem, MakeSatp(TableAt(s, op.i).root), op.va, op.mode).value;
    assert g in OwnedFrames(s.holders[op.owner].sp);
  }

  /** The step writes to a data frame of space i, or drops the space. */
  predicate Disturbs(op: Op, i: nat) {
    (op.Drop? && op.i == i) || (op.StoreWord? && op.owner == i)
  }

  /** The steps on a table. */
  lemma TableStepKeepsData(l: Linker, s: System, op: Op, s': System, i: nat, f: Frame)
    requires LinkerOk(l) && Step(l, s, op, s') && HasData(s, i, f) && Private(s, i, f)
    requires op.AddTrapframe? || op.MapPages? || op.MapInPlace? || op.Relock?
    requires SpaceOk(s.m, s.holders[op.i].sp)
    ensures DataStays(s, s', i, f)
  {
    hide SpaceOk;
    hide Private;
    hide DataStays;
    match op
    case AddTrapframe(j) => AddTrapframeKeepsData(l, s, j, s', i, f);
    case MapPages(j, rs) => MapPagesKeepsData(l, s, j, rs, s', i, f);
    case Relock(j, w) => RelockKeepsData(l, s, j, w, s', i, f);
    case MapInPlace(j, va, pa, flags) => InPlaceKeepsData(l, s, op, s', i, f);
  }

  /** The steps on no table. */
  lemma OtherStepKeepsData(l: Linker, s: System, op: Op, s': System, i: nat, f: Frame)
    requires LinkerOk(l) && Inv(s) && Step(l, s, op, s') && HasData(s, i, f) && Private(s, i, f)
    requires !Disturbs(op, i)
    requires !(op.AddTrapframe? || op.MapPages? || op.MapInPlace? || op.Relock?)
    ensures DataStays(s, s', i, f)
  {
    hide OneOwner, Wf, Denote, Private;
    match op
    case Drop(j) =>
      HolderIsOk(s, j);
      DropKeepsData(l, s, j, s', i, f);
    case StoreWord(j, owner, va, word, mode) => StoreKeepsData(l, s, op, s', i, f);
    case TakeFrame(j) =>
    case WrapFrame(j) =>
    case _ => NewSpaceKeepsData(l, s, op, s', i, f);
  }

  /** No step touches a data frame of a space but a store into that very space, and none but its
      drop takes it away. */
  lemma StepKeepsData(l: Linker, s: System, op: Op, s': System, i: nat, f: Frame)
    requires LinkerOk(l) && Inv(s) && Step(l, s, op, s') && HasData(s, i, f)
    requires !Disturbs(op, i)
    ensures DataStays(s, s', i, f)
  {
    DataIsPrivate(s, i, f);
    hide Private;
    hide DataStays;
    if op.AddTrapframe? || op.MapPages? || op.MapInPlace? || op.Relock? {
      HolderIsOk(s, op.i);
      TableStepKeepsData(l, s, op, s', i, f);
    } else {
      OtherStepKeepsData(l, s, op, s', i, f);
    }
  }

  // ---------------------------------------------------------------- trap frames

  /** Space i has f for its trap frame: mapped at the fixed address, and a data frame of its own. */
  ghost predicate TrapAt(s: System, i: nat, f: Frame) {
    && HasData(s, i, f)
    && TRAPFRAME_VPN in ViewAt(s, i) && ViewAt(s, i)[TRAPFRAME_VPN] == TrapLeaf(f)
  }

  /** `init_trapframe` gives a space its trap frame. */
  lemma AddTrapframeGives(l: Linker, s: System, i: nat, s': System)
    requires LinkerOk(l) && Inv(s) && Step(l, s, AddTrapframe(i), s')
    ensures TrapAt(s', i, InitTrapframe(s.m, s.holders[i].sp).value.2)
  {
    HolderIsOk(s, i);
    TrapframeGiven(s.m, s.holders[i].sp);
  }

  lemma TrapframeGiven(m: Machine, sp: Space)
    requires SpaceOk(m, sp) && HeapFits(m) && InitTrapframe(m, sp).Ok?
    ensures var (m', sp', f) := InitTrapframe(m, sp).value;
            && f in ExclusiveFrames(sp'.areas) && f in m'.mem
            && Denote(m'.mem, sp'.table.root) == Denote(m.mem, sp.table.root)[TRAPFRAME_VPN := TrapLeaf(f)]
  {
    InitTrapframeAdds(m, sp);
    var (m', sp', f) := InitTrapframe(m, sp).value;
    TrapframeView(f);
    ExclusiveAppend(sp.areas, TrapframeArea(f));
  }

  lemma TrapLeafStays(l: Linker, s: System, op: Op, s': System, i: nat, f: Frame)
    requires LinkerOk(l) && Inv(s) && HeapMatches(s.m, l) && Step(l, s, op, s') && TrapAt(s, i, f) && IsSpace(s', i)
    ensures TRAPFRAME_VPN in ViewAt(s', i) && ViewAt(s', i)[TRAPFRAME_VPN] == TrapLeaf(f)
  {
    StepRefines(l, s, op, s');
    var v, v' := ViewsOf(s), ViewsOf(s');
    assert i in v && i in v' && v[i] == ViewAt(s, i) && v'[i] == ViewAt(s', i);
    StepKeepsLeaf(l, v, op, v', i, TRAPFRAME_VPN);
    TrampolineNotInHeap(l);
  }

  /** No step takes the trap frame of a living space away. */
  lemma StepKeepsTrap(l: Linker, s: System, op: Op, s': System, i: nat, f: Frame)
    requires LinkerOk(l) && Inv(s) && HeapMatches(s.m, l) && Step(l, s, op, s') && TrapAt(s, i, f)
    requires !Disturbs(op, i)
    ensures TrapAt(s', i, f) && DataStays(s, s', i, f)
  {
    StepKeepsData(l, s, op, s', i, f);
    TrapLeafStays(l, s, op, s', i, f);
  }

  function SatpAt(s: System, i: nat): Word
    requires IsSpace(s, i)
  {
    MakeSatp(TableAt(s, i).root)
  }

  lemma RootHeld(m: Machine, sp: Space)
    requires Wf(m, sp.table)
    ensures sp.table.root in OwnedFrames(sp)
  {
  }

  lemma RootsApart(s: System, i: nat, j: nat)
    requires OneOwner(s.m, s.holders) && IsSpace(s, i) && IsSpace(s, j) && i != j
    requires Wf(s.m, TableAt(s, i)) && Wf(s.m, TableAt(s, j))
    ensures SatpAt(s, i) != SatpAt(s, j)
  {
    hide Wf, OneOwner, OwnedFrames;
    RootHeld(s.m, s.holders[i].sp);
    RootHeld(s.m, s.holders[j].sp);
    OnlyHolder(s.m, s.holders, i, TableAt(s, i).root);
  }

  /** Different spaces have different `satp` values and different trap frames. */
  lemma TrapsApart(s: System, i: nat, f: Frame, j: nat, g: Frame)
    requires Inv(s) && TrapAt(s, i, f) && TrapAt(s, j, g) && i != j
    ensures SatpAt(s, i) != SatpAt(s, j) && f != g
  {
    hide Wf;
    hide Denote;
    RootsApart(s, i, j);
    DataIsPrivate(s, i, f);
    assert g in FramesOf(s.holders[j]);
  }

  /** A store of the kernel at va on the table of space t reaches word k of frame f. */
  ghost predicate Reaches(s: System, t: nat, va: Word, f: Frame, k: nat) {
    IsSpace(s, t) && StoreTarget(s.m.mem, SatpAt(s, t), va, Supervisor) == Some((f, k))
  }

  /** The trap-frame address, translated by the hardware through the table of space i, leads to
      the words of its trap frame. */
  lemma TrapTarget(s: System, i: nat, f: Frame, va: Word, k: nat)
    requires Inv(s) && TrapAt(s, i, f) && k < ENTRIES && va == TRAPFRAME_BASE_USER_VA + 8 * k
    ensures Reaches(s, i, va, f, k)
  {
    DataIsPrivate(s, i, f);
    TrapWordTarget(s.m, TableAt(s, i), f, va, k);
  }

  lemma TrapWordTarget(m: Machine, t: Table, f: Frame, va: Word, k: nat)
    requires Wf(m, t) && f in m.mem && f < 0x1000_0000_0000 && k < ENTRIES && va == TRAPFRAME_BASE_USER_VA + 8 * k
    requires TRAPFRAME_VPN in Denote(m.mem, t.root) && Denote(m.mem, t.root)[TRAPFRAME_VPN] == TrapLeaf(f)
    ensures StoreTarget(m.mem, MakeSatp(t.root), va, Supervisor) == Some((f, k))
  {
    hide Wf, Denote, StoreTarget, HwTranslate, MakeSatp, Expected;
    ExpectedTrapframe(Denote(m.mem, t.root), f, k, va);
    HardwareAgrees(m, t, va);
    TargetOfWord(m.mem, MakeSatp(t.root), va, f, k, WithValid(RW));
  }

  /** In user mode no access at an address of the trap-frame page succeeds, in any state. */
  lemma TrapIsPrivileged(s: System, i: nat, f: Frame, va: Word, access: Access)
    requires Inv(s) && TrapAt(s, i, f) && va < MAX_VA && Vpn(va) == TRAPFRAME_VPN
    ensures HwAccess(s.m.mem, SatpAt(s, i), va, access, UserMode) == None
  {
    hide OneOwner, Denote, HwTranslate, MakeSatp, Wf;
    HardwareAgrees(s.m, TableAt(s, i), va);
    assert !IsUser(WithValid(RW));
  }

  // ------------------------------------------------- trap pages backed by memory

  /** A process: the `satp` of its table and its trap frame. */
  datatype User = User(satp: Word, frame: Frame)

  /** The content of each user's trap frame is its page of frames, as words. */
  ghost predicate Backs(s: System, users: map<nat, User>, frames: map<Word, T.TrapPage>) {
    Named(users, frames) && forall i :: i in users ==> Backed(s, i, users[i], frames)
  }

  /** The pages are those of the users, and no two users share `satp` or trap frame. */
  ghost predicate Named(users: map<nat, User>, frames: map<Word, T.TrapPage>) {
    && (forall i :: i in users ==> users[i].satp in frames)
    && (forall p :: p in frames ==> exists i :: i in users && users[i].satp == p)
    && (forall i, j :: i in users && j in users && i != j ==>
          users[i].satp != users[j].satp && users[i].frame != users[j].frame)
  }

  ghost predicate Backed(s: System, i: nat, u: User, frames: map<Word, T.TrapPage>) {
    TrapAt(s, i, u.frame) && SatpAt(s, i) == u.satp && u.satp in frames && s.m.mem[u.frame] == NodeOf(frames[u.satp])
  }

  lemma RootsStay(l: Linker, s: System, op: Op, s': System, i: nat)
    requires LinkerOk(l) && Inv(s) && Step(l, s, op, s') && IsSpace(s, i) && IsSpace(s', i)
    ensures TableAt(s', i).root == TableAt(s, i).root
  {
    hide OneOwner, Wf, Denote;
    if op.AddTrapframe? && op.i == i {
      HolderIsOk(s, i);
      TrapframeRoot(s.m, s.holders[i].sp);
    } else if op.MapPages? && op.i == i {
      MapAllMaps(s.m, TableAt(s, i), op.rs);
    }
  }

  lemma TrapframeRoot(m: Machine, sp: Space)
    requires SpaceOk(m, sp) && HeapFits(m) && InitTrapframe(m, sp).Ok?
    ensures InitTrapframe(m, sp).value.1.table.root == sp.table.root
  {
    WfLive(m, sp.table);
    AfterAllocate(m, sp.table);
    var (m1, f) := AllocateZeroed(m).value;
    TrapframeView(f);
    MapAllMaps(m1, sp.table, AreaRequests(TrapframeArea(f)));
  }

  lemma StepKeepsBacked(l: Linker, s: System, op: Op, s': System, i: nat, u: User, frames: map<Word, T.TrapPage>)
    requires LinkerOk(l) && Inv(s) && HeapMatches(s.m, l) && Step(l, s, op, s') && Backed(s, i, u, frames)
    requires !Disturbs(op, i)
    ensures Backed(s', i, u, frames)
  {
    hide Step;
    hide Inv;
    StepKeepsTrap(l, s, op, s', i, u.frame);
    RootsStay(l, s, op, s', i);
  }

  /** No step changes the trap page of any process, but a store into that process's frames,
      whatever else happens to memory, tables and allocator. */
  lemma StepKeepsBacks(l: Linker, s: System, op: Op, s': System, users: map<nat, User>, frames: map<Word, T.TrapPage>)
    requires LinkerOk(l) && Inv(s) && HeapMatches(s.m, l) && Step(l, s, op, s') && Backs(s, users, frames)
    requires forall i :: i in users ==> !Disturbs(op, i)
    ensures Backs(s', users, frames)
  {
    hide Step;
    hide Inv;
    hide Backed;
    forall i | i in users
      ensures Backed(s', i, users[i], frames)
    {
      StepKeepsBacked(l, s, op, s', i, users[i], frames);
    }
  }

  // --------------------------------------------------------------- new processes

  function ZeroPage(): (p: T.TrapPage)
    ensures forall k :: 0 <= k < ENTRIES ==> p[k] == 0
  {
    seq(ENTRIES, k => 0)
  }

  lemma NewTrapZero(m: Machine, sp: Space)
    requires SpaceOk(m, sp) && HeapFits(m) && InitTrapframe(m, sp).Ok?
    ensures var (m', sp', f) := InitTrapframe(m, sp).value;
            f in m'.mem && m'.mem[f] == NodeOf(ZeroPage())
  {
    hide SpaceOk, Extends, Denote, InitTrapframe;
    InitTrapframeAdds(m, sp);
    assert NodeOf(ZeroPage()) == ZeroNode();
  }

  /** The trap frame that a step adds to space i. */
  function NewUser(s: System, i: nat): User
    requires IsSpace(s, i) && HeapFits(s.m) && InitTrapframe(s.m, s.holders[i].sp).Ok?
  {
    User(SatpAt(s, i), InitTrapframe(s.m, s.holders[i].sp).value.2)
  }

  lemma NewTrapBacked(l: Linker, s: System, i: nat, s': System, frames: map<Word, T.TrapPage>)
    requires LinkerOk(l) && Inv(s) && Step(l, s, AddTrapframe(i), s')
    ensures var u := NewUser(s, i);
            Backed(s', i, u, frames[u.satp := ZeroPage()])
  {
    HolderIsOk(s, i);
    AddTrapframeGives(l, s, i, s');
    NewTrapZero(s.m, s.holders[i].sp);
    RootsStay(l, s, AddTrapframe(i), s', i);
  }

  lemma NotYetUser(l: Linker, s: System, i: nat, s': System, u: User, frames: map<Word, T.TrapPage>)
    requires LinkerOk(l) && Inv(s) && Step(l, s, AddTrapframe(i), s')
    ensures !Backed(s, i, u, frames)
  {
    HolderIsOk(s, i);
    InitTrapframeOkIff(s.m, s.holders[i].sp);
  }

  lemma BackedBeside(s: System, i: nat, u: User, j: nat, v: User, frames: map<Word, T.TrapPage>, page: T.TrapPage)
    requires Inv(s) && Backed(s, i, u, frames) && Backed(s, j, v, frames[v.satp := page]) && i != j
    ensures Backed(s, i, u, frames[v.satp := page]) && u.satp != v.satp && u.frame != v.frame
  {
    hide Inv;
    hide TrapAt;
    TrapsApart(s, i, u.frame, j, v.frame);
  }

  lemma NamedWith(users: map<nat, User>, frames: map<Word, T.TrapPage>, i: nat, u: User, page: T.TrapPage)
    requires Named(users, frames) && i !in users
    requires forall j :: j in users ==> users[j].satp != u.satp && users[j].frame != u.frame
    ensures Named(users[i := u], frames[u.satp := page])
  {
    var users', frames' := users[i := u], frames[u.satp := page];
    forall p | p in frames'
      ensures exists j :: j in users' && users'[j].satp == p
    {
      if p == u.satp {
        assert users'[i].satp == p;
      } else {
        var j :| j in users && users[j].satp == p;
        assert users'[j].satp == p;
      }
    }
  }

  /** A new trap frame starts as a page of zeros, beside those of the other processes. */
  lemma NewTrapBacks(l: Linker, s: System, i: nat, s': System, users: map<nat, User>, frames: map<Word, T.TrapPage>)
    requires LinkerOk(l) && Inv(s) && HeapMatches(s.m, l) && Backs(s, users, frames)
    requires IsSpace(s, i) && HeapFits(s.m) && InitTrapframe(s.m, s.holders[i].sp).Ok?
    requires Step(l, s, AddTrapframe(i), s')
    ensures i !in users
    ensures var u := NewUser(s, i);
            Backs(s', users[i := u], frames[u.satp := ZeroPage()])
  {
    hide Step;
    hide Inv;
    hide Backed;
    hide InitTrapframe;
    var u := NewUser(s, i);
    if i in users {
      NotYetUser(l, s, i, s', users[i], frames);
    }
    StepKeepsInv(l, s, AddTrapframe(i), s');
    StepKeepsBacks(l, s, AddTrapframe(i), s', users, frames);
    NewTrapBacked(l, s, i, s', frames);
    forall j | j in users
      ensures Backed(s', j, users[j], frames[u.satp := ZeroPage()])
      ensures users[j].satp != u.satp && users[j].frame != u.frame
    {
      BackedBeside(s', j, users[j], i, u, frames, ZeroPage());
    }
    NamedWith(users, frames, i, u, ZeroPage());
  }

  // ------------------------------------------------------------- stores and loads

  /** The state after a store of word into word k of frame f. */
  function Stored(s: System, f: Frame, k: nat, word: Word): System
    requires f in s.m.mem && k < ENTRIES
  {
    System(s.m.(mem := Write(s.m.mem, f, k, PteOf(word))), s.holders)
  }

  /** A store that reaches a trap frame, through whatever table, is a step of the run. */
  lemma StoreIsStep(l: Linker, s: System, t: nat, i: nat, f: Frame, va: Word, k: nat, word: Word)
    requires LinkerOk(l) && Inv(s) && TrapAt(s, i, f) && Reaches(s, t, va, f, k)
    ensures k < ENTRIES && Step(l, s, StoreWord(t, i, va, word, Supervisor), Stored(s, f, k, word))
  {
  }

  /** The kernel reaches every trap frame at its physical address, on its locked table too. */
  lemma KernelReachesTrap(l: Linker, s: System, kern: nat, i: nat, f: Frame, k: nat, va: Word)
    requires LinkerOk(l) && Inv(s) && HeapMatches(s.m, l) && HeapWritable(l, s, kern) && TrapAt(s, i, f)
    requires k < ENTRIES && va == BaseAddr(f) + 8 * k
    ensures Reaches(s, kern, va, f, k)
  {
    DataIsPrivate(s, i, f);
    KernelWrites(l, s, kern, f, k, va);
  }

  lemma NodeOfStore(page: T.TrapPage, k: nat, word: Word)
    requires k < ENTRIES
    ensures NodeOf(page[k := word]) == NodeOf(page)[k := PteOf(word)]
  {
  }

  lemma OwnTrapStays(s: System, i: nat, f: Frame, k: nat, word: Word)
    requires Inv(s) && TrapAt(s, i, f) && k < ENTRIES
    ensures TrapAt(Stored(s, f, k, word), i, f)
  {
    hide Inv;
    hide SpaceOk;
    hide Denote;
    HolderIsOk(s, i);
    StoreKeepsTable(s.m, s.holders[i].sp, f, k, PteOf(word));
  }

  lemma OwnStoreBacked(s: System, i: nat, u: User, k: nat, word: Word, frames: map<Word, T.TrapPage>)
    requires Inv(s) && Backed(s, i, u, frames) && k < ENTRIES
    ensures Backed(Stored(s, u.frame, k, word), i, u, frames[u.satp := frames[u.satp][k := word]])
  {
    OwnTrapStays(s, i, u.frame, k, word);
    hide Inv;
    hide Denote;
    NodeOfStore(frames[u.satp], k, word);
  }

  lemma OtherStoreBacked(l: Linker, s: System, op: Op, s': System, j: nat, v: User, frames: map<Word, T.TrapPage>,
                         p: Word, page: T.TrapPage)
    requires LinkerOk(l) && Inv(s) && HeapMatches(s.m, l) && Step(l, s, op, s') && op.StoreWord? && op.owner != j
    requires Backed(s, j, v, frames) && v.satp != p
    ensures Backed(s', j, v, frames[p := page])
  {
    hide Step;
    hide Inv;
    hide TrapAt;
    StepKeepsBacked(l, s, op, s', j, v, frames);
  }

  lemma NamedUpdate(users: map<nat, User>, frames: map<Word, T.TrapPage>, p: Word, page: T.TrapPage)
    requires Named(users, frames) && p in frames
    ensures Named(users, frames[p := page])
  {
  }

  /** It changes the one word of the trap page of that process, and no other trap page. */
  lemma StoreBacks(l: Linker, s: System, users: map<nat, User>, frames: map<Word, T.TrapPage>, t: nat, i: nat, va: Word,
                   k: nat, word: Word)
    requires LinkerOk(l) && Inv(s) && HeapMatches(s.m, l) && Backs(s, users, frames) && i in users
    requires k < ENTRIES && Reaches(s, t, va, users[i].frame, k)
    ensures users[i].frame in s.m.mem
    ensures var u, s' := users[i], Stored(s, users[i].frame, k, word);
            && Step(l, s, StoreWord(t, i, va, word, Supervisor), s')
            && Backs(s', users, frames[u.satp := frames[u.satp][k := word]])
  {
    var u := users[i];
    assert Backed(s, i, u, frames);
    StoreIsStep(l, s, t, i, u.frame, va, k, word);
    OwnStoreBacked(s, i, u, k, word, frames);
    hide Step;
    hide Inv;
    hide Backed;
    var s', page := Stored(s, u.frame, k, word), frames[u.satp][k := word];
    forall j | j in users && j != i
      ensures Backed(s', j, users[j], frames[u.satp := page])
    {
      OtherStoreBacked(l, s, StoreWord(t, i, va, word, Supervisor), s', j, users[j], frames, u.satp, page);
    }
    NamedUpdate(users, frames, u.satp, page);
  }
}
