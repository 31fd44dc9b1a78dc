/** The first process (kernel/src/process/process.rs): its kernel stack, its space, and the trap
    frame that `first_execution_init` fills in, with every check made on the way. */
module InitProcesses {
  import opened Wrappers
  import opened Bits
  import opened Sv39Format
  import opened Layout
  import opened Machines
  import opened PageTables
  import opened Mapping
  import opened Requests
  import opened Areas
  import opened KernelAreas
  import opened AddressSpaces
  import opened UserSpaces
  import opened Translating
  import opened SpaceFacts
  import opened PageTableGuards
  import T = Trampoline
  import C = TrapCycles

  /** What the kernel knows when it makes a process: the address of the trap handler, and the
      `satp` value of its own table. */
  datatype Entry = Entry(handler: Word, kernelSatp: Word)

  /** The trap frame after the four setters. */
  function FirstNode(node: Node, stackTop: Word, e: Entry): Node {
    node[T.KERNEL_SP := PteOf(stackTop)][T.TRAP_HANDLER := PteOf(e.handler)]
    [T.SEPC := PteOf(TEXT_BASE_USER_VA)][T.KERNEL_SATP := PteOf(e.kernelSatp)]
  }

  /** On words, those are the setters of `TrapContext`. */
  lemma FirstNodeIsPage(page: T.TrapPage, stackTop: Word, e: Entry)
    ensures NodeOf(C.FirstPage(page, stackTop, e.handler, e.kernelSatp)) == FirstNode(NodeOf(page), stackTop, e)
  {
  }

  /** `PCBInner::first_execution_init` for a kernel stack in frame stack: the space gets a trap
      frame, is verified and asked to translate it, and the setters fill it in. */
  ghost function FirstExecution(m: Machine, sp: Space, stack: Frame, e: Entry): (r: Outcome<(Machine, Space, Frame)>)
    requires HeapFits(m)
    ensures r.Ok? ==> HeapFits(r.value.0)
  {
    var (m1, sp1, trap) :- InitTrapframe(m, sp);
    if !AreasVerify(m1.mem, sp1.table.root, sp1.areas) then Panic
    else if !TranslatesTo(m1.mem, sp1.table.root, TRAPFRAME_BASE_USER_VA, BaseAddr(trap)) then Panic
    else if BaseAddr(stack) + PAGE_SIZE >= TWO64 || trap !in m1.mem then Panic
    else Ok((m1.(mem := m1.mem[trap := FirstNode(m1.mem[trap], BaseAddr(stack) + PAGE_SIZE, e)]), sp1, trap))
  }

  /** `translate` answers va with the address pa. */
  predicate TranslatesTo(mem: Memory, root: Frame, va: Word, pa: Word) {
    var r := Translate(mem, root, va);
    r.Ok? && r.value.Some? && r.value.value.0 == pa
  }

  /** A process: kernel stack, user space and trap frame. */
  datatype Process = Process(stack: Frame, space: Space, trap: Frame)

  /** `make_initcode_uninitialised`, up to the assertion on the pid. */
  ghost function MakeInitcode(m: Machine, l: Linker, text: seq<Byte>, e: Entry): Outcome<(Machine, Process)>
    requires HeapFits(m) && LinkerOk(l)
  {
    var (m0, stack) :- AllocateZeroed(m);
    var (m1, sp) :- MakeInit(m0, l, text);
    var (m2, sp2, trap) :- FirstExecution(m1, sp, stack, e);
    Ok((m2, Process(stack, sp2, trap)))
  }

  // ---------------------------------------------------------------- verification

  ghost predicate Covers(view: map<nat, Leaf>, a: VirtArea) {
    AreaFine(a) && forall n :: n in AreaView(a) ==> n in view && view[n] == AreaView(a)[n]
  }

  /** An area whose pages a table maps verifies on it. */
  lemma CoveredVerifies(m: Machine, t: Table, a: VirtArea)
    requires Wf(m, t) && Covers(Denote(m.mem, t.root), a)
    ensures !Backward(a) && VerifiesAll(m.mem, t.root, AreaRequests(a))
  {
    var rs := AreaRequests(a);
    MappableIff(rs, {});
    AskedIff(rs, {});
    hide Asked;
    hide Mappable;
    hide Wf;
    hide Denote;
    forall i | 0 <= i < |rs|
      ensures Verifies(m.mem, t.root, rs[i])
    {
      VerifyPassesIff(m, t, rs[i]);
    }
  }

  lemma CoversOne(view: map<nat, Leaf>, a: VirtArea, n: nat, leaf: Leaf)
    requires AreaFine(a) && AreaView(a) == map[n := leaf] && n in view && view[n] == leaf
    ensures Covers(view, a)
  {
  }

  lemma UserAreasCovered(l: Linker, len: nat, stack: Frame, code: Frame, trap: Frame, view: map<nat, Leaf>)
    requires InReach(len) && UserFits(len) && view == UserView(l, StackPage(len), stack, code, trap)
    ensures var areas := InitAreas(l, len, stack, code);
            |areas| == 3 && Covers(view, areas[0]) && Covers(view, areas[1]) && Covers(view, areas[2])
    ensures Covers(view, TrapframeArea(trap))
  {
    hide AreaFine;
    hide AreaView;
    hide InitAreas;
    hide TrapframeArea;
    hide UserView;
    hide Covers;
    var areas, s := InitAreas(l, len, stack, code), StackPage(len);
    InitAreaViews(l, len, stack, code);
    TrapframeView(trap);
    UserViewLookups(l, s, stack, code, trap);
    assert areas[0] in areas && areas[1] in areas && areas[2] in areas;
    CoversOne(view, areas[0], TRAMPOLINE_VPN, Leaf(FrameAt(l.trampoline), WithValid(RX)));
    CoversOne(view, areas[1], s, Leaf(stack, WithValid(RWU)));
    CoversOne(view, areas[2], TEXT_VPN, Leaf(code, WithValid(RXU)));
    CoversOne(view, TrapframeArea(trap), TRAPFRAME_VPN, Leaf(trap, WithValid(RW)));
  }

  /** The space of the first process passes `verify`. */
  lemma UserVerifies(m: Machine, l: Linker, len: nat, t: Table, stack: Frame, code: Frame, trap: Frame)
    requires InReach(len) && UserFits(len) && Wf(m, t)
    requires Denote(m.mem, t.root) == UserView(l, StackPage(len), stack, code, trap)
    ensures AreasVerify(m.mem, t.root, InitAreas(l, len, stack, code) + [TrapframeArea(trap)])
  {
    hide Covers;
    hide Wf;
    hide Denote;
    hide UserView;
    hide TrapframeArea;
    hide InitAreas;
    hide Backward;
    hide VerifiesAll;
    UserAreasCovered(l, len, stack, code, trap, Denote(m.mem, t.root));
    var areas := InitAreas(l, len, stack, code) + [TrapframeArea(trap)];
    forall i | 0 <= i < |areas|
      ensures !Backward(areas[i]) && VerifiesAll(m.mem, t.root, AreaRequests(areas[i]))
    {
      CoveredVerifies(m, t, areas[i]);
    }
  }

  // --------------------------------------------------------------------- exactness

  /** The first process as made: its space is the first user space, beside its kernel stack, and
      its trap frame is filled in for the first return to user mode. */
  ghost predicate InitcodeMade(m: Machine, l: Linker, text: seq<Byte>, e: Entry, m': Machine, p: Process, user: Frame,
                               code: Frame)
    requires InReach(|text|)
  {
    && Wf(m', p.space.table)
    && Denote(m'.mem, p.space.table.root) == UserView(l, StackPage(|text|), user, code, p.trap)
    && OwnedFrames(p.space) == p.space.table.nodes + [user, code, p.trap]
    && Extends(m, [], m', OwnedFrames(p.space) + [p.stack])
    && p.stack < 0x1000_0000_0000 && p.trap in m'.mem
    && m'.mem[p.trap] == FirstNode(ZeroNode(), BaseAddr(p.stack) + PAGE_SIZE, e)
    && code in m'.mem && m'.mem[code] == Pack(text)
  }

  lemma TrapframeApart(nodes: seq<Frame>, user: Frame, code: Frame, trap: Frame)
    requires Distinct(nodes + [user, code, trap])
    ensures trap !in nodes && trap != code
  {
    var data := [user, code, trap];
    assert trap in data && data[1] == code && data[2] == trap;
    DistinctSuffix(nodes, data);
    if trap in nodes {
      TwiceIsNotDistinct(nodes, data, trap);
    }
  }

  lemma WriteExtends(m: Machine, fs: seq<Frame>, f: Frame, node: Node)
    requires MachineOk(m) && Distinct(fs) && AllLive(m, fs) && f in fs
    ensures Extends(m, fs, m.(mem := m.mem[f := node]), fs)
  {
    var m' := m.(mem := m.mem[f := node]);
    assert forall g :: Live(m', g) == Live(m, g);
  }

  lemma TrapframeElsewhere(m: Machine, t: Table, trap: Frame, node: Node)
    requires Wf(m, t) && trap !in t.nodes
    ensures var m' := m.(mem := m.mem[trap := node]);
            Wf(m', t) && Denote(m'.mem, t.root) == Denote(m.mem, t.root)
  {
    hide Wf, Denote;
    WfLive(m, t);
    LiveApart(m, t.nodes, trap, node);
    WfFrame(m, t, m.(mem := m.mem[trap := node]));
  }

  lemma LiveApart(m: Machine, nodes: seq<Frame>, trap: Frame, node: Node)
    requires MachineOk(m) && AllLive(m, nodes) && trap !in nodes
    ensures var m' := m.(mem := m.mem[trap := node]);
            MachineOk(m') && AllLive(m', nodes) && Agree(m.mem, m'.mem, nodes)
  {
  }

  /** Every check of `first_execution_init` passes on a first user space. */
  lemma ChecksPass(m: Machine, l: Linker, text: seq<Byte>, m': Machine, sp: Space, user: Frame, code: Frame,
                   trap: Frame)
    requires LinkerOk(l) && UserFits(|text|) && UserMade(m, l, text, m', sp, user, code, trap)
    ensures AreasVerify(m'.mem, sp.table.root, sp.areas)
    ensures TranslatesTo(m'.mem, sp.table.root, TRAPFRAME_BASE_USER_VA, BaseAddr(trap))
  {
    hide Wf;
    hide Denote;
    hide UserView;
    hide AreasVerify;
    hide Pack;
    hide Extends;
    UserVerifies(m', l, |text|, sp.table, user, code, trap);
    UserTranslates(m', l, sp.table, StackPage(|text|), user, code, trap);
  }

  lemma FillMakes(m: Machine, l: Linker, text: seq<Byte>, e: Entry, m0: Machine, stack: Frame, m1: Machine, sp: Space,
                  user: Frame, code: Frame, trap: Frame, m2: Machine)
    requires UserFits(|text|) && stack < 0x1000_0000_0000 && Extends(m, [], m0, [stack])
    requires UserMade(m0, l, text, m1, sp, user, code, trap)
    requires m2 == m1.(mem := m1.mem[trap := FirstNode(ZeroNode(), BaseAddr(stack) + PAGE_SIZE, e)])
    ensures InitcodeMade(m, l, text, e, m2, Process(stack, sp, trap), user, code)
  {
    hide UserView;
    hide Pack;
    hide FirstNode;
    hide Denote;
    hide Wf;
    hide Extends;
    hide InitAreas;
    var node := FirstNode(ZeroNode(), BaseAddr(stack) + PAGE_SIZE, e);
    TrapframeApart(sp.table.nodes, user, code, trap);
    TrapframeElsewhere(m1, sp.table, trap, node);
    assert trap in [user, code, trap];
    FillExtends(m, m0, stack, m1, OwnedFrames(sp), trap, node);
  }

  lemma FillExtends(m: Machine, m0: Machine, stack: Frame, m1: Machine, owned: seq<Frame>, trap: Frame, node: Node)
    requires Extends(m, [], m0, [stack]) && Extends(m0, [], m1, owned) && trap in owned
    ensures Extends(m, [], m1.(mem := m1.mem[trap := node]), owned + [stack])
  {
    assert AllLive(m1, owned);
    WriteExtends(m1, owned, trap, node);
    hide Extends;
    ExtendsTrans(m0, [], m1, owned, m1.(mem := m1.mem[trap := node]), owned);
    ExtendsBoth(m, m0, [stack], m1.(mem := m1.mem[trap := node]), owned);
  }

  lemma FirstExecutionFills(m0: Machine, l: Linker, text: seq<Byte>, m1: Machine, sp: Space, stack: Frame, e: Entry,
                            user: Frame, code: Frame)
    requires LinkerOk(l) && UserFits(|text|) && HeapFits(m1) && stack < 0x1000_0000_0000 && InitTrapframe(m1, sp).Ok?
    requires var (m2, sp2, trap) := InitTrapframe(m1, sp).value; UserMade(m0, l, text, m2, sp2, user, code, trap)
    ensures var (m2, sp2, trap) := InitTrapframe(m1, sp).value;
            var node := FirstNode(ZeroNode(), BaseAddr(stack) + PAGE_SIZE, e);
            FirstExecution(m1, sp, stack, e) == Ok((m2.(mem := m2.mem[trap := node]), sp2, trap))
  {
    hide InitTrapframe;
    hide AreasVerify;
    hide TranslatesTo;
    hide FirstNode;
    hide Wf;
    hide Denote;
    hide Extends;
    var (m2, sp2, trap) := InitTrapframe(m1, sp).value;
    ChecksPass(m0, l, text, m2, sp2, user, code, trap);
  }

  /** The first process can be made exactly when its stack fits beside text, trap frame and
      trampoline, and the free frames cover its kernel stack and its space: no check on the way
      ever fails. */
  lemma MakeInitcodeExact(m: Machine, l: Linker, text: seq<Byte>, e: Entry) returns (user: Frame, code: Frame)
    requires MachineOk(m) && LinkerOk(l)
    ensures MakeInitcode(m, l, text, e).Ok? <==> UserFits(|text|) && 1 + UserCost(l, StackPage(|text|)) <= Free(m)
    ensures MakeInitcode(m, l, text, e).Ok? ==>
              var (m', p) := MakeInitcode(m, l, text, e).value;
              InReach(|text|) && InitcodeMade(m, l, text, e, m', p, user, code)
  {
    hide UserCost;
    hide MakeInit;
    hide InitTrapframe;
    hide UserMade;
    hide InitcodeMade;
    hide FirstNode;
    user, code := 0, 0;
    AllocateZeroedTakes(m);
    var r0 := AllocateZeroed(m);
    if r0.Ok? {
      var (m0, stack) := r0.value;
      AllocateExtends(m);
      user, code := MakeUserExact(m0, l, text);
      var r1 := MakeInit(m0, l, text);
      if r1.Ok? {
        var (m1, sp) := r1.value;
        var r2 := InitTrapframe(m1, sp);
        if r2.Ok? {
          FirstExecutionFills(m0, l, text, m1, sp, stack, e, user, code);
          FillMakes(m, l, text, e, m0, stack, r2.value.0, r2.value.1, user, code, r2.value.2,
                    FirstExecution(m1, sp, stack, e).value.0);
        }
      }
    }
  }

  // ------------------------------------------------------------------ running init

  /** Slot k of the trap frame of a new process whose kernel stack is frame stack. */
  function FirstWord(stack: Frame, e: Entry, k: nat): Word
    requires stack < 0x1000_0000_0000
  {
    if k == 32 then e.kernelSatp else if k == 33 then BaseAddr(stack) + 4096 else if k == 35 then 0x1_0000
    else if k == 36 then e.handler else 0
  }

  /** By slot: the trap frame that init is made with names the kernel's table, the top of the
      kernel stack that was allocated with it, the text base and the handler; the rest is zero. */
  lemma InitFrameSlots(m: Machine, l: Linker, text: seq<Byte>, e: Entry, k: nat)
    requires MachineOk(m) && LinkerOk(l) && MakeInitcode(m, l, text, e).Ok? && k < ENTRIES
    ensures var (m', p) := MakeInitcode(m, l, text, e).value;
            p.stack < 0x1000_0000_0000 && p.trap in m'.mem && m'.mem[p.trap][k] == PteOf(FirstWord(p.stack, e, k))
  {
    hide MakeInitcode, Wf, Denote, UserView, Extends, Pack, UserCost;
    var user, code := MakeInitcodeExact(m, l, text, e);
  }

  /** A page of words that memory holds as node is determined by it. */
  lemma PageOfNode(page: T.TrapPage, other: T.TrapPage)
    requires NodeOf(page) == NodeOf(other)
    ensures page == other
  {
    forall k | 0 <= k < ENTRIES
      ensures page[k] == other[k]
    {
      assert NodeOf(page)[k] == PteOf(page[k]) && NodeOf(other)[k] == PteOf(other[k]);
    }
  }

  function ZeroPage(): T.TrapPage {
    seq(ENTRIES, k => 0)
  }

  lemma InitPage(m: Machine, l: Linker, text: seq<Byte>, e: Entry, page: T.TrapPage)
    requires MachineOk(m) && LinkerOk(l) && MakeInitcode(m, l, text, e).Ok?
    requires var (m', p) := MakeInitcode(m, l, text, e).value; p.trap in m'.mem && m'.mem[p.trap] == NodeOf(page)
    ensures var p := MakeInitcode(m, l, text, e).value.1;
            && p.stack < 0x1000_0000_0000
            && page == C.FirstPage(ZeroPage(), BaseAddr(p.stack) + PAGE_SIZE, e.handler, e.kernelSatp)
  {
    hide MakeInitcode, Wf, Denote, UserView, Extends, Pack, UserCost;
    var user, code := MakeInitcodeExact(m, l, text, e);
    var p := MakeInitcode(m, l, text, e).value.1;
    assert NodeOf(ZeroPage()) == ZeroNode();
    FirstNodeIsPage(ZeroPage(), BaseAddr(p.stack) + PAGE_SIZE, e);
    hide FirstNode, C.FirstPage, NodeOf;
    PageOfNode(page, C.FirstPage(ZeroPage(), BaseAddr(p.stack) + PAGE_SIZE, e.handler, e.kernelSatp));
  }

  /** The world w is about to enter the process of p: the kernel runs on its own table, the trap
      frame of p is backed by the memory it was made in, and every other process is set up. */
  ghost predicate AboutToEnter(w: T.World, m: Machine, p: Process, side: C.KernelSide) {
    var next := MakeSatp(p.space.table.root);
    && w.hart.satp == side.satp && w.hart.sscratch == TRAPFRAME_BASE_USER_VA
    && next in w.frames && p.trap in m.mem && m.mem[p.trap] == NodeOf(w.frames[next])
    && forall q :: q in w.frames && q != next ==> C.Names(w.frames[q], q, side)
  }

  /** From making init to any trap of it: the kernel can enter the new process, which starts at the
      text base with all registers zero but tp and, as written, x1. Then over every sequence of
      cycles nothing faults, and the next trap starts the handler on the kernel's table, for init at
      the top of the very frame that was allocated for its kernel stack. */
  lemma InitTraps(m: Machine, l: Linker, text: seq<Byte>, e: Entry, w: T.World, side: C.KernelSide, hartid: Word,
                  first: nat, cs: seq<C.Cycle>, c: C.Cycle)
    requires MachineOk(m) && LinkerOk(l) && MakeInitcode(m, l, text, e).Ok? && 1 <= first <= 2
    requires var (m', p) := MakeInitcode(m, l, text, e).value;
             && AboutToEnter(w, m', p, side) && side.satp == e.kernelSatp && side.handler == e.handler
             && MakeSatp(p.space.table.root) in side.stacks
             && side.stacks[MakeSatp(p.space.table.root)] == BaseAddr(p.stack) + PAGE_SIZE
    requires forall i :: 0 <= i < |cs| ==> cs[i].next in w.frames
    ensures var next := MakeSatp(MakeInitcode(m, l, text, e).value.1.space.table.root);
            var entered := C.Returning(w, next, hartid);
            && entered.Ok? && T.Run(entered.value, T.Userret(first)).Ok?
            && var w1 := T.Run(entered.value, T.Userret(first)).value;
            && w1.hart.satp == next && w1.hart.pc == 0x1_0000 && w1.hart.regs[T.TP] == hartid
            && (forall k :: 2 <= k < 32 && k != T.TP ==> w1.hart.regs[k] == 0)
            && C.CyclesRun(w1, cs, first).Ok?
            && var w2 := C.CyclesRun(w1, cs, first).value;
            && T.Run(C.Trapped(w2, c), T.Uservec()).Ok?
            && StartsHandler(T.Run(C.Trapped(w2, c), T.Uservec()).value.hart, w2.hart.satp, side)
  {
    hide MakeInitcode, T.Run, T.Userret, T.Uservec, C.Names, C.Refines, C.CyclesRun, C.Trapped;
    var p := MakeInitcode(m, l, text, e).value.1;
    var next := MakeSatp(p.space.table.root);
    InitPage(m, l, text, e, w.frames[next]);
    C.FirstEntry(w, next, hartid, first, ZeroPage(), side);
    var w1 := T.Run(C.Returning(w, next, hartid).value, T.Userret(first)).value;
    var procs := C.EnteredProcs(w, next, hartid, first);
    assert procs.Keys == w.frames.Keys;
    C.TrapRunsKeepContext(w1, cs, first, side, procs);
    C.TrapEnters(C.CyclesRun(w1, cs, first).value, c, side);
  }

  /** The hart is at the handler, on the kernel's table and at the top of the stack of process p. */
  predicate StartsHandler(h: T.Hart, p: Word, side: C.KernelSide) {
    h.pc == side.handler && h.satp == side.satp && p in side.stacks && h.regs[T.SP] == side.stacks[p]
  }
}
