/** Trap cycles over any number of processes (kernel/src/trap/mod.rs,
    kernel/src/asm/trampoline.S): saving and restoring through trap frames refines a machine in
    which every process keeps a register file of its own. */
module TrapCycles {
  import opened Wrappers
  import opened Bits
  import opened Sv39Format
  import opened Layout
  import opened Trampoline

  /** One cycle: the user code of the running process leaves userRegs and traps at userPc; the
      handler makes it resume at resume, uses the registers as it likes and returns to process
      next on hart hartid. A process is named by the `satp` of its table. */
  datatype Cycle = Cycle(userRegs: Regs, userPc: Word, kernelRegs: Regs, resume: Word, next: Word, hartid: Word)

  /** User code runs, then the hardware takes a trap. */
  function Trapped(w: World, c: Cycle): World {
    w.(hart := w.hart.(regs := c.userRegs, sepc := c.userPc))
  }

  /** The handler moves the saved pc of the process that trapped. */
  function Handled(w: World, user: Word, c: Cycle): World
    requires user in w.frames
  {
    World(w.hart.(regs := c.kernelRegs), w.frames[user := w.frames[user][SEPC := c.resume]])
  }

  /** `usertrapret`: its two assertions, the saved tp of the next process, and the argument of
      `__userret`. */
  function Returning(w: World, next: Word, hartid: Word): Outcome<World>
    requires next in w.frames
  {
    var page := w.frames[next][TP := hartid];
    if w.hart.sscratch != TRAPFRAME_BASE_USER_VA || w.hart.satp != page[KERNEL_SATP] then Panic
    else Ok(World(w.hart.(regs := w.hart.regs[A0 := next]), w.frames[next := page]))
  }

  /** A whole cycle, with `__userret` restoring registers from first on. */
  function CycleStep(w: World, c: Cycle, first: nat): Outcome<World>
    requires w.hart.satp in w.frames && c.next in w.frames && 1 <= first <= 2
  {
    var w1 :- Run(Trapped(w, c), Uservec());
    var w2 :- Returning(Handled(w1, w.hart.satp, c), c.next, c.hartid);
    Run(w2, Userret(first))
  }

  // ------------------------------------------------------------------ the protocol

  /** What a trap enters: the kernel's table, its handler, and for each process the top of the
      kernel stack that it has. */
  datatype KernelSide = KernelSide(satp: Word, handler: Word, stacks: map<Word, Word>)

  /** The trap frame of process p names them. */
  predicate Names(page: TrapPage, p: Word, e: KernelSide) {
    && page[KERNEL_SATP] == e.satp && page[TRAP_HANDLER] == e.handler
    && p in e.stacks && page[KERNEL_SP] == e.stacks[p]
  }

  /** At every user entry: a user table is loaded, sscratch holds the trap-frame address, and
      every trap frame names the kernel's table, the handler and the process's own stack. */
  ghost predicate UserEntry(w: World, e: KernelSide) {
    InUser(w) && forall p :: p in w.frames ==> Names(w.frames[p], p, e)
  }

  /** From every user entry a trap starts the handler, on the kernel's table and at the top of the
      kernel stack of the process that trapped. */
  lemma TrapEnters(w: World, c: Cycle, e: KernelSide)
    requires UserEntry(w, e)
    ensures var r := Run(Trapped(w, c), Uservec());
            && r.Ok? && r.value.hart.pc == e.handler && r.value.hart.satp == e.satp
            && w.hart.satp in e.stacks && r.value.hart.regs[SP] == e.stacks[w.hart.satp]
  {
    UservecSaves(Trapped(w, c));
  }

  /** The trap frames after a cycle. */
  function FramesAfter(w: World, c: Cycle): map<Word, TrapPage>
    requires w.hart.satp in w.frames && c.next in w.frames
  {
    var user := w.hart.satp;
    var saved := w.frames[user := SavedPage(w.frames[user], c.userRegs, c.userPc)[SEPC := c.resume]];
    saved[c.next := saved[c.next][TP := c.hartid]]
  }

  /** The world after a cycle. */
  function WorldAfter(w: World, c: Cycle, first: nat): World
    requires w.hart.satp in w.frames && c.next in w.frames
  {
    var page := FramesAfter(w, c)[c.next];
    var regs := Restored(c.kernelRegs[A0 := c.next], page, first);
    World(Hart(regs, TRAPFRAME_BASE_USER_VA, page[SEPC], c.next, page[SEPC]), FramesAfter(w, c))
  }

  /** A cycle never faults and no assertion of `usertrapret` fails; what it leaves. */
  lemma CycleEffect(w: World, c: Cycle, first: nat, e: KernelSide)
    requires UserEntry(w, e) && c.next in w.frames && 1 <= first <= 2
    ensures CycleStep(w, c, first) == Ok(WorldAfter(w, c, first))
  {
    var user := w.hart.satp;
    var w0 := Trapped(w, c);
    UservecSaves(w0);
    var w1 := Run(w0, Uservec()).value;
    var page := SavedPage(w.frames[user], c.userRegs, c.userPc);
    assert w1.frames == w.frames[user := page];
    SavedPageHolds(w.frames[user], c.userRegs, c.userPc);
    var w2 := Handled(w1, user, c);
    assert w2.frames == w.frames[user := page[SEPC := c.resume]];
    var w3 := Returning(w2, c.next, c.hartid);
    assert w3.Ok?;
    UserretRestores(w3.value, first);
  }

  // --------------------------------------------------------- per-process contexts

  /** Where a process is: its registers and its pc. */
  datatype Proc = Proc(regs: Regs, pc: Word)

  type Procs = map<Word, Proc>

  ghost predicate SameRegs(a: seq<Word>, b: Regs) {
    |a| >= 32 && forall k :: 1 <= k < 32 ==> a[k] == b[k]
  }

  /** The trap frame holds the registers and the pc of the process. */
  ghost predicate SavedIn(page: TrapPage, proc: Proc) {
    SameRegs(page, proc.regs) && page[SEPC] == proc.pc
  }

  /** The running process has its registers and pc in the hart, every other one in its trap
      frame. */
  ghost predicate Refines(w: World, procs: Procs) {
    && procs.Keys == w.frames.Keys && w.hart.satp in w.frames
    && SameRegs(w.hart.regs, procs[w.hart.satp].regs) && w.hart.pc == procs[w.hart.satp].pc
    && forall p :: p in w.frames && p != w.hart.satp ==> SavedIn(w.frames[p], procs[p])
  }

  /** One cycle of the abstract machine: the running process changes its own registers and stops
      where the handler makes it resume, and process next continues where it stopped with its own
      registers, except tp, which is the hart's; as written, x1 is whatever the kernel last had
      there. */
  function ProcsAfter(procs: Procs, user: Word, c: Cycle, first: nat): Procs
    requires user in procs && c.next in procs
  {
    var ran := procs[user := Proc(c.userRegs, c.resume)];
    var resumed := ran[c.next].regs[TP := c.hartid];
    ran[c.next := Proc(if first == 1 then resumed else resumed[RA := c.kernelRegs[RA]], ran[c.next].pc)]
  }

  lemma CycleFrames(w: World, c: Cycle, procs: Procs, p: Word)
    requires Refines(w, procs) && c.next in w.frames && p in w.frames
    ensures p in FramesAfter(w, c)
    ensures SavedIn(FramesAfter(w, c)[p], ProcsAfter(procs, w.hart.satp, c, 1)[p])
  {
  }

  /** A cycle leaves the kernel's words of every trap frame alone. */
  lemma CycleKeepsNames(w: World, c: Cycle, p: Word, e: KernelSide)
    requires w.hart.satp in w.frames && c.next in w.frames && p in w.frames && Names(w.frames[p], p, e)
    ensures p in FramesAfter(w, c) && Names(FramesAfter(w, c)[p], p, e)
  {
    SavedPageHolds(w.frames[w.hart.satp], c.userRegs, c.userPc);
  }

  lemma WorldAfterRefines(w: World, c: Cycle, first: nat, procs: Procs)
    requires Refines(w, procs) && c.next in w.frames && 1 <= first <= 2
    ensures WorldAfter(w, c, first).frames.Keys == w.frames.Keys
    ensures Refines(WorldAfter(w, c, first), ProcsAfter(procs, w.hart.satp, c, first))
  {
    var procs' := ProcsAfter(procs, w.hart.satp, c, first);
    assert FramesAfter(w, c).Keys == w.frames.Keys && procs'.Keys == procs.Keys;
    forall p | p in w.frames && p != c.next
      ensures SavedIn(FramesAfter(w, c)[p], procs'[p])
    {
      CycleFrames(w, c, procs, p);
    }
    CycleFrames(w, c, procs, c.next);
  }

  /** Each cycle keeps the protocol and is one step of the abstract machine. */
  lemma CycleRefines(w: World, c: Cycle, first: nat, e: KernelSide, procs: Procs)
    requires UserEntry(w, e) && Refines(w, procs) && c.next in w.frames && 1 <= first <= 2
    ensures var r := CycleStep(w, c, first);
            && r.Ok? && UserEntry(r.value, e) && r.value.hart.satp == c.next
            && r.value.frames.Keys == w.frames.Keys
            && Refines(r.value, ProcsAfter(procs, w.hart.satp, c, first))
  {
    CycleEffect(w, c, first, e);
    WorldAfterRefines(w, c, first, procs);
    hide Names, Refines, CycleStep, ProcsAfter;
    forall p | p in w.frames
      ensures p in FramesAfter(w, c) && Names(FramesAfter(w, c)[p], p, e)
    {
      CycleKeepsNames(w, c, p, e);
    }
  }

  // ------------------------------------------------------------------------ runs

  function CyclesRun(w: World, cs: seq<Cycle>, first: nat): Outcome<World>
    requires 1 <= first <= 2
    decreases |cs|
  {
    if cs == [] then Ok(w)
    else if w.hart.satp !in w.frames || cs[0].next !in w.frames then Panic
    else
      var w' :- CycleStep(w, cs[0], first);
      CyclesRun(w', cs[1..], first)
  }

  function ProcsRun(procs: Procs, user: Word, cs: seq<Cycle>, first: nat): (procs': Procs)
    requires user in procs && forall i :: 0 <= i < |cs| ==> cs[i].next in procs
    ensures procs'.Keys == procs.Keys
    decreases |cs|
  {
    if cs == [] then procs
    else
      var procs1 := ProcsAfter(procs, user, cs[0], first);
      assert procs1.Keys == procs.Keys;
      ProcsRun(procs1, cs[0].next, cs[1..], first)
  }

  /** Over every sequence of trap cycles between any processes, nothing faults, sscratch holds
      the trap-frame address at each user entry, every trap frame still names what a trap enters,
      and every process continues where it stopped with its own registers. */
  lemma {:induction false} TrapRunsKeepContext(w: World, cs: seq<Cycle>, first: nat, e: KernelSide, procs: Procs)
    requires UserEntry(w, e) && Refines(w, procs) && 1 <= first <= 2
    requires forall i :: 0 <= i < |cs| ==> cs[i].next in procs
    ensures var r := CyclesRun(w, cs, first);
            r.Ok? && UserEntry(r.value, e) && Refines(r.value, ProcsRun(procs, w.hart.satp, cs, first))
    decreases |cs|
  {
    if cs != [] {
      assert cs[0].next in procs.Keys;
      CycleRefines(w, cs[0], first, e, procs);
      var w', procs' := CycleStep(w, cs[0], first).value, ProcsAfter(procs, w.hart.satp, cs[0], first);
      assert procs'.Keys == procs.Keys;
      TrapRunsKeepContext(w', cs[1..], first, e, procs');
    }
  }

  // ----------------------------------------------------------------- one process

  /** A process that traps and is returned to gets back x2 to x31 except tp. It gets back x1
      exactly when the kernel happened to have the same value there. */
  lemma ReturnRestores(w: World, c: Cycle, e: KernelSide)
    requires UserEntry(w, e) && c.next == w.hart.satp
    ensures CycleStep(w, c, 2).Ok?
    ensures var regs := CycleStep(w, c, 2).value.hart.regs;
            && (forall k :: 2 <= k < 32 && k != TP ==> regs[k] == c.userRegs[k])
            && regs[TP] == c.hartid
            && (regs[RA] == c.userRegs[RA] <==> c.kernelRegs[RA] == c.userRegs[RA])
    ensures CycleStep(w, c, 2).value.hart.pc == c.resume
  {
    CycleEffect(w, c, 2, e);
    SavedPageHolds(w.frames[w.hart.satp], c.userRegs, c.userPc);
  }

  /** As meant, x1 is restored too; the two forms differ in nothing else. */
  lemma IntendedRestoresAll(w: World, c: Cycle, e: KernelSide)
    requires UserEntry(w, e) && c.next in w.frames
    ensures CycleStep(w, c, 1).Ok? && CycleStep(w, c, 2).Ok?
    ensures var meant, written := CycleStep(w, c, 1).value, CycleStep(w, c, 2).value;
            && (c.next == w.hart.satp ==> forall k :: 1 <= k < 32 && k != TP ==> meant.hart.regs[k] == c.userRegs[k])
            && written == meant.(hart := meant.hart.(regs := meant.hart.regs[RA := c.kernelRegs[RA]]))
  {
    CycleEffect(w, c, 1, e);
    CycleEffect(w, c, 2, e);
    SavedPageHolds(w.frames[w.hart.satp], c.userRegs, c.userPc);
    var meant, written := CycleStep(w, c, 1).value, CycleStep(w, c, 2).value;
    assert written.hart.regs == meant.hart.regs[RA := c.kernelRegs[RA]];
  }

  /** A cycle after which the return address of the user program is lost. */
  lemma ReturnAddressLost() returns (w: World, c: Cycle, e: KernelSide)
    ensures UserEntry(w, e) && c.next == w.hart.satp && CycleStep(w, c, 2).Ok?
    ensures CycleStep(w, c, 2).value.hart.regs[RA] != c.userRegs[RA]
  {
    var zeros: Regs := seq(32, i => 0);
    var page: TrapPage := seq(ENTRIES, i => 7);
    w := World(Hart(zeros, TRAPFRAME_BASE_USER_VA, 0, 9, 0), map[9 := page]);
    c := Cycle(zeros[RA := 4096], 0, zeros, 4, 9, 0);
    e := KernelSide(7, 7, map[9 := 7]);
    ReturnRestores(w, c, e);
  }

  // ------------------------------------------------------------------ first entry

  /** What `first_execution_init` writes into a new trap frame. */
  function FirstPage(page: TrapPage, stackTop: Word, handler: Word, satp: Word): TrapPage {
    page[KERNEL_SP := stackTop][TRAP_HANDLER := handler][SEPC := TEXT_BASE_USER_VA][KERNEL_SATP := satp]
  }

  /** By slot: the kernel's table in 32, the top of the kernel stack in 33, the text base in 35 and
      the handler in 36; every other word stays. */
  lemma FirstPageSlots(page: TrapPage, stackTop: Word, handler: Word, satp: Word, k: nat)
    requires k < ENTRIES
    ensures FirstPage(page, stackTop, handler, satp)[k] ==
              if k == 32 then satp else if k == 33 then stackTop else if k == 35 then 0x1_0000
              else if k == 36 then handler else page[k]
  {
  }

  /** What every process has in its trap frame while the kernel runs. */
  function ProcsOf(frames: map<Word, TrapPage>): Procs {
    map p | p in frames :: Proc(frames[p][..32], frames[p][SEPC])
  }

  /** The kernel enters a new process exactly when it runs on its own table with sscratch set. The
      process starts at its text base with the registers of its page, except tp and, as written,
      x1, in a state from which trap cycles run. */
  lemma FirstEntry(w: World, next: Word, hartid: Word, first: nat, page: TrapPage, e: KernelSide)
    requires 1 <= first <= 2 && next in w.frames && next in e.stacks
    requires w.frames[next] == FirstPage(page, e.stacks[next], e.handler, e.satp)
    requires forall p :: p in w.frames && p != next ==> Names(w.frames[p], p, e)
    ensures Returning(w, next, hartid).Ok? <==> w.hart.satp == e.satp && w.hart.sscratch == TRAPFRAME_BASE_USER_VA
    ensures Returning(w, next, hartid).Ok? ==>
              var r := Run(Returning(w, next, hartid).value, Userret(first));
              && r.Ok? && UserEntry(r.value, e) && r.value.hart.satp == next && r.value.hart.pc == TEXT_BASE_USER_VA
              && r.value.hart.regs[TP] == hartid
              && (forall k :: 2 <= k < 32 && k != TP ==> r.value.hart.regs[k] == page[k])
              && r.value.frames.Keys == w.frames.Keys && Refines(r.value, EnteredProcs(w, next, hartid, first))
  {
    if Returning(w, next, hartid).Ok? {
      UserretRestores(Returning(w, next, hartid).value, first);
    }
  }

  /** The processes after the first entry into next. */
  function EnteredProcs(w: World, next: Word, hartid: Word, first: nat): Procs
    requires next in w.frames
  {
    var procs := ProcsOf(w.frames);
    var regs := procs[next].regs[TP := hartid];
    procs[next := Proc(if first == 1 then regs else regs[RA := w.hart.regs[RA]], procs[next].pc)]
  }
}
