/** The trampoline on the page tables of a run (kernel/src/asm/trampoline.S,
    kernel/src/trap/mod.rs): every load and store of a trap cycle is translated by the hardware
    through the table that is loaded, the process's or the kernel's, and the registers of all
    processes are kept in physical frames. */
module TrapRuns {
  import opened Wrappers
  import opened Bits
  import opened Sv39Format
  import opened Layout
  import opened Machines
  import opened AddressSpaces
  import opened Sv39Hardware
  import opened Ownership
  import opened SpaceRuns
  import opened TrapSpaces
  import opened PageTableGuards
  import T = Trampoline
  import C = TrapCycles

  /** The processes of a run, the kernel space, and what a trap enters. */
  datatype Setup = Setup(l: Linker, users: map<nat, User>, kern: nat, side: C.KernelSide)

  /** The states of a run and the steps between them. */
  datatype Trace = Trace(run: seq<System>, ops: seq<Op>) {
    ghost predicate Valid(l: Linker) {
      |run| == |ops| + 1 && KernelRun(l, run, ops)
    }

    function Last(): System
      requires run != []
    {
      run[|run| - 1]
    }
  }

  /** The run ends with frames in the trap frames of the users, and with a kernel space on which
      the kernel can write. */
  ghost predicate OnTables(e: Setup, tr: Trace, frames: map<Word, T.TrapPage>) {
    tr.Valid(e.l) && Backs(tr.Last(), e.users, frames) && KernelReady(e, tr.Last())
  }

  ghost predicate KernelReady(e: Setup, s: System) {
    HeapWritable(e.l, s, e.kern) && SatpAt(s, e.kern) == e.side.satp
  }

  /** A store of the kernel into a frame of a user, on the user's own table or on the kernel's. */
  predicate TrapStore(e: Setup, op: Op) {
    op.StoreWord? && op.mode.Supervisor? && op.owner in e.users && (op.i == op.owner || op.i == e.kern)
  }

  /** tr' continues tr with such stores, and nothing else. */
  ghost predicate OnlyStores(e: Setup, tr: Trace, tr': Trace) {
    && tr.run <= tr'.run && tr.ops <= tr'.ops
    && forall k :: |tr.ops| <= k < |tr'.ops| ==> TrapStore(e, tr'.ops[k])
  }

  lemma OnlyStoresTrans(e: Setup, a: Trace, b: Trace, c: Trace)
    requires OnlyStores(e, a, b) && OnlyStores(e, b, c)
    ensures OnlyStores(e, a, c)
  {
    forall k | |a.ops| <= k < |c.ops|
      ensures TrapStore(e, c.ops[k])
    {
      if k < |b.ops| {
        assert c.ops[k] == b.ops[k];
      }
    }
  }

  function Grow(tr: Trace, op: Op, s: System): Trace {
    Trace(tr.run + [s], tr.ops + [op])
  }

  lemma RunGrows(l: Linker, tr: Trace, op: Op, s: System)
    requires tr.Valid(l) && Step(l, tr.Last(), op, s)
    ensures Grow(tr, op, s).Valid(l)
  {
    hide Step;
    var run', ops' := tr.run + [s], tr.ops + [op];
    forall k | 0 <= k < |ops'|
      ensures Step(l, run'[k], ops'[k], run'[k + 1])
    {
      if k < |tr.ops| {
        assert Step(l, tr.run[k], tr.ops[k], tr.run[k + 1]);
      }
    }
  }

  lemma StoreKeepsReady(e: Setup, s: System, op: Op, s': System)
    requires LinkerOk(e.l) && Inv(s) && HeapMatches(s.m, e.l) && KernelReady(e, s)
    requires op.StoreWord? && Step(e.l, s, op, s')
    ensures KernelReady(e, s')
  {
    StoreHolders(e.l, s, op, s');
    hide Inv, Step, HeapPageOpen;
    StepKeepsHeapWritable(e.l, s, op, s', e.kern);
  }

  lemma StoreHolders(l: Linker, s: System, op: Op, s': System)
    requires LinkerOk(l) && op.StoreWord? && Step(l, s, op, s')
    ensures s'.holders == s.holders
  {
  }

  /** One store that reaches word k of the trap frame of process i, on the table of t. */
  lemma StoreReaching(e: Setup, tr: Trace, frames: map<Word, T.TrapPage>, t: nat, i: nat, va: Word, k: nat, word: Word)
    returns (tr': Trace)
    requires OnTables(e, tr, frames) && i in e.users && (t == i || t == e.kern)
    requires k < ENTRIES && Reaches(tr.Last(), t, va, e.users[i].frame, k)
    ensures e.users[i].satp in frames
    ensures var p := e.users[i].satp;
            OnTables(e, tr', frames[p := frames[p][k := word]])
    ensures OnlyStores(e, tr, tr')
  {
    hide Step, Backed, Inv, Reaches, KernelReady;
    var s, op := tr.Last(), StoreWord(t, i, va, word, Supervisor);
    RunsKeepHeap(e.l, tr.run, tr.ops, |tr.ops|);
    StoreBacks(e.l, s, e.users, frames, t, i, va, k, word);
    var s' := Stored(s, e.users[i].frame, k, word);
    StoreKeepsReady(e, s, op, s');
    RunGrows(e.l, tr, op, s');
    tr' := Grow(tr, op, s');
  }

  lemma UserOf(e: Setup, tr: Trace, frames: map<Word, T.TrapPage>, p: Word) returns (i: nat)
    requires OnTables(e, tr, frames) && p in frames
    ensures i in e.users && e.users[i].satp == p && Inv(tr.Last()) && HeapMatches(tr.Last().m, e.l)
    ensures Backed(tr.Last(), i, e.users[i], frames)
  {
    hide Step, Backed, Inv, KernelReady;
    RunsKeepHeap(e.l, tr.run, tr.ops, |tr.ops|);
    i :| i in e.users && e.users[i].satp == p;
  }

  /** One store of the trampoline, through the table of the process. */
  lemma StoreOnTables(e: Setup, tr: Trace, frames: map<Word, T.TrapPage>, p: Word, k: nat, word: Word)
    returns (tr': Trace)
    requires OnTables(e, tr, frames) && p in frames && k < ENTRIES
    ensures OnTables(e, tr', frames[p := frames[p][k := word]]) && OnlyStores(e, tr, tr')
  {
    hide Backs, KernelRun, KernelReady, Inv, TrapAt;
    var i := UserOf(e, tr, frames, p);
    var va: Word := TRAPFRAME_BASE_USER_VA + 8 * k;
    TrapTarget(tr.Last(), i, e.users[i].frame, va, k);
    tr' := StoreReaching(e, tr, frames, i, i, va, k, word);
  }

  /** One store of the handler into a trap context, at its physical address on the kernel's
      table, which is locked by then. */
  lemma KernelStoreOnTables(e: Setup, tr: Trace, frames: map<Word, T.TrapPage>, p: Word, k: nat, word: Word)
    returns (tr': Trace)
    requires OnTables(e, tr, frames) && p in frames && k < ENTRIES
    ensures OnTables(e, tr', frames[p := frames[p][k := word]]) && OnlyStores(e, tr, tr')
  {
    hide Inv, TrapAt, Backs, KernelRun, HeapWritable;
    var i := UserOf(e, tr, frames, p);
    WordAddress(e.users[i].frame, k);
    var va: Word := BaseAddr(e.users[i].frame) + 8 * k;
    ReadyLinker(e, tr);
    KernelReachesTrap(e.l, tr.Last(), e.kern, i, e.users[i].frame, k, va);
    tr' := StoreReaching(e, tr, frames, e.kern, i, va, k, word);
  }

  lemma ReadyLinker(e: Setup, tr: Trace)
    requires tr.Valid(e.l)
    ensures LinkerOk(e.l)
  {
  }

  /** One instruction. */
  lemma ExecOnTables(e: Setup, tr: Trace, w: T.World, instr: T.Instr) returns (tr': Trace)
    requires OnTables(e, tr, w.frames) && T.Exec(w, instr).Ok?
    ensures OnTables(e, tr', T.Exec(w, instr).value.frames) && OnlyStores(e, tr, tr')
  {
    hide OnTables;
    if instr.Sd? {
      var k := T.Operand(w, instr.base, instr.slot).value;
      tr' := StoreOnTables(e, tr, w.frames, w.hart.satp, k, w.hart.regs[instr.rs]);
    } else {
      tr' := tr;
    }
  }

  /** A whole program. */
  lemma {:induction false} ProgramOnTables(e: Setup, tr: Trace, w: T.World, prog: seq<T.Instr>) returns (tr': Trace)
    requires OnTables(e, tr, w.frames) && T.Run(w, prog).Ok?
    ensures OnTables(e, tr', T.Run(w, prog).value.frames) && OnlyStores(e, tr, tr')
    decreases |prog|
  {
    hide OnTables;
    if prog == [] {
      tr' := tr;
    } else {
      var w1 := T.Exec(w, prog[0]).value;
      var tr1 := ExecOnTables(e, tr, w, prog[0]);
      tr' := ProgramOnTables(e, tr1, w1, prog[1..]);
      OnlyStoresTrans(e, tr, tr1, tr');
    }
  }

  // ------------------------------------------------------------------------ loads

  /** The hardware finds word at va through the table of satp. */
  predicate Finds(mem: Memory, satp: Word, va: Word, word: Word) {
    var r := StoreTarget(mem, satp, va, Supervisor);
    r.Some? && mem[r.value.0][r.value.1] == PteOf(word)
  }

  lemma BackedFinds(s: System, i: nat, u: User, frames: map<Word, T.TrapPage>, va: Word, k: nat)
    requires Inv(s) && Backed(s, i, u, frames) && k < ENTRIES && va == TRAPFRAME_BASE_USER_VA + 8 * k
    ensures Finds(s.m.mem, u.satp, va, frames[u.satp][k])
  {
    hide Inv, TrapAt;
    TrapTarget(s, i, u.frame, va, k);
    NodeOfWord(frames[u.satp], k);
  }

  lemma NodeOfWord(page: T.TrapPage, k: nat)
    requires k < ENTRIES
    ensures NodeOf(page)[k] == PteOf(page[k])
  {
  }

  /** What a load of the trampoline puts in its register is what the hardware finds at that
      address through the loaded table. */
  lemma LoadReadsMemory(e: Setup, tr: Trace, w: T.World, instr: T.Instr, va: Word)
    requires OnTables(e, tr, w.frames) && instr.Ld? && T.Exec(w, instr).Ok?
    requires va == w.hart.regs[instr.base] + 8 * instr.slot
    ensures tr.run != [] && Finds(tr.Last().m.mem, w.hart.satp, va, T.Exec(w, instr).value.hart.regs[instr.rd])
  {
    hide Inv, Backed, Finds, Backs, KernelRun, HeapWritable;
    var i := UserOf(e, tr, w.frames, w.hart.satp);
    BackedFinds(tr.Last(), i, e.users[i], w.frames, va, T.Operand(w, instr.base, instr.slot).value);
  }

  // ----------------------------------------------------------------------- cycles

  /** A whole trap cycle. The entry stores through the table of the process that trapped. It leaves
      the kernel's table loaded, through which the handler moves the saved pc and `usertrapret`
      sets the saved tp of the next process. */
  lemma CycleOnTables(e: Setup, tr: Trace, w: T.World, c: C.Cycle, first: nat) returns (tr': Trace)
    requires OnTables(e, tr, w.frames) && C.UserEntry(w, e.side)
    requires c.next in w.frames && 1 <= first <= 2 && C.CycleStep(w, c, first).Ok?
    ensures var r := T.Run(C.Trapped(w, c), T.Uservec());
            r.Ok? && r.value.hart.satp == e.side.satp && r.value.hart.pc == e.side.handler
    ensures OnTables(e, tr', C.CycleStep(w, c, first).value.frames) && OnlyStores(e, tr, tr')
  {
    hide OnTables, OnlyStores;
    C.TrapEnters(w, c, e.side);
    var w0 := C.Trapped(w, c);
    var tr1 := ProgramOnTables(e, tr, w0, T.Uservec());
    var w1 := T.Run(w0, T.Uservec()).value;
    var tr2 := KernelStoreOnTables(e, tr1, w1.frames, w.hart.satp, T.SEPC, c.resume);
    var w2 := C.Handled(w1, w.hart.satp, c);
    var tr3 := KernelStoreOnTables(e, tr2, w2.frames, c.next, T.TP, c.hartid);
    var w3 := C.Returning(w2, c.next, c.hartid).value;
    tr' := ProgramOnTables(e, tr3, w3, T.Userret(first));
    OnlyStoresTrans(e, tr, tr1, tr2);
    OnlyStoresTrans(e, tr, tr2, tr3);
    OnlyStoresTrans(e, tr, tr3, tr');
  }

  /** Any sequence of cycles. */
  lemma {:induction false} CyclesOnTables(e: Setup, tr: Trace, w: T.World, cs: seq<C.Cycle>, first: nat, procs: C.Procs)
    returns (tr': Trace)
    requires OnTables(e, tr, w.frames) && C.UserEntry(w, e.side) && C.Refines(w, procs) && 1 <= first <= 2
    requires forall i :: 0 <= i < |cs| ==> cs[i].next in procs
    ensures C.CyclesRun(w, cs, first).Ok?
    ensures OnTables(e, tr', C.CyclesRun(w, cs, first).value.frames) && OnlyStores(e, tr, tr')
    decreases |cs|
  {
    hide OnTables;
    if cs == [] {
      tr' := tr;
    } else {
      assert cs[0].next in procs.Keys;
      C.CycleRefines(w, cs[0], first, e.side, procs);
      var w1, procs1 := C.CycleStep(w, cs[0], first).value, C.ProcsAfter(procs, w.hart.satp, cs[0], first);
      assert procs1.Keys == procs.Keys;
      var tr1 := CycleOnTables(e, tr, w, cs[0], first);
      tr' := CyclesOnTables(e, tr1, w1, cs[1..], first, procs1);
      OnlyStoresTrans(e, tr, tr1, tr');
    }
  }

  /** The trap frame of user u in s holds the registers and the pc of proc. */
  ghost predicate HoldsProc(s: System, u: User, proc: C.Proc) {
    && u.frame in s.m.mem && s.m.mem[u.frame][T.SEPC] == PteOf(proc.pc)
    && forall r :: 1 <= r < 32 ==> s.m.mem[u.frame][r] == PteOf(proc.regs[r])
  }

  lemma BackedProc(s: System, i: nat, u: User, frames: map<Word, T.TrapPage>, proc: C.Proc)
    requires Backed(s, i, u, frames) && C.SavedIn(frames[u.satp], proc)
    ensures HoldsProc(s, u, proc)
  {
  }

  /** In s every process but the running one has its registers and pc of procs in its trap frame. */
  ghost predicate ProcsInMemory(s: System, users: map<nat, User>, running: Word, procs: C.Procs) {
    forall i :: i in users && users[i].satp != running ==>
      users[i].satp in procs && HoldsProc(s, users[i], procs[users[i].satp])
  }

  /** Over every sequence of trap cycles between the processes of a run, with the kernel's table
      locked or not, nothing faults, the only steps are stores into trap frames, and in the state
      that is reached the registers and the pc of every process but the running one are in its own
      physical trap frame, and the next trap starts the handler on the process's kernel stack. */
  lemma TrapRunsOnTables(e: Setup, tr: Trace, w: T.World, cs: seq<C.Cycle>, first: nat, procs: C.Procs)
    returns (tr': Trace)
    requires OnTables(e, tr, w.frames) && C.UserEntry(w, e.side) && C.Refines(w, procs) && 1 <= first <= 2
    requires forall i :: 0 <= i < |cs| ==> cs[i].next in procs
    ensures C.CyclesRun(w, cs, first).Ok?
    ensures OnTables(e, tr', C.CyclesRun(w, cs, first).value.frames) && OnlyStores(e, tr, tr')
    ensures var w', procs' := C.CyclesRun(w, cs, first).value, C.ProcsRun(procs, w.hart.satp, cs, first);
            && C.Refines(w', procs') && C.UserEntry(w', e.side)
            && tr'.run != [] && ProcsInMemory(tr'.Last(), e.users, w'.hart.satp, procs')
  {
    hide Backs, KernelReady, ProcsInMemory;
    C.TrapRunsKeepContext(w, cs, first, e.side, procs);
    tr' := CyclesOnTables(e, tr, w, cs, first, procs);
    var w', procs' := C.CyclesRun(w, cs, first).value, C.ProcsRun(procs, w.hart.satp, cs, first);
    ProcsInFrames(tr'.Last(), e.users, w', procs');
  }

  lemma ProcsInFrames(s: System, users: map<nat, User>, w: T.World, procs: C.Procs)
    requires Backs(s, users, w.frames) && C.Refines(w, procs)
    ensures ProcsInMemory(s, users, w.hart.satp, procs)
  {
    hide HoldsProc, Backed, C.Refines;
    forall i | i in users && users[i].satp != w.hart.satp
      ensures users[i].satp in procs && HoldsProc(s, users[i], procs[users[i].satp])
    {
      UserProc(s, i, users[i], w, procs);
    }
  }

  lemma UserProc(s: System, i: nat, u: User, w: T.World, procs: C.Procs)
    requires Backed(s, i, u, w.frames) && C.Refines(w, procs) && u.satp != w.hart.satp
    ensures u.satp in procs && HoldsProc(s, u, procs[u.satp])
  {
    hide HoldsProc, C.SavedIn, TrapAt;
    assert u.satp in w.frames.Keys;
    BackedProc(s, i, u, w.frames, procs[u.satp]);
  }
}
