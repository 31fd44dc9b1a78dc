/** `__uservec` and `__userret` (kernel/src/asm/trampoline.S) as instruction sequences, with the
    kernel steps between them (kernel/src/trap/mod.rs). */
module Trampoline {
  import opened Wrappers
  import opened Bits
  import opened Sv39Format
  import opened Layout

  type Regs = r: seq<Word> | |r| == 32 witness seq(32, i => 0)

  /** The page of a trap frame as words; its first 37 are the `TrapContext`. */
  type TrapPage = p: seq<Word> | |p| == ENTRIES witness seq(ENTRIES, i => 0)

  const RA := 1
  const SP := 2
  const TP := 4
  const T0 := 5
  const T1 := 6
  const A0 := 10
  const T6 := 31

  // Slots of `TrapContext` after the 32 user registers.
  const KERNEL_SATP := 32
  const KERNEL_SP := 33
  const KERNEL_HARTID := 34
  const SEPC := 35
  const TRAP_HANDLER := 36

  type Reg = r: nat | 0 < r < 32 witness 1

  datatype Csr = Sscratch | Sepc | Satp

  datatype Instr =
    | Csrrw(rd: Reg, csr: Csr, rs: Reg)
    | Csrr(rd: Reg, csr: Csr)
    | Csrw(csr: Csr, rs: Reg)
    | Sd(rs: Reg, slot: nat, base: Reg)
    | Ld(rd: Reg, slot: nat, base: Reg)
    | Mv(rd: Reg, rs: Reg)
    | Fence
    | Jr(rs: Reg)
    | Sret

  datatype Hart = Hart(regs: Regs, sscratch: Word, sepc: Word, satp: Word, pc: Word)

  /** The hart, and the trap frame that each user page table maps, by the `satp` value of the
      table. */
  datatype World = World(hart: Hart, frames: map<Word, TrapPage>)

  // ------------------------------------------------------------------- semantics

  function ReadCsr(h: Hart, c: Csr): Word {
    match c
    case Sscratch => h.sscratch
    case Sepc => h.sepc
    case Satp => h.satp
  }

  function WriteCsr(h: Hart, c: Csr, w: Word): Hart {
    match c
    case Sscratch => h.(sscratch := w)
    case Sepc => h.(sepc := w)
    case Satp => h.(satp := w)
  }

  /** The word of the trap frame at slot * 8(base). Any other address faults, and so does any
      access while a table without a trap frame is loaded. */
  function Operand(w: World, base: Reg, slot: nat): Outcome<nat> {
    var a := w.hart.regs[base] + 8 * slot;
    if w.hart.satp in w.frames && TRAPFRAME_BASE_USER_VA <= a < TRAPFRAME_BASE_USER_VA + PAGE_SIZE
       && a % 8 == 0 then Ok((a - TRAPFRAME_BASE_USER_VA) / 8)
    else Panic
  }

  function SetReg(w: World, rd: Reg, x: Word): World {
    w.(hart := w.hart.(regs := w.hart.regs[rd := x]))
  }

  function Exec(w: World, i: Instr): (r: Outcome<World>)
    ensures r.Ok? ==> r.value.frames.Keys == w.frames.Keys
  {
    var h := w.hart;
    match i
    case Csrrw(rd, csr, rs) => Ok(World(WriteCsr(h, csr, h.regs[rs]).(regs := h.regs[rd := ReadCsr(h, csr)]), w.frames))
    case Csrr(rd, csr) => Ok(SetReg(w, rd, ReadCsr(h, csr)))
    case Csrw(csr, rs) => Ok(w.(hart := WriteCsr(h, csr, h.regs[rs])))
    case Sd(rs, slot, base) =>
      var k :- Operand(w, base, slot);
      Ok(w.(frames := w.frames[h.satp := w.frames[h.satp][k := h.regs[rs]]]))
    case Ld(rd, slot, base) =>
      var k :- Operand(w, base, slot);
      Ok(SetReg(w, rd, w.frames[h.satp][k]))
    case Mv(rd, rs) => Ok(SetReg(w, rd, h.regs[rs]))
    case Fence => Ok(w)
    case Jr(rs) => Ok(w.(hart := h.(pc := h.regs[rs])))
    case Sret => Ok(w.(hart := h.(pc := h.sepc)))
  }

  function Run(w: World, prog: seq<Instr>): (r: Outcome<World>)
    ensures r.Ok? ==> r.value.frames.Keys == w.frames.Keys
    decreases |prog|
  {
    if prog == [] then Ok(w)
    else
      var w' :- Exec(w, prog[0]);
      Run(w', prog[1..])
  }

  // -------------------------------------------------------------------- programs

  /** The `.rept` block that stores registers i to 30. */
  function SaveFrom(i: nat): seq<Instr>
    requires 1 <= i <= 31
    decreases 31 - i
  {
    if i == 31 then [] else [Sd(i, i, T6)] + SaveFrom(i + 1)
  }

  /** The `.rept` block that loads registers i to 30. */
  function LoadFrom(i: nat): seq<Instr>
    requires 1 <= i <= 31
    decreases 31 - i
  {
    if i == 31 then [] else [Ld(i, i, T6)] + LoadFrom(i + 1)
  }

  function SaveLast(): seq<Instr> {
    [Csrr(T0, Sscratch)] + ([Sd(T0, 31, T6)] + [Csrw(Sscratch, T6)])
  }

  function LoadKernel(): seq<Instr> {
    [Ld(T0, KERNEL_SATP, T6)] + ([Ld(SP, KERNEL_SP, T6)] + [Sd(TP, KERNEL_HARTID, T6)])
  }

  function SavePc(): seq<Instr> {
    [Csrr(T1, Sepc)] + ([Sd(T1, SEPC, T6)] + [Ld(T1, TRAP_HANDLER, T6)])
  }

  function Leave(): seq<Instr> {
    [Fence] + ([Csrw(Satp, T0)] + ([Fence] + [Jr(T1)]))
  }

  function Uservec(): seq<Instr> {
    [Csrrw(T6, Sscratch, T6)] + (SaveFrom(1) + (SaveLast() + (LoadKernel() + (SavePc() + Leave()))))
  }

  function Enter(): seq<Instr> {
    [Fence] + ([Csrw(Satp, A0)] + [Fence])
  }

  function PointAtFrame(): seq<Instr> {
    [Csrr(A0, Sscratch)] + [Mv(T6, A0)]
  }

  function LoadPc(): seq<Instr> {
    [Ld(A0, SEPC, T6)] + [Csrw(Sepc, A0)]
  }

  function Finish(): seq<Instr> {
    [Ld(T6, 31, T6)] + [Sret]
  }

  /** `__userret`, restoring registers from first on: 2 as written, 1 as meant. */
  function Userret(first: nat): seq<Instr>
    requires 1 <= first <= 2
  {
    Enter() + (PointAtFrame() + (LoadPc() + (LoadFrom(first) + Finish())))
  }

  // ---------------------------------------------------------- running the programs

  lemma {:induction false} RunAppend(w: World, a: seq<Instr>, b: seq<Instr>)
    ensures Run(w, a + b) ==
              match Run(w, a)
              case Panic => Panic
              case Ok(w') => Run(w', b)
    decreases |a|
  {
    if a == [] {
      assert a + b == b;
    } else {
      assert (a + b)[1..] == a[1..] + b;
      var o := Exec(w, a[0]);
      if o.Ok? {
        RunAppend(o.value, a[1..], b);
      }
    }
  }

  lemma RunThen(w: World, a: seq<Instr>, w': World, b: seq<Instr>)
    requires Run(w, a) == Ok(w')
    ensures Run(w, a + b) == Run(w', b)
  {
    RunAppend(w, a, b);
  }

  /** t6 holds the trap frame of the loaded table. */
  ghost predicate Pointed(w: World) {
    w.hart.satp in w.frames && w.hart.regs[T6] == TRAPFRAME_BASE_USER_VA
  }

  lemma OperandIs(w: World, slot: nat)
    requires Pointed(w) && slot < ENTRIES
    ensures Operand(w, T6, slot) == Ok(slot)
  {
  }

  /** The trap page with registers from i to 30 stored. */
  function Stored(page: TrapPage, regs: Regs, i: nat): TrapPage {
    seq(ENTRIES, k requires 0 <= k < ENTRIES => if i <= k < 31 then regs[k] else page[k])
  }

  /** The register file with registers from i to 30 loaded. */
  function Loaded(regs: Regs, page: TrapPage, i: nat): Regs {
    seq(32, k requires 0 <= k < 32 => if i <= k < 31 then page[k] else regs[k])
  }

  function WithPage(w: World, page: TrapPage): World {
    w.(frames := w.frames[w.hart.satp := page])
  }

  lemma WithPageTwice(w: World, a: TrapPage, b: TrapPage)
    ensures WithPage(WithPage(w, a), b) == WithPage(w, b)
  {
  }

  lemma {:induction false} SaveBlock(w: World, i: nat)
    requires Pointed(w) && 1 <= i <= 31
    ensures Run(w, SaveFrom(i)) == Ok(WithPage(w, Stored(w.frames[w.hart.satp], w.hart.regs, i)))
    decreases 31 - i
  {
    var page, regs := w.frames[w.hart.satp], w.hart.regs;
    if i == 31 {
      assert Stored(page, regs, 31) == page;
      assert w.frames[w.hart.satp := page] == w.frames;
    } else {
      OperandIs(w, i);
      var w1 := WithPage(w, page[i := regs[i]]);
      assert Exec(w, Sd(i, i, T6)) == Ok(w1);
      SaveBlock(w1, i + 1);
      assert Stored(page[i := regs[i]], regs, i + 1) == Stored(page, regs, i);
      WithPageTwice(w, page[i := regs[i]], Stored(page, regs, i));
      RunOne(w, Sd(i, i, T6), w1, SaveFrom(i + 1));
    }
  }

  lemma RunOne(w: World, i: Instr, w': World, rest: seq<Instr>)
    requires Exec(w, i) == Ok(w')
    ensures Run(w, [i] + rest) == Run(w', rest)
  {
  }

  lemma RunSingle(w: World, i: Instr)
    ensures Run(w, [i]) == Exec(w, i)
  {
  }

  lemma RunTwo(w: World, i: Instr, w1: World, j: Instr, w2: World)
    requires Exec(w, i) == Ok(w1) && Exec(w1, j) == Ok(w2)
    ensures Run(w, [i] + [j]) == Ok(w2)
  {
    RunOne(w, i, w1, [j]);
    RunSingle(w1, j);
  }

  lemma RunThree(w: World, i: Instr, w1: World, j: Instr, w2: World, k: Instr, w3: World)
    requires Exec(w, i) == Ok(w1) && Exec(w1, j) == Ok(w2) && Exec(w2, k) == Ok(w3)
    ensures Run(w, [i] + ([j] + [k])) == Ok(w3)
  {
    RunOne(w, i, w1, [j] + [k]);
    RunTwo(w1, j, w2, k, w3);
  }

  lemma {:induction false} LoadBlock(w: World, i: nat)
    requires Pointed(w) && 1 <= i <= 31
    ensures Run(w, LoadFrom(i)) == Ok(w.(hart := w.hart.(regs := Loaded(w.hart.regs, w.frames[w.hart.satp], i))))
    decreases 31 - i
  {
    var page, regs := w.frames[w.hart.satp], w.hart.regs;
    if i == 31 {
      assert Loaded(regs, page, 31) == regs;
    } else {
      OperandIs(w, i);
      var w1 := SetReg(w, i, page[i]);
      assert Exec(w, Ld(i, i, T6)) == Ok(w1);
      LoadBlock(w1, i + 1);
      assert Loaded(regs[i := page[i]], page, i + 1) == Loaded(regs, page, i);
      RunOne(w, Ld(i, i, T6), w1, LoadFrom(i + 1));
    }
  }

  // ---------------------------------------------------------------------- entry

  /** The trap page after `__uservec`. */
  function SavedPage(page: TrapPage, regs: Regs, sepc: Word): TrapPage {
    Stored(page, regs, 1)[31 := regs[31]][KERNEL_HARTID := regs[TP]][SEPC := sepc]
  }

  lemma SavedPageHolds(page: TrapPage, regs: Regs, sepc: Word)
    ensures var p := SavedPage(page, regs, sepc);
            && (forall k :: 1 <= k < 32 ==> p[k] == regs[k])
            && p[KERNEL_HARTID] == regs[TP] && p[SEPC] == sepc
            && (forall k :: 0 <= k < ENTRIES && !(1 <= k < 32) && k != KERNEL_HARTID && k != SEPC ==> p[k] == page[k])
  {
  }

  lemma RunSaveLast(w: World)
    requires Pointed(w)
    ensures var w' := WithPage(w, w.frames[w.hart.satp][31 := w.hart.sscratch]);
            Run(w, SaveLast()) ==
              Ok(w'.(hart := w.hart.(regs := w.hart.regs[T0 := w.hart.sscratch], sscratch := TRAPFRAME_BASE_USER_VA)))
  {
  }

  lemma RunLoadKernel(w: World)
    requires Pointed(w)
    ensures var page := w.frames[w.hart.satp];
            var w' := WithPage(w, page[KERNEL_HARTID := w.hart.regs[TP]]);
            Run(w, LoadKernel()) ==
              Ok(w'.(hart := w.hart.(regs := w.hart.regs[T0 := page[KERNEL_SATP]][SP := page[KERNEL_SP]])))
  {
    var page := w.frames[w.hart.satp];
    OperandIs(w, KERNEL_SATP);
    var w1 := SetReg(w, T0, page[KERNEL_SATP]);
    OperandIs(w1, KERNEL_SP);
    var w2 := SetReg(w1, SP, page[KERNEL_SP]);
    OperandIs(w2, KERNEL_HARTID);
    RunThree(w, Ld(T0, KERNEL_SATP, T6), w1, Ld(SP, KERNEL_SP, T6), w2, Sd(TP, KERNEL_HARTID, T6),
             WithPage(w2, page[KERNEL_HARTID := w.hart.regs[TP]]));
  }

  lemma RunSavePc(w: World)
    requires Pointed(w)
    ensures var page := w.frames[w.hart.satp];
            var w' := WithPage(w, page[SEPC := w.hart.sepc]);
            Run(w, SavePc()) == Ok(w'.(hart := w.hart.(regs := w.hart.regs[T1 := page[TRAP_HANDLER]])))
  {
    var page := w.frames[w.hart.satp];
    var w1 := SetReg(w, T1, w.hart.sepc);
    OperandIs(w1, SEPC);
    var w2 := WithPage(w1, page[SEPC := w.hart.sepc]);
    OperandIs(w2, TRAP_HANDLER);
    RunThree(w, Csrr(T1, Sepc), w1, Sd(T1, SEPC, T6), w2, Ld(T1, TRAP_HANDLER, T6), SetReg(w2, T1, page[TRAP_HANDLER]));
    assert w.hart.regs[T1 := w.hart.sepc][T1 := page[TRAP_HANDLER]] == w.hart.regs[T1 := page[TRAP_HANDLER]];
  }

  lemma RunLeave(w: World)
    ensures Run(w, Leave()) == Ok(w.(hart := w.hart.(satp := w.hart.regs[T0], pc := w.hart.regs[T1])))
  {
    var w1 := w.(hart := w.hart.(satp := w.hart.regs[T0]));
    RunOne(w, Fence, w, [Csrw(Satp, T0)] + ([Fence] + [Jr(T1)]));
    RunThree(w, Csrw(Satp, T0), w1, Fence, w1, Jr(T1), w1.(hart := w1.hart.(pc := w.hart.regs[T1])));
  }

  /** A hart in user mode: a user table is loaded and sscratch holds the trap-frame address. */
  ghost predicate InUser(w: World) {
    w.hart.satp in w.frames && w.hart.sscratch == TRAPFRAME_BASE_USER_VA
  }

  /** The world in which the trap handler starts. */
  ghost predicate Entered(w: World, w': World)
    requires InUser(w)
  {
    var page := w.frames[w.hart.satp];
    && w'.frames == w.frames[w.hart.satp := SavedPage(page, w.hart.regs, w.hart.sepc)]
    && w'.hart.sscratch == TRAPFRAME_BASE_USER_VA
    && w'.hart.satp == page[KERNEL_SATP] && w'.hart.regs[SP] == page[KERNEL_SP] && w'.hart.pc == page[TRAP_HANDLER]
  }

  /** `__uservec` never faults from user mode, saves x1 to x31 and the pc exactly, restores
      sscratch and starts the handler on the kernel's table and stack. */
  lemma UservecSaves(w: World)
    requires InUser(w)
    ensures Run(w, Uservec()).Ok? && Entered(w, Run(w, Uservec()).value)
  {
    var page, regs := w.frames[w.hart.satp], w.hart.regs;
    var w1 := w.(hart := w.hart.(regs := regs[T6 := TRAPFRAME_BASE_USER_VA], sscratch := regs[T6]));
    RunOne(w, Csrrw(T6, Sscratch, T6), w1, SaveFrom(1) + (SaveLast() + (LoadKernel() + (SavePc() + Leave()))));
    SaveBlock(w1, 1);
    assert Stored(page, w1.hart.regs, 1) == Stored(page, regs, 1);
    var w2 := WithPage(w1, Stored(page, regs, 1));
    RunThen(w1, SaveFrom(1), w2, SaveLast() + (LoadKernel() + (SavePc() + Leave())));
    UservecEnds(w2, page, regs);
    SavedAgain(w, w1, page, regs);
  }

  lemma SavedAgain(w: World, w1: World, page: TrapPage, regs: Regs)
    requires w1.frames == w.frames && w1.hart.satp == w.hart.satp
    ensures WithPage(WithPage(w1, Stored(page, regs, 1)), SavedPage(page, regs, w.hart.sepc)).frames
         == w.frames[w.hart.satp := SavedPage(page, regs, w.hart.sepc)]
  {
  }

  /** The rest of `__uservec`, after the registers below t6 are stored. */
  lemma UservecEnds(w: World, page: TrapPage, regs: Regs)
    requires Pointed(w) && w.frames[w.hart.satp] == Stored(page, regs, 1) && w.hart.sscratch == regs[31]
    requires w.hart.regs[TP] == regs[TP]
    ensures var r := Run(w, SaveLast() + (LoadKernel() + (SavePc() + Leave())));
            && r.Ok?
            && r.value.frames == WithPage(w, SavedPage(page, regs, w.hart.sepc)).frames
            && r.value.hart.sscratch == TRAPFRAME_BASE_USER_VA && r.value.hart.satp == page[KERNEL_SATP]
            && r.value.hart.regs[SP] == page[KERNEL_SP] && r.value.hart.pc == page[TRAP_HANDLER]
  {
    var p1 := Stored(page, regs, 1);
    RunSaveLast(w);
    var w1 := Run(w, SaveLast()).value;
    RunThen(w, SaveLast(), w1, LoadKernel() + (SavePc() + Leave()));
    var p2 := p1[31 := regs[31]];
    UservecLeaves(w1, p2);
    WithPageTwice(w, p2, SavedPage(page, regs, w.hart.sepc));
  }

  lemma UservecLeaves(w: World, page: TrapPage)
    requires Pointed(w) && w.frames[w.hart.satp] == page
    ensures var r := Run(w, LoadKernel() + (SavePc() + Leave()));
            && r.Ok?
            && r.value.frames == WithPage(w, page[KERNEL_HARTID := w.hart.regs[TP]][SEPC := w.hart.sepc]).frames
            && r.value.hart.sscratch == w.hart.sscratch && r.value.hart.satp == page[KERNEL_SATP]
            && r.value.hart.regs[SP] == page[KERNEL_SP] && r.value.hart.pc == page[TRAP_HANDLER]
  {
    var p1 := page[KERNEL_HARTID := w.hart.regs[TP]];
    RunLoadKernel(w);
    var w1 := Run(w, LoadKernel()).value;
    RunThen(w, LoadKernel(), w1, SavePc() + Leave());
    RunSavePc(w1);
    var w2 := Run(w1, SavePc()).value;
    RunThen(w1, SavePc(), w2, Leave());
    RunLeave(w2);
    WithPageTwice(w, p1, p1[SEPC := w.hart.sepc]);
  }

  // ----------------------------------------------------------------------- exit

  /** The registers after `__userret`. */
  function Restored(regs: Regs, page: TrapPage, first: nat): Regs {
    seq(32, k requires 0 <= k < 32 => if first <= k then page[k] else regs[k])
  }

  lemma RunEnter(w: World)
    ensures Run(w, Enter()) == Ok(w.(hart := w.hart.(satp := w.hart.regs[A0])))
  {
    var w1 := w.(hart := w.hart.(satp := w.hart.regs[A0]));
    RunThree(w, Fence, w, Csrw(Satp, A0), w1, Fence, w1);
  }

  lemma RunPointAtFrame(w: World)
    ensures Run(w, PointAtFrame()) ==
              Ok(w.(hart := w.hart.(regs := w.hart.regs[A0 := w.hart.sscratch][T6 := w.hart.sscratch])))
  {
  }

  lemma RunLoadPc(w: World)
    requires Pointed(w)
    ensures var pc := w.frames[w.hart.satp][SEPC];
            Run(w, LoadPc()) == Ok(w.(hart := w.hart.(regs := w.hart.regs[A0 := pc], sepc := pc)))
  {
    OperandIs(w, SEPC);
    var w1 := SetReg(w, A0, w.frames[w.hart.satp][SEPC]);
    RunTwo(w, Ld(A0, SEPC, T6), w1, Csrw(Sepc, A0), w1.(hart := w1.hart.(sepc := w.frames[w.hart.satp][SEPC])));
  }

  lemma RunFinish(w: World)
    requires Pointed(w)
    ensures Run(w, Finish()) ==
              Ok(w.(hart := w.hart.(regs := w.hart.regs[T6 := w.frames[w.hart.satp][31]], pc := w.hart.sepc)))
  {
  }

  /** `__userret`, called with the `satp` of a user table while sscratch holds the trap-frame
      address, restores every register from first on, from any register file. */
  lemma UserretRestores(w: World, first: nat)
    requires 1 <= first <= 2 && w.hart.regs[A0] in w.frames && w.hart.sscratch == TRAPFRAME_BASE_USER_VA
    ensures var user := w.hart.regs[A0];
            var page := w.frames[user];
            Run(w, Userret(first)) ==
              var regs := Restored(w.hart.regs, page, first);
              Ok(World(Hart(regs, TRAPFRAME_BASE_USER_VA, page[SEPC], user, page[SEPC]), w.frames))
  {
    var page := w.frames[w.hart.regs[A0]];
    RunEnter(w);
    var w1 := w.(hart := w.hart.(satp := w.hart.regs[A0]));
    RunThen(w, Enter(), w1, PointAtFrame() + (LoadPc() + (LoadFrom(first) + Finish())));
    RunPointAtFrame(w1);
    var w2 := Run(w1, PointAtFrame()).value;
    RunThen(w1, PointAtFrame(), w2, LoadPc() + (LoadFrom(first) + Finish()));
    UserretLoads(w2, page, first);
    assert Restored(w2.hart.regs, page, first) == Restored(w.hart.regs, page, first);
  }

  /** The rest of `__userret`, once t6 holds the trap-frame address. */
  lemma UserretLoads(w: World, page: TrapPage, first: nat)
    requires Pointed(w) && w.frames[w.hart.satp] == page && 1 <= first <= 2
    ensures Run(w, LoadPc() + (LoadFrom(first) + Finish())) ==
              Ok(w.(hart := w.hart.(regs := Restored(w.hart.regs, page, first), sepc := page[SEPC], pc := page[SEPC])))
  {
    RunLoadPc(w);
    var w2 := Run(w, LoadPc()).value;
    RunThen(w, LoadPc(), w2, LoadFrom(first) + Finish());
    LoadBlock(w2, first);
    var w3 := w2.(hart := w2.hart.(regs := Loaded(w2.hart.regs, page, first)));
    RunThen(w2, LoadFrom(first), w3, Finish());
    RunFinish(w3);
    assert Loaded(w2.hart.regs, page, first)[T6 := page[31]] == Restored(w.hart.regs, page, first);
  }
}
