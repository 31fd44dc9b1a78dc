/** The hart and the trap context as objects: the trampoline's instructions update registers,
    CSRs and trap-frame words in place (kernel/src/asm/trampoline.S), and the kernel's setters
    update the same words (kernel/src/process/context.rs). */
module TrapHarts {
  import opened Wrappers
  import opened Bits
  import opened Sv39Format
  import opened Layout
  import opened Trampoline
  import opened TrapCycles

  class TrapMemory {
    var frames: map<Word, TrapPage>

    constructor (frames: map<Word, TrapPage>)
      ensures this.frames == frames
    {
      this.frames := frames;
    }
  }

  /** `TrapContext`: the words of one trap frame, written in place. */
  class TrapContext {
    const mem: TrapMemory
    const satp: Word

    constructor (mem: TrapMemory, satp: Word)
      ensures this.mem == mem && this.satp == satp
    {
      this.mem := mem;
      this.satp := satp;
    }

    ghost predicate Valid()
      reads mem
    {
      satp in mem.frames
    }

    ghost function Page(): TrapPage
      requires Valid()
      reads mem
    {
      mem.frames[satp]
    }

    /** What every setter does: one slot of this frame changes. */
    twostate predicate Wrote(slot: nat, word: Word)
      requires slot < ENTRIES && old(Valid())
      reads mem
    {
      mem.frames == old(mem.frames)[satp := old(Page())[slot := word]]
    }

    method Put(slot: nat, word: Word)
      requires Valid() && slot < ENTRIES
      modifies mem
      ensures Wrote(slot, word)
    {
      mem.frames := mem.frames[satp := mem.frames[satp][slot := word]];
    }

    method SetTp(tp: Word)
      requires Valid()
      modifies mem
      ensures Wrote(TP, tp)
    {
      Put(TP, tp);
    }

    method SetTrapHandler(addr: Word)
      requires Valid()
      modifies mem
      ensures Wrote(TRAP_HANDLER, addr)
    {
      Put(TRAP_HANDLER, addr);
    }

    method SetUserSpacePc(addr: Word)
      requires Valid()
      modifies mem
      ensures Wrote(SEPC, addr)
    {
      Put(SEPC, addr);
    }

    method IncrUserSpacePc(diff: Word) returns (r: Outcome<()>)
      requires Valid()
      modifies mem
      ensures r.Ok? <==> old(Page())[SEPC] + diff < TWO64
      ensures r.Ok? ==> Wrote(SEPC, old(Page())[SEPC] + diff)
    {
      var pc := mem.frames[satp][SEPC];
      if pc + diff >= TWO64 {
        return Panic;
      }
      Put(SEPC, pc + diff);
      return Ok(());
    }

    /** The stack grows down from the top of its page. */
    method SetKernelStack(base: Word) returns (r: Outcome<()>)
      requires Valid()
      modifies mem
      ensures r.Ok? <==> base % PAGE_SIZE == 0 && base + PAGE_SIZE < TWO64
      ensures r.Ok? ==> Wrote(KERNEL_SP, base + PAGE_SIZE)
    {
      if base % PAGE_SIZE != 0 || base + PAGE_SIZE >= TWO64 {
        return Panic;
      }
      Put(KERNEL_SP, base + PAGE_SIZE);
      return Ok(());
    }

    method SetKernelPageTable(word: Word)
      requires Valid()
      modifies mem
      ensures Wrote(KERNEL_SATP, word)
    {
      Put(KERNEL_SATP, word);
    }

    method GetKernelPageTable() returns (word: Word)
      requires Valid()
      ensures word == Page()[KERNEL_SATP]
    {
      return mem.frames[satp][KERNEL_SATP];
    }

    /** The setters of `first_execution_init`. */
    method FirstExecutionInit(kernelStack: Word, handler: Word, kernelSatp: Word) returns (r: Outcome<()>)
      requires Valid()
      modifies mem
      ensures r.Ok? <==> kernelStack % PAGE_SIZE == 0 && kernelStack + PAGE_SIZE < TWO64
      ensures r.Ok? ==>
                var page := FirstPage(old(Page()), kernelStack + PAGE_SIZE, handler, kernelSatp);
                mem.frames == old(mem.frames)[satp := page]
    {
      r := SetKernelStack(kernelStack);
      if r.Ok? {
        SetTrapHandler(handler);
        SetUserSpacePc(TEXT_BASE_USER_VA);
        SetKernelPageTable(kernelSatp);
      }
    }
  }

  class RiscvHart {
    const regs: array<Word>
    var sscratch: Word
    var sepc: Word
    var satp: Word
    var pc: Word

    ghost predicate Valid() {
      regs.Length == 32
    }

    constructor (h: Hart)
      ensures Valid() && fresh(regs) && HartOf() == h
    {
      regs := new Word[32](k requires 0 <= k < 32 => h.regs[k]);
      sscratch, sepc, satp, pc := h.sscratch, h.sepc, h.satp, h.pc;
      new;
      assert regs[..] == h.regs;
    }

    ghost function HartOf(): Hart
      requires Valid()
      reads this, regs
    {
      Hart(regs[..], sscratch, sepc, satp, pc)
    }

    ghost function WorldOf(mem: TrapMemory): World
      requires Valid()
      reads this, regs, mem
    {
      World(HartOf(), mem.frames)
    }

    method GetCsr(csr: Csr) returns (w: Word)
      requires Valid()
      ensures w == ReadCsr(HartOf(), csr)
    {
      match csr
      case Sscratch => return sscratch;
      case Sepc => return sepc;
      case Satp => return satp;
    }

    method SetCsr(csr: Csr, w: Word)
      requires Valid()
      modifies this
      ensures HartOf() == WriteCsr(old(HartOf()), csr, w)
    {
      match csr
      case Sscratch => sscratch := w;
      case Sepc => sepc := w;
      case Satp => satp := w;
    }

    /** The word that a load or store addresses. */
    method Address(mem: TrapMemory, base: Reg, slot: nat) returns (r: Outcome<nat>)
      requires Valid()
      ensures r == Operand(WorldOf(mem), base, slot)
    {
      var a := regs[base] + 8 * slot;
      if satp !in mem.frames || a < TRAPFRAME_BASE_USER_VA || a >= TRAPFRAME_BASE_USER_VA + PAGE_SIZE || a % 8 != 0 {
        return Panic;
      }
      return Ok((a - TRAPFRAME_BASE_USER_VA) / 8);
    }

    /** One instruction. */
    method Step(mem: TrapMemory, i: Instr) returns (r: Outcome<()>)
      requires Valid()
      modifies this, regs, mem
      ensures match Exec(old(WorldOf(mem)), i)
              case Panic => r.Panic?
              case Ok(w) => r == Ok(()) && WorldOf(mem) == w
    {
      r := Ok(());
      match i
      case Csrrw(rd, csr, rs) =>
        var was := GetCsr(csr);
        SetCsr(csr, regs[rs]);
        regs[rd] := was;
      case Csrr(rd, csr) =>
        var was := GetCsr(csr);
        regs[rd] := was;
      case Csrw(csr, rs) => SetCsr(csr, regs[rs]);
      case Sd(rs, slot, base) => r := Store(mem, rs, slot, base);
      case Ld(rd, slot, base) => r := Load(mem, rd, slot, base);
      case Mv(rd, rs) => regs[rd] := regs[rs];
      case Fence =>
      case Jr(rs) => pc := regs[rs];
      case Sret => pc := sepc;
    }

    method Store(mem: TrapMemory, rs: Reg, slot: nat, base: Reg) returns (r: Outcome<()>)
      requires Valid()
      modifies mem
      ensures match Exec(old(WorldOf(mem)), Sd(rs, slot, base))
              case Panic => r.Panic?
              case Ok(w) => r == Ok(()) && WorldOf(mem) == w
    {
      var k := Address(mem, base, slot);
      if k.Panic? {
        return Panic;
      }
      mem.frames := mem.frames[satp := mem.frames[satp][k.value := regs[rs]]];
      return Ok(());
    }

    method Load(mem: TrapMemory, rd: Reg, slot: nat, base: Reg) returns (r: Outcome<()>)
      requires Valid()
      modifies regs
      ensures match Exec(old(WorldOf(mem)), Ld(rd, slot, base))
              case Panic => r.Panic?
              case Ok(w) => r == Ok(()) && WorldOf(mem) == w
    {
      var k := Address(mem, base, slot);
      if k.Panic? {
        return Panic;
      }
      regs[rd] := mem.frames[satp][k.value];
      return Ok(());
    }

    /** A program, instruction by instruction. */
    method Execute(mem: TrapMemory, prog: seq<Instr>) returns (r: Outcome<()>)
      requires Valid()
      modifies this, regs, mem
      ensures match Run(old(WorldOf(mem)), prog)
              case Panic => r.Panic?
              case Ok(w) => r == Ok(()) && WorldOf(mem) == w
    {
      ghost var target := Run(WorldOf(mem), prog);
      var i := 0;
      while i < |prog|
        invariant 0 <= i <= |prog| && Run(WorldOf(mem), prog[i..]) == target
      {
        assert prog[i..][0] == prog[i] && prog[i..][1..] == prog[i + 1..];
        var done := Step(mem, prog[i]);
        if done.Panic? {
          return Panic;
        }
        i := i + 1;
      }
      return Ok(());
    }

    /** The whole register file at once: what user code or the handler leaves in it. */
    method SetRegs(file: Regs)
      requires Valid()
      modifies regs
      ensures regs[..] == file
    {
      var k := 0;
      while k < 32
        invariant 0 <= k <= 32 && regs[..k] == file[..k]
      {
        regs[k] := file[k];
        k := k + 1;
      }
    }

    /** `usertrapret` from the loaded kernel table to process next. */
    method ReturnToUser(mem: TrapMemory, next: Word, hartid: Word, first: nat) returns (r: Outcome<()>)
      requires Valid() && next in mem.frames && 1 <= first <= 2
      modifies this, regs, mem
      ensures match Returning(old(WorldOf(mem)), next, hartid)
              case Panic => r.Panic?
              case Ok(w) =>
                match Run(w, Userret(first))
                case Panic => r.Panic?
                case Ok(w') => r == Ok(()) && WorldOf(mem) == w'
    {
      if sscratch != TRAPFRAME_BASE_USER_VA {
        return Panic;
      }
      var ctx := new TrapContext(mem, next);
      ctx.SetTp(hartid);
      var kernel := ctx.GetKernelPageTable();
      if satp != kernel {
        return Panic;
      }
      regs[A0] := next;
      r := Execute(mem, Userret(first));
    }

    /** User code runs and traps, and `__uservec` saves its context. */
    method TrapEntry(mem: TrapMemory, c: Cycle) returns (r: Outcome<()>)
      requires Valid()
      modifies this, regs, mem
      ensures match Run(Trapped(old(WorldOf(mem)), c), Uservec())
              case Panic => r.Panic?
              case Ok(w) => r == Ok(()) && WorldOf(mem) == w
    {
      SetRegs(c.userRegs);
      sepc := c.userPc;
      r := Execute(mem, Uservec());
    }

    /** The handler leaves its registers, and the next process is entered. */
    method Resume(mem: TrapMemory, c: Cycle, first: nat, ghost user: Word, ghost before: World) returns (r: Outcome<()>)
      requires Valid() && c.next in mem.frames && 1 <= first <= 2
      requires user in before.frames
      requires WorldOf(mem) == World(before.hart, before.frames[user := before.frames[user][SEPC := c.resume]])
      modifies this, regs, mem
      ensures match Returning(Handled(before, user, c), c.next, c.hartid)
              case Panic => r.Panic?
              case Ok(w) =>
                match Run(w, Userret(first))
                case Panic => r.Panic?
                case Ok(w') => r == Ok(()) && WorldOf(mem) == w'
    {
      SetRegs(c.kernelRegs);
      r := ReturnToUser(mem, c.next, c.hartid, first);
    }

    /** A trap cycle in place: user code runs and traps, `__uservec` saves its context, the handler
        moves the saved pc, and `usertrapret` enters the next process. */
    method TrapCycle(mem: TrapMemory, c: Cycle, first: nat) returns (r: Outcome<()>)
      requires Valid() && satp in mem.frames && c.next in mem.frames && 1 <= first <= 2
      modifies this, regs, mem
      ensures match CycleStep(old(WorldOf(mem)), c, first)
              case Panic => r.Panic?
              case Ok(w) => r == Ok(()) && WorldOf(mem) == w
    {
      var user := satp;
      r := TrapEntry(mem, c);
      if r.Panic? {
        return Panic;
      }
      ghost var before := WorldOf(mem);
      var ctx := new TrapContext(mem, user);
      ctx.SetUserSpacePc(c.resume);
      r := Resume(mem, c, first, user, before);
    }

    /** A system call: the handler moves the saved pc past the `ecall`. It is the cycle that resumes
        four bytes on, panics included, and panics also when that address overflows. */
    method SyscallCycle(mem: TrapMemory, c: Cycle, first: nat) returns (r: Outcome<()>)
      requires Valid() && InUser(WorldOf(mem)) && c.next in mem.frames && 1 <= first <= 2
      modifies this, regs, mem
      ensures c.userPc + 4 >= TWO64 ==> r.Panic?
      ensures c.userPc + 4 < TWO64 ==>
                match CycleStep(old(WorldOf(mem)), c.(resume := c.userPc + 4), first)
                case Panic => r.Panic?
                case Ok(w) => r == Ok(()) && WorldOf(mem) == w
    {
      hide Run;
      hide Uservec;
      hide Userret;
      var user := satp;
      EntrySavesPc(WorldOf(mem), c);
      r := TrapEntry(mem, c);
      ghost var before := WorldOf(mem);
      var ctx := new TrapContext(mem, user);
      r := ctx.IncrUserSpacePc(4);
      if r.Ok? {
        r := Resume(mem, c.(resume := c.userPc + 4), first, user, before);
      }
    }
  }

  lemma EntrySavesPc(w: World, c: Cycle)
    requires InUser(w)
    ensures var r := Run(Trapped(w, c), Uservec());
            r.Ok? && w.hart.satp in r.value.frames && r.value.frames[w.hart.satp][SEPC] == c.userPc
  {
    UservecSaves(Trapped(w, c));
    SavedPageHolds(w.frames[w.hart.satp], c.userRegs, c.userPc);
  }
}
