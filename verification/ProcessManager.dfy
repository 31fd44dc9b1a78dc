/** The process table and its ready queue (kernel/src/process/manager.rs), with the frames that
    making a process takes (kernel/src/process/process.rs). */
module ProcessManagers {
  import opened Wrappers
  import opened Bits
  import opened Sv39Format
  import opened Layout
  import opened Machines
  import opened FrameAllocators
  import opened PageTables
  import opened Mapping
  import opened Areas
  import opened Translating
  import opened AddressSpaces
  import opened UserSpaces
  import opened SpaceFacts
  import opened InitProcesses
  import opened PageTableGuards
  import opened AddrSpaces
  import opened ResourceTables
  import opened Addresses
  import T = Trampoline
  import C = TrapCycles

  const INITIAL_MAX_N_PROCS := 128

  /** A process control block, shared by reference between the table and the queue. */
  class ProcessControlBlock {
    const pid: nat
    const kernelStack: Frame
    const userSpace: AddrSpace?

    constructor (pid: nat, kernelStack: Frame, userSpace: AddrSpace?)
      ensures this.pid == pid && this.kernelStack == kernelStack && this.userSpace == userSpace
    {
      this.pid := pid;
      this.kernelStack := kernelStack;
      this.userSpace := userSpace;
    }
  }

  datatype Manager = Manager(table: Slots<ProcessControlBlock>, queue: seq<ProcessControlBlock>)

  function NewManager(): Manager {
    Manager(NewSlots(INITIAL_MAX_N_PROCS), [])
  }

  /** Reserve a pid, store the block under it and put the block at one end of the queue. */
  ghost function Enlist(s: Manager, pcb: ProcessControlBlock, front: bool): Outcome<Manager> {
    var (t, id) :- Reserve(s.table);
    var t' :- Initialise(t, id, pcb);
    Ok(Manager(t', if front then [pcb] + s.queue else s.queue + [pcb]))
  }

  /** The manager, the memory and allocator that it takes frames from, and the user spaces of the
      processes that have one, by pid. */
  datatype Kernel = Kernel(m: Machine, procs: Manager, spaces: map<nat, Space>)

  /** What `make_initcode_uninitialised` is given. */
  datatype InitArgs = InitArgs(l: Linker, text: seq<Byte>, entry: Entry)

  /** The frame for the kernel stack of a new process, and the machine without it. */
  function StackOf(m: Machine): Outcome<(Machine, Frame)>
    requires HeapFits(m)
  {
    AllocateZeroed(m)
  }

  /** The block that a creation allocates carries the pid it reserves, the frame it takes for
      the kernel stack and, exactly for init, a user space. */
  ghost predicate Numbered(k: Kernel, pcb: ProcessControlBlock, init: bool)
    requires HeapFits(k.m)
  {
    && (pcb.userSpace != null <==> init)
    && (Reserve(k.procs.table).Ok? ==> pcb.pid == Reserve(k.procs.table).value.1)
    && (StackOf(k.m).Ok? ==> pcb.kernelStack == StackOf(k.m).value.1)
  }

  /** `create_process`: it also panics when there is no frame for the kernel stack. */
  ghost function Create(k: Kernel, pcb: ProcessControlBlock): Outcome<Kernel>
    requires HeapFits(k.m)
  {
    var procs :- Enlist(k.procs, pcb, true);
    var (m, _) :- StackOf(k.m);
    Ok(Kernel(m, procs, k.spaces))
  }

  /** `create_initcode`: it panics, too, when the frames do not suffice for kernel stack and space,
      and when the pid of init is not 0. */
  ghost function CreateInit(k: Kernel, a: InitArgs, pcb: ProcessControlBlock): Outcome<Kernel>
    requires HeapFits(k.m) && LinkerOk(a.l)
  {
    var procs :- Enlist(k.procs, pcb, false);
    var (m, p) :- MakeInitcode(k.m, a.l, a.text, a.entry);
    if pcb.pid != 0 then Panic else Ok(Kernel(m, procs, k.spaces[0 := p.space]))
  }

  /** `pop_one`. */
  function Pop(s: Manager): (Manager, Option<ProcessControlBlock>) {
    if s.queue == [] then (s, None) else (s.(queue := s.queue[1..]), Some(s.queue[0]))
  }

  /** `push_one`. */
  function Push(s: Manager, pid: nat): Outcome<Manager> {
    var pcb :- Get(s.table, pid);
    if pcb.pid != pid then Panic else Ok(s.(queue := s.queue + [pcb]))
  }

  // ------------------------------------------------------------------- invariant

  /** The table holds an initialised block under each of the n pids handed out, and it is the
      block with that pid. */
  ghost predicate TableOk(t: Slots<ProcessControlBlock>, n: nat) {
    && Counted(t, INITIAL_MAX_N_PROCS, n)
    && forall id :: id in t.active ==> t.active[id].Some? && t.active[id].value.pid == id
  }

  /** A queued block is the very one the table stores under its pid. */
  ghost predicate Stored(t: Slots<ProcessControlBlock>, pcb: ProcessControlBlock) {
    pcb.pid in t.active && t.active[pcb.pid] == Some(pcb)
  }

  ghost predicate QueueOk(s: Manager) {
    forall i :: 0 <= i < |s.queue| ==> Stored(s.table, s.queue[i])
  }

  ghost predicate ManagerInv(s: Manager, n: nat) {
    TableOk(s.table, n) && QueueOk(s)
  }

  ghost predicate Queued(s: Manager, pid: nat) {
    exists i :: 0 <= i < |s.queue| && s.queue[i].pid == pid
  }

  ghost predicate NoDuplicates(s: Manager) {
    forall i, j :: 0 <= i < j < |s.queue| ==> s.queue[i] != s.queue[j]
  }

  lemma NewManagerInv()
    ensures ManagerInv(NewManager(), 0) && NoDuplicates(NewManager())
  {
    NewCounted<ProcessControlBlock>(INITIAL_MAX_N_PROCS);
  }

  /** A creation stores its block under pid n and keeps every other entry. */
  lemma EnlistStores(t: Slots<ProcessControlBlock>, n: nat, pcb: ProcessControlBlock)
    requires TableOk(t, n) && Reserve(t).Ok? && pcb.pid == Reserve(t).value.1
    ensures pcb.pid == n && n !in t.active
    ensures var o := Initialise(Reserve(t).value.0, n, pcb);
            o.Ok? && TableOk(o.value, n + 1) && o.value.active == t.active[n := Some(pcb)]
  {
    ReserveReturnsNext(t, INITIAL_MAX_N_PROCS, n);
    CountedPartition(t, INITIAL_MAX_N_PROCS, n);
    ReserveTakesLowest(t);
    var (t1, id) := Reserve(t).value;
    assert n in t1.active;
    CountedInitialised(t1, INITIAL_MAX_N_PROCS, n + 1, n, pcb);
    assert t1.active[n := Some(pcb)] == t.active[n := Some(pcb)];
  }

  lemma StoredStays(t: Slots<ProcessControlBlock>, t': Slots<ProcessControlBlock>, n: nat, x: ProcessControlBlock,
                    pcb: ProcessControlBlock)
    requires Stored(t, pcb) && n !in t.active && t'.active == t.active[n := Some(x)]
    ensures Stored(t', pcb) && pcb.pid != n
  {
  }

  /** Creating keeps the invariant and the queue free of duplicates. */
  lemma EnlistKeeps(s: Manager, n: nat, pcb: ProcessControlBlock, front: bool)
    requires ManagerInv(s, n) && Enlist(s, pcb, front).Ok? && pcb.pid == Reserve(s.table).value.1
    ensures var s' := Enlist(s, pcb, front).value;
            ManagerInv(s', n + 1) && (NoDuplicates(s) ==> NoDuplicates(s')) && pcb.pid == n
  {
    EnlistStores(s.table, n, pcb);
    var s' := Enlist(s, pcb, front).value;
    forall i | 0 <= i < |s.queue|
      ensures Stored(s'.table, s.queue[i]) && s.queue[i].pid != n
    {
      StoredStays(s.table, s'.table, n, pcb, s.queue[i]);
    }
    assert Stored(s'.table, pcb);
  }

  /** `push_one` succeeds exactly for the pids handed out, so its pid assertion never fails. It
      keeps the queue free of duplicates exactly when the pid was not queued. */
  lemma PushKeeps(s: Manager, n: nat, pid: nat)
    requires ManagerInv(s, n)
    ensures Push(s, pid).Ok? <==> pid < n
    ensures Push(s, pid).Ok? ==> ManagerInv(Push(s, pid).value, n)
    ensures Push(s, pid).Ok? && NoDuplicates(s) ==> (NoDuplicates(Push(s, pid).value) <==> !Queued(s, pid))
  {
    assert pid in s.table.active <==> pid in s.table.active.Keys;
    if pid < n {
      var pcb, s' := s.table.active[pid].value, Push(s, pid).value;
      assert Stored(s.table, pcb);
      assert s'.queue[|s.queue|] == pcb;
      assert forall i :: 0 <= i < |s.queue| ==> s'.queue[i] == s.queue[i];
      QueuedIff(s, pid, pcb);
    }
  }

  lemma QueuedIff(s: Manager, pid: nat, pcb: ProcessControlBlock)
    requires QueueOk(s) && Stored(s.table, pcb) && pcb.pid == pid
    ensures Queued(s, pid) <==> pcb in s.queue
  {
  }

  lemma PopKeeps(s: Manager, n: nat)
    requires ManagerInv(s, n)
    ensures ManagerInv(Pop(s).0, n) && (NoDuplicates(s) ==> NoDuplicates(Pop(s).0))
    ensures Pop(s).1.Some? ==>
              Stored(s.table, Pop(s).1.value) && (NoDuplicates(s) ==> !Queued(Pop(s).0, Pop(s).1.value.pid))
  {
  }

  lemma EnlistOkIff(s: Manager, n: nat, pcb: ProcessControlBlock, front: bool)
    requires ManagerInv(s, n) && (Reserve(s.table).Ok? ==> pcb.pid == Reserve(s.table).value.1)
    ensures Enlist(s, pcb, front).Ok? <==> Reserve(s.table).Ok?
    ensures Reserve(s.table).Ok? ==> pcb.pid == n
    ensures n == 0 ==> Reserve(s.table).Ok?
  {
    ReserveReturnsNext(s.table, INITIAL_MAX_N_PROCS, n);
    if Reserve(s.table).Ok? {
      EnlistStores(s.table, n, pcb);
    }
  }

  /** `create_process` succeeds exactly when a pid and a frame are left. */
  lemma CreateOkIff(k: Kernel, n: nat, pcb: ProcessControlBlock)
    requires ManagerInv(k.procs, n) && MachineOk(k.m) && Numbered(k, pcb, false)
    ensures Create(k, pcb).Ok? <==> Reserve(k.procs.table).Ok? && Free(k.m) > 0
  {
    EnlistOkIff(k.procs, n, pcb, true);
    AllocateZeroedTakes(k.m);
  }

  /** `create_initcode` succeeds exactly when it makes the first reservation, the text leaves room
      for the stack, and the free frames cover the kernel stack and the space of init. */
  lemma InitIsFirstIff(k: Kernel, n: nat, a: InitArgs, pcb: ProcessControlBlock)
    requires ManagerInv(k.procs, n) && MachineOk(k.m) && LinkerOk(a.l) && Numbered(k, pcb, true)
    ensures CreateInit(k, a, pcb).Ok? <==>
              n == 0 && UserFits(|a.text|) && 1 + UserCost(a.l, StackPage(|a.text|)) <= Free(k.m)
    ensures 1 <= |a.text| <= PAGE_SIZE ==> (CreateInit(k, a, pcb).Ok? <==> n == 0 && Free(k.m) >= 9)
  {
    EnlistOkIff(k.procs, n, pcb, false);
    var user, code := MakeInitcodeExact(k.m, a.l, a.text, a.entry);
    if 1 <= |a.text| <= PAGE_SIZE {
      OnePageStack(|a.text|);
      SmallUserCost(a.l, StackPage(|a.text|));
    }
  }

  // ----------------------------------------------------------------------- order

  /** A created process is the next to be popped, before all that were queued. */
  lemma CreatedIsNext(k: Kernel, pcb: ProcessControlBlock)
    requires HeapFits(k.m) && Create(k, pcb).Ok?
    ensures var procs := Create(k, pcb).value.procs;
            Pop(procs) == (procs.(queue := k.procs.queue), Some(pcb))
  {
    assert ([pcb] + k.procs.queue)[1..] == k.procs.queue;
  }

  function PopTimes(s: Manager, n: nat): Manager
    decreases n
  {
    if n == 0 then s else PopTimes(Pop(s).0, n - 1)
  }

  lemma {:induction false} PopsDrop(s: Manager, n: nat)
    requires n <= |s.queue|
    ensures PopTimes(s, n) == s.(queue := s.queue[n..])
    decreases n
  {
    if n > 0 {
      PopsDrop(Pop(s).0, n - 1);
      assert s.queue[1..][n - 1..] == s.queue[n..];
    }
  }

  /** A pushed process is popped after exactly those that were queued. */
  lemma PushedIsLast(s: Manager, pid: nat)
    requires Push(s, pid).Ok?
    ensures Pop(PopTimes(Push(s, pid).value, |s.queue|)) == (s.(queue := []), Some(Get(s.table, pid).value))
  {
    var pcb := Get(s.table, pid).value;
    PopsDrop(Push(s, pid).value, |s.queue|);
    assert (s.queue + [pcb])[|s.queue|..] == [pcb] && [pcb][1..] == [];
  }

  lemma InitIsLast(k: Kernel, a: InitArgs, pcb: ProcessControlBlock)
    requires HeapFits(k.m) && LinkerOk(a.l) && CreateInit(k, a, pcb).Ok?
    ensures var procs := CreateInit(k, a, pcb).value.procs;
            Pop(PopTimes(procs, |k.procs.queue|)) == (procs.(queue := []), Some(pcb))
  {
    var queue := k.procs.queue;
    PopsDrop(CreateInit(k, a, pcb).value.procs, |queue|);
    assert (queue + [pcb])[|queue|..] == [pcb] && [pcb][1..] == [];
  }

  // --------------------------------------------------------------- kernel stacks

  /** The kernel stack of every process is a live frame, and no two processes share one. */
  ghost predicate StacksOk(m: Machine, t: Slots<ProcessControlBlock>) {
    && (forall id :: HasBlock(t, id) ==> Live(m, t.active[id].value.kernelStack))
    && (forall i, j :: HasBlock(t, i) && HasBlock(t, j) && i != j ==>
          t.active[i].value.kernelStack != t.active[j].value.kernelStack)
  }

  predicate HasBlock(t: Slots<ProcessControlBlock>, id: nat) {
    id in t.active && t.active[id].Some?
  }

  /** A new block with a frame that was free, while all live frames stay live. */
  lemma StackAdded(m: Machine, t: Slots<ProcessControlBlock>, m': Machine, t': Slots<ProcessControlBlock>, n: nat,
                   pcb: ProcessControlBlock)
    requires StacksOk(m, t) && t'.active == t.active[n := Some(pcb)]
    requires !Live(m, pcb.kernelStack) && Live(m', pcb.kernelStack) && forall f: Frame :: Live(m, f) ==> Live(m', f)
    ensures StacksOk(m', t')
  {
    forall id | HasBlock(t', id) && id != n
      ensures HasBlock(t, id) && t'.active[id] == t.active[id]
    {
    }
  }

  // ----------------------------------------------------------------- user spaces

  /** What init was made from, and the frames of its stack, text and trap frame. */
  datatype InitRecord = InitRecord(args: InitArgs, user: Frame, code: Frame, trap: Frame)

  /** Space sp is the space of init with kernel stack stack: its map is that of the first user
      space, its frames are live, the text is there, and the trap frame is filled in. */
  ghost predicate HoldsInit(m: Machine, sp: Space, stack: Frame, r: InitRecord) {
    && LinkerOk(r.args.l) && InReach(|r.args.text|) && stack < 0x1000_0000_0000
    && Wf(m, sp.table)
    && Denote(m.mem, sp.table.root) == UserView(r.args.l, StackPage(|r.args.text|), r.user, r.code, r.trap)
    && OwnedFrames(sp) == sp.table.nodes + [r.user, r.code, r.trap] && AllLive(m, OwnedFrames(sp))
    && r.code in m.mem && m.mem[r.code] == Pack(r.args.text)
    && r.trap in m.mem && m.mem[r.trap] == FirstNode(ZeroNode(), BaseAddr(stack) + PAGE_SIZE, r.args.entry)
  }

  ghost predicate UserBlock(m: Machine, sp: Space, stack: Frame) {
    exists r :: HoldsInit(m, sp, stack, r)
  }

  /** Exactly the blocks with a user space have one in memory, and each is the space of init. */
  ghost predicate SpacesOk(m: Machine, t: Slots<ProcessControlBlock>, spaces: map<nat, Space>) {
    && (forall id :: id in spaces ==> HasBlock(t, id) && UserBlock(m, spaces[id], t.active[id].value.kernelStack))
    && (forall id :: HasBlock(t, id) ==> (id in spaces <==> t.active[id].value.userSpace != null))
  }

  ghost predicate KernelInv(k: Kernel, n: nat) {
    && ManagerInv(k.procs, n) && MachineOk(k.m) && StacksOk(k.m, k.procs.table)
    && SpacesOk(k.m, k.procs.table, k.spaces)
  }

  /** Frame f was free in m and is live in m', where everything live stays so, with its content. */
  ghost predicate Took(m: Machine, m': Machine, f: Frame) {
    && !Live(m, f) && Live(m', f) && MachineOk(m')
    && (forall g: Frame :: Live(m, g) ==> Live(m', g))
    && (forall g: Frame :: Live(m, g) && g in m.mem ==> g in m'.mem && m'.mem[g] == m.mem[g])
  }

  lemma DataStays(nodes: seq<Frame>, data: seq<Frame>, m: Machine, m': Machine, f: Frame)
    requires Took(m, m', f) && AllLive(m, nodes + data)
    ensures AllLive(m', nodes + data) && AllLive(m', nodes) && Agree(m.mem, m'.mem, nodes) && Agree(m.mem, m'.mem, data)
  {
    assert forall g: Frame :: g in nodes || g in data ==> g in nodes + data;
  }

  /** Taking a frame touches neither the space of init nor its text and trap frame. */
  lemma TookKeepsInit(m: Machine, m': Machine, f: Frame, sp: Space, stack: Frame, r: InitRecord)
    requires Took(m, m', f) && HoldsInit(m, sp, stack, r)
    ensures HoldsInit(m', sp, stack, r)
  {
    var data := [r.user, r.code, r.trap];
    DataStays(sp.table.nodes, data, m, m', f);
    assert r.code == data[1] && r.trap == data[2];
    hide Wf, Denote, UserView, Pack, FirstNode, AllLive;
    WfFrame(m, sp.table, m');
  }

  lemma TookKeepsBlock(m: Machine, m': Machine, f: Frame, sp: Space, stack: Frame)
    requires Took(m, m', f) && UserBlock(m, sp, stack)
    ensures UserBlock(m', sp, stack)
  {
    hide Took, HoldsInit;
    var r :| HoldsInit(m, sp, stack, r);
    TookKeepsInit(m, m', f, sp, stack, r);
  }

  /** The space of a new block, if it has one. */
  ghost predicate Joins(m: Machine, spaces: map<nat, Space>, n: nat, pcb: ProcessControlBlock,
                        spaces': map<nat, Space>)
  {
    if pcb.userSpace == null then spaces' == spaces
    else n in spaces' && spaces' == spaces[n := spaces'[n]] && UserBlock(m, spaces'[n], pcb.kernelStack)
  }

  lemma SpacesAdded(k: Kernel, m': Machine, t': Slots<ProcessControlBlock>, n: nat, pcb: ProcessControlBlock,
                    spaces': map<nat, Space>)
    requires SpacesOk(k.m, k.procs.table, k.spaces) && Took(k.m, m', pcb.kernelStack) && n !in k.procs.table.active
    requires t'.active == k.procs.table.active[n := Some(pcb)] && Joins(m', k.spaces, n, pcb, spaces')
    ensures SpacesOk(m', t', spaces')
  {
    hide Took, UserBlock;
    forall id | id in spaces'
      ensures HasBlock(t', id) && UserBlock(m', spaces'[id], t'.active[id].value.kernelStack)
    {
      if id in k.spaces {
        TookKeepsBlock(k.m, m', pcb.kernelStack, k.spaces[id], k.procs.table.active[id].value.kernelStack);
      }
    }
    forall id | HasBlock(t', id)
      ensures id in spaces' <==> t'.active[id].value.userSpace != null
    {
      assert id != n ==> HasBlock(k.procs.table, id);
    }
  }

  lemma StackTaken(m: Machine)
    requires MachineOk(m) && StackOf(m).Ok?
    ensures Took(m, StackOf(m).value.0, StackOf(m).value.1)
  {
    AllocateZeroedTakes(m);
  }

  lemma InitStackTaken(m: Machine, a: InitArgs)
    requires MachineOk(m) && LinkerOk(a.l) && MakeInitcode(m, a.l, a.text, a.entry).Ok?
    ensures StackOf(m).Ok? && MakeInitcode(m, a.l, a.text, a.entry).value.1.stack == StackOf(m).value.1
    ensures Took(m, MakeInitcode(m, a.l, a.text, a.entry).value.0, StackOf(m).value.1)
  {
    hide Wf;
    hide Denote;
    hide UserView;
    hide Extends;
    hide Took;
    hide FirstExecution;
    var user, code := MakeInitcodeExact(m, a.l, a.text, a.entry);
    var (m', p) := MakeInitcode(m, a.l, a.text, a.entry).value;
    ExtendsTakes(m, m', OwnedFrames(p.space), p.stack);
  }

  lemma ExtendsTakes(m: Machine, m': Machine, fs: seq<Frame>, f: Frame)
    requires Extends(m, [], m', fs + [f])
    ensures Took(m, m', f)
  {
    assert f in fs + [f];
  }

  /** The space of init as it is made. */
  lemma InitHeld(m: Machine, a: InitArgs) returns (r: InitRecord)
    requires MachineOk(m) && LinkerOk(a.l) && MakeInitcode(m, a.l, a.text, a.entry).Ok?
    ensures var (m', p) := MakeInitcode(m, a.l, a.text, a.entry).value;
            r.args == a && r.trap == p.trap && HoldsInit(m', p.space, p.stack, r)
  {
    hide MakeInitcode, Wf, Denote, UserView, Pack, FirstNode, UserCost;
    var user, code := MakeInitcodeExact(m, a.l, a.text, a.entry);
    var (m', p) := MakeInitcode(m, a.l, a.text, a.entry).value;
    r := InitRecord(a, user, code, p.trap);
    ExtendsLive(m, m', OwnedFrames(p.space), [p.stack]);
  }

  lemma ExtendsLive(m: Machine, m': Machine, fs: seq<Frame>, rest: seq<Frame>)
    requires Extends(m, [], m', fs + rest)
    ensures AllLive(m', fs)
  {
    assert forall f: Frame :: f in fs ==> f in fs + rest;
  }

  lemma EnlistKeepsKernel(k: Kernel, n: nat, pcb: ProcessControlBlock, front: bool, m': Machine,
                          spaces': map<nat, Space>)
    requires KernelInv(k, n) && Enlist(k.procs, pcb, front).Ok? && pcb.pid == Reserve(k.procs.table).value.1
    requires Took(k.m, m', pcb.kernelStack) && Joins(m', k.spaces, pcb.pid, pcb, spaces')
    ensures KernelInv(Kernel(m', Enlist(k.procs, pcb, front).value, spaces'), n + 1)
    ensures NoDuplicates(k.procs) ==> NoDuplicates(Enlist(k.procs, pcb, front).value)
    ensures Enlist(k.procs, pcb, front).value.table.active == k.procs.table.active[n := Some(pcb)]
  {
    EnlistKeeps(k.procs, n, pcb, front);
    EnlistStores(k.procs.table, n, pcb);
    hide SpacesOk, Joins;
    var t' := Enlist(k.procs, pcb, front).value.table;
    StackAdded(k.m, k.procs.table, m', t', n, pcb);
    SpacesAdded(k, m', t', n, pcb, spaces');
  }

  // ------------------------------------------------------------------------ runs

  datatype ProcOp =
    | CreateOp(pcb: ProcessControlBlock)
    | InitOp(args: InitArgs, pcb: ProcessControlBlock)
    | PopOp
    | PushOp(pid: nat)

  ghost function ProcStep(k: Kernel, op: ProcOp): Outcome<Kernel>
    requires HeapFits(k.m)
  {
    match op
    case CreateOp(pcb) => Create(k, pcb)
    case InitOp(a, pcb) => if LinkerOk(a.l) then CreateInit(k, a, pcb) else Panic
    case PopOp => Ok(k.(procs := Pop(k.procs).0))
    case PushOp(pid) =>
      var procs :- Push(k.procs, pid);
      Ok(k.(procs := procs))
  }

  function Created(op: ProcOp): nat {
    if op.CreateOp? || op.InitOp? then 1 else 0
  }

  /** A step that does not panic; a created block carries the pid and the frame taken for it. */
  ghost predicate ProcNext(k: Kernel, op: ProcOp, k': Kernel) {
    HeapFits(k.m) && ProcStep(k, op) == Ok(k') && (Created(op) == 1 ==> Numbered(k, op.pcb, op.InitOp?))
  }

  lemma CreateKeeps(k: Kernel, n: nat, pcb: ProcessControlBlock)
    requires KernelInv(k, n) && HeapFits(k.m) && Create(k, pcb).Ok? && Numbered(k, pcb, false)
    ensures KernelInv(Create(k, pcb).value, n + 1)
    ensures NoDuplicates(k.procs) ==> NoDuplicates(Create(k, pcb).value.procs)
  {
    StackTaken(k.m);
    hide KernelInv;
    hide Took;
    EnlistKeepsKernel(k, n, pcb, true, Create(k, pcb).value.m, k.spaces);
  }

  lemma InitKeeps(k: Kernel, n: nat, a: InitArgs, pcb: ProcessControlBlock)
    requires KernelInv(k, n) && HeapFits(k.m) && LinkerOk(a.l) && CreateInit(k, a, pcb).Ok? && Numbered(k, pcb, true)
    ensures KernelInv(CreateInit(k, a, pcb).value, n + 1)
    ensures NoDuplicates(k.procs) ==> NoDuplicates(CreateInit(k, a, pcb).value.procs)
  {
    InitStackTaken(k.m, a);
    var r := InitHeld(k.m, a);
    hide KernelInv;
    hide Took;
    hide MakeInitcode;
    hide HoldsInit;
    var k' := CreateInit(k, a, pcb).value;
    assert UserBlock(k'.m, k'.spaces[0], pcb.kernelStack);
    EnlistKeepsKernel(k, n, pcb, false, k'.m, k'.spaces);
  }

  lemma PopKernelKeeps(k: Kernel, n: nat)
    requires KernelInv(k, n)
    ensures KernelInv(k.(procs := Pop(k.procs).0), n)
    ensures NoDuplicates(k.procs) ==> NoDuplicates(Pop(k.procs).0)
  {
    PopKeeps(k.procs, n);
  }

  lemma PushKernelKeeps(k: Kernel, n: nat, pid: nat)
    requires KernelInv(k, n) && Push(k.procs, pid).Ok?
    ensures KernelInv(k.(procs := Push(k.procs, pid).value), n)
    ensures NoDuplicates(k.procs) && !Queued(k.procs, pid) ==> NoDuplicates(Push(k.procs, pid).value)
  {
    PushKeeps(k.procs, n, pid);
  }

  lemma StepKeeps(k: Kernel, n: nat, op: ProcOp, k': Kernel)
    requires KernelInv(k, n) && ProcNext(k, op, k')
    ensures KernelInv(k', n + Created(op))
    ensures NoDuplicates(k.procs) && (op.PushOp? ==> !Queued(k.procs, op.pid)) ==> NoDuplicates(k'.procs)
  {
    hide KernelInv, NoDuplicates, Queued, Create, CreateInit, Pop, Push;
    match op
    case CreateOp(pcb) => CreateKeeps(k, n, pcb);
    case InitOp(a, pcb) => InitKeeps(k, n, a, pcb);
    case PopOp => PopKernelKeeps(k, n);
    case PushOp(pid) => PushKernelKeeps(k, n, pid);
  }

  /** A run from a new manager and any machine. */
  ghost predicate ProcRun(run: seq<Kernel>, ops: seq<ProcOp>) {
    && |run| == |ops| + 1 && run[0].procs == NewManager() && run[0].spaces == map[] && MachineOk(run[0].m)
    && forall k :: 0 <= k < |ops| ==> ProcNext(run[k], ops[k], run[k + 1])
  }

  /** How many of the first k steps create a process. */
  function Creations(ops: seq<ProcOp>, k: nat): nat
    requires k <= |ops|
  {
    if k == 0 then 0 else Creations(ops, k - 1) + Created(ops[k - 1])
  }

  /** Only pids that are not queued are pushed. */
  ghost predicate PushesFresh(run: seq<Kernel>, ops: seq<ProcOp>) {
    |run| == |ops| + 1 && forall k :: 0 <= k < |ops| && ops[k].PushOp? ==> !Queued(run[k].procs, ops[k].pid)
  }

  /** In every state of every run each queued block is the one the table stores under its own pid,
      every process has a live kernel stack of its own, exactly the blocks with a user space have
      it in memory, and the queue has no duplicates if only unqueued pids are pushed. */
  lemma {:induction false} ProcRunsKeepInv(run: seq<Kernel>, ops: seq<ProcOp>, k: nat)
    requires ProcRun(run, ops) && k <= |ops|
    ensures KernelInv(run[k], Creations(ops, k))
    ensures PushesFresh(run, ops) ==> NoDuplicates(run[k].procs)
  {
    hide KernelInv, NoDuplicates, Queued, ProcNext, NewManager;
    if k == 0 {
      RunStarts(run[0]);
    } else {
      ProcRunsKeepInv(run, ops, k - 1);
      assert ProcNext(run[k - 1], ops[k - 1], run[k]);
      StepKeeps(run[k - 1], Creations(ops, k - 1), ops[k - 1], run[k]);
    }
  }

  lemma RunStarts(k: Kernel)
    requires k.procs == NewManager() && k.spaces == map[] && MachineOk(k.m)
    ensures KernelInv(k, 0) && NoDuplicates(k.procs)
  {
    NewManagerInv();
  }

  // ----------------------------------------------------------------- init over runs

  /** Block pcb is stored under pid 0, and the user space it has is sp, the space of init. */
  ghost predicate InitAt(k: Kernel, pcb: ProcessControlBlock, sp: Space, r: InitRecord) {
    && Stored(k.procs.table, pcb) && pcb.pid == 0 && pcb.userSpace != null && 0 in k.spaces && k.spaces[0] == sp
    && HoldsInit(k.m, sp, pcb.kernelStack, r)
  }

  lemma CreateKeepsInit(k: Kernel, n: nat, added: ProcessControlBlock, pcb: ProcessControlBlock, sp: Space,
                        r: InitRecord)
    requires KernelInv(k, n) && HeapFits(k.m) && Create(k, added).Ok? && Numbered(k, added, false)
    requires InitAt(k, pcb, sp, r)
    ensures InitAt(Create(k, added).value, pcb, sp, r)
  {
    StackTaken(k.m);
    EnlistStores(k.procs.table, n, added);
    hide KernelInv, Took, HoldsInit;
    StoredStays(k.procs.table, Create(k, added).value.procs.table, n, added, pcb);
    TookKeepsInit(k.m, Create(k, added).value.m, added.kernelStack, sp, pcb.kernelStack, r);
  }

  /** A second init is never made: its pid is not 0. */
  lemma NoSecondInit(k: Kernel, n: nat, a: InitArgs, added: ProcessControlBlock, pcb: ProcessControlBlock)
    requires KernelInv(k, n) && HeapFits(k.m) && LinkerOk(a.l) && Numbered(k, added, true)
    requires Stored(k.procs.table, pcb) && pcb.pid == 0
    ensures CreateInit(k, a, added).Panic?
  {
    if CreateInit(k, a, added).Ok? {
      EnlistStores(k.procs.table, n, added);
    }
  }

  lemma StepKeepsInit(k: Kernel, n: nat, op: ProcOp, k': Kernel, pcb: ProcessControlBlock, sp: Space, r: InitRecord)
    requires KernelInv(k, n) && ProcNext(k, op, k') && InitAt(k, pcb, sp, r)
    ensures InitAt(k', pcb, sp, r)
  {
    hide KernelInv, HoldsInit, Create, CreateInit;
    match op
    case CreateOp(added) => CreateKeepsInit(k, n, added, pcb, sp, r);
    case InitOp(a, added) => NoSecondInit(k, n, a, added, pcb);
    case PopOp =>
    case PushOp(pid) =>
  }

  lemma InitStarts(k: Kernel, n: nat, a: InitArgs, pcb: ProcessControlBlock) returns (r: InitRecord)
    requires KernelInv(k, n) && HeapFits(k.m) && LinkerOk(a.l) && CreateInit(k, a, pcb).Ok? && Numbered(k, pcb, true)
    ensures MakeInitcode(k.m, a.l, a.text, a.entry).Ok? && r.args == a
    ensures InitAt(CreateInit(k, a, pcb).value, pcb, MakeInitcode(k.m, a.l, a.text, a.entry).value.1.space, r)
  {
    EnlistStores(k.procs.table, n, pcb);
    InitStackTaken(k.m, a);
    r := InitHeld(k.m, a);
  }

  /** From `create_initcode` on, over every run, the block of init stays stored with the very space
      that was made for it: text, stack, trap frame and trampoline stay mapped where they were, and
      text and trap frame keep what was written into them. */
  lemma {:induction false} InitBlockStays(run: seq<Kernel>, ops: seq<ProcOp>, j: nat, k: nat)
    returns (sp: Space, r: InitRecord)
    requires ProcRun(run, ops) && j < k <= |ops| && ops[j].InitOp?
    ensures HeapFits(run[j].m) && LinkerOk(ops[j].args.l) && r.args == ops[j].args
    ensures var made := MakeInitcode(run[j].m, r.args.l, r.args.text, r.args.entry);
            made.Ok? && sp == made.value.1.space
    ensures InitAt(run[k], ops[j].pcb, sp, r)
    decreases k
  {
    hide KernelInv, HoldsInit, InitAt, MakeInitcode, CreateInit, Numbered, NewManager;
    ProcRunsKeepInv(run, ops, k - 1);
    assert ProcNext(run[k - 1], ops[k - 1], run[k]);
    if k == j + 1 {
      r := InitStarts(run[j], Creations(ops, j), ops[j].args, ops[j].pcb);
      sp := MakeInitcode(run[j].m, r.args.l, r.args.text, r.args.entry).value.1.space;
    } else {
      sp, r := InitBlockStays(run, ops, j, k - 1);
      StepKeepsInit(run[k - 1], Creations(ops, k - 1), ops[k - 1], run[k], ops[j].pcb, sp, r);
    }
  }

  /** So the block that a pop hands out has a user space exactly when one is in memory, and then it
      is the space of init over the block's own kernel stack. */
  lemma PoppedHasSpace(run: seq<Kernel>, ops: seq<ProcOp>, k: nat, pcb: ProcessControlBlock)
    requires ProcRun(run, ops) && k <= |ops| && Pop(run[k].procs).1 == Some(pcb)
    ensures pcb.userSpace != null <==> pcb.pid in run[k].spaces
    ensures pcb.userSpace != null ==> UserBlock(run[k].m, run[k].spaces[pcb.pid], pcb.kernelStack)
  {
    hide UserBlock, StacksOk, ProcNext;
    ProcRunsKeepInv(run, ops, k);
    assert Stored(run[k].procs.table, run[k].procs.queue[0]);
    assert HasBlock(run[k].procs.table, pcb.pid);
  }

  // -------------------------------------------------------------------- the class

  predicate HasUser(t: Slots<ProcessControlBlock>, id: nat) {
    id in t.active && t.active[id].Some? && t.active[id].value.userSpace != null
  }

  function UserSpaceAt(t: Slots<ProcessControlBlock>, id: nat): AddrSpace
    requires HasUser(t, id)
  {
    t.active[id].value.userSpace
  }

  ghost function UserIds(t: Slots<ProcessControlBlock>): set<nat> {
    set id | id in t.active && HasUser(t, id)
  }

  class ProcessManager {
    const pcbTable: ResourceTable<ProcessControlBlock>
    var readyQueue: seq<ProcessControlBlock>

    constructor ()
      ensures ManagerOf() == NewManager() && SpacesOf() == map[] && fresh(pcbTable)
    {
      pcbTable := new ResourceTable(INITIAL_MAX_N_PROCS);
      readyQueue := [];
    }

    ghost function ManagerOf(): Manager
      reads this, pcbTable
    {
      Manager(pcbTable.SlotsOf(), readyQueue)
    }

    /** The user spaces of the stored blocks, and their page tables. */
    ghost function UserObjects(): set<object>
      reads pcbTable
    {
      var t := pcbTable.SlotsOf();
      (set id | id in UserIds(t) :: UserSpaceAt(t, id)) + (set id | id in UserIds(t) :: UserSpaceAt(t, id).pageTable)
    }

    ghost function SpacesOf(): map<nat, Space>
      reads pcbTable, UserObjects()
    {
      var t := pcbTable.SlotsOf();
      map id | id in UserIds(t) :: UserSpaceAt(t, id).SpaceOf()
    }

    /** Storing a new block adds its user space, if it has one, and leaves the others. */
    twostate lemma SpacesGrow(id: nat, new pcb: ProcessControlBlock)
      requires id !in old(pcbTable.SlotsOf()).active
      requires pcbTable.SlotsOf().active == old(pcbTable.SlotsOf()).active[id := Some(pcb)]
      requires var t := old(pcbTable.SlotsOf());
               forall k :: k in UserIds(t) ==> UserSpaceAt(t, k).SpaceOf() == old(UserSpaceAt(t, k).SpaceOf())
      ensures SpacesOf() ==
                if pcb.userSpace == null then old(SpacesOf()) else old(SpacesOf())[id := pcb.userSpace.SpaceOf()]
    {
      var t, t' := old(pcbTable.SlotsOf()), pcbTable.SlotsOf();
      assert UserIds(t') == if pcb.userSpace == null then UserIds(t) else UserIds(t) + {id};
      assert forall k :: k in UserIds(t) ==> UserSpaceAt(t', k) == UserSpaceAt(t, k);
    }

    ghost function KernelOf(ram: PhysicalMemory, alloc: FrameAllocator): (k: Kernel)
      requires HeapOk(alloc)
      reads this, pcbTable, ram, alloc, UserObjects()
      ensures HeapFits(k.m)
    {
      Kernel(MachineOf(ram, alloc), ManagerOf(), SpacesOf())
    }

    /** `create_process`. */
    method CreateProcess(ram: PhysicalMemory, alloc: FrameAllocator) returns (r: Outcome<ProcessControlBlock>)
      requires HeapOk(alloc)
      modifies this, pcbTable, ram, alloc
      ensures r.Panic? ==> Reserve(old(pcbTable.SlotsOf())).Panic? || StackOf(old(MachineOf(ram, alloc))).Panic?
      ensures r.Ok? ==>
                && HeapOk(alloc) && fresh(r.value) && Numbered(old(KernelOf(ram, alloc)), r.value, false)
                && Create(old(KernelOf(ram, alloc)), r.value) == Ok(KernelOf(ram, alloc))
    {
      var pid := pcbTable.ReserveEntry();
      if pid.Panic? {
        return Panic;
      }
      var stack := AllocateZeroedFrame(ram, alloc);
      if stack.Panic? {
        return Panic;
      }
      var pcb := new ProcessControlBlock(pid.value, stack.value, null);
      var _ := pcbTable.InitialiseEntry(pid.value, pcb);
      readyQueue := [pcb] + readyQueue;
      SpacesGrow(pid.value, pcb);
      return Ok(pcb);
    }

    /** `pop_one`. */
    method PopOne() returns (r: Option<ProcessControlBlock>)
      modifies this
      ensures (ManagerOf(), r) == Pop(old(ManagerOf()))
    {
      if readyQueue == [] {
        return None;
      }
      r := Some(readyQueue[0]);
      readyQueue := readyQueue[1..];
    }

    /** `push_one`. */
    method PushOne(pid: nat) returns (r: Outcome<()>)
      modifies this
      ensures match Push(old(ManagerOf()), pid)
              case Panic => r.Panic?
              case Ok(s) => r == Ok(()) && ManagerOf() == s
    {
      var pcb := pcbTable.GetEntry(pid);
      if pcb.Panic? || pcb.value.pid != pid {
        return Panic;
      }
      readyQueue := readyQueue + [pcb.value];
      return Ok(());
    }

    /** `create_initcode`. */
    method CreateInitcode(ram: PhysicalMemory, alloc: FrameAllocator, a: InitArgs)
      returns (r: Outcome<ProcessControlBlock>)
      requires HeapOk(alloc) && LinkerOk(a.l)
      modifies this, pcbTable, ram, alloc
      ensures r.Panic? ==>
                || Reserve(old(pcbTable.SlotsOf())).Panic? || Reserve(old(pcbTable.SlotsOf())).value.1 != 0
                || MakeInitcode(old(MachineOf(ram, alloc)), a.l, a.text, a.entry).Panic?
      ensures r.Ok? ==>
                && HeapOk(alloc) && fresh(r.value) && Numbered(old(KernelOf(ram, alloc)), r.value, true)
                && MakeInitcode(old(MachineOf(ram, alloc)), a.l, a.text, a.entry).Ok?
                && r.value.userSpace.SpaceOf() ==
                     MakeInitcode(old(MachineOf(ram, alloc)), a.l, a.text, a.entry).value.1.space
                && CreateInit(old(KernelOf(ram, alloc)), a, r.value) == Ok(KernelOf(ram, alloc))
    {
      hide FirstExecution;
      hide MakeInit;
      var pid := pcbTable.ReserveEntry();
      if pid.Panic? {
        return Panic;
      }
      var made := MakeInitBlock(ram, alloc, a);
      if made.Panic? || pid.value != 0 {
        return Panic;
      }
      var pcb := new ProcessControlBlock(pid.value, made.value.0, made.value.1);
      var _ := pcbTable.InitialiseEntry(pid.value, pcb);
      readyQueue := readyQueue + [pcb];
      SpacesGrow(pid.value, pcb);
      return Ok(pcb);
    }
  }

  lemma MemoryOfPage(frames: map<Frame, WordNode>, f: Frame, page: WordNode)
    ensures MemoryOf(frames[f := page]) == MemoryOf(frames)[f := NodeOf(page)]
    ensures f in frames ==> MemoryOf(frames)[f] == NodeOf(frames[f])
  {
  }

  /** The setters of `first_execution_init`, on the words of the trap frame. */
  method FillContext(ram: PhysicalMemory, f: Frame, stackTop: Word, e: Entry)
    requires f in ram.frames
    modifies ram
    ensures MemoryOf(ram.frames) == old(MemoryOf(ram.frames))[f := FirstNode(old(MemoryOf(ram.frames))[f], stackTop, e)]
  {
    ghost var page, frames := ram.frames[f], ram.frames;
    ram.frames := ram.frames[f := ram.frames[f][T.KERNEL_SP := stackTop]];
    ram.frames := ram.frames[f := ram.frames[f][T.TRAP_HANDLER := e.handler]];
    ram.frames := ram.frames[f := ram.frames[f][T.SEPC := TEXT_BASE_USER_VA]];
    ram.frames := ram.frames[f := ram.frames[f][T.KERNEL_SATP := e.kernelSatp]];
    assert ram.frames == frames[f := C.FirstPage(page, stackTop, e.handler, e.kernelSatp)];
    hide NodeOf, FirstNode, C.FirstPage, MemoryOf;
    FirstNodeIsPage(page, stackTop, e);
    MemoryOfPage(frames, f, C.FirstPage(page, stackTop, e.handler, e.kernelSatp));
  }

  /** `first_execution_init` in place. */
  method FirstExecutionInPlace(ram: PhysicalMemory, alloc: FrameAllocator, space: AddrSpace, stack: Frame, e: Entry)
    returns (r: Outcome<Frame>)
    requires HeapOk(alloc)
    modifies space, space.pageTable, ram, alloc
    ensures match FirstExecution(old(MachineOf(ram, alloc)), old(space.SpaceOf()), stack, e)
            case Panic => r.Panic?
            case Ok((m, sp, f)) => r == Ok(f) && HeapOk(alloc) && MachineOf(ram, alloc) == m && space.SpaceOf() == sp
  {
    hide InitTrapframe, FirstNode, Translate, AreasVerify;
    var pa := space.AddTrapframe(ram, alloc);
    if pa.Panic? {
      return Panic;
    }
    var f := FrameOf(pa.value);
    var passed := space.Verify(ram);
    if !passed {
      return Panic;
    }
    var t := space.pageTable.TranslateAddr(ram, TRAPFRAME_BASE_USER_VA);
    if t.Panic? || t.value.None? || t.value.value.0 != pa.value {
      return Panic;
    }
    if BaseAddr(stack) + PAGE_SIZE >= TWO64 || f !in ram.frames {
      return Panic;
    }
    FillContext(ram, f, BaseAddr(stack) + PAGE_SIZE, e);
    return Ok(f);
  }

  /** `make_initcode_uninitialised` in place: the kernel stack and the space of the new block. */
  method MakeInitBlock(ram: PhysicalMemory, alloc: FrameAllocator, a: InitArgs) returns (r: Outcome<(Frame, AddrSpace)>)
    requires HeapOk(alloc) && LinkerOk(a.l)
    modifies ram, alloc
    ensures match MakeInitcode(old(MachineOf(ram, alloc)), a.l, a.text, a.entry)
            case Panic => r.Panic?
            case Ok((m, p)) =>
              && r.Ok? && HeapOk(alloc) && MachineOf(ram, alloc) == m && fresh(r.value.1) && fresh(r.value.1.pageTable)
              && r.value.0 == p.stack && r.value.1.SpaceOf() == p.space
  {
    hide FirstExecution;
    hide MakeInit;
    var stack := AllocateZeroedFrame(ram, alloc);
    if stack.Panic? {
      return Panic;
    }
    var space := MakeInitSpace(ram, alloc, a.l, a.text);
    if space.Panic? {
      return Panic;
    }
    var trap := FirstExecutionInPlace(ram, alloc, space.value, stack.value, a.entry);
    if trap.Panic? {
      return Panic;
    }
    return Ok((stack.value, space.value));
  }
}
