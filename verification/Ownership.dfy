/** Frame ownership over every run of creating, growing, locking and dropping spaces and guards
    (kernel/src/mm/memory.rs, kernel/src/mm/page_table.rs, kernel/src/mm/address_space.rs). */
module Ownership {
  import opened Wrappers
  import opened Bits
  import opened Sv39Format
  import opened Layout
  import opened Machines
  import opened PageTables
  import opened Mapping
  import opened Locking
  import opened Requests
  import opened KernelAreas
  import opened AddressSpaces
  import opened UserSpaces
  import opened Sv39Hardware
  import opened Translating

  /** What can hold frames: an address space, a `FrameGuard`, or the caller that took the frame
      out of its guard with `take`. */
  datatype Holder = SpaceHolder(sp: Space) | GuardHolder(f: Frame) | TakenOut(f: Frame)

  function FramesOf(h: Holder): seq<Frame> {
    match h
    case SpaceHolder(sp) => OwnedFrames(sp)
    case GuardHolder(f) => [f]
    case TakenOut(f) => [f]
  }

  datatype System = System(m: Machine, holders: map<nat, Holder>)

  predicate Holds(holders: map<nat, Holder>, i: nat, f: Frame) {
    i in holders && f in FramesOf(holders[i])
  }

  /** Every live frame has exactly one holder, which holds it once, and holders hold only live
      frames. */
  ghost predicate OneOwner(m: Machine, holders: map<nat, Holder>) {
    && (forall i :: i in holders ==> Distinct(FramesOf(holders[i])))
    && (forall i, f: Frame :: Holds(holders, i, f) ==> Live(m, f))
    && (forall i, j, f: Frame :: Holds(holders, i, f) && Holds(holders, j, f) ==> i == j)
    && (forall f: Frame :: Live(m, f) ==> exists i :: Holds(holders, i, f))
  }

  ghost predicate TablesOk(m: Machine, holders: map<nat, Holder>) {
    forall i :: i in holders && holders[i].SpaceHolder? ==> Wf(m, holders[i].sp.table)
  }

  ghost predicate Inv(s: System) {
    MachineOk(s.m) && OneOwner(s.m, s.holders) && TablesOk(s.m, s.holders)
  }

  // ------------------------------------------------------------------- steps

  datatype Op =
    | NewKernel(i: nat)
    | NewInit(i: nat, text: seq<Byte>)
    | AddTrapframe(i: nat)
    | MapPages(i: nat, rs: seq<Request>)
    | MapInPlace(i: nat, va: Word, pa: Word, flags: Flags)
    | Relock(i: nat, writable: bool)
    | StoreWord(i: nat, owner: nat, va: Word, word: Word, mode: Mode)
    | NewGuard(i: nat)
    | TakeFrame(i: nat)
    | WrapFrame(i: nat)
    | Drop(i: nat)

  /** One operation that does not panic. A fresh name is used for a new holder; MapPages is
      `map_virt_area_allocate` on any area that borrows its frames, MapInPlace is `map_one`, and
      StoreWord is a store instruction that runs on the table of space i and reaches a data frame of
      space owner: its own, or, on the kernel's table, any process's. */
  ghost predicate Step(l: Linker, s: System, op: Op, s': System)
    requires LinkerOk(l)
  {
    HeapFits(s.m) &&
    match op
    case NewKernel(i) =>
      var r := MakeKernel(s.m, l);
      i !in s.holders && r.Ok? && s' == System(r.value.0, s.holders[i := SpaceHolder(r.value.1)])
    case NewInit(i, text) =>
      var r := MakeInit(s.m, l, text);
      i !in s.holders && r.Ok? && s' == System(r.value.0, s.holders[i := SpaceHolder(r.value.1)])
    case AddTrapframe(i) =>
      i in s.holders && s.holders[i].SpaceHolder? &&
      var r := InitTrapframe(s.m, s.holders[i].sp);
      r.Ok? && s' == System(r.value.0, s.holders[i := SpaceHolder(r.value.1)])
    case MapPages(i, rs) =>
      i in s.holders && s.holders[i].SpaceHolder? &&
      var r := MapAll(s.m, s.holders[i].sp.table, rs);
      && r.Ok?
      && s' == System(r.value.0, s.holders[i := SpaceHolder(Space(r.value.1, s.holders[i].sp.areas))])
    case MapInPlace(i, va, pa, flags) =>
      i in s.holders && s.holders[i].SpaceHolder? &&
      var r := MapOne(s.m.mem, s.holders[i].sp.table.root, va, pa, flags);
      r.Ok? && r.value.Some? && s' == System(s.m.(mem := r.value.value), s.holders)
    case StoreWord(i, owner, va, word, mode) =>
      i in s.holders && s.holders[i].SpaceHolder? && owner in s.holders && s.holders[owner].SpaceHolder? &&
      var r := StoreTarget(s.m.mem, MakeSatp(s.holders[i].sp.table.root), va, mode);
      && r.Some? && r.value.0 in ExclusiveFrames(s.holders[owner].sp.areas)
      && s' == System(s.m.(mem := Write(s.m.mem, r.value.0, r.value.1, PteOf(word))), s.holders)
    case Relock(i, w) =>
      i in s.holders && s.holders[i].SpaceHolder? &&
      var r := RelabelSpace(s.m, l, s.holders[i].sp, w);
      r.Ok? && s' == System(r.value, s.holders)
    case NewGuard(i) =>
      var r := AllocateZeroed(s.m);
      i !in s.holders && r.Ok? && s' == System(r.value.0, s.holders[i := GuardHolder(r.value.1)])
    case TakeFrame(i) =>
      i in s.holders && s.holders[i].GuardHolder? && s' == System(s.m, s.holders[i := TakenOut(s.holders[i].f)])
    case WrapFrame(i) =>
      i in s.holders && s.holders[i].TakenOut? && s' == System(s.m, s.holders[i := GuardHolder(s.holders[i].f)])
    case Drop(i) =>
      i in s.holders && !s.holders[i].TakenOut? &&
      var r := ReleaseAll(s.m, FramesOf(s.holders[i]));
      r.Ok? && s' == System(r.value, s.holders - {i})
  }

  // -------------------------------------------------- how holders may change

  function FramesAt(holders: map<nat, Holder>, i: nat): seq<Frame> {
    if i in holders then FramesOf(holders[i]) else []
  }

  /** A holder that appears or grows by free frames leaves everyone else's frames alone. */
  lemma OwnersAfterGrowth(m: Machine, holders: map<nat, Holder>, i: nat, h: Holder, m': Machine)
    requires OneOwner(m, holders) && Extends(m, FramesAt(holders, i), m', FramesOf(h))
    ensures OneOwner(m', holders[i := h])
  {
    hide FramesOf, Live, Extends;
    var holders' := holders[i := h];
    forall j, f: Frame | Holds(holders', j, f)
      ensures j != i ==> Holds(holders, j, f) && f !in FramesOf(h)
      ensures Live(m', f)
    {
      HeldAfterGrowth(m, holders, i, h, m', j, f);
    }
    forall f: Frame | Live(m', f)
      ensures exists j :: Holds(holders', j, f)
    {
      SomeHolderAfterGrowth(m, holders, i, h, m', f);
    }
    assert Distinct(FramesOf(h)) by { GrowthDistinct(m, FramesAt(holders, i), m', FramesOf(h)); }
  }

  lemma GrowthDistinct(m: Machine, fs: seq<Frame>, m': Machine, fs': seq<Frame>)
    requires Extends(m, fs, m', fs')
    ensures Distinct(fs')
  {
  }

  lemma HeldAfterGrowth(m: Machine, holders: map<nat, Holder>, i: nat, h: Holder, m': Machine, j: nat, f: Frame)
    requires OneOwner(m, holders) && Extends(m, FramesAt(holders, i), m', FramesOf(h)) && Holds(holders[i := h], j, f)
    ensures j != i ==> Holds(holders, j, f) && f !in FramesOf(h)
    ensures Live(m', f)
  {
    hide FramesOf, Live;
    assert f in FramesAt(holders, i) ==> Holds(holders, i, f);
    if j != i {
      assert Holds(holders, j, f);
    }
  }

  lemma SomeHolderAfterGrowth(m: Machine, holders: map<nat, Holder>, i: nat, h: Holder, m': Machine, f: Frame)
    requires OneOwner(m, holders) && Extends(m, FramesAt(holders, i), m', FramesOf(h)) && Live(m', f)
    ensures var holders' := holders[i := h]; exists j :: Holds(holders', j, f)
  {
    hide FramesOf, Live;
    var holders' := holders[i := h];
    if f in FramesOf(h) {
      assert Holds(holders', i, f);
    } else {
      var j :| Holds(holders, j, f);
      assert Holds(holders', j, f);
    }
  }

  lemma OthersKeepTables(m: Machine, holders: map<nat, Holder>, i: nat, fs: seq<Frame>, m': Machine, j: nat)
    requires OneOwner(m, holders) && Extends(m, FramesAt(holders, i), m', fs)
    requires j in holders && j != i && holders[j].SpaceHolder? && Wf(m, holders[j].sp.table)
    ensures Wf(m', holders[j].sp.table)
    ensures Denote(m'.mem, holders[j].sp.table.root) == Denote(m.mem, holders[j].sp.table.root)
  {
    var t := holders[j].sp.table;
    forall f: Frame | f in t.nodes
      ensures f !in fs && Live(m', f)
    {
      assert f in OwnedFrames(holders[j].sp) && Holds(holders, j, f);
      assert f in FramesAt(holders, i) ==> Holds(holders, i, f);
    }
    WfFrame(m, t, m');
  }

  lemma InvAfterGrowth(s: System, i: nat, h: Holder, m': Machine)
    requires Inv(s) && Extends(s.m, FramesAt(s.holders, i), m', FramesOf(h))
    requires h.SpaceHolder? ==> Wf(m', h.sp.table)
    ensures Inv(System(m', s.holders[i := h]))
  {
    OwnersAfterGrowth(s.m, s.holders, i, h, m');
    forall j | j in s.holders && j != i && s.holders[j].SpaceHolder?
      ensures Wf(m', s.holders[j].sp.table)
    {
      OthersKeepTables(s.m, s.holders, i, FramesOf(h), m', j);
    }
  }

  /** Dropping a holder frees exactly its frames. */
  lemma OwnersAfterDrop(m: Machine, holders: map<nat, Holder>, i: nat, m': Machine)
    requires OneOwner(m, holders) && i in holders && Returned(m, m', FramesOf(holders[i]))
    ensures OneOwner(m', holders - {i})
  {
    var holders' := holders - {i};
    forall j, f: Frame | Holds(holders', j, f)
      ensures Holds(holders, j, f) && Live(m', f)
    {
      assert Holds(holders, j, f);
      assert f in FramesOf(holders[i]) ==> Holds(holders, i, f);
    }
    forall f: Frame | Live(m', f)
      ensures exists j :: Holds(holders', j, f)
    {
      var j :| Holds(holders, j, f);
      assert Holds(holders', j, f);
    }
  }

  lemma OthersAfterDrop(s: System, i: nat, m': Machine, j: nat)
    requires Inv(s) && i in s.holders && Returned(s.m, m', FramesOf(s.holders[i]))
    requires j in s.holders && j != i && s.holders[j].SpaceHolder?
    ensures Wf(m', s.holders[j].sp.table)
    ensures Denote(m'.mem, s.holders[j].sp.table.root) == Denote(s.m.mem, s.holders[j].sp.table.root)
  {
    var t := s.holders[j].sp.table;
    forall f: Frame | f in t.nodes
      ensures Live(m', f)
    {
      assert f in OwnedFrames(s.holders[j].sp) && Holds(s.holders, j, f);
      assert f in FramesOf(s.holders[i]) ==> Holds(s.holders, i, f);
    }
    WfFrame(s.m, t, m');
  }

  lemma InvAfterDrop(s: System, i: nat, m': Machine)
    requires Inv(s) && i in s.holders && Returned(s.m, m', FramesOf(s.holders[i]))
    ensures Inv(System(m', s.holders - {i}))
  {
    OwnersAfterDrop(s.m, s.holders, i, m');
    forall j | j in s.holders && j != i && s.holders[j].SpaceHolder?
      ensures Wf(m', s.holders[j].sp.table)
    {
      OthersAfterDrop(s, i, m', j);
    }
  }

  lemma OthersAfterRelock(s: System, i: nat, w: bool, m': Machine, j: nat)
    requires Inv(s) && i in s.holders && s.holders[i].SpaceHolder?
    requires SpaceRelabelled(s.m, s.holders[i].sp.table, w, m') && MachineOk(m')
    requires j in s.holders && j != i && s.holders[j].SpaceHolder?
    ensures Wf(m', s.holders[j].sp.table)
    ensures Denote(m'.mem, s.holders[j].sp.table.root) == Denote(s.m.mem, s.holders[j].sp.table.root)
  {
    var u := s.holders[j].sp.table;
    NodesApart(s, i, j);
    KeptAgree(s.m, s.holders[i].sp.table, m', u.nodes);
    WfFrame(s.m, u, m');
  }

  lemma NodesApart(s: System, i: nat, j: nat)
    requires OneOwner(s.m, s.holders) && i in s.holders && j in s.holders && i != j
    requires s.holders[i].SpaceHolder? && s.holders[j].SpaceHolder?
    ensures forall f: Frame :: f in s.holders[j].sp.table.nodes ==> Live(s.m, f) && f !in s.holders[i].sp.table.nodes
  {
    forall f: Frame | f in s.holders[j].sp.table.nodes
      ensures Live(s.m, f) && f !in s.holders[i].sp.table.nodes
    {
      assert f in OwnedFrames(s.holders[j].sp) && Holds(s.holders, j, f);
      assert f in s.holders[i].sp.table.nodes ==> Holds(s.holders, i, f);
    }
  }

  lemma KeptAgree(m: Machine, t: Table, m': Machine, nodes: seq<Frame>)
    requires OthersKept(m, t, m') && forall f: Frame :: f in nodes ==> Live(m, f) && f !in t.nodes
    ensures Agree(m.mem, m'.mem, nodes) && AllLive(m', nodes)
  {
  }

  lemma OwnersSamePages(m: Machine, m': Machine, holders: map<nat, Holder>)
    requires OneOwner(m, holders) && m'.first == m.first && m'.pages == m.pages
    ensures OneOwner(m', holders)
  {
    assert forall f :: Live(m', f) == Live(m, f);
  }

  lemma InvAfterRelock(s: System, i: nat, w: bool, m': Machine)
    requires Inv(s) && i in s.holders && s.holders[i].SpaceHolder?
    requires SpaceRelabelled(s.m, s.holders[i].sp.table, w, m')
    ensures Inv(System(m', s.holders))
  {
    WfLive(m', s.holders[i].sp.table);
    OwnersSamePages(s.m, m', s.holders);
    forall j | j in s.holders && j != i && s.holders[j].SpaceHolder?
      ensures Wf(m', s.holders[j].sp.table)
    {
      OthersAfterRelock(s, i, w, m', j);
    }
  }

  /** mem' differs from the memory of m in frames of fs only. */
  ghost predicate Within(m: Machine, fs: seq<Frame>, mem': Memory) {
    forall f :: f in m.mem && f !in fs ==> f in mem' && mem'[f] == m.mem[f]
  }

  lemma SamePagesLiveAll(m: Machine, mem': Memory, fs: seq<Frame>)
    requires MachineOk(m) && AllLive(m, fs)
    ensures MachineOk(m.(mem := mem')) && AllLive(m.(mem := mem'), fs)
  {
  }

  lemma WithinAgrees(m: Machine, nodes: seq<Frame>, fs: seq<Frame>, mem': Memory)
    requires Within(m, fs, mem') && forall f: Frame :: f in nodes ==> f !in fs
    ensures Agree(m.mem, mem', nodes)
  {
  }

  /** A table with no node in fs is not affected by writes to fs. */
  lemma WrittenElsewhere(m: Machine, t: Table, fs: seq<Frame>, mem': Memory)
    requires Wf(m, t) && Within(m, fs, mem') && forall f: Frame :: f in t.nodes ==> f !in fs
    ensures Wf(m.(mem := mem'), t) && Denote(mem', t.root) == Denote(m.mem, t.root)
  {
    WfLive(m, t);
    SamePagesLiveAll(m, mem', t.nodes);
    WithinAgrees(m, t.nodes, fs, mem');
    WfFrame(m, t, m.(mem := mem'));
  }

  /** No node of one space is a frame of another holder. */
  lemma NodesUnshared(m: Machine, holders: map<nat, Holder>, i: nat, j: nat)
    requires OneOwner(m, holders) && i in holders && j in holders && i != j && holders[j].SpaceHolder?
    ensures forall f: Frame :: f in holders[j].sp.table.nodes ==> f !in FramesOf(holders[i])
  {
    forall f: Frame | f in holders[j].sp.table.nodes
      ensures f !in FramesOf(holders[i])
    {
      assert Holds(holders, j, f);
      assert f in FramesOf(holders[i]) ==> Holds(holders, i, f);
    }
  }

  lemma OthersAfterWrite(s: System, i: nat, mem': Memory, j: nat)
    requires Inv(s) && i in s.holders && Within(s.m, FramesOf(s.holders[i]), mem')
    requires j in s.holders && j != i && s.holders[j].SpaceHolder?
    ensures var t := s.holders[j].sp.table;
            Wf(s.m.(mem := mem'), t) && Denote(mem', t.root) == Denote(s.m.mem, t.root)
  {
    NodesUnshared(s.m, s.holders, i, j);
    WrittenElsewhere(s.m, s.holders[j].sp.table, FramesOf(s.holders[i]), mem');
  }

  /** A write by holder i to its own frames, after which its own table is still well formed. */
  lemma InvAfterWrite(s: System, i: nat, mem': Memory)
    requires Inv(s) && i in s.holders && s.holders[i].SpaceHolder? && Within(s.m, FramesOf(s.holders[i]), mem')
    requires Wf(s.m.(mem := mem'), s.holders[i].sp.table)
    ensures Inv(System(s.m.(mem := mem'), s.holders))
  {
    OwnersSamePages(s.m, s.m.(mem := mem'), s.holders);
    forall j | j in s.holders && j != i && s.holders[j].SpaceHolder?
      ensures Wf(s.m.(mem := mem'), s.holders[j].sp.table)
    {
      OthersAfterWrite(s, i, mem', j);
    }
  }

  lemma InPlaceWithin(m: Machine, sp: Space, mem': Memory)
    requires OnlyNodesDiffer(m.mem, mem', sp.table.nodes)
    ensures Within(m, OwnedFrames(sp), mem')
  {
  }

  /** A store into a data frame of a space reaches no node of its table. */
  lemma StoreKeepsTable(m: Machine, sp: Space, f: Frame, k: nat, e: Pte)
    requires SpaceOk(m, sp) && f in ExclusiveFrames(sp.areas) && f in m.mem && k < ENTRIES
    ensures var mem' := Write(m.mem, f, k, e);
            && Within(m, OwnedFrames(sp), mem') && Wf(m.(mem := mem'), sp.table)
            && Denote(mem', sp.table.root) == Denote(m.mem, sp.table.root)
  {
    if f in sp.table.nodes {
      TwiceIsNotDistinct(sp.table.nodes, ExclusiveFrames(sp.areas), f);
    }
    WrittenElsewhere(m, sp.table, [f], Write(m.mem, f, k, e));
  }

  /** Mapping more pages into a space. */
  lemma MapPagesExtends(m: Machine, sp: Space, rs: seq<Request>)
    requires SpaceOk(m, sp) && HeapFits(m) && MapAll(m, sp.table, rs).Ok?
    ensures var (m', t') := MapAll(m, sp.table, rs).value;
            && Wf(m', t') && Denote(m'.mem, t'.root) == Denote(m.mem, sp.table.root) + Asked(rs)
            && Mappable(rs, Denote(m.mem, sp.table.root).Keys)
            && Extends(m, OwnedFrames(sp), m', OwnedFrames(Space(t', sp.areas)))
            && DataKept(m.mem, m'.mem, ExclusiveFrames(sp.areas))
  {
    MapAllOkIff(m, sp.table, rs);
    MapAllMaps(m, sp.table, rs);
    var (m', t') := MapAll(m, sp.table, rs).value;
    WfLive(m', t');
    BesideNodes(m, sp.table.nodes, m', t'.nodes, ExclusiveFrames(sp.areas));
    NodesSpareData(m, sp.table.nodes, m', t'.nodes, ExclusiveFrames(sp.areas));
  }

  lemma NodesSpareData(m: Machine, nodes: seq<Frame>, m': Machine, nodes': seq<Frame>, data: seq<Frame>)
    requires Grew(m, nodes, m', nodes') && Distinct(nodes' + data)
    ensures DataKept(m.mem, m'.mem, data)
  {
    forall f: Frame | f in data && f in m.mem
      ensures f in m'.mem && m'.mem[f] == m.mem[f]
    {
      if f in nodes' {
        TwiceIsNotDistinct(nodes', data, f);
      }
    }
  }

  lemma InvRename(s: System, i: nat, h: Holder)
    requires Inv(s) && i in s.holders && !h.SpaceHolder? && FramesOf(h) == FramesOf(s.holders[i])
    ensures Inv(System(s.m, s.holders[i := h]))
  {
    assert Extends(s.m, FramesAt(s.holders, i), s.m, FramesOf(h));
    InvAfterGrowth(s, i, h, s.m);
  }

  // --------------------------------------------------------------- every run

  lemma HolderIsOk(s: System, i: nat)
    requires Inv(s) && i in s.holders
    ensures Distinct(FramesOf(s.holders[i])) && AllLive(s.m, FramesOf(s.holders[i]))
    ensures s.holders[i].SpaceHolder? ==> SpaceOk(s.m, s.holders[i].sp)
  {
    forall f: Frame | f in FramesOf(s.holders[i])
      ensures Live(s.m, f)
    {
      assert Holds(s.holders, i, f);
    }
  }

  lemma StepKeepsInv(l: Linker, s: System, op: Op, s': System)
    requires LinkerOk(l) && Inv(s) && Step(l, s, op, s')
    ensures Inv(s')
  {
    hide Inv, Step;
    if op.NewKernel? || op.NewInit? || op.NewGuard? || op.TakeFrame? || op.WrapFrame? || op.Drop? {
      HolderStepKeepsInv(l, s, op, s');
    } else {
      TableStepKeepsInv(l, s, op, s');
    }
  }

  /** Steps that add, rename or remove a holder. */
  lemma HolderStepKeepsInv(l: Linker, s: System, op: Op, s': System)
    requires LinkerOk(l) && Inv(s) && Step(l, s, op, s')
    requires op.NewKernel? || op.NewInit? || op.NewGuard? || op.TakeFrame? || op.WrapFrame? || op.Drop?
    ensures Inv(s')
  {
    hide OneOwner, Wf, Denote, Extends;
    match op
    case NewKernel(i) =>
      MakeKernelExact(s.m, l);
      InvAfterGrowth(s, i, SpaceHolder(MakeKernel(s.m, l).value.1), s'.m);
    case NewInit(i, text) =>
      var stack, code := MakeInitExact(s.m, l, text);
      InvAfterGrowth(s, i, SpaceHolder(MakeInit(s.m, l, text).value.1), s'.m);
    case NewGuard(i) =>
      AllocateExtends(s.m);
      InvAfterGrowth(s, i, GuardHolder(AllocateZeroed(s.m).value.1), s'.m);
    case TakeFrame(i) =>
      InvRename(s, i, TakenOut(s.holders[i].f));
    case WrapFrame(i) =>
      InvRename(s, i, GuardHolder(s.holders[i].f));
    case Drop(i) =>
      HolderIsOk(s, i);
      ReleaseAllReturns(s.m, FramesOf(s.holders[i]));
      InvAfterDrop(s, i, s'.m);
  }

  /** Steps on the table or the data of a space. */
  lemma TableStepKeepsInv(l: Linker, s: System, op: Op, s': System)
    requires LinkerOk(l) && Inv(s) && Step(l, s, op, s')
    requires op.AddTrapframe? || op.MapPages? || op.MapInPlace? || op.StoreWord? || op.Relock?
    ensures Inv(s')
  {
    hide OneOwner, Wf, Denote, Extends, Within;
    match op
    case AddTrapframe(i) =>
      HolderIsOk(s, i);
      InitTrapframeAdds(s.m, s.holders[i].sp);
      InvAfterGrowth(s, i, SpaceHolder(InitTrapframe(s.m, s.holders[i].sp).value.1), s'.m);
    case MapPages(i, rs) =>
      HolderIsOk(s, i);
      MapPagesExtends(s.m, s.holders[i].sp, rs);
      InvAfterGrowth(s, i, s'.holders[i], s'.m);
    case MapInPlace(i, va, pa, flags) =>
      MapOneFills(s.m, s.holders[i].sp.table, va, pa, flags);
      InPlaceWithin(s.m, s.holders[i].sp, s'.m.mem);
      InvAfterWrite(s, i, s'.m.mem);
    case StoreWord(i, owner, va, word, mode) =>
      HolderIsOk(s, owner);
      var (f, k) := StoreTarget(s.m.mem, MakeSatp(s.holders[i].sp.table.root), va, mode).value;
      StoreKeepsTable(s.m, s.holders[owner].sp, f, k, PteOf(word));
      InvAfterWrite(s, owner, s'.m.mem);
    case Relock(i, w) =>
      RelabelSpaceEdits(s.m, l, s.holders[i].sp, w);
      InvAfterRelock(s, i, w, s'.m);
  }

  /** A run from a free heap and no holders, ops[k] leading from run[k] to the next state. */
  ghost predicate Run(l: Linker, run: seq<System>, ops: seq<Op>)
    requires LinkerOk(l)
  {
    && |run| == |ops| + 1 && MachineOk(run[0].m) && run[0].holders == map[]
    && (forall f: Frame :: !Live(run[0].m, f))
    && forall k :: 0 <= k < |ops| ==> Step(l, run[k], ops[k], run[k + 1])
  }

  /** In every state of every run each live frame has exactly one owner and every table is
      well formed. */
  lemma {:induction false} RunsKeepInv(l: Linker, run: seq<System>, ops: seq<Op>, k: nat)
    requires LinkerOk(l) && Run(l, run, ops) && k < |run|
    ensures Inv(run[k])
  {
    if k > 0 {
      RunsKeepInv(l, run, ops, k - 1);
      StepKeepsInv(l, run[k - 1], ops[k - 1], run[k]);
    }
  }

  /** In every state of every run, dropping any space or guard never panics and gives back
      exactly the frames it holds. */
  lemma DropNeverPanics(l: Linker, run: seq<System>, ops: seq<Op>, k: nat, i: nat)
    requires LinkerOk(l) && Run(l, run, ops) && k < |run| && i in run[k].holders
    ensures var r := ReleaseAll(run[k].m, FramesOf(run[k].holders[i]));
            r.Ok? && Returned(run[k].m, r.value, FramesOf(run[k].holders[i]))
  {
    RunsKeepInv(l, run, ops, k);
    HolderIsOk(run[k], i);
    ReleaseAllReturns(run[k].m, FramesOf(run[k].holders[i]));
  }

  /** In every state of every run the hardware translates through every space exactly what its
      map calls for, and the space has exactly the nodes that map needs. */
  lemma RunsAgreeWithHardware(l: Linker, run: seq<System>, ops: seq<Op>, k: nat, i: nat, va: Word)
    requires LinkerOk(l) && Run(l, run, ops) && k < |run| && va < MAX_VA
    requires i in run[k].holders && run[k].holders[i].SpaceHolder?
    ensures var m, t := run[k].m, run[k].holders[i].sp.table;
            && HwTranslate(m.mem, MakeSatp(t.root), va) == Expected(Denote(m.mem, t.root), va)
            && |t.nodes| == NodeCount(Denote(m.mem, t.root))
  {
    RunsKeepInv(l, run, ops, k);
    HardwareAgrees(run[k].m, run[k].holders[i].sp.table, va);
    NodeCountExact(run[k].m, run[k].holders[i].sp.table);
  }
}
