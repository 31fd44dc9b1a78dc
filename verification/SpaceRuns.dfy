/** Address spaces over every run (kernel/src/mm/address_space.rs, kernel/src/trap/mod.rs): memory
    and allocator, shared by all spaces, refine one private map per space, and what the kernel
    relies on while it runs, locked or not, is read off those maps. */
module SpaceRuns {
  import opened Wrappers
  import opened Bits
  import opened Sv39Format
  import opened Layout
  import opened Machines
  import opened PageTables
  import opened Mapping
  import opened Locking
  import opened Requests
  import opened Areas
  import opened KernelAreas
  import opened AddressSpaces
  import opened UserSpaces
  import opened Sv39Hardware
  import opened Translating
  import opened SpaceFacts
  import opened KernelCosts
  import opened Ownership

  // ------------------------------------------------------- the machine of maps

  type View = map<nat, Leaf>

  /** The map of each space, by holder. */
  type Views = map<nat, View>

  predicate IsSpace(s: System, i: nat) {
    i in s.holders && s.holders[i].SpaceHolder?
  }

  function TableAt(s: System, i: nat): Table
    requires IsSpace(s, i)
  {
    s.holders[i].sp.table
  }

  ghost function ViewAt(s: System, i: nat): View
    requires IsSpace(s, i)
  {
    Denote(s.m.mem, s.holders[i].sp.table.root)
  }

  ghost function ViewsOf(s: System): Views {
    map i | i in s.holders && IsSpace(s, i) :: ViewAt(s, i)
  }

  function TrapLeaf(f: Frame): Leaf {
    Leaf(f, WithValid(RW))
  }

  function WithLeaf(view: View, n: nat, leaf: Leaf): View {
    view[n := leaf]
  }

  function WithTrapframe(view: View, f: Frame): View {
    WithLeaf(view, TRAPFRAME_VPN, TrapLeaf(f))
  }

  ghost predicate HeapPages(l: Linker, pages: set<nat>) {
    forall n :: n in pages ==> InLinkerHeap(l, n)
  }

  /** One step of the machine in which every space is a private map. */
  ghost predicate ViewStep(l: Linker, v: Views, op: Op, v': Views)
    requires LinkerOk(l)
  {
    match op
    case NewKernel(i) => i !in v && v' == v[i := KernelView(l)]
    case NewInit(i, text) =>
      i !in v && StackFits(|text|) && exists stack, code :: v' == v[i := InitView(l, StackPage(|text|), stack, code)]
    case AddTrapframe(i) =>
      i in v && TRAPFRAME_VPN !in v[i] && exists f :: v' == v[i := WithTrapframe(v[i], f)]
    case MapPages(i, rs) => i in v && Mappable(rs, v[i].Keys) && v' == v[i := v[i] + Asked(rs)]
    case MapInPlace(i, va, pa, flags) =>
      && i in v && Vpn(va) !in v[i] && RegionOf(Vpn(va)) in Regions(v[i])
      && v' == v[i := WithLeaf(v[i], Vpn(va), Leaf(FrameAt(pa), WithValid(flags)))]
    case Relock(i, w) => i in v && exists pages :: HeapPages(l, pages) && v' == v[i := RelabelView(v[i], pages, w)]
    case NewGuard(i) => v' == v
    case TakeFrame(i) => v' == v
    case WrapFrame(i) => v' == v
    case StoreWord(i, owner, va, word, mode) => v' == v
    case Drop(i) => v' == v - {i}
  }

  // ------------------------------------------------------------- the refinement

  /** All spaces but i are the same in s and s', and map the same. */
  ghost predicate OthersSame(s: System, s': System, i: nat) {
    forall j :: j != i ==> (IsSpace(s', j) <==> IsSpace(s, j)) && (IsSpace(s, j) ==> ViewAt(s', j) == ViewAt(s, j))
  }

  lemma ViewsUpdated(s: System, s': System, i: nat)
    requires OthersSame(s, s', i) && IsSpace(s', i)
    ensures ViewsOf(s') == ViewsOf(s)[i := ViewAt(s', i)]
  {
  }

  lemma ViewsKept(s: System, s': System, i: nat)
    requires OthersSame(s, s', i)
    requires (IsSpace(s', i) <==> IsSpace(s, i)) && (IsSpace(s, i) ==> ViewAt(s', i) == ViewAt(s, i))
    ensures ViewsOf(s') == ViewsOf(s)
  {
  }

  lemma ViewsDropped(s: System, s': System, i: nat)
    requires OthersSame(s, s', i) && !IsSpace(s', i)
    ensures ViewsOf(s') == ViewsOf(s) - {i}
  {
  }

  lemma GrowthOthers(s: System, i: nat, h: Holder, m': Machine)
    requires Inv(s) && Extends(s.m, FramesAt(s.holders, i), m', FramesOf(h))
    ensures OthersSame(s, System(m', s.holders[i := h]), i)
  {
    hide Wf, Denote, OneOwner, Extends;
    forall j | j != i && IsSpace(s, j)
      ensures Denote(m'.mem, s.holders[j].sp.table.root) == ViewAt(s, j)
    {
      OthersKeepTables(s.m, s.holders, i, FramesOf(h), m', j);
    }
  }

  lemma RelockOthers(s: System, i: nat, w: bool, m': Machine)
    requires Inv(s) && IsSpace(s, i) && SpaceRelabelled(s.m, TableAt(s, i), w, m')
    ensures OthersSame(s, System(m', s.holders), i)
  {
    hide Wf, Denote, OneOwner;
    WfLive(m', TableAt(s, i));
    forall j | j != i && IsSpace(s, j)
      ensures Denote(m'.mem, s.holders[j].sp.table.root) == ViewAt(s, j)
    {
      OthersAfterRelock(s, i, w, m', j);
    }
  }

  lemma WriteOthers(s: System, i: nat, mem': Memory)
    requires Inv(s) && i in s.holders && Within(s.m, FramesOf(s.holders[i]), mem')
    ensures OthersSame(s, System(s.m.(mem := mem'), s.holders), i)
  {
    hide Wf, Denote, OneOwner;
    forall j | j != i && IsSpace(s, j)
      ensures Denote(mem', s.holders[j].sp.table.root) == ViewAt(s, j)
    {
      OthersAfterWrite(s, i, mem', j);
    }
  }

  lemma DropOthers(s: System, i: nat, m': Machine)
    requires Inv(s) && i in s.holders && Returned(s.m, m', FramesOf(s.holders[i]))
    ensures OthersSame(s, System(m', s.holders - {i}), i)
  {
    hide Wf, Denote, Returned, OneOwner;
    forall j | j != i && IsSpace(s, j)
      ensures Denote(m'.mem, s.holders[j].sp.table.root) == ViewAt(s, j)
    {
      OthersAfterDrop(s, i, m', j);
    }
  }

  /** The identity pages of a table's nodes are heap pages. */
  lemma NodePagesInHeap(m: Machine, l: Linker, t: Table)
    requires Wf(m, t) && LinkerOk(l) && HeapMatches(m, l)
    ensures HeapPages(l, IdentityPages(t.nodes))
  {
    WfLive(m, t);
    forall f: Frame | f in t.nodes
      ensures InLinkerHeap(l, IdentityPage(f))
    {
      assert Live(m, f);
      VpnOfFrame(f);
    }
  }

  lemma NewKernelRefines(l: Linker, s: System, i: nat, s': System)
    requires LinkerOk(l) && Inv(s) && Step(l, s, NewKernel(i), s')
    ensures ViewStep(l, ViewsOf(s), NewKernel(i), ViewsOf(s'))
  {
    MakeKernelExact(s.m, l);
    GrowthOthers(s, i, s'.holders[i], s'.m);
    ViewsUpdated(s, s', i);
  }

  lemma NewInitRefines(l: Linker, s: System, i: nat, text: seq<Byte>, s': System)
    requires LinkerOk(l) && Inv(s) && Step(l, s, NewInit(i, text), s')
    ensures ViewStep(l, ViewsOf(s), NewInit(i, text), ViewsOf(s'))
  {
    var stack, code := MakeInitExact(s.m, l, text);
    GrowthOthers(s, i, s'.holders[i], s'.m);
    ViewsUpdated(s, s', i);
    assert ViewsOf(s') == ViewsOf(s)[i := InitView(l, StackPage(|text|), stack, code)];
  }

  lemma AddTrapframeRefines(l: Linker, s: System, i: nat, s': System)
    requires LinkerOk(l) && Inv(s) && Step(l, s, AddTrapframe(i), s')
    ensures ViewStep(l, ViewsOf(s), AddTrapframe(i), ViewsOf(s'))
  {
    HolderIsOk(s, i);
    InitTrapframeOkIff(s.m, s.holders[i].sp);
    InitTrapframeAdds(s.m, s.holders[i].sp);
    GrowthOthers(s, i, s'.holders[i], s'.m);
    ViewsUpdated(s, s', i);
    var f := InitTrapframe(s.m, s.holders[i].sp).value.2;
    assert ViewsOf(s') == ViewsOf(s)[i := WithTrapframe(ViewsOf(s)[i], f)];
  }

  lemma MapPagesRefines(l: Linker, s: System, i: nat, rs: seq<Request>, s': System)
    requires LinkerOk(l) && Inv(s) && Step(l, s, MapPages(i, rs), s')
    ensures ViewStep(l, ViewsOf(s), MapPages(i, rs), ViewsOf(s'))
  {
    HolderIsOk(s, i);
    MapPagesExtends(s.m, s.holders[i].sp, rs);
    GrowthOthers(s, i, s'.holders[i], s'.m);
    ViewsUpdated(s, s', i);
  }

  lemma MapInPlaceRefines(l: Linker, s: System, i: nat, va: Word, pa: Word, flags: Flags, s': System)
    requires LinkerOk(l) && Inv(s) && Step(l, s, MapInPlace(i, va, pa, flags), s')
    ensures ViewStep(l, ViewsOf(s), MapInPlace(i, va, pa, flags), ViewsOf(s'))
  {
    MapOneFills(s.m, TableAt(s, i), va, pa, flags);
    InPlaceWithin(s.m, s.holders[i].sp, s'.m.mem);
    WriteOthers(s, i, s'.m.mem);
    ViewsUpdated(s, s', i);
  }

  lemma RelockRefines(l: Linker, s: System, i: nat, w: bool, s': System)
    requires LinkerOk(l) && Inv(s) && HeapMatches(s.m, l) && Step(l, s, Relock(i, w), s')
    ensures ViewStep(l, ViewsOf(s), Relock(i, w), ViewsOf(s'))
  {
    RelabelSpaceEdits(s.m, l, s.holders[i].sp, w);
    RelockOthers(s, i, w, s'.m);
    ViewsUpdated(s, s', i);
    NodePagesInHeap(s.m, l, TableAt(s, i));
    assert ViewsOf(s') == ViewsOf(s)[i := RelabelView(ViewsOf(s)[i], IdentityPages(TableAt(s, i).nodes), w)];
  }

  lemma StoreRefines(l: Linker, s: System, op: Op, s': System)
    requires LinkerOk(l) && Inv(s) && op.StoreWord? && Step(l, s, op, s')
    ensures ViewsOf(s') == ViewsOf(s)
  {
    HolderIsOk(s, op.owner);
    var (f, k) := StoreTarget(s.m.mem, MakeSatp(TableAt(s, op.i).root), op.va, op.mode).value;
    StoreKeepsTable(s.m, s.holders[op.owner].sp, f, k, PteOf(op.word));
    WriteOthers(s, op.owner, s'.m.mem);
    ViewsKept(s, s', op.owner);
  }

  lemma NewGuardRefines(l: Linker, s: System, i: nat, s': System)
    requires LinkerOk(l) && Inv(s) && Step(l, s, NewGuard(i), s')
    ensures ViewsOf(s') == ViewsOf(s)
  {
    AllocateExtends(s.m);
    GrowthOthers(s, i, s'.holders[i], s'.m);
    ViewsKept(s, s', i);
  }

  lemma DropRefines(l: Linker, s: System, i: nat, s': System)
    requires LinkerOk(l) && Inv(s) && Step(l, s, Drop(i), s')
    ensures ViewsOf(s') == ViewsOf(s) - {i}
  {
    HolderIsOk(s, i);
    ReleaseAllReturns(s.m, FramesOf(s.holders[i]));
    DropOthers(s, i, s'.m);
    ViewsDropped(s, s', i);
  }

  /** Every step on shared memory is a step on private maps: an operation on one space changes
      the map of that space as it should, and no other map. */
  lemma StepRefines(l: Linker, s: System, op: Op, s': System)
    requires LinkerOk(l) && Inv(s) && HeapMatches(s.m, l) && Step(l, s, op, s')
    ensures ViewStep(l, ViewsOf(s), op, ViewsOf(s'))
  {
    hide Step, Inv, ViewsOf, ViewStep;
    match op
    case NewKernel(i) => NewKernelRefines(l, s, i, s');
    case NewInit(i, text) => NewInitRefines(l, s, i, text, s');
    case AddTrapframe(i) => AddTrapframeRefines(l, s, i, s');
    case MapPages(i, rs) => MapPagesRefines(l, s, i, rs, s');
    case MapInPlace(i, va, pa, flags) => MapInPlaceRefines(l, s, i, va, pa, flags, s');
    case Relock(i, w) => RelockRefines(l, s, i, w, s');
    case _ => QuietStepRefines(l, s, op, s');
  }

  /** The steps that map nothing. */
  lemma QuietStepRefines(l: Linker, s: System, op: Op, s': System)
    requires LinkerOk(l) && Inv(s) && Step(l, s, op, s')
    requires op.StoreWord? || op.NewGuard? || op.TakeFrame? || op.WrapFrame? || op.Drop?
    ensures ViewStep(l, ViewsOf(s), op, ViewsOf(s'))
  {
    hide Inv, ViewsOf;
    match op
    case StoreWord(i, owner, va, word, mode) => StoreRefines(l, s, op, s');
    case NewGuard(i) => NewGuardRefines(l, s, i, s');
    case Drop(i) => DropRefines(l, s, i, s');
    case _ => RenameRefines(l, s, op, s');
  }

  lemma RenameRefines(l: Linker, s: System, op: Op, s': System)
    requires LinkerOk(l) && Step(l, s, op, s') && (op.TakeFrame? || op.WrapFrame?)
    ensures ViewsOf(s') == ViewsOf(s)
  {
    ViewsKept(s, s', op.i);
  }

  /** No step moves or resizes the heap. */
  lemma StepKeepsHeap(l: Linker, s: System, op: Op, s': System)
    requires LinkerOk(l) && Inv(s) && Step(l, s, op, s')
    ensures s'.m.first == s.m.first && |s'.m.pages| == |s.m.pages|
  {
    hide OneOwner, Wf, Denote, MachineOk, Distinct;
    match op
    case NewKernel(i) => MakeKernelExact(s.m, l);
    case NewInit(i, text) => var stack, code := MakeInitExact(s.m, l, text);
    case AddTrapframe(i) =>
      HolderIsOk(s, i);
      InitTrapframeAdds(s.m, s.holders[i].sp);
    case MapPages(i, rs) =>
      HolderIsOk(s, i);
      MapPagesExtends(s.m, s.holders[i].sp, rs);
    case MapInPlace(i, va, pa, flags) =>
    case Relock(i, w) => RelabelSpaceEdits(s.m, l, s.holders[i].sp, w);
    case StoreWord(i, owner, va, word, mode) =>
    case NewGuard(i) => AllocateExtends(s.m);
    case TakeFrame(i) =>
    case WrapFrame(i) =>
    case Drop(i) =>
      HolderIsOk(s, i);
      ReleaseAllReturns(s.m, FramesOf(s.holders[i]));
  }

  /** A run on the heap that the linker script reserves. */
  ghost predicate KernelRun(l: Linker, run: seq<System>, ops: seq<Op>) {
    LinkerOk(l) && Run(l, run, ops) && HeapMatches(run[0].m, l)
  }

  lemma {:induction false} RunsKeepHeap(l: Linker, run: seq<System>, ops: seq<Op>, k: nat)
    requires KernelRun(l, run, ops) && k < |run|
    ensures Inv(run[k]) && HeapMatches(run[k].m, l)
  {
    hide Step, Inv;
    RunsKeepInv(l, run, ops, k);
    if k > 0 {
      RunsKeepHeap(l, run, ops, k - 1);
      StepKeepsHeap(l, run[k - 1], ops[k - 1], run[k]);
    }
  }

  // ------------------------------------------------------- what each step keeps

  /** The step maps page n in space i. */
  ghost predicate MapsPage(op: Op, i: nat, n: nat) {
    match op
    case AddTrapframe(j) => j == i && n == TRAPFRAME_VPN
    case MapPages(j, rs) => j == i && n in Asked(rs)
    case MapInPlace(j, va, pa, flags) => j == i && n == Vpn(va)
    case _ => false
  }

  /** Leaf b is what became of leaf a of page n: only the W flag of a heap page may differ. */
  ghost predicate LeafKept(l: Linker, n: nat, a: Leaf, b: Leaf) {
    b == a || (InLinkerHeap(l, n) && OnlyWritableSet(a, b, IsWritable(b.flags)))
  }

  lemma LeafKeptTrans(l: Linker, n: nat, a: Leaf, b: Leaf, c: Leaf)
    requires LeafKept(l, n, a, b) && LeafKept(l, n, b, c)
    ensures LeafKept(l, n, a, c)
  {
    if a != b && b != c {
      forall k | 0 <= k < 9
        ensures Bit(c.flags, k) <==> if k == 2 then IsWritable(c.flags) else Bit(a.flags, k)
      {
        assert Bit(b.flags, k) <==> if k == 2 then IsWritable(b.flags) else Bit(a.flags, k);
      }
    }
  }

  lemma RelabelLeafKept(l: Linker, view: View, pages: set<nat>, w: bool, n: nat)
    requires HeapPages(l, pages) && n in view
    ensures n in RelabelView(view, pages, w) && LeafKept(l, n, view[n], RelabelView(view, pages, w)[n])
  {
    WritableLeaf(view[n], w);
    FlagTests(RelabelView(view, pages, w)[n].flags);
    if n in pages {
      assert Bit(RelabelView(view, pages, w)[n].flags, 2) <==> w;
    }
  }

  /** A step neither unmaps a page of a living space nor redirects it. */
  lemma StepKeepsLeaf(l: Linker, v: Views, op: Op, v': Views, i: nat, n: nat)
    requires LinkerOk(l) && ViewStep(l, v, op, v') && i in v && i in v' && n in v[i]
    ensures n in v'[i] && LeafKept(l, n, v[i][n], v'[i][n])
  {
    match op
    case MapPages(j, rs) => AskedAvoids(rs, v[j].Keys);
    case Relock(j, w) =>
      var pages :| HeapPages(l, pages) && v' == v[j := RelabelView(v[j], pages, w)];
      if i == j {
        RelabelLeafKept(l, v[i], pages, w, n);
      }
    case _ =>
  }

  /** Only locking or unlocking the space itself changes a leaf at all. */
  lemma StepKeepsLeafExactly(l: Linker, v: Views, op: Op, v': Views, i: nat, n: nat)
    requires LinkerOk(l) && ViewStep(l, v, op, v') && i in v && i in v' && n in v[i] && !(op.Relock? && op.i == i)
    ensures n in v'[i] && v'[i][n] == v[i][n]
  {
    if op.MapPages? {
      AskedAvoids(op.rs, v[op.i].Keys);
    }
  }

  /** A step maps no page that it does not name. */
  lemma StepMapsOnly(l: Linker, v: Views, op: Op, v': Views, i: nat, n: nat)
    requires LinkerOk(l) && ViewStep(l, v, op, v') && i in v && i in v' && n !in v[i]
    ensures n in v'[i] ==> MapsPage(op, i, n)
  {
  }

  // ------------------------------------------------------------------ over runs

  /** A run of the machine of maps. */
  ghost predicate ViewRun(l: Linker, vs: seq<Views>, ops: seq<Op>)
    requires LinkerOk(l)
  {
    |vs| == |ops| + 1 && vs[0] == map[] && forall k :: 0 <= k < |ops| ==> ViewStep(l, vs[k], ops[k], vs[k + 1])
  }

  /** The maps along a run. */
  ghost function ViewsAlong(run: seq<System>): (vs: seq<Views>)
    ensures |vs| == |run| && forall k :: 0 <= k < |run| ==> vs[k] == ViewsOf(run[k])
  {
    seq(|run|, k requires 0 <= k < |run| => ViewsOf(run[k]))
  }

  lemma RunStepRefines(l: Linker, run: seq<System>, ops: seq<Op>, k: nat)
    requires KernelRun(l, run, ops) && k < |ops|
    ensures ViewStep(l, ViewsOf(run[k]), ops[k], ViewsOf(run[k + 1]))
  {
    RunsKeepHeap(l, run, ops, k);
    StepRefines(l, run[k], ops[k], run[k + 1]);
  }

  /** Every run on shared memory is a run on private maps. */
  lemma RunsRefineViews(l: Linker, run: seq<System>, ops: seq<Op>)
    requires KernelRun(l, run, ops)
    ensures ViewRun(l, ViewsAlong(run), ops)
  {
    forall k | 0 <= k < |ops|
      ensures ViewStep(l, ViewsAlong(run)[k], ops[k], ViewsAlong(run)[k + 1])
    {
      RunStepRefines(l, run, ops, k);
    }
  }

  /** Space i is there in all states from made to k. */
  ghost predicate Present(vs: seq<Views>, i: nat, made: nat, k: nat) {
    made <= k < |vs| && forall j :: made <= j <= k ==> i in vs[j]
  }

  /** While a space lives, through any interleaving with other spaces, its pages stay where they
      are; only the W flag of a heap page can change. */
  lemma {:induction false} RunsKeepLeaf(l: Linker, vs: seq<Views>, ops: seq<Op>, i: nat, n: nat, made: nat, k: nat)
    requires LinkerOk(l) && ViewRun(l, vs, ops) && Present(vs, i, made, k) && n in vs[made][i]
    ensures n in vs[k][i] && LeafKept(l, n, vs[made][i][n], vs[k][i][n])
    decreases k
  {
    if k > made {
      RunsKeepLeaf(l, vs, ops, i, n, made, k - 1);
      StepKeepsLeaf(l, vs[k - 1], ops[k - 1], vs[k], i, n);
      LeafKeptTrans(l, n, vs[made][i][n], vs[k - 1][i][n], vs[k][i][n]);
    }
  }

  /** No step from made to k maps page n in space i. */
  ghost predicate NeverMapped(ops: seq<Op>, i: nat, n: nat, made: nat, k: nat)
    requires k <= |ops|
  {
    forall j :: made <= j < k ==> !MapsPage(ops[j], i, n)
  }

  /** A page that is unmapped in a space stays so until a step maps it there. */
  lemma {:induction false} RunsMapOnly(l: Linker, vs: seq<Views>, ops: seq<Op>, i: nat, n: nat, made: nat, k: nat)
    requires LinkerOk(l) && ViewRun(l, vs, ops) && Present(vs, i, made, k) && n !in vs[made][i]
    requires NeverMapped(ops, i, n, made, k)
    ensures n !in vs[k][i]
    decreases k
  {
    if k > made {
      RunsMapOnly(l, vs, ops, i, n, made, k - 1);
      StepMapsOnly(l, vs[k - 1], ops[k - 1], vs[k], i, n);
    }
  }

  // ----------------------------------------------------------------- trampoline

  ghost predicate MapsTrampoline(l: Linker, view: View) {
    TRAMPOLINE_VPN in view && view[TRAMPOLINE_VPN] == Leaf(FrameAt(l.trampoline), WithValid(RX))
  }

  ghost predicate AllHaveTrampoline(l: Linker, v: Views) {
    forall i :: i in v ==> MapsTrampoline(l, v[i])
  }

  lemma TrampolineNotInHeap(l: Linker)
    requires LinkerOk(l)
    ensures !InLinkerHeap(l, TRAMPOLINE_VPN) && !InLinkerHeap(l, TRAPFRAME_VPN)
  {
  }

  lemma NewViewsHaveTrampoline(l: Linker, s: nat, stack: Frame, code: Frame)
    requires LinkerOk(l) && s != TRAMPOLINE_VPN
    ensures MapsTrampoline(l, KernelView(l)) && MapsTrampoline(l, InitView(l, s, stack, code))
  {
    KernelViewHolds(l);
  }

  lemma StepKeepsTrampoline(l: Linker, v: Views, op: Op, v': Views, i: nat)
    requires LinkerOk(l) && ViewStep(l, v, op, v') && AllHaveTrampoline(l, v) && i in v'
    ensures MapsTrampoline(l, v'[i])
  {
    if i in v {
      StepKeepsLeaf(l, v, op, v', i, TRAMPOLINE_VPN);
      TrampolineNotInHeap(l);
    } else if op.NewKernel? {
      NewViewsHaveTrampoline(l, 0, 0, 0);
    } else {
      var stack, code :| v' == v[op.i := InitView(l, StackPage(|op.text|), stack, code)];
      NewViewsHaveTrampoline(l, StackPage(|op.text|), stack, code);
    }
  }

  lemma {:induction false} RunsKeepTrampoline(l: Linker, vs: seq<Views>, ops: seq<Op>, k: nat)
    requires LinkerOk(l) && ViewRun(l, vs, ops) && k < |vs|
    ensures AllHaveTrampoline(l, vs[k])
  {
    if k > 0 {
      RunsKeepTrampoline(l, vs, ops, k - 1);
      forall i | i in vs[k]
        ensures MapsTrampoline(l, vs[k][i])
      {
        StepKeepsTrampoline(l, vs[k - 1], ops[k - 1], vs[k], i);
      }
    }
  }

  lemma ViewOfSpace(run: seq<System>, k: nat, i: nat)
    requires k < |run| && IsSpace(run[k], i)
    ensures i in ViewsAlong(run)[k] && ViewsAlong(run)[k][i] == ViewAt(run[k], i)
  {
  }

  /** In every state of every run every space, locked or not, has the trampoline. */
  lemma EverySpaceHasTrampoline(l: Linker, run: seq<System>, ops: seq<Op>, k: nat, i: nat)
    requires KernelRun(l, run, ops) && k < |run| && IsSpace(run[k], i)
    ensures HasTrampoline(run[k].m, l, TableAt(run[k], i))
  {
    RunsKeepInv(l, run, ops, k);
    RunsRefineViews(l, run, ops);
    RunsKeepTrampoline(l, ViewsAlong(run), ops, k);
    ViewOfSpace(run, k, i);
  }

  /** Where the trampoline's bytes lie. */
  function TrampolineAt(l: Linker, va: Word): Translation
    requires TRAMPOLINE_BASE_VA <= va
  {
    Translated(l.trampoline + (va - TRAMPOLINE_BASE_VA), WithValid(RX))
  }

  lemma ExpectedTrampoline(l: Linker, view: View, va: Word)
    requires LinkerOk(l) && MapsTrampoline(l, view) && TRAMPOLINE_BASE_VA <= va < MAX_VA
    ensures Expected(view, va) == TrampolineAt(l, va)
  {
    TrampolinePage(va);
  }

  /** In every state of every run, any two spaces translate every address of the trampoline page
      alike, by hardware to the linked trampoline and by `translate` as `usertrapret` asserts, so
      that switching tables there does not change what runs. */
  lemma SpacesShareTrampoline(l: Linker, run: seq<System>, ops: seq<Op>, k: nat, i: nat, j: nat, va: Word)
    requires KernelRun(l, run, ops) && k < |run| && IsSpace(run[k], i) && IsSpace(run[k], j)
    requires TRAMPOLINE_BASE_VA <= va < MAX_VA
    ensures var mem, a, b := run[k].m.mem, TableAt(run[k], i).root, TableAt(run[k], j).root;
            && HwTranslate(mem, MakeSatp(a), va) == HwTranslate(mem, MakeSatp(b), va) == TrampolineAt(l, va)
            && Translate(mem, a, va) == Translate(mem, b, va)
            && Translate(mem, a, TRAMPOLINE_BASE_VA) == Ok(Some((l.trampoline, WithValid(RX))))
  {
    EverySpaceHasTrampoline(l, run, ops, k, i);
    EverySpaceHasTrampoline(l, run, ops, k, j);
    TrampolineAgrees(run[k].m, l, TableAt(run[k], i), TableAt(run[k], j), va);
    HardwareAgrees(run[k].m, TableAt(run[k], i), va);
    ExpectedTrampoline(l, ViewAt(run[k], i), va);
    TrampolineBySoftware(run[k].m, l, TableAt(run[k], i), TRAMPOLINE_BASE_VA);
    FixedAnswers(l, 0);
  }

  // --------------------------------------------------------------- kernel spaces

  /** Step made - 1 makes space i a kernel space, which then lives until k. */
  ghost predicate KernelSince(run: seq<System>, ops: seq<Op>, i: nat, made: nat, k: nat) {
    0 < made <= |ops| && ops[made - 1] == NewKernel(i) && Present(ViewsAlong(run), i, made, k)
  }

  lemma KernelStarts(l: Linker, vs: seq<Views>, ops: seq<Op>, i: nat, made: nat)
    requires LinkerOk(l) && ViewRun(l, vs, ops) && 0 < made <= |ops| && ops[made - 1] == NewKernel(i)
    ensures i in vs[made] && vs[made][i] == KernelView(l)
  {
    assert ViewStep(l, vs[made - 1], ops[made - 1], vs[made]);
  }

  lemma KernelIsSpace(run: seq<System>, ops: seq<Op>, i: nat, made: nat, k: nat)
    requires KernelSince(run, ops, i, made, k)
    ensures k < |run| && IsSpace(run[k], i) && ViewsAlong(run)[k][i] == ViewAt(run[k], i)
  {
    assert i in ViewsAlong(run)[k];
  }

  /** In every run, from creation to drop and however often it is locked and unlocked, a kernel
      space maps every page of the kernel map where it was, with its flags but for the W flag of
      heap pages. */
  lemma KernelStays(l: Linker, run: seq<System>, ops: seq<Op>, i: nat, made: nat, k: nat, n: nat)
    requires KernelRun(l, run, ops) && KernelSince(run, ops, i, made, k) && n in KernelView(l)
    ensures k < |run| && IsSpace(run[k], i)
    ensures n in ViewAt(run[k], i) && LeafKept(l, n, KernelView(l)[n], ViewAt(run[k], i)[n])
  {
    RunsRefineViews(l, run, ops);
    KernelStarts(l, ViewsAlong(run), ops, i, made);
    RunsKeepLeaf(l, ViewsAlong(run), ops, i, n, made, k);
    KernelIsSpace(run, ops, i, made, k);
  }

  lemma KeptLeafAccepted(l: Linker, n: nat, a: Leaf, b: Leaf)
    requires n < TRAMPOLINE_VPN && KernelLeaf(n, a) && LeafKept(l, n, a, b)
    ensures HwLeaf(b) && b.frame == n
  {
    FlagTests(a.flags);
    FlagTests(b.flags);
    assert b != a ==> (Bit(b.flags, 1) <==> Bit(a.flags, 1));
  }

  lemma ExpectedSelf(view: View, va: Word)
    requires va < MAX_VA && Vpn(va) in view && view[Vpn(va)].frame == Vpn(va) && HwLeaf(view[Vpn(va)])
    ensures Expected(view, va) == Translated(va, view[Vpn(va)].flags)
  {
  }

  /** The hardware translates every kernel address off the trampoline page to itself, on every
      kernel space of every run, locked or not. */
  lemma KernelIsIdentity(l: Linker, run: seq<System>, ops: seq<Op>, i: nat, made: nat, k: nat, va: Word)
    requires KernelRun(l, run, ops) && KernelSince(run, ops, i, made, k)
    requires va < MAX_VA && Vpn(va) in KernelView(l) && Vpn(va) != TRAMPOLINE_VPN
    ensures k < |run| && IsSpace(run[k], i) && Vpn(va) in ViewAt(run[k], i)
    ensures HwTranslate(run[k].m.mem, MakeSatp(TableAt(run[k], i).root), va)
         == Translated(va, ViewAt(run[k], i)[Vpn(va)].flags)
    ensures LeafKept(l, Vpn(va), KernelView(l)[Vpn(va)], ViewAt(run[k], i)[Vpn(va)])
  {
    KernelStays(l, run, ops, i, made, k, Vpn(va));
    KernelViewLeaves(l, Vpn(va));
    KeptLeafAccepted(l, Vpn(va), KernelView(l)[Vpn(va)], ViewAt(run[k], i)[Vpn(va)]);
    ExpectedSelf(ViewAt(run[k], i), va);
    RunsKeepInv(l, run, ops, k);
    HardwareAgrees(run[k].m, TableAt(run[k], i), va);
  }

  /** Outside the kernel map the hardware faults on a kernel space, unless a step mapped that very
      page there. */
  lemma KernelFaultsElsewhere(l: Linker, run: seq<System>, ops: seq<Op>, i: nat, made: nat, k: nat, va: Word)
    requires KernelRun(l, run, ops) && KernelSince(run, ops, i, made, k)
    requires va < MAX_VA && Vpn(va) !in KernelView(l) && NeverMapped(ops, i, Vpn(va), made, k)
    ensures k < |run| && IsSpace(run[k], i)
    ensures HwTranslate(run[k].m.mem, MakeSatp(TableAt(run[k], i).root), va) == PageFault
  {
    RunsRefineViews(l, run, ops);
    KernelStarts(l, ViewsAlong(run), ops, i, made);
    RunsMapOnly(l, ViewsAlong(run), ops, i, Vpn(va), made, k);
    KernelIsSpace(run, ops, i, made, k);
    RunsKeepInv(l, run, ops, k);
    HardwareAgrees(run[k].m, TableAt(run[k], i), va);
  }

  /** In particular it has no trap frame: the address that `__uservec` uses faults on it. */
  lemma KernelHasNoTrapframe(l: Linker, run: seq<System>, ops: seq<Op>, i: nat, made: nat, k: nat, slot: nat)
    requires KernelRun(l, run, ops) && KernelSince(run, ops, i, made, k)
    requires slot < ENTRIES && NeverMapped(ops, i, TRAPFRAME_VPN, made, k)
    ensures k < |run| && IsSpace(run[k], i)
    ensures var va: Word := TRAPFRAME_BASE_USER_VA + 8 * slot;
            HwTranslate(run[k].m.mem, MakeSatp(TableAt(run[k], i).root), va) == PageFault
  {
    var va: Word := TRAPFRAME_BASE_USER_VA + 8 * slot;
    TrapframeAddress(slot, va);
    NoTrapframeInKernel(l);
    KernelFaultsElsewhere(l, run, ops, i, made, k, va);
  }

  lemma KernelHeapStays(l: Linker, run: seq<System>, ops: seq<Op>, i: nat, made: nat, k: nat)
    requires KernelRun(l, run, ops) && KernelSince(run, ops, i, made, k)
    ensures k < |run| && IsSpace(run[k], i) && HeapIdentity(l, ViewAt(run[k], i))
  {
    KernelIsSpace(run, ops, i, made, k);
    KernelViewHolds(l);
    forall n: nat | InLinkerHeap(l, n)
      ensures n in ViewAt(run[k], i) && ViewAt(run[k], i)[n].frame == n
    {
      KernelStays(l, run, ops, i, made, k, n);
    }
  }

  /** Over every run, locking or unlocking a kernel space never meets a missing slot: it succeeds
      exactly when 73 frames are free for the second kernel space. */
  lemma KernelLockNeverUnwraps(l: Linker, run: seq<System>, ops: seq<Op>, i: nat, made: nat, k: nat, w: bool)
    requires KernelRun(l, run, ops) && KernelSince(run, ops, i, made, k)
    ensures k < |run| && IsSpace(run[k], i) && HeapFits(run[k].m)
    ensures RelabelSpace(run[k].m, l, run[k].holders[i].sp, w).Ok? <==> Free(run[k].m) >= 73
  {
    KernelIsSpace(run, ops, i, made, k);
    RunsKeepHeap(l, run, ops, k);
    KernelHeapStays(l, run, ops, i, made, k);
    KernelReachable(run[k].m, l, TableAt(run[k], i));
    RelabelSpaceOkIff(run[k].m, l, run[k].holders[i].sp, w);
    KernelNodeCount(l);
  }

  // -------------------------------------------------- what the kernel can write

  /** On space i the hardware reaches every heap page at its own address, for writing unless the
      page is a node of the table of i, and never in user mode. */
  ghost predicate HeapWritable(l: Linker, s: System, i: nat) {
    IsSpace(s, i) && forall n: nat :: InLinkerHeap(l, n) ==> HeapPageOpen(ViewAt(s, i), TableAt(s, i).nodes, n)
  }

  ghost predicate HeapPageOpen(view: View, nodes: seq<Frame>, n: nat) {
    && n in view && view[n].frame == n && IsReadable(view[n].flags) && !IsUser(view[n].flags)
    && (n !in nodes ==> IsWritable(view[n].flags))
  }

  lemma NewHeapWritable(l: Linker, s: System, i: nat, s': System)
    requires LinkerOk(l) && Inv(s) && Step(l, s, NewKernel(i), s')
    ensures HeapWritable(l, s', i)
  {
    hide KernelView, Wf, Extends;
    MakeKernelExact(s.m, l);
    KernelPagesOpen(l, TableAt(s', i).nodes);
  }

  lemma KernelPagesOpen(l: Linker, nodes: seq<Frame>)
    requires LinkerOk(l)
    ensures forall n: nat :: InLinkerHeap(l, n) ==> HeapPageOpen(KernelView(l), nodes, n)
  {
    hide KernelView;
    KernelViewHolds(l);
  }

  lemma SetWritableReads(flags: Flags, w: bool)
    ensures IsReadable(SetWritable(flags, w)) == IsReadable(flags)
    ensures IsUser(SetWritable(flags, w)) == IsUser(flags)
  {
    FlagTests(flags);
    FlagTests(SetWritable(flags, w));
    WritableBits(flags, w, 1);
    WritableBits(flags, w, 4);
  }

  /** The identity page of a node is the node. */
  lemma IdentityOfNode(m: Machine, l: Linker, t: Table, n: nat)
    requires Wf(m, t) && LinkerOk(l) && HeapMatches(m, l)
    ensures n in IdentityPages(t.nodes) ==> n in t.nodes
  {
    WfLive(m, t);
    hide Wf;
    forall f: Frame | f in t.nodes
      ensures IdentityPage(f) == f
    {
      assert Live(m, f);
      VpnOfFrame(f);
    }
  }

  lemma RelockKeepsOpen(l: Linker, s: System, i: nat, w: bool, s': System, n: nat)
    requires LinkerOk(l) && Inv(s) && HeapMatches(s.m, l) && Step(l, s, Relock(i, w), s')
    requires HeapPageOpen(ViewAt(s, i), TableAt(s, i).nodes, n)
    ensures IsSpace(s', i) && HeapPageOpen(ViewAt(s', i), TableAt(s', i).nodes, n)
  {
    RelabelSpaceEdits(s.m, l, s.holders[i].sp, w);
    IdentityOfNode(s.m, l, TableAt(s, i), n);
    SetWritableReads(ViewAt(s, i)[n].flags, w);
  }

  /** The nodes of a space stay its nodes. */
  lemma NodesStay(l: Linker, s: System, op: Op, s': System, i: nat)
    requires LinkerOk(l) && Inv(s) && Step(l, s, op, s') && IsSpace(s, i) && IsSpace(s', i)
    ensures TableAt(s, i).nodes <= TableAt(s', i).nodes
  {
    hide OneOwner, Wf, Denote;
    if op.AddTrapframe? && op.i == i {
      HolderIsOk(s, i);
      TrapframeNodes(s.m, s.holders[i].sp);
    } else if op.MapPages? && op.i == i {
      MapAllMaps(s.m, TableAt(s, i), op.rs);
    }
  }

  lemma TrapframeNodes(m: Machine, sp: Space)
    requires SpaceOk(m, sp) && HeapFits(m) && InitTrapframe(m, sp).Ok?
    ensures sp.table.nodes <= InitTrapframe(m, sp).value.1.table.nodes
  {
    WfLive(m, sp.table);
    AfterAllocate(m, sp.table);
    var (m1, f) := AllocateZeroed(m).value;
    TrapframeView(f);
    MapAllMaps(m1, sp.table, AreaRequests(TrapframeArea(f)));
  }

  lemma StepKeepsOpen(l: Linker, s: System, op: Op, s': System, i: nat, n: nat)
    requires LinkerOk(l) && Inv(s) && HeapMatches(s.m, l) && Step(l, s, op, s') && IsSpace(s, i) && IsSpace(s', i)
    requires HeapPageOpen(ViewAt(s, i), TableAt(s, i).nodes, n)
    ensures HeapPageOpen(ViewAt(s', i), TableAt(s', i).nodes, n)
  {
    hide Step, Inv, ViewStep, Denote;
    if op.Relock? && op.i == i {
      RelockKeepsOpen(l, s, i, op.writable, s', n);
    } else {
      StepRefines(l, s, op, s');
      ViewsAt(s, i);
      ViewsAt(s', i);
      StepKeepsLeafExactly(l, ViewsOf(s), op, ViewsOf(s'), i, n);
      NodesStay(l, s, op, s', i);
    }
  }

  lemma ViewsAt(s: System, i: nat)
    requires IsSpace(s, i)
    ensures i in ViewsOf(s) && ViewsOf(s)[i] == ViewAt(s, i)
  {
  }

  /** No step of a run takes a writable page from a kernel space, but for the nodes of its table. */
  lemma StepKeepsHeapWritable(l: Linker, s: System, op: Op, s': System, i: nat)
    requires LinkerOk(l) && Inv(s) && HeapMatches(s.m, l) && Step(l, s, op, s')
    requires HeapWritable(l, s, i) && IsSpace(s', i)
    ensures HeapWritable(l, s', i)
  {
    hide Step, Inv, HeapPageOpen, Denote;
    forall n: nat | InLinkerHeap(l, n)
      ensures HeapPageOpen(ViewAt(s', i), TableAt(s', i).nodes, n)
    {
      StepKeepsOpen(l, s, op, s', i, n);
    }
  }

  /** In every run, from creation to drop and however often it is locked, a kernel space lets the
      kernel write every heap page except the nodes of the space's own table. */
  lemma {:induction false} RunsKeepHeapWritable(l: Linker, run: seq<System>, ops: seq<Op>, i: nat, made: nat, k: nat)
    requires KernelRun(l, run, ops) && KernelSince(run, ops, i, made, k)
    ensures k < |run| && HeapWritable(l, run[k], i)
    decreases k
  {
    hide Step, Inv, HeapWritable;
    KernelIsSpace(run, ops, i, made, k);
    RunsKeepHeap(l, run, ops, k - 1);
    assert Step(l, run[k - 1], ops[k - 1], run[k]);
    if k == made {
      NewHeapWritable(l, run[k - 1], i, run[k]);
    } else {
      RunsKeepHeapWritable(l, run, ops, i, made, k - 1);
      StepKeepsHeapWritable(l, run[k - 1], ops[k - 1], run[k], i);
    }
  }

  /** What a kernel's store at the address of a heap word reaches: that word. */
  lemma KernelWrites(l: Linker, s: System, i: nat, f: Frame, k: nat, va: Word)
    requires LinkerOk(l) && Inv(s) && HeapMatches(s.m, l) && HeapWritable(l, s, i)
    requires Live(s.m, f) && f in s.m.mem && f !in TableAt(s, i).nodes && k < ENTRIES && va == BaseAddr(f) + 8 * k
    ensures StoreTarget(s.m.mem, MakeSatp(TableAt(s, i).root), va, Supervisor) == Some((f, k))
  {
    assert InLinkerHeap(l, f) && HeapPageOpen(ViewAt(s, i), TableAt(s, i).nodes, f);
    HeapWordTarget(l, s.m, TableAt(s, i), ViewAt(s, i)[f].flags, f, k, va);
  }

  lemma HeapWordTarget(l: Linker, m: Machine, t: Table, flags: Flags, f: Frame, k: nat, va: Word)
    requires LinkerOk(l) && Wf(m, t) && InLinkerHeap(l, f) && f in m.mem && k < ENTRIES && va == BaseAddr(f) + 8 * k
    requires f in Denote(m.mem, t.root) && Denote(m.mem, t.root)[f] == Leaf(f, flags)
    requires IsReadable(flags) && IsWritable(flags) && !IsUser(flags)
    ensures StoreTarget(m.mem, MakeSatp(t.root), va, Supervisor) == Some((f, k))
  {
    hide Wf, Denote, StoreTarget, HwTranslate, MakeSatp, Expected;
    HeapAddress(l, f, k, va);
    HardwareAgrees(m, t, va);
    ExpectedSelf(Denote(m.mem, t.root), va);
    TargetOfWord(m.mem, MakeSatp(t.root), va, f, k, flags);
  }

  lemma HeapAddress(l: Linker, f: Frame, k: nat, va: Word)
    requires LinkerOk(l) && InLinkerHeap(l, f) && k < ENTRIES && va == BaseAddr(f) + 8 * k
    ensures va < MAX_VA && Vpn(va) == f && f < 0x1000_0000_0000
  {
  }

  lemma WordAddress(f: Frame, k: nat)
    requires k < ENTRIES
    ensures var pa := BaseAddr(f) + 8 * k;
            pa < TWO64 && pa % 8 == 0 && pa / PAGE_SIZE == f && pa % PAGE_SIZE / 8 == k
  {
    assert BaseAddr(f) % 8 == 0;
  }

  lemma TargetOfWord(mem: Memory, satp: Word, va: Word, f: Frame, k: nat, low: nat)
    requires HwTranslate(mem, satp, va) == Translated(BaseAddr(f) + 8 * k, low) && Permits(low, Stores, Supervisor)
    requires f in mem && k < ENTRIES
    ensures StoreTarget(mem, satp, va, Supervisor) == Some((f, k))
  {
    hide HwTranslate, HwWalk;
    WordAddress(f, k);
  }
}
