/** What code can reach through the spaces of the kernel, in user mode and in supervisor mode: the
    permissions of kernel/src/mm/address_space.rs as the hardware enforces them. */
module Permissions {
  import opened Wrappers
  import opened Bits
  import opened Sv39Format
  import opened Layout
  import opened Machines
  import opened PageTables
  import opened Mapping
  import opened Locking
  import opened KernelAreas
  import opened KernelCosts
  import opened AddressSpaces
  import opened UserSpaces
  import opened SpaceFacts
  import opened Sv39Hardware
  import opened Translating
  import opened Ownership
  import opened SpaceRuns

  /** The bit of the flag that an access needs. */
  function NeededBit(access: Access): nat {
    match access
    case Loads => 1
    case Stores => 2
    case Fetches => 3
  }

  /** By bits: the flag of the access is set, and U exactly in user mode. */
  lemma PermitsIff(low: nat, access: Access, mode: Mode)
    ensures Permits(low, access, mode) <==> Bit(low, NeededBit(access)) && (Bit(low, 4) <==> mode.UserMode?)
  {
    FlagTests(low);
  }

  // ------------------------------------------------------------- one mapped page

  /** A page mapped with readable or executable flags, no W without R, and a 56-bit frame. */
  predicate Usable(pa: Word, flags: Flags) {
    pa < 0x100_0000_0000_0000 && (Bit(flags, 1) || Bit(flags, 3)) && (Bit(flags, 2) ==> Bit(flags, 1))
  }

  /** The physical address that flags let an access at va reach, in a page mapped to pa. */
  function Reached(pa: Word, flags: Flags, va: Word, access: Access, mode: Mode): Option<nat> {
    if Bit(flags, NeededBit(access)) && (Bit(flags, 4) <==> mode.UserMode?) then Some(pa + va % PAGE_SIZE) else None
  }

  /** What the hardware makes of a page mapped with V and flags: every address of the page reaches
      the same offset from pa, for exactly the accesses that flags has. */
  lemma MappedReaches(m: Machine, t: Table, va: Word, pa: Word, flags: Flags, access: Access, mode: Mode)
    requires Wf(m, t) && va < MAX_VA && pa % PAGE_SIZE == 0 && Usable(pa, flags)
    requires MappedWith(Denote(m.mem, t.root), va, pa, flags)
    ensures HwAccess(m.mem, MakeSatp(t.root), va, access, mode) == Reached(pa, flags, va, access, mode)
  {
    hide Wf, Denote, HwTranslate, MakeSatp;
    var leaf := Denote(m.mem, t.root)[Vpn(va)];
    HardwareAgrees(m, t, va);
    FlagTests(leaf.flags);
    PermitsIff(leaf.flags, access, mode);
    assert forall k :: 1 <= k < 5 ==> (Bit(leaf.flags, k) <==> Bit(flags, k));
  }

  /** After `map_one_allocate` or `map_one` the hardware reaches pa through va, for exactly the
      accesses that the asked flags allow, in exactly the mode that they allow. */
  lemma MapReaches(m: Machine, t: Table, va: Word, pa: Word, flags: Flags, access: Access, mode: Mode)
    requires Wf(m, t) && va < MAX_VA && pa % PAGE_SIZE == 0 && Usable(pa, flags)
    ensures var r, reached := MapOneAllocate(m, t, va, pa, flags), Reached(pa, flags, va, access, mode);
            r.Ok? ==> HwAccess(r.value.0.mem, MakeSatp(r.value.1.root), va, access, mode) == reached
    ensures var r, reached := MapOne(m.mem, t.root, va, pa, flags), Reached(pa, flags, va, access, mode);
            r.Ok? && r.value.Some? ==> HwAccess(r.value.value, MakeSatp(t.root), va, access, mode) == reached
  {
    assert HeapFits(m);
    hide Wf, Denote, HwAccess, MakeSatp, MapOneAllocate, MapOne, MappedWith, Reached;
    MapOneInserts(m, t, va, pa, flags);
    MapOneFills(m, t, va, pa, flags);
    MapSetsFlags(m, t, va, pa, flags);
    var r, r' := MapOneAllocate(m, t, va, pa, flags), MapOne(m.mem, t.root, va, pa, flags);
    if r.Ok? {
      MappedReaches(r.value.0, r.value.1, va, pa, flags, access, mode);
    }
    if r'.Ok? && r'.value.Some? {
      MappedReaches(m.(mem := r'.value.value), t, va, pa, flags, access, mode);
    }
  }

  // ------------------------------------------------------------ the first process

  /** What an access at va reaches in a first user space with its stack on page s: user code loads
      and fetches its text and loads and stores its stack, and nothing else; the kernel loads and
      stores the trap frame and loads and fetches the trampoline, and nothing else. */
  function UserReach(l: Linker, s: nat, stack: Frame, code: Frame, trap: Frame, va: Word, access: Access, mode: Mode)
    : Option<nat>
  {
    var n, offset := Vpn(va), va % PAGE_SIZE;
    match mode
    case UserMode =>
      if n == 0x10 && access != Stores then Some(BaseAddr(code) + offset)
      else if n == s && access != Fetches then Some(BaseAddr(stack) + offset)
      else None
    case Supervisor =>
      if n == 0x3ff_fffd && access != Fetches then Some(BaseAddr(trap) + offset)
      else if n == 0x3ff_ffff && access != Stores then Some(l.trampoline + offset)
      else None
  }

  lemma UserFlags(access: Access, mode: Mode)
    ensures Permits(WithValid(RXU), access, mode) <==> mode.UserMode? && access != Stores
    ensures Permits(WithValid(RWU), access, mode) <==> mode.UserMode? && access != Fetches
    ensures Permits(WithValid(RW), access, mode) <==> mode.Supervisor? && access != Fetches
    ensures Permits(WithValid(RX), access, mode) <==> mode.Supervisor? && access != Stores
    ensures Permits(WithValid(RO), access, mode) <==> mode.Supervisor? && access == Loads
  {
  }

  ghost function Accessed(view: map<nat, Leaf>, va: Word, access: Access, mode: Mode): Option<nat> {
    match Expected(view, va)
    case PageFault => None
    case Translated(pa, low) => if Permits(low, access, mode) then Some(pa) else None
  }

  lemma AccessedIs(m: Machine, t: Table, va: Word, access: Access, mode: Mode)
    requires Wf(m, t) && va < MAX_VA
    ensures HwAccess(m.mem, MakeSatp(t.root), va, access, mode) == Accessed(Denote(m.mem, t.root), va, access, mode)
  {
    hide Wf, Denote, HwTranslate, MakeSatp, Expected, Permits;
    HardwareAgrees(m, t, va);
  }

  lemma UserViewReach(l: Linker, s: nat, stack: Frame, code: Frame, trap: Frame, va: Word, access: Access, mode: Mode)
    requires LinkerOk(l) && FreePage(s)
    requires stack < 0x1000_0000_0000 && code < 0x1000_0000_0000 && trap < 0x1000_0000_0000
    ensures Accessed(UserView(l, s, stack, code, trap), va, access, mode) ==
              UserReach(l, s, stack, code, trap, va, access, mode)
  {
    UserViewLookups(l, s, stack, code, trap);
    UserFlags(access, mode);
    UserViewPages(l, s, stack, code, trap);
    TrampolineFrame(l);
    hide UserView, Permits;
    var view, n := UserView(l, s, stack, code, trap), Vpn(va);
    UserLeavesUsable();
    if n in view {
      assert HwLeaf(view[n]);
    }
  }

  lemma UserViewPages(l: Linker, s: nat, stack: Frame, code: Frame, trap: Frame)
    ensures UserView(l, s, stack, code, trap).Keys == {TRAMPOLINE_VPN, TRAPFRAME_VPN, s, TEXT_VPN}
  {
  }

  lemma TrampolineFrame(l: Linker)
    requires LinkerOk(l)
    ensures BaseAddr(FrameAt(l.trampoline)) == l.trampoline && FrameAt(l.trampoline) < 0x1000_0000_0000
  {
  }

  lemma UserLeavesUsable()
    ensures forall f: Frame :: f < 0x1000_0000_0000 ==>
              HwLeaf(Leaf(f, WithValid(RW))) && HwLeaf(Leaf(f, WithValid(RX))) && HwLeaf(Leaf(f, WithValid(RWU)))
              && HwLeaf(Leaf(f, WithValid(RXU)))
  {
  }

  lemma LiveIsLow(m: Machine, nodes: seq<Frame>, data: seq<Frame>, f: Frame)
    requires MachineOk(m) && AllLive(m, nodes + data) && f in data
    ensures f < 0x1000_0000_0000
  {
    assert f in nodes + data && Live(m, f);
  }

  /** In every first user space, and for every address below MAX_VA, exactly those accesses succeed. */
  lemma UserSpaceAccess(m: Machine, l: Linker, text: seq<Byte>, va: Word, access: Access, mode: Mode)
    returns (stack: Frame, code: Frame)
    requires MachineOk(m) && LinkerOk(l) && MakeUser(m, l, text).Ok? && va < MAX_VA
    ensures var (m', sp, trap) := MakeUser(m, l, text).value;
            && InReach(|text|) && UserMade(m, l, text, m', sp, stack, code, trap)
            && HwAccess(m'.mem, MakeSatp(sp.table.root), va, access, mode) ==
                 UserReach(l, StackPage(|text|), stack, code, trap, va, access, mode)
  {
    hide MakeUser, Wf, Denote, UserView, HwAccess, MakeSatp, Accessed, UserCost, Pack, Extends;
    stack, code := MakeUserExact(m, l, text);
    var (m', sp, trap) := MakeUser(m, l, text).value;
    AccessedIs(m', sp.table, va, access, mode);
    var data := [stack, code, trap];
    OwnedLive(m, m', OwnedFrames(sp));
    assert stack in data && code in data && trap in data;
    LiveIsLow(m', sp.table.nodes, data, stack);
    LiveIsLow(m', sp.table.nodes, data, code);
    LiveIsLow(m', sp.table.nodes, data, trap);
    UserViewReach(l, StackPage(|text|), stack, code, trap, va, access, mode);
  }

  /** Every store of user code to an aligned word of its stack page reaches that word of the frame
      that was allocated for the stack. */
  lemma StackWordStored(m: Machine, l: Linker, text: seq<Byte>, va: Word) returns (stack: Frame, code: Frame)
    requires MachineOk(m) && LinkerOk(l) && MakeUser(m, l, text).Ok?
    requires va < MAX_VA && va % 8 == 0 && Vpn(va) == StackPage(|text|)
    ensures var (m', sp, trap) := MakeUser(m, l, text).value;
            && InReach(|text|) && UserMade(m, l, text, m', sp, stack, code, trap)
            && StoreTarget(m'.mem, MakeSatp(sp.table.root), va, UserMode) == Some((stack, va % PAGE_SIZE / 8))
  {
    hide MakeUser, Wf, Denote, UserView, HwAccess, MakeSatp, UserCost, Pack, Extends;
    stack, code := UserSpaceAccess(m, l, text, va, Stores, UserMode);
    var (m', sp, trap) := MakeUser(m, l, text).value;
    var _, _ := MakeUserExact(m, l, text);
    OwnedLive(m, m', OwnedFrames(sp));
    assert stack in [stack, code, trap] && stack in OwnedFrames(sp) && Live(m', stack);
    AlignedOffset(va);
    WordAddress(stack, va % PAGE_SIZE / 8);
  }

  lemma AlignedOffset(va: nat)
    requires va % 8 == 0
    ensures va % 4096 == 8 * (va % 4096 / 8)
  {
    var k := va / 8;
    ModUnique(va, 4096, k / 512, 8 * (k % 512));
  }

  lemma OwnedLive(m: Machine, m': Machine, fs: seq<Frame>)
    requires Extends(m, [], m', fs)
    ensures MachineOk(m') && AllLive(m', fs)
  {
  }

  // ---------------------------------------------------------------- kernel spaces

  /** The flags of page n of the kernel space: V and R, X for trampoline and text, W for all but
      those and rodata, and U for none. */
  function KernelFlagSet(l: Linker, n: nat): set<nat> {
    if n == 0x3ff_ffff || 0x8_0000 <= n < l.textEnd / 4096 then {0, 1, 3}
    else if l.textEnd / 4096 <= n < l.rodataEnd / 4096 then {0, 1}
    else {0, 1, 2}
  }

  lemma SectionFlags(l: Linker, k: nat, n: nat)
    requires LinkerOk(l) && k < |Sections(l)| && InSection(Sections(l)[k], n)
    ensures FlagSet(WithValid(Sections(l)[k].perms)) == KernelFlagSet(l, n)
  {
    FlagSets();
  }

  /** Which flags the kernel gives to which of its pages. */
  lemma KernelPermissions(l: Linker, n: nat)
    requires LinkerOk(l) && n in KernelView(l)
    ensures FlagSet(KernelView(l)[n].flags) == KernelFlagSet(l, n)
  {
    hide KernelView, FlagSet, Sections;
    KernelViewExact(l, n);
    if n == TRAMPOLINE_VPN {
      KernelViewHolds(l);
      FlagSets();
    } else {
      var k :| 0 <= k < |Sections(l)| && InSection(Sections(l)[k], n);
      SectionFlags(l, k, n);
    }
  }

  lemma FlagSetBit(flags: nat, k: nat)
    requires k < 9
    ensures k in FlagSet(flags) <==> Bit(flags, k)
  {
  }

  /** What a kernel access reaches. */
  function KernelTarget(l: Linker, va: Word): nat {
    if Vpn(va) == 0x3ff_ffff then l.trampoline + va % PAGE_SIZE else va
  }

  lemma TrampolineLeaf(l: Linker, run: seq<System>, ops: seq<Op>, i: nat, k: nat, va: Word)
    requires KernelRun(l, run, ops) && k < |run| && IsSpace(run[k], i) && va < MAX_VA && Vpn(va) == TRAMPOLINE_VPN
    ensures HwTranslate(run[k].m.mem, MakeSatp(TableAt(run[k], i).root), va) ==
              Translated(l.trampoline + va % PAGE_SIZE, WithValid(RX))
  {
    hide HwTranslate, MakeSatp, Wf, Denote;
    EverySpaceHasTrampoline(l, run, ops, k, i);
    HardwareAgrees(run[k].m, TableAt(run[k], i), va);
    UserLeavesUsable();
    TrampolineFrame(l);
  }

  /** The leaf through which a kernel space of a run translates va: the flags are those of the
      kernel map, but for the W flag of heap pages. */
  lemma KernelLeafBits(l: Linker, run: seq<System>, ops: seq<Op>, i: nat, made: nat, k: nat, va: Word)
    returns (low: nat)
    requires KernelRun(l, run, ops) && KernelSince(run, ops, i, made, k)
    requires va < MAX_VA && Vpn(va) in KernelView(l)
    ensures k < |run| && IsSpace(run[k], i)
    ensures HwTranslate(run[k].m.mem, MakeSatp(TableAt(run[k], i).root), va) == Translated(KernelTarget(l, va), low)
    ensures forall b :: 0 <= b < 9 && !(b == 2 && InLinkerHeap(l, Vpn(va))) ==>
              (Bit(low, b) <==> b in KernelFlagSet(l, Vpn(va)))
  {
    hide KernelView, KernelFlagSet, HwTranslate, MakeSatp, FlagSet, KernelRun;
    var n := Vpn(va);
    KernelIsSpace(run, ops, i, made, k);
    KernelLinker(l, run, ops);
    KernelPermissions(l, n);
    if n == TRAMPOLINE_VPN {
      TrampolineLeaf(l, run, ops, i, k, va);
      low := WithValid(RX);
      KernelViewHolds(l);
    } else {
      KernelIsIdentity(l, run, ops, i, made, k, va);
      low := ViewAt(run[k], i)[n].flags;
    }
    forall b | 0 <= b < 9 && !(b == 2 && InLinkerHeap(l, n))
      ensures Bit(low, b) <==> b in KernelFlagSet(l, n)
    {
      FlagSetBit(KernelView(l)[n].flags, b);
    }
  }

  lemma KernelLinker(l: Linker, run: seq<System>, ops: seq<Op>)
    requires KernelRun(l, run, ops)
    ensures LinkerOk(l)
  {
  }

  /** On every kernel space of every run, locked or not, and for every page of the kernel map: user
      mode reaches nothing; the kernel fetches text and trampoline and nothing else, loads
      everything, and stores neither into text, trampoline nor rodata. Whether it can store into a
      heap page is the matter of locking. */
  lemma KernelAccess(l: Linker, run: seq<System>, ops: seq<Op>, i: nat, made: nat, k: nat, va: Word, access: Access,
                     mode: Mode)
    requires KernelRun(l, run, ops) && KernelSince(run, ops, i, made, k)
    requires va < MAX_VA && Vpn(va) in KernelView(l)
    ensures k < |run| && IsSpace(run[k], i)
    ensures var r := HwAccess(run[k].m.mem, MakeSatp(TableAt(run[k], i).root), va, access, mode);
            && (mode.UserMode? ==> r == None)
            && (mode.Supervisor? && !(access.Stores? && InLinkerHeap(l, Vpn(va))) ==>
                  r == if NeededBit(access) in KernelFlagSet(l, Vpn(va)) then Some(KernelTarget(l, va)) else None)
  {
    hide KernelView, HwTranslate, MakeSatp, KernelSince, KernelRun;
    var low := KernelLeafBits(l, run, ops, i, made, k, va);
    PermitsIff(low, access, mode);
  }

  // ---------------------------------------------------------------------- locking

  lemma NodePageAddress(l: Linker, f: Frame, offset: nat, va: Word)
    requires LinkerOk(l) && InLinkerHeap(l, f) && offset < PAGE_SIZE && va == BaseAddr(f) + offset
    ensures va < MAX_VA && Vpn(va) == f && f != TRAMPOLINE_VPN && IdentityPage(f) == f
  {
    VpnOfFrame(f);
  }

  /** The W flag of a node page right after locking or unlocking. */
  lemma RelockedLeaf(l: Linker, s: System, i: nat, w: bool, s': System, f: Frame)
    requires LinkerOk(l) && Inv(s) && HeapMatches(s.m, l) && Step(l, s, Relock(i, w), s')
    requires IsSpace(s', i) && f in TableAt(s', i).nodes && f in ViewAt(s, i)
    ensures InLinkerHeap(l, f) && f in ViewAt(s', i) && (IsWritable(ViewAt(s', i)[f].flags) <==> w)
  {
    var t := TableAt(s, i);
    WfLive(s.m, t);
    assert Live(s.m, f);
    NodePageAddress(l, f, 0, BaseAddr(f));
    RelabelSpaceEdits(s.m, l, s.holders[i].sp, w);
    FlipTwice(ViewAt(s, i)[f].flags, w, w);
    FlagTests(SetWritable(ViewAt(s, i)[f].flags, w));
    WritableBits(ViewAt(s, i)[f].flags, w, 2);
    assert f in IdentityPages(t.nodes);
  }

  /** What locking is for: right after a kernel space is locked, every store of the kernel into a
      node of its table faults; right after it is unlocked, every one reaches the node. */
  lemma LockedNodesFault(l: Linker, run: seq<System>, ops: seq<Op>, i: nat, made: nat, k: nat, w: bool, f: Frame,
                         offset: nat, va: Word)
    requires KernelRun(l, run, ops) && KernelSince(run, ops, i, made, k)
    requires made < k <= |ops| && ops[k - 1] == Relock(i, w)
    requires k < |run| && IsSpace(run[k], i) && f in TableAt(run[k], i).nodes
    requires offset < PAGE_SIZE && va == BaseAddr(f) + offset
    ensures HwAccess(run[k].m.mem, MakeSatp(TableAt(run[k], i).root), va, Stores, Supervisor) ==
              if w then Some(va) else None
  {
    hide KernelView, HwTranslate, MakeSatp, Inv, Step, KernelSince, KernelRun, LeafKept, KernelFlagSet, Denote;
    LastStep(l, run, ops, k);
    RunsKeepHeap(l, run, ops, k - 1);
    NodeMapped(l, run, ops, i, made, k, f);
    RelockedLeaf(l, run[k - 1], i, w, run[k], f);
    NodePageAddress(l, f, offset, va);
    KernelIsIdentity(l, run, ops, i, made, k, va);
    var low := KernelLeafBits(l, run, ops, i, made, k, va);
    NotUser(l, f);
    PermitsIff(low, Stores, Supervisor);
    FlagTests(low);
  }

  lemma NotUser(l: Linker, n: nat)
    ensures 4 !in KernelFlagSet(l, n)
  {
  }

  lemma NodeInHeap(l: Linker, s: System, i: nat, f: Frame)
    requires Inv(s) && HeapMatches(s.m, l) && IsSpace(s, i) && f in TableAt(s, i).nodes
    ensures InLinkerHeap(l, f)
  {
    WfLive(s.m, TableAt(s, i));
    assert Live(s.m, f);
  }

  lemma KernelEarlier(run: seq<System>, ops: seq<Op>, i: nat, made: nat, k: nat)
    requires KernelSince(run, ops, i, made, k) && made < k
    ensures KernelSince(run, ops, i, made, k - 1)
  {
  }

  /** A node of a kernel space is a heap page, and was mapped before the last step. */
  lemma NodeMapped(l: Linker, run: seq<System>, ops: seq<Op>, i: nat, made: nat, k: nat, f: Frame)
    requires KernelRun(l, run, ops) && KernelSince(run, ops, i, made, k) && made < k
    requires k < |run| && IsSpace(run[k], i) && f in TableAt(run[k], i).nodes
    ensures InLinkerHeap(l, f) && f in KernelView(l)
    ensures IsSpace(run[k - 1], i) && f in ViewAt(run[k - 1], i)
  {
    hide KernelView, Step, Denote, Inv, KernelSince, KernelRun, LeafKept;
    RunsKeepHeap(l, run, ops, k);
    NodeInHeap(l, run[k], i, f);
    KernelLinker(l, run, ops);
    KernelViewHolds(l);
    KernelEarlier(run, ops, i, made, k);
    KernelStays(l, run, ops, i, made, k - 1, f);
  }

  lemma LastStep(l: Linker, run: seq<System>, ops: seq<Op>, k: nat)
    requires KernelRun(l, run, ops) && 0 < k < |run|
    ensures k <= |ops| && LinkerOk(l) && Step(l, run[k - 1], ops[k - 1], run[k])
  {
  }
}
