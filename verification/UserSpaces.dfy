/** The address space of the first process and its trap frame
    (kernel/src/mm/address_space.rs, kernel/src/process/process.rs). */
module UserSpaces {
  import opened Wrappers
  import opened Bits
  import opened Sv39Format
  import opened Layout
  import opened Machines
  import opened PageTables
  import opened Mapping
  import opened Requests
  import opened Areas
  import opened KernelAreas
  import opened AddressSpaces

  const RXU: Flags := RX + USER
  const RWU: Flags := RW + USER

  type Byte = b: nat | b < 256

  function ByteAt(data: seq<Byte>, k: nat): (b: nat)
    ensures b < 256
  {
    if k < |data| then data[k] else 0
  }

  /** The n bytes of data from k on, least significant first; zero past the end. */
  function Little(data: seq<Byte>, k: nat, n: nat): (w: nat)
    ensures w < Pow2(8 * n)
    decreases n
  {
    if n == 0 then 0
    else
      Pow2Add(8, 8 * (n - 1));
      ByteAt(data, k) + 256 * Little(data, k + 1, n - 1)
  }

  /** The eight bytes of data from 8 * i on. */
  function WordAt(data: seq<Byte>, i: nat): Word {
    Pow2Values();
    Little(data, 8 * i, 8)
  }

  /** Byte b of a word. */
  function ByteOf(w: nat, b: nat): nat {
    if b == 0 then w % 256 else ByteOf(w / 256, b - 1)
  }

  lemma {:induction false} LittleHolds(data: seq<Byte>, k: nat, n: nat, b: nat)
    requires b < n
    ensures ByteOf(Little(data, k, n), b) == ByteAt(data, k + b)
    decreases n
  {
    var rest := Little(data, k + 1, n - 1);
    ModUnique(Little(data, k, n), 256, rest, ByteAt(data, k));
    if b > 0 {
      LittleHolds(data, k + 1, n - 1, b - 1);
    }
  }

  /** A zeroed frame after `Frame::write`: the first 4096 bytes of data, if there are that many. */
  function Pack(data: seq<Byte>): Node {
    seq(ENTRIES, i requires 0 <= i < ENTRIES => PteOf(WordAt(data, i)))
  }

  /** Byte b of word i of the frame is byte 8 * i + b of data, or zero past its end. */
  lemma PackHolds(data: seq<Byte>, i: nat, b: nat)
    requires i < ENTRIES && b < 8
    ensures Pack(data)[i] == PteOf(WordAt(data, i))
    ensures ByteOf(WordAt(data, i), b) == if 8 * i + b < |data| then data[8 * i + b] else 0
  {
    LittleHolds(data, 8 * i, 8, b);
  }

  /** `FrameGuard::allocate_with_data`. */
  function AllocateWithData(m: Machine, data: seq<Byte>): (r: Outcome<(Machine, Frame)>)
    requires HeapFits(m)
    ensures r.Ok? ==> HeapFits(r.value.0)
  {
    var (m', f) :- AllocateZeroed(m);
    Ok((m'.(mem := m'.mem[f := Pack(data)]), f))
  }

  /** Pages of a text of len bytes, and the page of the stack after it. */
  function TextPages(len: nat): nat {
    (len + PAGE_SIZE - 1) / PAGE_SIZE
  }

  function StackVpn(len: nat): nat {
    TEXT_VPN + TextPages(len) + 1
  }

  /** The page at which the walk finds the stack: the number below bit 27. */
  function StackPage(len: nat): nat {
    StackVpn(len) % VPNS
  }

  /** The stack of a text of len bytes lies in the 64-bit space. */
  predicate InReach(len: nat) {
    StackVpn(len) < 0xf_ffff_ffff_ffff
  }

  /** It is there, and neither on the text page nor on the trampoline page. */
  predicate StackFits(len: nat) {
    InReach(len) && StackPage(len) != TEXT_VPN && StackPage(len) != TRAMPOLINE_VPN
  }

  /** It does not hide the trap frame either. */
  predicate UserFits(len: nat) {
    StackFits(len) && StackPage(len) != TRAPFRAME_VPN
  }

  lemma OnePageStack(len: nat)
    requires 1 <= len <= PAGE_SIZE
    ensures StackPage(len) == StackVpn(len) == TEXT_VPN + 2 && UserFits(len)
  {
  }

  /** A page beside the three of fixed place. */
  predicate FreePage(s: nat) {
    s < VPNS && s != TEXT_VPN && s != TRAPFRAME_VPN && s != TRAMPOLINE_VPN
  }

  function StackArea(va: Word, f: Frame): VirtArea
    requires va + 2 * PAGE_SIZE <= TWO64
  {
    TrackFrame(NewArea(va, va + PAGE_SIZE, RWU, false).value, va, ExclusivelyAllocated(f))
  }

  function TextArea(end: Word, f: Frame): VirtArea
    requires end + PAGE_SIZE <= TWO64
  {
    TrackFrame(NewArea(TEXT_BASE_USER_VA, end, RXU, false).value, TEXT_BASE_USER_VA, ExclusivelyAllocated(f))
  }

  function TrapframeArea(f: Frame): VirtArea {
    TrackFrame(NewArea(TRAPFRAME_BASE_USER_VA, TRAPFRAME_BASE_USER_VA + PAGE_SIZE, RW, false).value,
               TRAPFRAME_BASE_USER_VA, ExclusivelyAllocated(f))
  }

  function InitAreas(l: Linker, len: nat, stack: Frame, text: Frame): seq<VirtArea>
    requires InReach(len)
  {
    [TrampolineArea(l)] + ([StackArea(StackVpn(len) * PAGE_SIZE, stack)]
                           + [TextArea((TEXT_VPN + TextPages(len)) * PAGE_SIZE, text)])
  }

  /** `AddrSpace::make_init`. A text so long that the stack leaves the 64-bit space overflows. */
  function MakeInit(m: Machine, l: Linker, text: seq<Byte>): (r: Outcome<(Machine, Space)>)
    requires HeapFits(m) && LinkerOk(l)
    ensures r.Ok? ==> HeapFits(r.value.0)
  {
    if !InReach(|text|) then Panic
    else
      var (m1, stack) :- AllocateZeroed(m);
      var (m2, code) :- AllocateWithData(m1, text);
      var areas := InitAreas(l, |text|, stack, code);
      var (m3, t) :- MakeTable(m2, areas);
      Ok((m3, Space(t, areas)))
  }

  /** `AddrSpace::init_trapframe`: the space and the address of the trap frame. */
  function InitTrapframe(m: Machine, sp: Space): (r: Outcome<(Machine, Space, Frame)>)
    requires HeapFits(m)
    ensures r.Ok? ==> HeapFits(r.value.0)
  {
    var (m1, f) :- AllocateZeroed(m);
    var (m2, t) :- MapArea(m1, sp.table, TrapframeArea(f));
    Ok((m2, Space(t, sp.areas + [TrapframeArea(f)]), f))
  }

  // ---------------------------------------------------------------- the init areas

  /** The map of the init space before its trap frame. */
  function InitView(l: Linker, stackVpn: nat, stack: Frame, code: Frame): map<nat, Leaf> {
    map[TRAMPOLINE_VPN := Leaf(FrameAt(l.trampoline), WithValid(RX)),
        stackVpn := Leaf(stack, WithValid(RWU)),
        TEXT_VPN := Leaf(code, WithValid(RXU))]
  }

  lemma InitAreaViews(l: Linker, len: nat, stack: Frame, code: Frame)
    requires InReach(len)
    ensures var areas := InitAreas(l, len, stack, code);
            && |areas| == 3 && (forall a :: a in areas ==> AreaFine(a))
            && AreaView(areas[0]) == map[TRAMPOLINE_VPN := Leaf(FrameAt(l.trampoline), WithValid(RX))]
            && AreaView(areas[1]) == map[StackPage(len) := Leaf(stack, WithValid(RWU))]
            && AreaView(areas[2]) == map[TEXT_VPN := Leaf(code, WithValid(RXU))]
  {
    TrampolineView(l);
    StackAreaView(StackVpn(len), stack);
    TextAreaView(BaseAddr(TEXT_VPN + TextPages(len)), code);
  }

  lemma StackAreaView(n: nat, f: Frame)
    requires n < 0xf_ffff_ffff_ffff
    ensures var a := StackArea(BaseAddr(n), f);
            AreaFine(a) && AreaView(a) == map[n % VPNS := Leaf(f, WithValid(RWU))]
  {
    var va := BaseAddr(n);
    var a := NewArea(va, va + PAGE_SIZE, RWU, false).value;
    PageOfBase(n);
    OneFrameView(va, a.begin, a.end, ExclusivelyAllocated(f), RWU);
  }

  lemma PageOfBase(n: nat)
    requires n < 0xf_ffff_ffff_ffff
    ensures Vpn(BaseAddr(n)) == n % VPNS && BaseAddr(n) % PAGE_SIZE == 0
  {
  }

  lemma TextAreaView(end: Word, f: Frame)
    requires end + PAGE_SIZE <= TWO64
    ensures var a := TextArea(end, f);
            AreaFine(a) && AreaView(a) == map[TEXT_VPN := Leaf(f, WithValid(RXU))]
  {
    var a := NewArea(TEXT_BASE_USER_VA, end, RXU, false).value;
    OneFrameView(TEXT_BASE_USER_VA, a.begin, a.end, ExclusivelyAllocated(f), RXU);
  }

  lemma UnionOfThree(areas: seq<VirtArea>)
    requires |areas| == 3
    ensures UnionView(areas) == AreaView(areas[2]) + AreaView(areas[1]) + AreaView(areas[0])
  {
    var two, one := areas[1..], areas[2..];
    UnionSplit(areas);
    UnionSplit(two);
    UnionSplit(one);
    assert two[1..] == one && one[1..] == [];
    UnionOfOne(UnionView([]), AreaView(areas[2]));
  }

  lemma UnionOfOne(none: map<nat, Leaf>, v: map<nat, Leaf>)
    requires none == map[]
    ensures none + v == v
  {
  }

  lemma DisjointThree(areas: seq<VirtArea>)
    requires |areas| == 3
    ensures AreasDisjoint(areas) <==>
              && AreaView(areas[0]).Keys !! AreaView(areas[1]).Keys
              && AreaView(areas[0]).Keys !! AreaView(areas[2]).Keys
              && AreaView(areas[1]).Keys !! AreaView(areas[2]).Keys
  {
  }

  lemma InitDisjoint(l: Linker, len: nat, stack: Frame, code: Frame)
    requires InReach(len)
    ensures AreasDisjoint(InitAreas(l, len, stack, code)) <==> StackFits(len)
  {
    var areas := InitAreas(l, len, stack, code);
    InitAreaViews(l, len, stack, code);
    DisjointThree(areas);
    assert AreaView(areas[0]).Keys == {TRAMPOLINE_VPN} && AreaView(areas[1]).Keys == {StackPage(len)}
           && AreaView(areas[2]).Keys == {TEXT_VPN};
  }

  /** Trampoline, stack and text of the init space overlap exactly when the stack does not fit. */
  lemma InitAreasUnion(l: Linker, len: nat, stack: Frame, code: Frame)
    requires InReach(len)
    ensures var areas := InitAreas(l, len, stack, code);
            && (forall a :: a in areas ==> AreaFine(a)) && (AreasDisjoint(areas) <==> StackFits(len))
            && (StackFits(len) ==> UnionView(areas) == InitView(l, StackPage(len), stack, code))
  {
    InitDisjoint(l, len, stack, code);
    InitAreaViews(l, len, stack, code);
    UnionOfThree(InitAreas(l, len, stack, code));
    if StackFits(len) {
      InitViewIs(l, StackPage(len), stack, code);
    }
  }

  lemma InitViewIs(l: Linker, stackVpn: nat, stack: Frame, code: Frame)
    requires stackVpn != TEXT_VPN && stackVpn != TRAMPOLINE_VPN
    ensures InitView(l, stackVpn, stack, code) ==
              map[TEXT_VPN := Leaf(code, WithValid(RXU))] + map[stackVpn := Leaf(stack, WithValid(RWU))]
              + map[TRAMPOLINE_VPN := Leaf(FrameAt(l.trampoline), WithValid(RX))]
  {
  }

  lemma InitOwns(l: Linker, len: nat, stack: Frame, code: Frame)
    requires InReach(len)
    ensures ExclusiveFrames(InitAreas(l, len, stack, code)) == [stack, code]
  {
    var areas := InitAreas(l, len, stack, code);
    TrampolineView(l);
    NothingExclusive(areas[0].frames);
    ExclusiveSingle(areas[1].frames, stack);
    ExclusiveSingle(areas[2].frames, code);
    var two, one := areas[1..], areas[2..];
    assert two[1..] == one && one[1..] == [];
    assert ExclusiveFrames(one) == [code];
    assert ExclusiveFrames(two) == [stack] + [code];
  }

  lemma ExclusiveSingle(frames: seq<(Word, FrameSource)>, f: Frame)
    requires |frames| == 1 && frames[0].1 == ExclusivelyAllocated(f)
    ensures ExclusiveOf(frames) == [f]
  {
  }

  // ----------------------------------------------------------------- allocations

  lemma AllocateExtends(m: Machine)
    requires MachineOk(m) && AllocateZeroed(m).Ok?
    ensures Extends(m, [], AllocateZeroed(m).value.0, [AllocateZeroed(m).value.1])
  {
    AllocateZeroedTakes(m);
  }

  lemma AllocateDataExtends(m: Machine, data: seq<Byte>)
    requires MachineOk(m) && AllocateWithData(m, data).Ok?
    ensures var (m', f) := AllocateWithData(m, data).value;
            Extends(m, [], m', [f]) && f in m'.mem && m'.mem[f] == Pack(data)
  {
    AllocateExtends(m);
    var (m1, f) := AllocateZeroed(m).value;
    var m' := m1.(mem := m1.mem[f := Pack(data)]);
    assert forall g :: Live(m', g) == Live(m1, g);
  }

  lemma DistinctConcat(a: seq<Frame>, b: seq<Frame>)
    requires Distinct(a) && Distinct(b) && forall f: Frame :: f in a ==> f !in b
    ensures Distinct(a + b)
  {
    forall i, j | 0 <= i < j < |a + b|
      ensures (a + b)[i] != (a + b)[j]
    {
      if i < |a| <= j {
        assert (a + b)[i] in a && (a + b)[j] in b;
      }
    }
  }

  /** Acquiring a, then b, is acquiring both. */
  lemma ExtendsBoth(m: Machine, m1: Machine, a: seq<Frame>, m2: Machine, b: seq<Frame>)
    requires Extends(m, [], m1, a) && Extends(m1, [], m2, b)
    ensures Extends(m, [], m2, b + a) && Extends(m, [], m2, a + b)
  {
    assert forall f: Frame :: f in a ==> Live(m1, f);
    DistinctConcat(a, b);
    DistinctConcat(b, a);
    assert forall f: Frame :: f in a + b <==> f in a || f in b;
    assert forall f: Frame :: f in b + a <==> f in a || f in b;
  }

  // ------------------------------------------------------------- the init space

  /** The node count only depends on which pages are mapped. */
  lemma NodeCountByKeys(view: map<nat, Leaf>, view': map<nat, Leaf>)
    requires view.Keys == view'.Keys
    ensures NodeCount(view) == NodeCount(view')
  {
  }

  /** Frames that `make_init` takes for a stack at stackVpn. */
  ghost function InitCost(l: Linker, stackVpn: nat): nat {
    2 + NodeCount(InitView(l, stackVpn, 0, 0))
  }

  /** An init space made from text: what it maps, owns and holds. */
  ghost predicate InitMade(m: Machine, l: Linker, text: seq<Byte>, m': Machine, sp: Space, stack: Frame, code: Frame)
    requires InReach(|text|)
  {
    && Wf(m', sp.table) && Denote(m'.mem, sp.table.root) == InitView(l, StackPage(|text|), stack, code)
    && sp.areas == InitAreas(l, |text|, stack, code) && OwnedFrames(sp) == sp.table.nodes + [stack, code]
    && Extends(m, [], m', OwnedFrames(sp))
    && code in m'.mem && m'.mem[code] == Pack(text) && stack in m'.mem && m'.mem[stack] == ZeroNode()
  }

  lemma InitTable(m2: Machine, l: Linker, len: nat, stack: Frame, code: Frame)
    requires MachineOk(m2) && InReach(len)
    ensures var areas, view := InitAreas(l, len, stack, code), InitView(l, StackPage(len), stack, code);
            && (MakeTable(m2, areas).Ok? <==> StackFits(len) && InitCost(l, StackPage(len)) <= Free(m2) + 2)
            && (MakeTable(m2, areas).Ok? ==>
                  Built(m2, view, MakeTable(m2, areas).value.0, MakeTable(m2, areas).value.1))
  {
    InitAreasUnion(l, len, stack, code);
    MakeTableExact(m2, InitAreas(l, len, stack, code));
    NodeCountByKeys(InitView(l, StackPage(len), stack, code), InitView(l, StackPage(len), 0, 0));
  }

  lemma InitFinish(m: Machine, l: Linker, text: seq<Byte>, m1: Machine, stack: Frame, m2: Machine, code: Frame,
                   m3: Machine, t: Table)
    requires InReach(|text|)
    requires Extends(m, [], m1, [stack]) && Extends(m1, [], m2, [code]) && code in m2.mem && m2.mem[code] == Pack(text)
    requires stack in m1.mem && m1.mem[stack] == ZeroNode()
    requires Built(m2, InitView(l, StackPage(|text|), stack, code), m3, t)
    ensures InitMade(m, l, text, m3, Space(t, InitAreas(l, |text|, stack, code)), stack, code)
  {
    InitOwns(l, |text|, stack, code);
    BuiltAcquires(m2, InitView(l, StackPage(|text|), stack, code), m3, t);
    InitAcquires(m, m1, stack, m2, code, m3, t.nodes);
  }

  lemma InitAcquires(m: Machine, m1: Machine, stack: Frame, m2: Machine, code: Frame, m3: Machine, nodes: seq<Frame>)
    requires Extends(m, [], m1, [stack]) && Extends(m1, [], m2, [code]) && Extends(m2, [], m3, nodes) && code in m2.mem
    ensures Extends(m, [], m3, nodes + [stack, code]) && code in m3.mem && m3.mem[code] == m2.mem[code]
    ensures stack in m1.mem ==> stack in m3.mem && m3.mem[stack] == m1.mem[stack]
  {
    ExtendsBoth(m, m1, [stack], m2, [code]);
    assert [stack] + [code] == [stack, code];
    ExtendsBoth(m, m2, [stack, code], m3, nodes);
    assert Live(m2, code) && Live(m1, stack) && Live(m2, stack);
  }

  /** `make_init` succeeds exactly when the stack fits beside text and trampoline and the free
      frames suffice for stack, text and nodes. */
  lemma MakeInitExact(m: Machine, l: Linker, text: seq<Byte>) returns (stack: Frame, code: Frame)
    requires MachineOk(m) && LinkerOk(l)
    ensures MakeInit(m, l, text).Ok? <==> StackFits(|text|) && InitCost(l, StackPage(|text|)) <= Free(m)
    ensures MakeInit(m, l, text).Ok? ==>
              InitMade(m, l, text, MakeInit(m, l, text).value.0, MakeInit(m, l, text).value.1, stack, code)
  {
    stack, code := 0, 0;
    if !InReach(|text|) {
      return;
    }
    AllocateZeroedTakes(m);
    var r1 := AllocateZeroed(m);
    if r1.Ok? {
      AllocateExtends(m);
      var m1 := r1.value.0;
      stack := r1.value.1;
      AllocateZeroedTakes(m1);
      var r2 := AllocateWithData(m1, text);
      if r2.Ok? {
        AllocateDataExtends(m1, text);
        var m2 := r2.value.0;
        code := r2.value.1;
        InitTable(m2, l, |text|, stack, code);
        var r3 := MakeTable(m2, InitAreas(l, |text|, stack, code));
        if r3.Ok? {
          InitFinish(m, l, text, m1, stack, m2, code, r3.value.0, r3.value.1);
        }
      }
    }
  }

  // --------------------------------------------------------------- the trap frame

  lemma TrapframeView(f: Frame)
    ensures AreaFine(TrapframeArea(f))
    ensures AreaView(TrapframeArea(f)) == map[TRAPFRAME_VPN := Leaf(f, WithValid(RW))]
    ensures ExclusiveOf(TrapframeArea(f).frames) == [f]
  {
    var a := NewArea(TRAPFRAME_BASE_USER_VA, TRAPFRAME_BASE_USER_VA + PAGE_SIZE, RW, false).value;
    OneFrameView(TRAPFRAME_BASE_USER_VA, a.begin, a.end, ExclusivelyAllocated(f), RW);
    ExclusiveSingle(TrapframeArea(f).frames, f);
  }

  lemma {:induction false} ExclusiveAppend(areas: seq<VirtArea>, a: VirtArea)
    ensures ExclusiveFrames(areas + [a]) == ExclusiveFrames(areas) + ExclusiveOf(a.frames)
    decreases |areas|
  {
    if areas == [] {
      assert [a][1..] == [];
      assert areas + [a] == [a];
    } else {
      ExclusiveAppend(areas[1..], a);
      assert (areas + [a])[1..] == areas[1..] + [a];
    }
  }

  /** A space whose table is well formed and which owns each of its frames once. */
  ghost predicate SpaceOk(m: Machine, sp: Space) {
    Wf(m, sp.table) && Distinct(OwnedFrames(sp)) && AllLive(m, OwnedFrames(sp))
  }

  lemma TrapframeFits(view: map<nat, Leaf>, f: Frame, budget: nat)
    ensures var rs := AreaRequests(TrapframeArea(f));
            && view + Asked(rs) == view[TRAPFRAME_VPN := Leaf(f, WithValid(RW))]
            && (Fits(view, rs, budget) <==>
                  TRAPFRAME_VPN !in view && NodeCount(view[TRAPFRAME_VPN := Leaf(f, WithValid(RW))]) <= budget)
  {
    TrapframeView(f);
    var rs := AreaRequests(TrapframeArea(f));
    MappableTaken(rs, {}, view.Keys);
    assert {} + view.Keys == view.Keys;
    PlusSingle(view, Asked(rs), TRAPFRAME_VPN, Leaf(f, WithValid(RW)));
  }

  lemma PlusSingle(view: map<nat, Leaf>, one: map<nat, Leaf>, n: nat, leaf: Leaf)
    requires one == map[n := leaf]
    ensures view + one == view[n := leaf] && (one.Keys !! view.Keys <==> n !in view)
  {
  }

  /** A fresh frame beside the frames of a space. */
  lemma BesideFresh(m: Machine, m1: Machine, f: Frame, nodes: seq<Frame>, data: seq<Frame>)
    requires Extends(m, [], m1, [f]) && Distinct(nodes + data) && AllLive(m, nodes + data)
    ensures Extends(m, nodes + data, m1, nodes + (data + [f]))
  {
    assert forall g: Frame :: g in nodes + (data + [f]) <==> g in nodes + data || g == f;
    assert nodes + (data + [f]) == (nodes + data) + [f];
    DistinctConcat(nodes + data, [f]);
    ExtendsBeside(m, [], m1, [f], nodes + data, nodes + (data + [f]));
  }

  /** New nodes beside the data frames of a space. */
  lemma BesideNodes(m: Machine, nodes: seq<Frame>, m': Machine, nodes': seq<Frame>, data: seq<Frame>)
    requires Grew(m, nodes, m', nodes') && MachineOk(m') && Distinct(nodes')
    requires Distinct(nodes + data) && AllLive(m, nodes + data)
    ensures Extends(m, nodes + data, m', nodes' + data)
  {
    PrefixIn(nodes, nodes');
    assert forall f: Frame :: f in nodes + data <==> f in nodes || f in data;
    assert forall f: Frame :: f in nodes' + data <==> f in nodes' || f in data;
    forall f: Frame | f in nodes'
      ensures f !in data
    {
      if f in nodes && f in data {
        TwiceIsNotDistinct(nodes, data, f);
      }
    }
    DistinctSuffix(nodes, data);
    DistinctConcat(nodes', data);
  }

  lemma PrefixIn(a: seq<Frame>, b: seq<Frame>)
    requires a <= b
    ensures forall f: Frame :: f in a ==> f in b
  {
  }

  lemma TwiceIsNotDistinct(a: seq<Frame>, b: seq<Frame>, f: Frame)
    requires f in a && f in b
    ensures !Distinct(a + b)
  {
    var i :| 0 <= i < |a| && a[i] == f;
    var j :| 0 <= j < |b| && b[j] == f;
    assert (a + b)[i] == (a + b)[|a| + j];
  }

  lemma DistinctSuffix(a: seq<Frame>, b: seq<Frame>)
    requires Distinct(a + b)
    ensures Distinct(b)
  {
    assert forall j :: 0 <= j < |b| ==> b[j] == (a + b)[|a| + j];
  }

  /** The pages and frames of a space after a successful `init_trapframe`. */
  ghost predicate TrapframeAdded(m: Machine, sp: Space, m': Machine, sp': Space, f: Frame) {
    && SpaceOk(m', sp') && Extends(m, OwnedFrames(sp), m', OwnedFrames(sp'))
    && Denote(m'.mem, sp'.table.root) == Denote(m.mem, sp.table.root)[TRAPFRAME_VPN := Leaf(f, WithValid(RW))]
    && sp'.areas == sp.areas + [TrapframeArea(f)] && DataKept(m.mem, m'.mem, ExclusiveFrames(sp.areas))
    && f in m'.mem && m'.mem[f] == ZeroNode()
  }

  /** The frames of data hold in mem' what they hold in mem. */
  ghost predicate DataKept(mem: Memory, mem': Memory, data: seq<Frame>) {
    forall f: Frame :: f in data && f in mem ==> f in mem' && mem'[f] == mem[f]
  }

  lemma DataUntouched(m: Machine, m1: Machine, f: Frame, nodes: seq<Frame>, m2: Machine, nodes2: seq<Frame>,
                      data: seq<Frame>)
    requires Extends(m, [], m1, [f]) && Grew(m1, nodes, m2, nodes2)
    requires AllLive(m, data) && Distinct(nodes2 + (data + [f]))
    ensures DataKept(m.mem, m2.mem, data)
  {
    forall g: Frame | g in data && g in m.mem
      ensures g in m2.mem && m2.mem[g] == m.mem[g]
    {
      if g in nodes2 {
        assert g in data + [f];
        TwiceIsNotDistinct(nodes2, data + [f], g);
      }
      assert Live(m, g) && g != f;
    }
  }

  lemma ZeroUntouched(m1: Machine, f: Frame, nodes: seq<Frame>, m2: Machine, nodes2: seq<Frame>, data: seq<Frame>)
    requires f in m1.mem && Grew(m1, nodes, m2, nodes2) && Distinct(nodes2 + (data + [f]))
    ensures f in m2.mem && m2.mem[f] == m1.mem[f]
  {
    if f in nodes2 {
      assert f in data + [f];
      TwiceIsNotDistinct(nodes2, data + [f], f);
    }
  }

  lemma AfterAllocate(m: Machine, t: Table)
    requires Wf(m, t) && MachineOk(m) && AllocateZeroed(m).Ok?
    ensures var (m1, f) := AllocateZeroed(m).value;
            Wf(m1, t) && Denote(m1.mem, t.root) == Denote(m.mem, t.root) && Extends(m, [], m1, [f])
  {
    AllocateExtends(m);
    WfLive(m, t);
    var (m1, f) := AllocateZeroed(m).value;
    assert AllLive(m1, t.nodes);
    WfFrame(m, t, m1);
  }

  /** The trap frame's page is unmapped, and budget covers all nodes and the frame itself. */
  ghost predicate TrapframeRoom(view: map<nat, Leaf>, budget: nat) {
    TRAPFRAME_VPN !in view && 1 + NodeCount(view[TRAPFRAME_VPN := Leaf(0, WithValid(RW))]) <= budget
  }

  lemma TrapframeRoomIff(view: map<nat, Leaf>, f: Frame, budget: nat)
    ensures Fits(view, AreaRequests(TrapframeArea(f)), budget) <==> TrapframeRoom(view, budget + 1)
    ensures !TrapframeRoom(view, NodeCount(view))
  {
    TrapframeFits(view, f, budget);
    NodeCountByKeys(view[TRAPFRAME_VPN := Leaf(0, WithValid(RW))], view[TRAPFRAME_VPN := Leaf(f, WithValid(RW))]);
    NodeCountGrows(view, view[TRAPFRAME_VPN := Leaf(0, WithValid(RW))]);
  }

  /** `init_trapframe` succeeds exactly when the trap frame's page is unmapped and the free
      frames suffice for it and the nodes it lacks. */
  lemma InitTrapframeOkIff(m: Machine, sp: Space)
    requires SpaceOk(m, sp)
    ensures HeapFits(m)
    ensures InitTrapframe(m, sp).Ok? <==> TrapframeRoom(Denote(m.mem, sp.table.root), Budget(m, sp.table))
  {
    WfLive(m, sp.table);
    AllocateZeroedTakes(m);
    var r := AllocateZeroed(m);
    if r.Ok? {
      var (m1, f) := r.value;
      AfterAllocate(m, sp.table);
      MapAllOkIff(m1, sp.table, AreaRequests(TrapframeArea(f)));
      TrapframeRoomIff(Denote(m.mem, sp.table.root), f, Budget(m1, sp.table));
    } else {
      NodeCountExact(m, sp.table);
      TrapframeRoomIff(Denote(m.mem, sp.table.root), 0, 0);
    }
  }

  lemma InitTrapframeAdds(m: Machine, sp: Space)
    requires SpaceOk(m, sp) && HeapFits(m) && InitTrapframe(m, sp).Ok?
    ensures var (m', sp', f) := InitTrapframe(m, sp).value;
            TrapframeAdded(m, sp, m', sp', f)
  {
    var t, data := sp.table, ExclusiveFrames(sp.areas);
    WfLive(m, t);
    var (m1, f) := AllocateZeroed(m).value;
    AfterAllocate(m, t);
    var rs := AreaRequests(TrapframeArea(f));
    TrapframeFits(Denote(m.mem, t.root), f, 0);
    MapAllMaps(m1, t, rs);
    var (m2, t2) := MapAll(m1, t, rs).value;
    TrapframeView(f);
    ExclusiveAppend(sp.areas, TrapframeArea(f));
    BesideFresh(m, m1, f, t.nodes, data);
    WfLive(m2, t2);
    AllLiveAfter(m, t.nodes + data, m1, t.nodes + (data + [f]));
    BesideNodes(m1, t.nodes, m2, t2.nodes, data + [f]);
    ExtendsTrans(m, t.nodes + data, m1, t.nodes + (data + [f]), m2, t2.nodes + (data + [f]));
    AllLiveAfter(m1, t.nodes + (data + [f]), m2, t2.nodes + (data + [f]));
    assert AllLive(m, data);
    AllocateZeroedTakes(m);
    ZeroUntouched(m1, f, t.nodes, m2, t2.nodes, data);
    DataUntouched(m, m1, f, t.nodes, m2, t2.nodes, data);
  }

  lemma AllLiveAfter(m: Machine, fs: seq<Frame>, m': Machine, fs': seq<Frame>)
    requires AllLive(m, fs) && Extends(m, fs, m', fs')
    ensures AllLive(m', fs')
  {
  }

  // ------------------------------------------------------ the first user space

  /** The map of the init space with its trap frame. */
  function UserView(l: Linker, stackVpn: nat, stack: Frame, code: Frame, trap: Frame): map<nat, Leaf> {
    InitView(l, stackVpn, stack, code)[TRAPFRAME_VPN := Leaf(trap, WithValid(RW))]
  }

  /** `make_init` followed by `init_trapframe`, as `make_initcode_uninitialised` runs them. */
  function MakeUser(m: Machine, l: Linker, text: seq<Byte>): Outcome<(Machine, Space, Frame)>
    requires HeapFits(m) && LinkerOk(l)
  {
    var (m', sp) :- MakeInit(m, l, text);
    InitTrapframe(m', sp)
  }

  /** Frames the whole user space takes: stack, text, trap frame and nodes. */
  ghost function UserCost(l: Linker, stackVpn: nat): nat {
    3 + NodeCount(UserView(l, stackVpn, 0, 0, 0))
  }

  ghost predicate UserMade(m: Machine, l: Linker, text: seq<Byte>, m': Machine, sp: Space, stack: Frame, code: Frame,
                           trap: Frame)
    requires InReach(|text|)
  {
    && SpaceOk(m', sp) && Extends(m, [], m', OwnedFrames(sp))
    && Denote(m'.mem, sp.table.root) == UserView(l, StackPage(|text|), stack, code, trap)
    && code in m'.mem && m'.mem[code] == Pack(text) && stack in m'.mem && m'.mem[stack] == ZeroNode()
    && OwnedFrames(sp) == sp.table.nodes + [stack, code, trap]
    && sp.areas == InitAreas(l, |text|, stack, code) + [TrapframeArea(trap)]
    && trap in m'.mem && m'.mem[trap] == ZeroNode()
  }

  lemma RoomIsUserCost(l: Linker, s: nat, stack: Frame, code: Frame, free: nat)
    requires FreePage(s)
    ensures TrapframeRoom(InitView(l, s, stack, code), free) <==> UserCost(l, s) <= free + 2
    ensures UserCost(l, s) >= InitCost(l, s) + 1
  {
    var view := InitView(l, s, stack, code);
    NodeCountByKeys(view[TRAPFRAME_VPN := Leaf(0, WithValid(RW))], UserView(l, s, 0, 0, 0));
    NodeCountGrows(InitView(l, s, 0, 0), UserView(l, s, 0, 0, 0));
  }

  lemma InitIsSpaceOk(m: Machine, l: Linker, text: seq<Byte>, m': Machine, sp: Space, stack: Frame, code: Frame)
    requires InReach(|text|) && InitMade(m, l, text, m', sp, stack, code)
    ensures SpaceOk(m', sp) && Free(m) == Budget(m', sp.table) + 2
  {
  }

  /** The space of the first process exists exactly when the stack fits and the free frames
      cover its cost; then it maps exactly trampoline, stack, text and trap frame, owns exactly
      what it took, and its text page holds the first page of the text. */
  lemma MakeUserExact(m: Machine, l: Linker, text: seq<Byte>) returns (stack: Frame, code: Frame)
    requires MachineOk(m) && LinkerOk(l)
    ensures MakeUser(m, l, text).Ok? <==> UserFits(|text|) && UserCost(l, StackPage(|text|)) <= Free(m)
    ensures MakeUser(m, l, text).Ok? ==>
              var (m', sp, trap) := MakeUser(m, l, text).value;
              UserMade(m, l, text, m', sp, stack, code, trap)
  {
    var s := StackPage(|text|);
    stack, code := MakeInitExact(m, l, text);
    var r := MakeInit(m, l, text);
    if UserFits(|text|) {
      RoomIsUserCost(l, s, stack, code, 0);
    }
    if r.Ok? {
      var (m1, sp) := r.value;
      InitIsSpaceOk(m, l, text, m1, sp, stack, code);
      InitTrapframeOkIff(m1, sp);
      if UserFits(|text|) {
        RoomIsUserCost(l, s, stack, code, Budget(m1, sp.table));
        if InitTrapframe(m1, sp).Ok? {
          InitTrapframeAdds(m1, sp);
          UserFinish(m, l, text, m1, sp, stack, code);
        }
      }
    }
  }

  lemma UserFinish(m: Machine, l: Linker, text: seq<Byte>, m1: Machine, sp: Space, stack: Frame, code: Frame)
    requires InReach(|text|) && InitMade(m, l, text, m1, sp, stack, code) && HeapFits(m1)
    requires InitTrapframe(m1, sp).Ok?
    requires var (m', sp', trap) := InitTrapframe(m1, sp).value; TrapframeAdded(m1, sp, m', sp', trap)
    ensures var (m', sp', trap) := InitTrapframe(m1, sp).value;
            UserMade(m, l, text, m', sp', stack, code, trap)
  {
    var (m', sp', trap) := InitTrapframe(m1, sp).value;
    ExtendsTrans(m, [], m1, OwnedFrames(sp), m', OwnedFrames(sp'));
    InitOwns(l, |text|, stack, code);
    assert code in ExclusiveFrames(sp.areas) && stack in ExclusiveFrames(sp.areas);
    UserOwns(sp, sp', stack, code, trap);
  }

  lemma UserOwns(sp: Space, sp': Space, stack: Frame, code: Frame, trap: Frame)
    requires ExclusiveFrames(sp.areas) == [stack, code] && sp'.areas == sp.areas + [TrapframeArea(trap)]
    ensures OwnedFrames(sp') == sp'.table.nodes + [stack, code, trap]
  {
    TrapframeView(trap);
    ExclusiveAppend(sp.areas, TrapframeArea(trap));
    assert [stack, code] + [trap] == [stack, code, trap];
  }
}
