/** The init space as it is meant (kernel/src/mm/address_space.rs): a frame for every page of the
    text, where the code tracks a single one whatever its length. */
module InitIntended {
  import opened Wrappers
  import opened Bits
  import opened Sv39Format
  import opened Layout
  import opened Machines
  import opened PageTables
  import opened Mapping
  import opened Requests
  import opened Areas
  import opened KernelAreas
  import opened AddressSpaces
  import opened UserSpaces

  /** The bytes of the text on its page k. */
  function TextSlice(text: seq<Byte>, k: nat): seq<Byte>
    requires k < TextPages(|text|)
  {
    var end := (k + 1) * PAGE_SIZE;
    text[k * PAGE_SIZE..if end <= |text| then end else |text|]
  }

  /** A frame for each page of the text from k on, holding that page's bytes. */
  function AllocateText(m: Machine, text: seq<Byte>, k: nat): (r: Outcome<(Machine, seq<Frame>)>)
    requires HeapFits(m) && k <= TextPages(|text|)
    ensures r.Ok? ==> HeapFits(r.value.0) && |r.value.1| == TextPages(|text|) - k
    decreases TextPages(|text|) - k
  {
    if k == TextPages(|text|) then Ok((m, []))
    else
      var (m1, f) :- AllocateWithData(m, TextSlice(text, k));
      var (m2, fs) :- AllocateText(m1, text, k + 1);
      Ok((m2, [f] + fs))
  }

  /** The address of page i of the text. */
  function TextAddr(i: nat): Word
    requires TEXT_VPN + i < 0xf_ffff_ffff_ffff
  {
    BaseAddr(TEXT_VPN + i)
  }

  /** `track_frame` for pages i on. */
  function TrackText(a: VirtArea, fs: seq<Frame>, i: nat): VirtArea
    requires i <= |fs| && TEXT_VPN + |fs| < 0xf_ffff_ffff_ffff
    decreases |fs| - i
  {
    if i == |fs| then a
    else TrackText(TrackFrame(a, TextAddr(i), ExclusivelyAllocated(fs[i])), fs, i + 1)
  }

  function TextAreaIntended(fs: seq<Frame>): VirtArea
    requires TEXT_VPN + |fs| < 0xf_ffff_ffff_ffff
  {
    TrackText(NewArea(TEXT_BASE_USER_VA, BaseAddr(TEXT_VPN + |fs|), RXU, false).value, fs, 0)
  }

  function IntendedAreas(l: Linker, len: nat, stack: Frame, fs: seq<Frame>): seq<VirtArea>
    requires InReach(len) && |fs| == TextPages(len)
  {
    [TrampolineArea(l)] + ([StackArea(StackVpn(len) * PAGE_SIZE, stack)] + [TextAreaIntended(fs)])
  }

  /** `make_init` as it is meant. */
  function MakeInitIntended(m: Machine, l: Linker, text: seq<Byte>): (r: Outcome<(Machine, Space)>)
    requires HeapFits(m) && LinkerOk(l)
    ensures r.Ok? ==> HeapFits(r.value.0)
  {
    if !InReach(|text|) then Panic
    else
      var (m1, stack) :- AllocateZeroed(m);
      var (m2, fs) :- AllocateText(m1, text, 0);
      var areas := IntendedAreas(l, |text|, stack, fs);
      var (m3, t) :- MakeTable(m2, areas);
      Ok((m3, Space(t, areas)))
  }

  // ------------------------------------------------------------------ text frames

  lemma {:induction false} InsertLast(frames: seq<(Word, FrameSource)>, va: Word, g: FrameSource)
    requires forall k :: 0 <= k < |frames| ==> frames[k].0 < va
    ensures InsertFrame(frames, va, g) == frames + [(va, g)]
  {
    if frames != [] {
      InsertLast(frames[1..], va, g);
    }
  }

  /** The tracked frames of the first n pages. */
  function TextFrames(fs: seq<Frame>, n: nat): (frames: seq<(Word, FrameSource)>)
    requires n <= |fs| && TEXT_VPN + |fs| < 0xf_ffff_ffff_ffff
    ensures |frames| == n
    ensures forall i :: 0 <= i < n ==> frames[i] == (TextAddr(i), ExclusivelyAllocated(fs[i]))
  {
    seq(n, i requires 0 <= i < n => (TextAddr(i), ExclusivelyAllocated(fs[i])))
  }

  lemma {:induction false} TrackTextFrames(a: VirtArea, fs: seq<Frame>, i: nat)
    requires i <= |fs| && TEXT_VPN + |fs| < 0xf_ffff_ffff_ffff && a.frames == TextFrames(fs, i)
    ensures TrackText(a, fs, i) == a.(frames := TextFrames(fs, |fs|))
    decreases |fs| - i
  {
    if i < |fs| {
      var g := ExclusivelyAllocated(fs[i]);
      InsertLast(a.frames, TextAddr(i), g);
      assert TextFrames(fs, i) + [(TextAddr(i), g)] == TextFrames(fs, i + 1);
      TrackTextFrames(TrackFrame(a, TextAddr(i), g), fs, i + 1);
    }
  }

  lemma TextAreaIs(fs: seq<Frame>)
    requires TEXT_VPN + |fs| < 0xf_ffff_ffff_ffff
    ensures var a := TextAreaIntended(fs);
            a.frames == TextFrames(fs, |fs|) && a.perms == RXU && !a.identical
  {
    TrackTextFrames(NewArea(TEXT_BASE_USER_VA, BaseAddr(TEXT_VPN + |fs|), RXU, false).value, fs, 0);
  }

  // --------------------------------------------------------------- one page of text

  lemma {:induction false} OneFrameText(m: Machine, text: seq<Byte>)
    requires HeapFits(m) && TextPages(|text|) == 1
    ensures AllocateText(m, text, 0) ==
              match AllocateWithData(m, text)
              case Panic => Panic
              case Ok((m', f)) => Ok((m', [f]))
  {
    assert TextSlice(text, 0) == text;
    var r := AllocateWithData(m, text);
    if r.Ok? {
      assert AllocateText(r.value.0, text, 1) == Ok((r.value.0, []));
      assert [r.value.1] + [] == [r.value.1];
    }
  }

  lemma OneFrameAreas(l: Linker, len: nat, stack: Frame, code: Frame)
    requires InReach(len) && TextPages(len) == 1
    ensures IntendedAreas(l, len, stack, [code]) == InitAreas(l, len, stack, code)
  {
    TextAreaIs([code]);
    var a := NewArea(TEXT_BASE_USER_VA, BaseAddr(TEXT_VPN + 1), RXU, false).value;
    TrackTextFrames(a, [code], 0);
    assert TextFrames([code], 1) == [(TEXT_BASE_USER_VA, ExclusivelyAllocated(code))];
  }

  lemma OnePageIff(len: nat)
    ensures TextPages(len) == 1 <==> 1 <= len <= PAGE_SIZE
  {
  }

  lemma OnePageAgrees(m: Machine, l: Linker, text: seq<Byte>)
    requires HeapFits(m) && LinkerOk(l) && TextPages(|text|) == 1
    ensures MakeInit(m, l, text) == MakeInitIntended(m, l, text)
  {
    hide MakeTable;
    hide AllocateWithData;
    hide AllocateText;
    hide InitAreas;
    hide IntendedAreas;
    if InReach(|text|) && AllocateZeroed(m).Ok? {
      AgreesOnOnePage(AllocateZeroed(m).value.0, l, text, AllocateZeroed(m).value.1);
    }
  }

  lemma AgreesOnOnePage(m1: Machine, l: Linker, text: seq<Byte>, stack: Frame)
    requires HeapFits(m1) && InReach(|text|) && TextPages(|text|) == 1
    ensures var written, meant := AllocateWithData(m1, text), AllocateText(m1, text, 0);
            && (written.Panic? <==> meant.Panic?)
            && (written.Ok? ==>
                  && meant == Ok((written.value.0, [written.value.1]))
                  && IntendedAreas(l, |text|, stack, meant.value.1) == InitAreas(l, |text|, stack, written.value.1))
  {
    OneFrameText(m1, text);
    var r := AllocateWithData(m1, text);
    if r.Ok? {
      OneFrameAreas(l, |text|, stack, r.value.1);
    }
  }

  lemma TextFramesDiffer(m: Machine, l: Linker, text: seq<Byte>)
    requires HeapFits(m) && LinkerOk(l) && TextPages(|text|) != 1
    requires MakeInit(m, l, text).Ok? && MakeInitIntended(m, l, text).Ok?
    ensures MakeInit(m, l, text).value.1.areas != MakeInitIntended(m, l, text).value.1.areas
  {
    var stack := AllocateZeroed(m).value.1;
    var m1 := AllocateZeroed(m).value.0;
    var fs := AllocateText(m1, text, 0).value.1;
    TextAreaIs(fs);
    assert |MakeInitIntended(m, l, text).value.1.areas[2].frames| == |fs|;
    assert |MakeInit(m, l, text).value.1.areas[2].frames| == 1;
  }

  // --------------------------------------------------------------------- the map

  predicate IsTextPage(n: nat, pages: nat) {
    TEXT_VPN <= n < TEXT_VPN + pages
  }

  /** The pages of a text in frames fs. */
  function TextView(fs: seq<Frame>): map<nat, Leaf> {
    map n: nat | TEXT_VPN <= n < TEXT_VPN + |fs| && IsTextPage(n, |fs|) :: Leaf(fs[n - TEXT_VPN], WithValid(RXU))
  }

  lemma TextRequest(fs: seq<Frame>, i: nat)
    requires i < |fs| && TEXT_VPN + |fs| < 0xf_ffff_ffff_ffff
    ensures var rs := AreaRequests(TextAreaIntended(fs));
            && |rs| == |fs| && rs[i] == Map(TextAddr(i), BaseAddr(fs[i]), RXU) && Aligned(rs[i])
            && Vpn(rs[i].va) == (TEXT_VPN + i) % VPNS && LeafFor(rs[i]) == Leaf(fs[i], WithValid(RXU))
  {
    TextAreaIs(fs);
    PageOfBase(TEXT_VPN + i);
    BaseAddrIs(fs[i], BaseAddr(fs[i]));
  }

  lemma TextRequestsLow(fs: seq<Frame>)
    requires TEXT_VPN + |fs| <= TRAMPOLINE_VPN
    ensures var rs := AreaRequests(TextAreaIntended(fs));
            && |rs| == |fs|
            && forall i :: 0 <= i < |fs| ==>
                 Aligned(rs[i]) && Vpn(rs[i].va) == TEXT_VPN + i && LeafFor(rs[i]) == Leaf(fs[i], WithValid(RXU))
  {
    TextAreaIs(fs);
    forall i | 0 <= i < |fs|
      ensures var rs := AreaRequests(TextAreaIntended(fs));
              Aligned(rs[i]) && Vpn(rs[i].va) == TEXT_VPN + i && LeafFor(rs[i]) == Leaf(fs[i], WithValid(RXU))
    {
      TextRequest(fs, i);
    }
  }

  lemma TextAreaIntendedView(fs: seq<Frame>)
    requires TEXT_VPN + |fs| <= TRAMPOLINE_VPN
    ensures AreaFine(TextAreaIntended(fs)) && AreaView(TextAreaIntended(fs)) == TextView(fs)
  {
    TextAreaIs(fs);
    TextRequestsLow(fs);
    AskedIsText(AreaRequests(TextAreaIntended(fs)), fs);
  }

  lemma AskedIsText(rs: seq<Request>, fs: seq<Frame>)
    requires TEXT_VPN + |fs| <= TRAMPOLINE_VPN && |rs| == |fs|
    requires forall i :: 0 <= i < |fs| ==>
               Aligned(rs[i]) && Vpn(rs[i].va) == TEXT_VPN + i && LeafFor(rs[i]) == Leaf(fs[i], WithValid(RXU))
    ensures Mappable(rs, {}) && Asked(rs) == TextView(fs)
  {
    hide Asked, Mappable, LeafFor, Vpn;
    MappableIff(rs, {});
    AskedIff(rs, {});
    ViewIsText(Asked(rs), rs, fs);
  }

  lemma ViewIsText(asked: map<nat, Leaf>, rs: seq<Request>, fs: seq<Frame>)
    requires |rs| == |fs|
    requires forall i :: 0 <= i < |fs| ==>
               Aligned(rs[i]) && Vpn(rs[i].va) == TEXT_VPN + i && LeafFor(rs[i]) == Leaf(fs[i], WithValid(RXU))
    requires forall i :: 0 <= i < |rs| ==>
               rs[i].Map? && Vpn(rs[i].va) in asked && asked[Vpn(rs[i].va)] == LeafFor(rs[i])
    requires forall n :: n in asked ==> exists i :: 0 <= i < |rs| && rs[i].Map? && Vpn(rs[i].va) == n
    ensures asked == TextView(fs)
  {
    hide LeafFor, Vpn;
    forall n: nat | TEXT_VPN <= n < TEXT_VPN + |fs|
      ensures n in asked && asked[n] == TextView(fs)[n]
    {
      assert Vpn(rs[n - TEXT_VPN].va) == n;
    }
    forall n | n in asked
      ensures TEXT_VPN <= n < TEXT_VPN + |fs|
    {
      var i :| 0 <= i < |rs| && rs[i].Map? && Vpn(rs[i].va) == n;
    }
  }

  /** The stack lies below the trampoline or above it, and the text below it. */
  predicate IntendedFits(len: nat) {
    TEXT_VPN + TextPages(len) <= TRAMPOLINE_VPN && StackVpn(len) != TRAMPOLINE_VPN
  }

  /** A text that reaches the trampoline collides with it. */
  lemma LongTextCollides(l: Linker, len: nat, stack: Frame, fs: seq<Frame>)
    requires InReach(len) && |fs| == TextPages(len) && TEXT_VPN + |fs| > TRAMPOLINE_VPN
    ensures var areas := IntendedAreas(l, len, stack, fs);
            !AreaFine(areas[2]) || !AreasDisjoint(areas)
  {
    var areas := IntendedAreas(l, len, stack, fs);
    var i := TRAMPOLINE_VPN - TEXT_VPN;
    TrampolineView(l);
    TextRequest(fs, i);
    if AreaFine(areas[2]) {
      AskedIff(AreaRequests(areas[2]), {});
      assert TRAMPOLINE_VPN in AreaView(areas[2]) && TRAMPOLINE_VPN in AreaView(areas[0]);
    }
  }

  /** The map of the init space as it is meant. */
  function IntendedView(l: Linker, stackVpn: nat, stack: Frame, fs: seq<Frame>): map<nat, Leaf> {
    TextView(fs) + map[stackVpn := Leaf(stack, WithValid(RWU))]
    + map[TRAMPOLINE_VPN := Leaf(FrameAt(l.trampoline), WithValid(RX))]
  }

  lemma IntendedAreaViews(l: Linker, len: nat, stack: Frame, fs: seq<Frame>)
    requires InReach(len) && |fs| == TextPages(len) && TEXT_VPN + |fs| <= TRAMPOLINE_VPN
    ensures var areas := IntendedAreas(l, len, stack, fs);
            && |areas| == 3 && (forall a :: a in areas ==> AreaFine(a))
            && AreaView(areas[0]) == map[TRAMPOLINE_VPN := Leaf(FrameAt(l.trampoline), WithValid(RX))]
            && AreaView(areas[1]) == map[StackVpn(len) := Leaf(stack, WithValid(RWU))]
            && AreaView(areas[2]) == TextView(fs)
  {
    TrampolineView(l);
    StackAreaView(StackVpn(len), stack);
    assert StackVpn(len) % VPNS == StackVpn(len);
    TextAreaIntendedView(fs);
  }

  lemma IntendedAreasUnion(l: Linker, len: nat, stack: Frame, fs: seq<Frame>)
    requires InReach(len) && |fs| == TextPages(len) && TEXT_VPN + |fs| <= TRAMPOLINE_VPN
    ensures var areas := IntendedAreas(l, len, stack, fs);
            && (forall a :: a in areas ==> AreaFine(a)) && (AreasDisjoint(areas) <==> IntendedFits(len))
            && UnionView(areas) == IntendedView(l, StackVpn(len), stack, fs)
  {
    var areas := IntendedAreas(l, len, stack, fs);
    IntendedAreaViews(l, len, stack, fs);
    DisjointThree(areas);
    UnionOfThree(areas);
    assert AreaView(areas[0]).Keys == {TRAMPOLINE_VPN} && AreaView(areas[1]).Keys == {StackVpn(len)};
    assert forall n :: n in AreaView(areas[2]).Keys <==> TEXT_VPN <= n < TEXT_VPN + |fs|;
  }

  // ---------------------------------------------------------------- allocation

  /** Each frame of fs holds its page of the text, from page k on. */
  ghost predicate HoldsText(mem: Memory, text: seq<Byte>, k: nat, fs: seq<Frame>)
    requires k + |fs| <= TextPages(|text|)
  {
    forall i :: 0 <= i < |fs| ==> fs[i] in mem && mem[fs[i]] == Pack(TextSlice(text, k + i))
  }

  lemma {:induction false} AllocateTextExact(m: Machine, text: seq<Byte>, k: nat)
    requires MachineOk(m) && k <= TextPages(|text|)
    ensures AllocateText(m, text, k).Ok? <==> TextPages(|text|) - k <= Free(m)
    ensures AllocateText(m, text, k).Ok? ==>
              var (m', fs) := AllocateText(m, text, k).value;
              Extends(m, [], m', fs) && HoldsText(m'.mem, text, k, fs)
    decreases TextPages(|text|) - k
  {
    if k < TextPages(|text|) {
      AllocateZeroedTakes(m);
      var r := AllocateWithData(m, TextSlice(text, k));
      if r.Ok? {
        AllocateDataExtends(m, TextSlice(text, k));
        AllocateTextExact(r.value.0, text, k + 1);
        var r2 := AllocateText(r.value.0, text, k + 1);
        if r2.Ok? {
          TextPageAdded(m, r.value.0, r.value.1, r2.value.0, r2.value.1, text, k);
        }
      }
    }
  }

  lemma TextPageAdded(m: Machine, m1: Machine, f: Frame, m2: Machine, fs: seq<Frame>, text: seq<Byte>, k: nat)
    requires Extends(m, [], m1, [f]) && Extends(m1, [], m2, fs) && k + 1 + |fs| <= TextPages(|text|)
    requires f in m1.mem && m1.mem[f] == Pack(TextSlice(text, k)) && HoldsText(m2.mem, text, k + 1, fs)
    ensures Extends(m, [], m2, [f] + fs) && HoldsText(m2.mem, text, k, [f] + fs)
  {
    hide Pack, Extends, HoldsText;
    ExtendsBoth(m, m1, [f], m2, fs);
    FirstPageStays(m1, f, m, m2, fs);
    HoldsTextFrom(m2.mem, f, fs, text, k);
  }

  lemma HoldsTextFrom(mem: Memory, f: Frame, fs: seq<Frame>, text: seq<Byte>, k: nat)
    requires k + 1 + |fs| <= TextPages(|text|) && HoldsText(mem, text, k + 1, fs)
    requires f in mem && mem[f] == Pack(TextSlice(text, k))
    ensures HoldsText(mem, text, k, [f] + fs)
  {
    hide Pack, TextSlice;
    var all := [f] + fs;
    forall i | 0 <= i < |all|
      ensures all[i] in mem && mem[all[i]] == Pack(TextSlice(text, k + i))
    {
      if i > 0 {
        assert all[i] == fs[i - 1] && k + 1 + (i - 1) == k + i;
      }
    }
  }

  lemma FirstPageStays(m1: Machine, f: Frame, m: Machine, m2: Machine, fs: seq<Frame>)
    requires Extends(m, [], m1, [f]) && Extends(m1, [], m2, fs) && f in m1.mem
    ensures f in m2.mem && m2.mem[f] == m1.mem[f]
  {
    assert f in [f] && Live(m1, f);
  }

  lemma {:induction false} AllExclusive(frames: seq<(Word, FrameSource)>)
    requires forall i :: 0 <= i < |frames| ==> frames[i].1.ExclusivelyAllocated?
    ensures |ExclusiveOf(frames)| == |frames|
    ensures forall i :: 0 <= i < |frames| ==> ExclusiveOf(frames)[i] == frames[i].1.frame
  {
    if frames != [] {
      AllExclusive(frames[1..]);
    }
  }

  lemma IntendedOwns(l: Linker, len: nat, stack: Frame, fs: seq<Frame>)
    requires InReach(len) && |fs| == TextPages(len)
    ensures ExclusiveFrames(IntendedAreas(l, len, stack, fs)) == [stack] + fs
  {
    var areas := IntendedAreas(l, len, stack, fs);
    TrampolineView(l);
    NothingExclusive(areas[0].frames);
    ExclusiveSingle(areas[1].frames, stack);
    TextAreaIs(fs);
    AllExclusive(areas[2].frames);
    var two, one := areas[1..], areas[2..];
    assert two[1..] == one && one[1..] == [];
    assert ExclusiveFrames(one) == fs;
    assert ExclusiveFrames(two) == [stack] + fs;
  }

  // ------------------------------------------------------------------- exactness

  /** Frames the space takes as it is meant: stack, text pages and nodes. */
  ghost function IntendedCost(l: Linker, len: nat): nat {
    1 + TextPages(len) + NodeCount(IntendedView(l, StackVpn(len), 0, seq(TextPages(len), i => 0)))
  }

  /** An init space as it is meant: what it maps, owns and holds. */
  ghost predicate IntendedMade(m: Machine, l: Linker, text: seq<Byte>, m': Machine, sp: Space, stack: Frame,
                               fs: seq<Frame>) {
    && |fs| == TextPages(|text|)
    && Wf(m', sp.table) && Denote(m'.mem, sp.table.root) == IntendedView(l, StackVpn(|text|), stack, fs)
    && OwnedFrames(sp) == sp.table.nodes + ([stack] + fs) && Extends(m, [], m', OwnedFrames(sp))
    && HoldsText(m'.mem, text, 0, fs)
  }

  lemma IntendedTable(m2: Machine, l: Linker, len: nat, stack: Frame, fs: seq<Frame>)
    requires MachineOk(m2) && InReach(len) && |fs| == TextPages(len)
    ensures var r := MakeTable(m2, IntendedAreas(l, len, stack, fs));
            && (r.Ok? <==> IntendedFits(len) && IntendedCost(l, len) <= Free(m2) + 1 + |fs|)
            && (r.Ok? ==> Built(m2, IntendedView(l, StackVpn(len), stack, fs), r.value.0, r.value.1))
  {
    hide MakeTable;
    hide Built;
    hide AreaFine;
    hide AreasDisjoint;
    hide UnionView;
    var areas := IntendedAreas(l, len, stack, fs);
    if TEXT_VPN + |fs| <= TRAMPOLINE_VPN {
      IntendedAreasUnion(l, len, stack, fs);
      MakeTableExact(m2, areas);
      SameTextKeys(l, StackVpn(len), stack, fs);
    } else {
      LongTextCollides(l, len, stack, fs);
      CollisionPanics(m2, areas);
    }
  }

  lemma SameTextKeys(l: Linker, stackVpn: nat, stack: Frame, fs: seq<Frame>)
    ensures NodeCount(IntendedView(l, stackVpn, stack, fs)) ==
              NodeCount(IntendedView(l, stackVpn, 0, seq(|fs|, i => 0)))
  {
    var v, w := IntendedView(l, stackVpn, stack, fs), IntendedView(l, stackVpn, 0, seq(|fs|, i => 0));
    assert v.Keys == w.Keys;
    NodeCountByKeys(v, w);
  }

  lemma CollisionPanics(m: Machine, areas: seq<VirtArea>)
    requires MachineOk(m) && |areas| == 3 && (!AreaFine(areas[2]) || !AreasDisjoint(areas))
    ensures MakeTable(m, areas).Panic?
  {
    hide MakeTable;
    hide AreaFine;
    hide AreasDisjoint;
    if a :| a in areas && !AreaFine(a) {
      MakeTableNeedsFine(m, areas, a);
    } else {
      MakeTableExact(m, areas);
    }
  }

  lemma IntendedFinish(m: Machine, l: Linker, text: seq<Byte>, m1: Machine, stack: Frame, m2: Machine, fs: seq<Frame>,
                       m3: Machine, t: Table)
    requires InReach(|text|) && |fs| == TextPages(|text|)
    requires Extends(m, [], m1, [stack]) && Extends(m1, [], m2, fs) && HoldsText(m2.mem, text, 0, fs)
    requires Built(m2, IntendedView(l, StackVpn(|text|), stack, fs), m3, t)
    ensures IntendedMade(m, l, text, m3, Space(t, IntendedAreas(l, |text|, stack, fs)), stack, fs)
  {
    IntendedOwns(l, |text|, stack, fs);
    BuiltAcquires(m2, IntendedView(l, StackVpn(|text|), stack, fs), m3, t);
    ExtendsBoth(m, m1, [stack], m2, fs);
    ExtendsBoth(m, m2, [stack] + fs, m3, t.nodes);
    TextStays(m1, m2, fs, m3, t.nodes, text);
  }

  lemma TextStays(m1: Machine, m2: Machine, fs: seq<Frame>, m3: Machine, nodes: seq<Frame>, text: seq<Byte>)
    requires Extends(m1, [], m2, fs) && Extends(m2, [], m3, nodes)
    requires |fs| == TextPages(|text|) && HoldsText(m2.mem, text, 0, fs)
    ensures HoldsText(m3.mem, text, 0, fs)
  {
    hide Pack;
    forall i | 0 <= i < |fs|
      ensures fs[i] in m3.mem && m3.mem[fs[i]] == m2.mem[fs[i]]
    {
      assert fs[i] in fs && Live(m2, fs[i]);
    }
  }

  /** As meant, the init space can be made exactly when text and stack stay clear of the trampoline
      and the free frames suffice; it then maps every page of the text, and each text frame holds
      its page. */
  lemma MakeInitIntendedExact(m: Machine, l: Linker, text: seq<Byte>) returns (stack: Frame, fs: seq<Frame>)
    requires MachineOk(m) && LinkerOk(l)
    ensures MakeInitIntended(m, l, text).Ok? <==> IntendedFits(|text|) && IntendedCost(l, |text|) <= Free(m)
    ensures MakeInitIntended(m, l, text).Ok? ==>
              var (m', sp) := MakeInitIntended(m, l, text).value;
              IntendedMade(m, l, text, m', sp, stack, fs)
  {
    hide MakeTable;
    hide NodeCount;
    stack, fs := 0, [];
    if !InReach(|text|) {
      return;
    }
    AllocateZeroedTakes(m);
    var r1 := AllocateZeroed(m);
    if r1.Ok? {
      AllocateExtends(m);
      var m1 := r1.value.0;
      stack := r1.value.1;
      AllocateTextExact(m1, text, 0);
      var r2 := AllocateText(m1, text, 0);
      if r2.Ok? {
        var m2 := r2.value.0;
        fs := r2.value.1;
        IntendedTable(m2, l, |text|, stack, fs);
        var r3 := MakeTable(m2, IntendedAreas(l, |text|, stack, fs));
        if r3.Ok? {
          IntendedFinish(m, l, text, m1, stack, m2, fs, r3.value.0, r3.value.1);
        }
      }
    }
  }

  /** The code makes the space that is meant exactly for a text of one page, or when text and
      stack collide or the frames are too few for either form, so that both panic. */
  lemma MakeInitAgreesIff(m: Machine, l: Linker, text: seq<Byte>)
    requires MachineOk(m) && LinkerOk(l)
    ensures MakeInit(m, l, text) == MakeInitIntended(m, l, text) <==>
              || 1 <= |text| <= PAGE_SIZE
              || (&& !(StackFits(|text|) && InitCost(l, StackPage(|text|)) <= Free(m))
                  && !(IntendedFits(|text|) && IntendedCost(l, |text|) <= Free(m)))
  {
    hide MakeInit, MakeInitIntended, InitMade, IntendedMade, InitCost, IntendedCost;
    var s, c := MakeInitExact(m, l, text);
    var stack, fs := MakeInitIntendedExact(m, l, text);
    OnePageIff(|text|);
    if TextPages(|text|) == 1 {
      OnePageAgrees(m, l, text);
    } else if MakeInit(m, l, text).Ok? && MakeInitIntended(m, l, text).Ok? {
      TextFramesDiffer(m, l, text);
    }
  }
}
