/** What the areas of a space say, and what `verify` makes of them: at start-up on the kernel space
    (kernel/src/mm/mod.rs) and in `first_execution_init` on a user space
    (kernel/src/process/process.rs). */
module SpaceChecks {
  import opened Wrappers
  import opened Bits
  import opened Sv39Format
  import opened Layout
  import opened Machines
  import opened PageTables
  import opened Mapping
  import opened Locking
  import opened Requests
  import opened Areas
  import opened KernelAreas
  import opened AddressSpaces
  import opened UserSpaces
  import opened InitProcesses

  /** The page is mapped as leaf says, or its region has no page at all, so that nothing is
      compared. */
  ghost predicate Unchallenged(view: map<nat, Leaf>, n: nat, leaf: Leaf) {
    (n in view && view[n] == leaf) || RegionOf(n) !in Regions(view)
  }

  ghost predicate AllUnchallenged(view: map<nat, Leaf>, asked: map<nat, Leaf>) {
    forall n :: n in asked ==> Unchallenged(view, n, asked[n])
  }

  lemma PassesUnchallenged(view: map<nat, Leaf>, r: Request)
    requires Aligned(r)
    ensures Passes(view, r) <==> Unchallenged(view, Vpn(r.va), LeafFor(r))
  {
  }

  /** An area passes exactly when every page that it asks for is unchallenged. */
  lemma AreaVerifiesIff(m: Machine, t: Table, a: VirtArea)
    requires Wf(m, t) && AreaFine(a)
    ensures VerifiesAll(m.mem, t.root, AreaRequests(a)) <==> AllUnchallenged(Denote(m.mem, t.root), AreaView(a))
  {
    var rs, view := AreaRequests(a), Denote(m.mem, t.root);
    MappableIff(rs, {});
    AskedIff(rs, {});
    hide Wf, Denote, Asked, Mappable, Unchallenged, Passes, LeafFor;
    forall i | 0 <= i < |rs|
      ensures Verifies(m.mem, t.root, rs[i]) <==> Unchallenged(view, Vpn(rs[i].va), LeafFor(rs[i]))
    {
      VerifyPassesIff(m, t, rs[i]);
      PassesUnchallenged(view, rs[i]);
    }
  }

  /** `verify` on the kernel's areas passes exactly when every page of the kernel map is mapped as
      it should be, or lies in a region without any page. */
  lemma KernelVerifyIff(m: Machine, l: Linker, t: Table)
    requires LinkerOk(l) && Wf(m, t)
    ensures AreasVerify(m.mem, t.root, KernelAreaList(l)) <==> AllUnchallenged(Denote(m.mem, t.root), KernelView(l))
  {
    var areas, view := KernelAreaList(l), Denote(m.mem, t.root);
    KernelStacked(l);
    hide Wf, Denote, KernelAreaList, Unchallenged, VerifiesAll, AreaView;
    forall i | 0 <= i < |areas|
      ensures !Backward(areas[i])
      ensures VerifiesAll(m.mem, t.root, AreaRequests(areas[i])) <==> AllUnchallenged(view, AreaView(areas[i]))
    {
      assert areas[i] in areas;
      AreaVerifiesIff(m, t, areas[i]);
    }
    if AreasVerify(m.mem, t.root, areas) {
      forall n | n in KernelView(l)
        ensures Unchallenged(view, n, KernelView(l)[n])
      {
        var k := UnionFrom(areas, n);
        assert AllUnchallenged(view, AreaView(areas[k]));
      }
    }
    if AllUnchallenged(view, KernelView(l)) {
      forall i, n | 0 <= i < |areas| && n in AreaView(areas[i])
        ensures Unchallenged(view, n, AreaView(areas[i])[n])
      {
        UnionContains(areas, i, n);
      }
    }
  }

  /** A new kernel space passes the check, and the check covers its whole map. */
  lemma NewKernelVerifies(m: Machine, l: Linker)
    requires MachineOk(m) && LinkerOk(l) && MakeKernel(m, l).Ok?
    ensures var (m', sp) := MakeKernel(m, l).value; AreasVerify(m'.mem, sp.table.root, sp.areas)
  {
    hide MakeKernel, KernelAreaList, AreasVerify;
    MakeKernelExact(m, l);
    var (m', sp) := MakeKernel(m, l).value;
    KernelVerifyIff(m', l, sp.table);
  }

  /** With all regions of the kernel in use, one changed leaf makes the check fail. */
  lemma ChangedLeafFails(m: Machine, l: Linker, t: Table, n: nat)
    requires LinkerOk(l) && Wf(m, t) && n in KernelView(l) && n in Denote(m.mem, t.root)
    requires Denote(m.mem, t.root)[n] != KernelView(l)[n]
    ensures !AreasVerify(m.mem, t.root, KernelAreaList(l))
  {
    hide KernelAreaList, AreasVerify;
    KernelVerifyIff(m, l, t);
    assert RegionOf(n) in Regions(Denote(m.mem, t.root));
    assert !Unchallenged(Denote(m.mem, t.root), n, KernelView(l)[n]);
  }

  /** A locked kernel space does not pass it: the nodes of its table have lost W. */
  lemma LockedKernelFails(m: Machine, l: Linker, sp: Space)
    requires LinkerOk(l) && HeapMatches(m, l) && Wf(m, sp.table) && Denote(m.mem, sp.table.root) == KernelView(l)
    requires RelabelSpace(m, l, sp, false).Ok?
    ensures !AreasVerify(RelabelSpace(m, l, sp, false).value.mem, sp.table.root, KernelAreaList(l))
  {
    hide KernelAreaList, AreasVerify, KernelView, RelabelSpace, Wf, Denote, RelabelView, IdentityPages, OthersKept;
    WfLive(m, sp.table);
    RootIsNode(m, sp.table);
    RelabelSpaceEdits(m, l, sp, false);
    RootLosesWrite(m, l, sp.table);
    ChangedLeafFails(RelabelSpace(m, l, sp, false).value, l, sp.table, sp.table.root);
  }

  lemma RootLosesWrite(m: Machine, l: Linker, t: Table)
    requires LinkerOk(l) && HeapMatches(m, l) && AllLive(m, t.nodes) && t.root in t.nodes
    ensures t.root in KernelView(l)
    ensures var view := RelabelView(KernelView(l), IdentityPages(t.nodes), false);
            t.root in view && view[t.root] != KernelView(l)[t.root]
  {
    hide KernelView;
    assert Live(m, t.root);
    VpnOfFrame(t.root);
    KernelViewHolds(l);
    assert IdentityPage(t.root) in IdentityPages(t.nodes);
    FlipTwice(WithValid(RW), false, false);
  }

  lemma RootIsNode(m: Machine, t: Table)
    requires Wf(m, t)
    ensures t.root in t.nodes
  {
  }

  // ---------------------------------------------------------------- user spaces

  /** `first_execution_init` refuses a space whose table and areas disagree on a mapped page. */
  lemma MismatchPanics(m: Machine, sp: Space, stack: Frame, e: Entry, k: nat, n: nat)
    requires SpaceOk(m, sp) && HeapFits(m) && k < |sp.areas| && AreaFine(sp.areas[k]) && n in AreaView(sp.areas[k])
    requires n != TRAPFRAME_VPN && n in Denote(m.mem, sp.table.root)
    requires Denote(m.mem, sp.table.root)[n] != AreaView(sp.areas[k])[n]
    ensures FirstExecution(m, sp, stack, e).Panic?
  {
    hide InitTrapframe, Denote, Wf, AreaView, FirstNode, TranslatesTo, AreaFine;
    var r := InitTrapframe(m, sp);
    if r.Ok? {
      var (m1, sp1, trap) := r.value;
      InitTrapframeAdds(m, sp);
      hide VerifiesAll, Extends;
      assert sp1.areas[k] == sp.areas[k];
      AreaVerifiesIff(m1, sp1.table, sp.areas[k]);
      MismatchChallenged(Denote(m1.mem, sp1.table.root), AreaView(sp.areas[k]), n);
      assert !AreasVerify(m1.mem, sp1.table.root, sp1.areas);
    }
  }

  lemma MismatchChallenged(view: map<nat, Leaf>, asked: map<nat, Leaf>, n: nat)
    requires n in view && n in asked && view[n] != asked[n]
    ensures !AllUnchallenged(view, asked)
  {
    assert RegionOf(n) in Regions(view);
    assert !Unchallenged(view, n, asked[n]);
  }

  /** An area spans the pages from begin to end, with the given flags, and tracks the one frame at
      its begin. */
  predicate Spans(a: VirtArea, begin: nat, end: nat, flags: set<nat>, g: FrameSource) {
    && a.begin == begin && a.end == end && !a.identical && FlagSet(a.perms) == flags
    && a.frames == [(begin * 4096, g)]
  }

  lemma PermissionSets()
    ensures FlagSet(RX) == {1, 3} && FlagSet(RW) == {1, 2} && FlagSet(RWU) == {1, 2, 4} && FlagSet(RXU) == {1, 3, 4}
  {
    hide FlagSet;
    FewFlags(RX, {1, 3});
    FewFlags(RW, {1, 2});
    FewFlags(RWU, {1, 2, 4});
    FewFlags(RXU, {1, 3, 4});
  }

  /** The areas of the first user space: trampoline, stack, text and trap frame. The text area spans
      all pages of the text, though it tracks one frame; the stack lies one page above it. */
  lemma UserAreas(m: Machine, l: Linker, text: seq<Byte>) returns (stack: Frame, code: Frame)
    requires MachineOk(m) && LinkerOk(l) && MakeUser(m, l, text).Ok?
    ensures var (m', sp, trap) := MakeUser(m, l, text).value;
            var end := 0x10 + (|text| + 4095) / 4096;
            && |sp.areas| == 4
            && Spans(sp.areas[0], 0x3ff_ffff, 0x400_0000, {1, 3}, PhysBorrowed(FrameAt(l.trampoline)))
            && Spans(sp.areas[1], end + 1, end + 2, {1, 2, 4}, ExclusivelyAllocated(stack))
            && Spans(sp.areas[2], 0x10, end, {1, 3, 4}, ExclusivelyAllocated(code))
            && Spans(sp.areas[3], 0x3ff_fffd, 0x3ff_fffe, {1, 2}, ExclusivelyAllocated(trap))
  {
    hide MakeUser, Wf, Denote, UserView, UserCost, Pack, Extends, FlagSet;
    stack, code := MakeUserExact(m, l, text);
    PermissionSets();
  }
}
