/** Mapping and verifying whole lists of pages: the loops of `map_virt_area_allocate` and
    `verify_virt_area_mapping` (kernel/src/mm/page_table.rs), unrolled over their pages. */
module Requests {
  import opened Wrappers
  import opened Bits
  import opened Sv39Format
  import opened Machines
  import opened PageTables
  import opened TableShapes
  import opened Mapping

  /** One page to be mapped or verified; a copy-on-write frame makes the kernel panic. */
  datatype Request = Map(va: Word, pa: Word, flags: Flags) | Unsupported

  predicate Aligned(r: Request) {
    r.Map? && r.va % PAGE_SIZE == 0 && r.pa % PAGE_SIZE == 0
  }

  function LeafFor(r: Request): Leaf
    requires r.Map?
  {
    Leaf(FrameAt(r.pa), WithValid(r.flags))
  }

  function MapRequest(m: Machine, t: Table, r: Request): (o: Outcome<(Machine, Table)>)
    requires HeapFits(m)
    ensures o.Ok? ==> HeapFits(o.value.0)
  {
    if !Aligned(r) then Panic else MapOneAllocate(m, t, r.va, r.pa, r.flags)
  }

  function MapAll(m: Machine, t: Table, rs: seq<Request>): (o: Outcome<(Machine, Table)>)
    requires HeapFits(m)
    ensures o.Ok? ==> HeapFits(o.value.0)
    decreases |rs|
  {
    if rs == [] then Ok((m, t))
    else
      var (m', t') :- MapRequest(m, t, rs[0]);
      MapAll(m', t', rs[1..])
  }

  /** The map that a list of requests asks for. */
  function Asked(rs: seq<Request>): map<nat, Leaf> {
    if rs == [] then map[]
    else if rs[0].Unsupported? then Asked(rs[1..])
    else Asked(rs[1..])[Vpn(rs[0].va) := LeafFor(rs[0])]
  }

  /** Every request is aligned and supported, and no two ask for the same page or one in taken. */
  ghost predicate Mappable(rs: seq<Request>, taken: set<nat>) {
    rs != [] ==> Aligned(rs[0]) && Vpn(rs[0].va) !in taken && Mappable(rs[1..], taken + {Vpn(rs[0].va)})
  }

  // ------------------------------------------------------------ node counts

  lemma NodeCountInsert(view: map<nat, Leaf>, vpn: nat, leaf: Leaf)
    ensures NodeCount(view[vpn := leaf]) == NodeCount(view) + Lacking(view, RegionOf(vpn))
  {
    TightInsert(view, vpn, leaf);
    CardInsert(Dirs(view), RegionOf(vpn).top);
    CardInsert(Regions(view), RegionOf(vpn));
  }

  lemma CardInsert<T>(a: set<T>, x: T)
    ensures |a + {x}| == |a| + (if x in a then 0 else 1)
  {
    if x in a {
      assert a + {x} == a;
    }
  }

  lemma SubsetCard<T>(a: set<T>, b: set<T>)
    requires a <= b
    ensures |a| <= |b|
  {
    assert b == a + (b - a);
  }

  lemma NodeCountGrows(view: map<nat, Leaf>, view': map<nat, Leaf>)
    requires view.Keys <= view'.Keys
    ensures NodeCount(view) <= NodeCount(view')
  {
    assert forall vpn :: vpn in view ==> vpn in view';
    assert Dirs(view) <= Dirs(view') && Regions(view) <= Regions(view');
    SubsetCard(Dirs(view), Dirs(view'));
    SubsetCard(Regions(view), Regions(view'));
  }

  lemma {:induction false} AskedAvoids(rs: seq<Request>, taken: set<nat>)
    requires Mappable(rs, taken)
    ensures Asked(rs).Keys !! taken
    decreases |rs|
  {
    if rs != [] {
      AskedAvoids(rs[1..], taken + {Vpn(rs[0].va)});
    }
  }

  lemma AskedFirst(view: map<nat, Leaf>, rs: seq<Request>)
    requires rs != [] && Mappable(rs, view.Keys)
    ensures view[Vpn(rs[0].va) := LeafFor(rs[0])] + Asked(rs[1..]) == view + Asked(rs)
  {
    AskedAvoids(rs[1..], view.Keys + {Vpn(rs[0].va)});
  }

  /** The requests can be put on top of view with budget frames for all nodes together. */
  ghost predicate Fits(view: map<nat, Leaf>, rs: seq<Request>, budget: nat) {
    Mappable(rs, view.Keys) && NodeCount(view + Asked(rs)) <= budget
  }

  /** The first request can be put on top of view. */
  ghost predicate FitsOne(view: map<nat, Leaf>, r: Request, budget: nat) {
    Aligned(r) && Vpn(r.va) !in view && NodeCount(view[Vpn(r.va) := LeafFor(r)]) <= budget
  }

  lemma AskedNothing(view: map<nat, Leaf>, rs: seq<Request>, budget: nat)
    requires rs == []
    ensures view + Asked(rs) == view
    ensures Fits(view, rs, budget) <==> NodeCount(view) <= budget
  {
  }

  lemma FitsFirst(view: map<nat, Leaf>, rs: seq<Request>, budget: nat)
    requires rs != []
    ensures Fits(view, rs, budget) <==>
              FitsOne(view, rs[0], budget) && Fits(view[Vpn(rs[0].va) := LeafFor(rs[0])], rs[1..], budget)
    ensures Fits(view, rs, budget) ==>
              view[Vpn(rs[0].va) := LeafFor(rs[0])] + Asked(rs[1..]) == view + Asked(rs)
  {
    var r := rs[0];
    if Aligned(r) && Vpn(r.va) !in view {
      var view' := view[Vpn(r.va) := LeafFor(r)];
      assert view'.Keys == view.Keys + {Vpn(r.va)};
      if Mappable(rs, view.Keys) {
        AskedFirst(view, rs);
        NodeCountGrows(view', view' + Asked(rs[1..]));
      }
    }
  }

  // ------------------------------------------------------------ the theorem

  /** The state after all of rs is mapped, when view is the old map and the asked pages. */
  ghost predicate MappedTo(m: Machine, t: Table, view: map<nat, Leaf>, m': Machine, t': Table) {
    && Wf(m', t') && t'.root == t.root && Denote(m'.mem, t'.root) == view
    && |t'.nodes| == NodeCount(view) && Grew(m, t.nodes, m', t'.nodes)
  }

  function Budget(m: Machine, t: Table): nat {
    Free(m) + |t.nodes|
  }

  lemma MappedTrans(m: Machine, t: Table, v: map<nat, Leaf>, m1: Machine, t1: Table, w: map<nat, Leaf>, m2: Machine,
                    t2: Table)
    requires MappedTo(m, t, v, m1, t1) && MappedTo(m1, t1, w, m2, t2)
    ensures MappedTo(m, t, w, m2, t2)
  {
    GrewTrans(m, t.nodes, m1, t1.nodes, m2, t2.nodes);
  }

  lemma MapRequestExact(m: Machine, t: Table, r: Request)
    requires Wf(m, t)
    ensures HeapFits(m)
    ensures MapRequest(m, t, r).Ok? <==> FitsOne(Denote(m.mem, t.root), r, Budget(m, t))
    ensures MapRequest(m, t, r).Ok? ==>
              var (m', t') := MapRequest(m, t, r).value;
              MappedTo(m, t, Denote(m.mem, t.root)[Vpn(r.va) := LeafFor(r)], m', t')
  {
    NodeCountExact(m, t);
    if Aligned(r) {
      MapOneInserts(m, t, r.va, r.pa, r.flags);
      NodeCountInsert(Denote(m.mem, t.root), Vpn(r.va), LeafFor(r));
    }
  }

  lemma MappedNothing(m: Machine, t: Table)
    requires Wf(m, t)
    ensures MappedTo(m, t, Denote(m.mem, t.root), m, t)
  {
    NodeCountExact(m, t);
    GrewRefl(m, t.nodes);
  }

  /** Mapping a list succeeds exactly when its pages are aligned, supported, distinct and
      unmapped, and the free frames cover the nodes still missing. */
  lemma {:induction false} MapAllOkIff(m: Machine, t: Table, rs: seq<Request>)
    requires Wf(m, t)
    ensures HeapFits(m)
    ensures MapAll(m, t, rs).Ok? <==> Fits(Denote(m.mem, t.root), rs, Budget(m, t))
    decreases |rs|
  {
    var view := Denote(m.mem, t.root);
    if rs == [] {
      NodeCountExact(m, t);
      AskedNothing(view, rs, Budget(m, t));
    } else {
      MapRequestExact(m, t, rs[0]);
      FitsFirst(view, rs, Budget(m, t));
      var o := MapRequest(m, t, rs[0]);
      if o.Ok? {
        MapAllOkIff(o.value.0, o.value.1, rs[1..]);
      }
    }
  }

  /** When it succeeds the table stands for exactly the old map and the asked pages. */
  lemma {:induction false} MapAllMaps(m: Machine, t: Table, rs: seq<Request>)
    requires Wf(m, t) && HeapFits(m) && MapAll(m, t, rs).Ok?
    ensures MappedTo(m, t, Denote(m.mem, t.root) + Asked(rs), MapAll(m, t, rs).value.0, MapAll(m, t, rs).value.1)
    decreases |rs|
  {
    var view := Denote(m.mem, t.root);
    if rs == [] {
      MappedNothing(m, t);
      AskedNothing(view, rs, 0);
    } else {
      MapRequestExact(m, t, rs[0]);
      var (m', t') := MapRequest(m, t, rs[0]).value;
      MapAllMaps(m', t', rs[1..]);
      MapAllOkIff(m, t, rs);
      FitsFirst(view, rs, Budget(m, t));
      var (m'', t'') := MapAll(m', t', rs[1..]).value;
      MappedTrans(m, t, Denote(m'.mem, t'.root), m', t', view + Asked(rs), m'', t'');
    }
  }

  // ------------------------------------------------------------ fresh tables

  lemma ZeroRootIsTree(mem: Memory, root: Frame)
    requires root in mem && mem[root] == ZeroNode()
    ensures var s := Shape(root, map[], map[]);
            Tree(mem, s) && View(mem, s) == map[] && Tight(s, map[])
  {
  }

  /** A new table is a single zeroed frame that maps nothing. */
  lemma AllocateTableEmpty(m: Machine)
    requires MachineOk(m)
    ensures AllocateTable(m).Ok? <==> Free(m) > 0
    ensures AllocateTable(m).Ok? ==>
              var (m', t) := AllocateTable(m).value;
              Wf(m', t) && Denote(m'.mem, t.root) == map[] && t.nodes == [t.root] && Grew(m, [], m', t.nodes)
  {
    AllocateZeroedTakes(m);
    var r := AllocateZeroed(m);
    if r.Ok? {
      var (m', f) := r.value;
      var s := Shape(f, map[], map[]);
      ZeroRootIsTree(m'.mem, f);
      DenoteIsView(m'.mem, s);
      assert Lists([f], s);
      assert Shaped(m', Table(f, [f]), s);
    }
  }

  /** `PageTableGuard::allocate` followed by the mapping loops. */
  function BuildTable(m: Machine, rs: seq<Request>): (o: Outcome<(Machine, Table)>)
    requires HeapFits(m)
    ensures o.Ok? ==> HeapFits(o.value.0)
  {
    var (m', t) :- AllocateTable(m);
    MapAll(m', t, rs)
  }

  /** A table built from scratch holds exactly the asked pages, on exactly the nodes they need,
      all taken from the free frames. */
  ghost predicate Built(m: Machine, view: map<nat, Leaf>, m': Machine, t: Table) {
    && Wf(m', t) && Denote(m'.mem, t.root) == view
    && |t.nodes| == NodeCount(view) && Grew(m, [], m', t.nodes)
  }

  lemma BudgetOfNew(m: Machine, m': Machine, t: Table)
    requires t.nodes == [t.root] && Grew(m, [], m', t.nodes)
    ensures Budget(m', t) == Free(m)
  {
  }

  lemma EmptyPlus(rs: seq<Request>)
    ensures map[] + Asked(rs) == Asked(rs)
    ensures NodeCount(Asked(rs)) >= 1
  {
  }

  /** Building from scratch succeeds exactly when no two requests share a page, all are aligned and
      supported, and the free frames suffice for the nodes: one root, one per gigabyte and
      one per two megabytes in use. */
  lemma BuildTableExact(m: Machine, rs: seq<Request>)
    requires MachineOk(m)
    ensures BuildTable(m, rs).Ok? <==> Mappable(rs, {}) && NodeCount(Asked(rs)) <= Free(m)
    ensures BuildTable(m, rs).Ok? ==> Built(m, Asked(rs), BuildTable(m, rs).value.0, BuildTable(m, rs).value.1)
  {
    AllocateTableEmpty(m);
    EmptyPlus(rs);
    var r := AllocateTable(m);
    if r.Ok? {
      var (m', t) := r.value;
      BudgetOfNew(m, m', t);
      MapAllOkIff(m', t, rs);
      var o := MapAll(m', t, rs);
      if o.Ok? {
        MapAllMaps(m', t, rs);
        GrewTrans(m, [], m', t.nodes, o.value.0, o.value.1.nodes);
      }
    }
  }

  /** Mappable, said pairwise. */
  lemma {:induction false} MappableIff(rs: seq<Request>, taken: set<nat>)
    ensures Mappable(rs, taken) <==>
              && (forall i :: 0 <= i < |rs| ==> Aligned(rs[i]) && Vpn(rs[i].va) !in taken)
              && (forall i, j :: 0 <= i < j < |rs| ==> Vpn(rs[i].va) != Vpn(rs[j].va))
    decreases |rs|
  {
    if rs != [] && Aligned(rs[0]) {
      var rest, v := rs[1..], Vpn(rs[0].va);
      MappableIff(rest, taken + {v});
      assert forall i :: 0 < i < |rs| ==> rs[i] == rest[i - 1];
      assert forall i :: 0 <= i < |rest| ==> rest[i] == rs[i + 1];
    }
  }

  /** The asked map holds every request's leaf, and no page that no request asks for. */
  lemma {:induction false} AskedIff(rs: seq<Request>, taken: set<nat>)
    requires Mappable(rs, taken)
    ensures forall i :: 0 <= i < |rs| ==>
              rs[i].Map? && Vpn(rs[i].va) in Asked(rs) && Asked(rs)[Vpn(rs[i].va)] == LeafFor(rs[i])
    ensures forall vpn :: vpn in Asked(rs) ==> exists i :: 0 <= i < |rs| && rs[i].Map? && Vpn(rs[i].va) == vpn
    decreases |rs|
  {
    if rs != [] {
      var rest, v := rs[1..], Vpn(rs[0].va);
      AskedIff(rest, taken + {v});
      AskedAvoids(rest, taken + {v});
      forall vpn | vpn in Asked(rs)
        ensures exists i :: 0 <= i < |rs| && rs[i].Map? && Vpn(rs[i].va) == vpn
      {
        if vpn != v {
          var i :| 0 <= i < |rest| && rest[i].Map? && Vpn(rest[i].va) == vpn;
          assert rs[i + 1] == rest[i];
        }
      }
    }
  }

  // ------------------------------------------------------------- verification

  /** One turn of `verify_virt_area_mapping`: nothing is checked when the walk finds no slot. */
  predicate Verifies(mem: Memory, root: Frame, r: Request) {
    r.Map? &&
    match Find(mem, root, r.va)
    case Fault => false
    case Missing => true
    case Slot(f, i) =>
      var e := mem[f][i];
      e.low < 512 && BaseAddr(Target(e)) == r.pa && e.low == WithValid(r.flags)
  }

  /** The verification loop does not panic. */
  ghost predicate VerifiesAll(mem: Memory, root: Frame, rs: seq<Request>) {
    forall i :: 0 <= i < |rs| ==> Verifies(mem, root, rs[i])
  }

  /** A request passes exactly when its leaf is mapped as asked, or its two-megabyte region
      holds no page at all. */
  ghost predicate Passes(view: map<nat, Leaf>, r: Request) {
    && r.Map?
    && (RegionOf(Vpn(r.va)) in Regions(view) ==>
          r.pa % PAGE_SIZE == 0 && Vpn(r.va) in view && view[Vpn(r.va)] == LeafFor(r))
  }

  lemma VerifiesTree(mem: Memory, s: Shape, r: Request)
    requires Tree(mem, s) && r.Map?
    ensures Verifies(mem, s.root, r) <==>
              (RegionOf(Vpn(r.va)) in s.leaves ==>
                 r.pa % PAGE_SIZE == 0 && Vpn(r.va) in View(mem, s) && View(mem, s)[Vpn(r.va)] == LeafFor(r))
  {
    WalkTree(mem, s, r.va);
    if RegionOf(Vpn(r.va)) in s.leaves {
      var e := SlotEntry(mem, s, Vpn(r.va));
      assert LeafEntry(e);
      BaseAddrIs(e.ppn, r.pa);
    }
  }

  lemma BaseAddrIs(f: Frame, pa: Word)
    ensures BaseAddr(f) == pa <==> pa % PAGE_SIZE == 0 && FrameAt(pa) == f
  {
  }

  lemma VerifyPassesIff(m: Machine, t: Table, r: Request)
    requires Wf(m, t)
    ensures Verifies(m.mem, t.root, r) <==> Passes(Denote(m.mem, t.root), r)
  {
    var s :| Shaped(m, t, s);
    DenoteIsView(m.mem, s);
    if r.Map? {
      VerifiesTree(m.mem, s, r);
      assert RegionOf(Vpn(r.va)) in s.leaves <==> RegionOf(Vpn(r.va)) in s.leaves.Keys;
    }
  }

  /** A table built from rs verifies on all of rs. */
  lemma BuiltVerifies(m: Machine, rs: seq<Request>)
    requires MachineOk(m) && BuildTable(m, rs).Ok?
    ensures VerifiesAll(BuildTable(m, rs).value.0.mem, BuildTable(m, rs).value.1.root, rs)
  {
    BuildTableExact(m, rs);
    AskedIff(rs, {});
    MappableIff(rs, {});
    var (m', t) := BuildTable(m, rs).value;
    forall i | 0 <= i < |rs|
      ensures Verifies(m'.mem, t.root, rs[i])
    {
      VerifyPassesIff(m', t, rs[i]);
    }
  }

  /** Passing says nothing about pages that are not there: a fresh table, which maps nothing,
      passes for every list of supported requests. */
  lemma EmptyVerifies(m: Machine, t: Table, rs: seq<Request>)
    requires Wf(m, t) && Denote(m.mem, t.root) == map[]
    requires forall i :: 0 <= i < |rs| ==> rs[i].Map?
    ensures VerifiesAll(m.mem, t.root, rs)
  {
    forall i | 0 <= i < |rs|
      ensures Verifies(m.mem, t.root, rs[i])
    {
      VerifyPassesIff(m, t, rs[i]);
    }
  }

  // ----------------------------------------------------- verification as it is meant

  /** One turn of the verification that is meant: a page without a slot fails it. */
  predicate VerifiesIntended(mem: Memory, root: Frame, r: Request) {
    Verifies(mem, root, r) && Find(mem, root, r.va).Slot?
  }

  ghost predicate VerifiesAllIntended(mem: Memory, root: Frame, rs: seq<Request>) {
    forall i :: 0 <= i < |rs| ==> VerifiesIntended(mem, root, rs[i])
  }

  /** The page is mapped exactly as asked. */
  ghost predicate MappedAsAsked(view: map<nat, Leaf>, r: Request) {
    r.Map? && r.pa % PAGE_SIZE == 0 && Vpn(r.va) in view && view[Vpn(r.va)] == LeafFor(r)
  }

  /** As meant, a page passes exactly when it is mapped as asked. The code agrees exactly when the
      region of the page is in use, or the request is one that always panics. */
  lemma VerifyAgreesIff(m: Machine, t: Table, r: Request)
    requires Wf(m, t)
    ensures VerifiesIntended(m.mem, t.root, r) <==> MappedAsAsked(Denote(m.mem, t.root), r)
    ensures Verifies(m.mem, t.root, r) == VerifiesIntended(m.mem, t.root, r) <==>
              r.Unsupported? || RegionOf(Vpn(r.va)) in Regions(Denote(m.mem, t.root))
  {
    VerifyPassesIff(m, t, r);
    if r.Map? {
      FindSlotIff(m, t, r.va);
      assert Vpn(r.va) in Denote(m.mem, t.root) ==> RegionOf(Vpn(r.va)) in Regions(Denote(m.mem, t.root));
    }
  }

  /** Asked means: that frame, and V and the asked flags, bit by bit, and no other. */
  lemma AskedBits(view: map<nat, Leaf>, r: Request)
    ensures MappedAsAsked(view, r) <==> r.Map? && r.pa % PAGE_SIZE == 0 && MappedWith(view, r.va, r.pa, r.flags)
  {
    if r.Map? && Vpn(r.va) in view {
      var flags := view[Vpn(r.va)].flags;
      if MappedWith(view, r.va, r.pa, r.flags) {
        forall k | 0 <= k < 9
          ensures Bit(flags, k) <==> Bit(WithValid(r.flags), k)
        {
          ValidBits(r.flags, k);
        }
        Pow2Values();
        SameBits(flags, WithValid(r.flags), 9);
      } else if view[Vpn(r.va)] == LeafFor(r) {
        LeafMappedWith(view, r.va, r.pa, r.flags);
      }
    }
  }

  lemma FindSlotIff(m: Machine, t: Table, va: Word)
    requires Wf(m, t)
    ensures Find(m.mem, t.root, va).Slot? <==> RegionOf(Vpn(va)) in Regions(Denote(m.mem, t.root))
  {
    var s :| Shaped(m, t, s);
    DenoteIsView(m.mem, s);
    WalkTree(m.mem, s, va);
    assert RegionOf(Vpn(va)) in s.leaves <==> RegionOf(Vpn(va)) in s.leaves.Keys;
  }

  /** On a whole list the two forms agree exactly when the code already fails, or every region that
      is asked about is in use. */
  lemma VerifyAllAgreesIff(m: Machine, t: Table, rs: seq<Request>)
    requires Wf(m, t)
    ensures (VerifiesAll(m.mem, t.root, rs) <==> VerifiesAllIntended(m.mem, t.root, rs)) <==>
              || !VerifiesAll(m.mem, t.root, rs)
              || forall i :: 0 <= i < |rs| ==> rs[i].Map? && RegionOf(Vpn(rs[i].va)) in Regions(Denote(m.mem, t.root))
  {
    forall i | 0 <= i < |rs|
      ensures Verifies(m.mem, t.root, rs[i]) ==>
                (VerifiesIntended(m.mem, t.root, rs[i]) <==>
                   rs[i].Map? && RegionOf(Vpn(rs[i].va)) in Regions(Denote(m.mem, t.root)))
    {
      VerifyAgreesIff(m, t, rs[i]);
    }
  }

  /** A table built from rs verifies on all of rs as meant, too. */
  lemma BuiltVerifiesIntended(m: Machine, rs: seq<Request>)
    requires MachineOk(m) && BuildTable(m, rs).Ok?
    ensures VerifiesAllIntended(BuildTable(m, rs).value.0.mem, BuildTable(m, rs).value.1.root, rs)
  {
    BuildTableExact(m, rs);
    AskedIff(rs, {});
    MappableIff(rs, {});
    var (m', t) := BuildTable(m, rs).value;
    forall i | 0 <= i < |rs|
      ensures VerifiesIntended(m'.mem, t.root, rs[i])
    {
      VerifyAgreesIff(m', t, rs[i]);
    }
  }

  /** On a table that maps nothing, where the code passes everything, it fails every request. */
  lemma EmptyFailsIntended(m: Machine, t: Table, r: Request)
    requires Wf(m, t) && Denote(m.mem, t.root) == map[]
    ensures !VerifiesIntended(m.mem, t.root, r)
  {
    VerifyAgreesIff(m, t, r);
  }
}
