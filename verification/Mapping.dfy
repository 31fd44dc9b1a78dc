/** Mapping pages refines insertion into a partial map (kernel/src/mm/page_table.rs). */
module Mapping {
  import opened Wrappers
  import opened Bits
  import opened Sv39Format
  import opened Machines
  import opened PageTables
  import opened TableShapes

  ghost predicate Distinct<T>(s: seq<T>) {
    forall a, b :: 0 <= a < b < |s| ==> s[a] != s[b]
  }

  /** nodes lists exactly the frames of a tree of shape s, each once, all of them live. */
  ghost predicate Owned(m: Machine, nodes: seq<Frame>, s: Shape) {
    && MachineOk(m) && Tree(m.mem, s)
    && Lists(nodes, s) && AllLive(m, nodes)
  }

  ghost predicate Lists(nodes: seq<Frame>, s: Shape) {
    && |nodes| == 1 + |s.dirs| + |s.leaves| && Distinct(nodes)
    && s.root in nodes
    && (forall i :: i in s.dirs ==> s.dirs[i] in nodes)
    && (forall q :: q in s.leaves ==> s.leaves[q] in nodes)
  }

  ghost predicate AllLive(m: Machine, nodes: seq<Frame>) {
    forall f: Frame :: f in nodes ==> Live(m, f)
  }

  /** From m to m' the frames nodes' - nodes were taken from the free ones, and no memory
      outside nodes' was touched. */
  ghost predicate Grew(m: Machine, nodes: seq<Frame>, m': Machine, nodes': seq<Frame>) {
    && nodes <= nodes' && m'.first == m.first && |m'.pages| == |m.pages|
    && Free(m) == Free(m') + |nodes'| - |nodes|
    && (forall f: Frame :: f in nodes' && f !in nodes ==> !Live(m, f))
    && (forall f: Frame :: Live(m', f) <==> Live(m, f) || (f in nodes' && f !in nodes))
    && (forall f :: f in m.mem && f !in nodes' ==> f in m'.mem && m'.mem[f] == m.mem[f])
  }

  lemma GrewTrans(m: Machine, nodes: seq<Frame>, m1: Machine, nodes1: seq<Frame>, m2: Machine, nodes2: seq<Frame>)
    requires Grew(m, nodes, m1, nodes1) && Grew(m1, nodes1, m2, nodes2)
    ensures Grew(m, nodes, m2, nodes2)
  {
  }

  /** Allocating a node for slot (d, j) hangs a frame that is in no tree. */
  lemma HangNode(m: Machine, nodes: seq<Frame>, d: Frame, j: nat)
    requires MachineOk(m) && d in nodes && d in m.mem && j < ENTRIES && m.mem[d][j] == Pte(0, 0)
    requires AllLive(m, nodes)
    ensures match Descend(m, nodes, d, j)
            case Panic => Free(m) == 0
            case Ok((m', nodes', f)) =>
              && nodes' == nodes + [f] && f !in nodes && MachineOk(m')
              && Hung(m.mem, m'.mem, d, j, f) && Grew(m, nodes, m', nodes')
  {
    AllocateZeroedTakes(m);
    var a := AllocateZeroed(m);
    if a.Ok? {
      var (m', f) := a.value;
      var m'' := m'.(mem := Write(m'.mem, d, j, Pte(f, VALID)));
      assert Descend(m, nodes, d, j) == Ok((m'', nodes + [f], f));
      assert forall g :: Live(m'', g) == Live(m', g);
    }
  }

  /** What a successful interior step leaves behind: a tree of shape s' that maps the same pages. */
  ghost predicate Stepped(m: Machine, nodes: seq<Frame>, s: Shape, m': Machine, nodes': seq<Frame>, s': Shape) {
    Owned(m, nodes, s) && Owned(m', nodes', s') && Grew(m, nodes, m', nodes') && View(m'.mem, s') == View(m.mem, s)
  }

  lemma OutsideLists(nodes: seq<Frame>, s: Shape, f: Frame)
    requires Lists(nodes, s) && f !in nodes
    ensures Outside(s, f)
  {
  }

  lemma ListsDir(nodes: seq<Frame>, s: Shape, i: nat, f: Frame)
    requires Lists(nodes, s) && f !in nodes && i !in s.dirs
    ensures Lists(nodes + [f], s.(dirs := s.dirs[i := f]))
  {
  }

  lemma ListsRegion(nodes: seq<Frame>, s: Shape, q: Region, f: Frame)
    requires Lists(nodes, s) && f !in nodes && q !in s.leaves
    ensures Lists(nodes + [f], s.(leaves := s.leaves[q := f]))
  {
  }

  lemma GrewAllLive(m: Machine, nodes: seq<Frame>, m': Machine, nodes': seq<Frame>)
    requires AllLive(m, nodes) && Grew(m, nodes, m', nodes')
    ensures AllLive(m', nodes')
  {
  }

  lemma NewDir(m: Machine, nodes: seq<Frame>, s: Shape, i: nat, m': Machine, f: Frame)
    requires Owned(m, nodes, s) && i !in s.dirs && MachineOk(m')
    requires f !in nodes && Hung(m.mem, m'.mem, s.root, i, f) && Grew(m, nodes, m', nodes + [f])
    ensures Stepped(m, nodes, s, m', nodes + [f], s.(dirs := s.dirs[i := f]))
  {
    OutsideLists(nodes, s, f);
    AddDir(m.mem, s, i, f, m'.mem, s.(dirs := s.dirs[i := f]));
    ListsDir(nodes, s, i, f);
    GrewAllLive(m, nodes, m', nodes + [f]);
  }

  lemma NewRegion(m: Machine, nodes: seq<Frame>, s: Shape, q: Region, m': Machine, f: Frame)
    requires Owned(m, nodes, s) && q.top in s.dirs && q !in s.leaves && MachineOk(m')
    requires f !in nodes && Hung(m.mem, m'.mem, s.dirs[q.top], q.mid, f) && Grew(m, nodes, m', nodes + [f])
    ensures Stepped(m, nodes, s, m', nodes + [f], s.(leaves := s.leaves[q := f]))
  {
    OutsideLists(nodes, s, f);
    AddRegion(m.mem, s, q, f, m'.mem, s.(leaves := s.leaves[q := f]));
    ListsRegion(nodes, s, q, f);
    GrewAllLive(m, nodes, m', nodes + [f]);
  }

  lemma GrewRefl(m: Machine, nodes: seq<Frame>)
    ensures Grew(m, nodes, m, nodes)
  {
  }

  lemma UpdateSame<K, V>(m: map<K, V>, k: K)
    requires k in m
    ensures m[k := m[k]] == m
  {
  }

  lemma DescendInto(m: Machine, nodes: seq<Frame>, d: Frame, j: nat, f: Frame)
    requires HeapFits(m) && d in m.mem && j < ENTRIES && m.mem[d][j] == Pointer(f)
    ensures Descend(m, nodes, d, j) == Ok((m, nodes, f))
  {
  }

  lemma SteppedRefl(m: Machine, nodes: seq<Frame>, s: Shape)
    requires Owned(m, nodes, s)
    ensures Stepped(m, nodes, s, m, nodes, s)
  {
    GrewRefl(m, nodes);
  }

  /** The first interior step of `find_allocate`: afterwards the level-1 node exists. */
  lemma EnsureDir(m: Machine, nodes: seq<Frame>, s: Shape, i: nat)
    requires Owned(m, nodes, s) && i < ENTRIES
    ensures match Descend(m, nodes, s.root, i)
            case Panic => i !in s.dirs && Free(m) == 0
            case Ok((m', nodes', next)) =>
              && Stepped(m, nodes, s, m', nodes', s.(dirs := s.dirs[i := next]))
              && (i in s.dirs ==> s.dirs[i] == next)
              && |nodes'| == |nodes| + (if i in s.dirs then 0 else 1)
  {
    if i in s.dirs {
      DescendInto(m, nodes, s.root, i, s.dirs[i]);
      SteppedRefl(m, nodes, s);
      UpdateSame(s.dirs, i);
    } else {
      HangNode(m, nodes, s.root, i);
      var r := Descend(m, nodes, s.root, i);
      if r.Ok? {
        NewDir(m, nodes, s, i, r.value.0, r.value.2);
      }
    }
  }

  /** The second interior step: afterwards the level-0 node exists. */
  lemma EnsureRegion(m: Machine, nodes: seq<Frame>, s: Shape, q: Region)
    requires Owned(m, nodes, s) && q.top in s.dirs && q.mid < ENTRIES
    ensures match Descend(m, nodes, s.dirs[q.top], q.mid)
            case Panic => q !in s.leaves && Free(m) == 0
            case Ok((m', nodes', next)) =>
              && Stepped(m, nodes, s, m', nodes', s.(leaves := s.leaves[q := next]))
              && (q in s.leaves ==> s.leaves[q] == next)
              && |nodes'| == |nodes| + (if q in s.leaves then 0 else 1)
  {
    var d := s.dirs[q.top];
    if q in s.leaves {
      DescendInto(m, nodes, d, q.mid, s.leaves[q]);
      SteppedRefl(m, nodes, s);
      UpdateSame(s.leaves, q);
    } else {
      assert q == Region(q.top, q.mid);
      HangNode(m, nodes, d, q.mid);
      var r := Descend(m, nodes, d, q.mid);
      if r.Ok? {
        NewRegion(m, nodes, s, q, r.value.0, r.value.2);
      }
    }
  }

  /** Nodes that a mapping in region q still lacks: 0, 1 or 2. */
  function Needs(s: Shape, q: Region): nat {
    (if q.top in s.dirs then 0 else 1) + (if q in s.leaves then 0 else 1)
  }

  /** The tree after a successful `find_allocate` for page vpn: it still maps view, holds the
      nodes that vpn lacked, and the slot is that of vpn. */
  ghost predicate Ready(root: Frame, view: map<nat, Leaf>, vpn: nat, g: Grown, s: Shape) {
    && Owned(g.m, g.nodes, s) && s.root == root && View(g.m.mem, s) == view
    && RegionOf(vpn) in s.leaves && g.frame == s.leaves[RegionOf(vpn)] && g.index == vpn % 512
  }

  /** The two interior steps of `find_allocate` one after the other. */
  function DescendTwice(m: Machine, nodes: seq<Frame>, root: Frame, q: Region): Outcome<(Machine, seq<Frame>, Frame)>
    requires HeapFits(m) && q.top < ENTRIES && q.mid < ENTRIES
  {
    var (m1, nodes1, d) :- Descend(m, nodes, root, q.top);
    Descend(m1, nodes1, d, q.mid)
  }

  lemma LeafHasDir(mem: Memory, s: Shape, q: Region)
    requires Tree(mem, s)
    ensures q in s.leaves ==> q.top in s.dirs
  {
  }

  /** They fail exactly when the missing nodes outnumber the free frames. */
  lemma DescendTwiceGrows(m: Machine, nodes: seq<Frame>, s: Shape, q: Region) returns (s': Shape)
    requires Owned(m, nodes, s) && q.top < ENTRIES && q.mid < ENTRIES
    ensures match DescendTwice(m, nodes, s.root, q)
            case Panic => Free(m) < Needs(s, q)
            case Ok((m', nodes', leaf)) =>
              && Owned(m', nodes', s') && View(m'.mem, s') == View(m.mem, s) && Grew(m, nodes, m', nodes')
              && s'.root == s.root && s'.dirs.Keys == s.dirs.Keys + {q.top} && s'.leaves.Keys == s.leaves.Keys + {q}
              && s'.leaves[q] == leaf && |nodes'| == |nodes| + Needs(s, q)
  {
    hide Tree, Lists, AllLive, View;
    LeafHasDir(m.mem, s, q);
    EnsureDir(m, nodes, s, q.top);
    s' := s;
    var r1 := Descend(m, nodes, s.root, q.top);
    if r1.Panic? {
      assert q !in s.leaves;
      return;
    }
    var (m1, nodes1, d) := r1.value;
    var s1 := s.(dirs := s.dirs[q.top := d]);
    s' := FindAllocateBelow(m1, nodes1, s1, q);
    KeysUpdate(s.dirs, q.top, d);
    assert Needs(s, q) == |nodes1| - |nodes| + (if q in s1.leaves then 0 else 1);
    var r2 := Descend(m1, nodes1, d, q.mid);
    if r2.Ok? {
      GrewTrans(m, nodes, m1, nodes1, r2.value.0, r2.value.1);
    }
  }

  lemma FindAllocateBelow(m: Machine, nodes: seq<Frame>, s: Shape, q: Region) returns (s': Shape)
    requires Owned(m, nodes, s) && q.top in s.dirs && q.mid < ENTRIES
    ensures match Descend(m, nodes, s.dirs[q.top], q.mid)
            case Panic => q !in s.leaves && Free(m) == 0
            case Ok((m', nodes', next)) =>
              && Owned(m', nodes', s') && View(m'.mem, s') == View(m.mem, s) && Grew(m, nodes, m', nodes')
              && s'.root == s.root && s'.dirs == s.dirs && s'.leaves.Keys == s.leaves.Keys + {q}
              && s'.leaves[q] == next && |nodes'| == |nodes| + (if q in s.leaves then 0 else 1)
  {
    EnsureRegion(m, nodes, s, q);
    s' := s;
    var r := Descend(m, nodes, s.dirs[q.top], q.mid);
    if r.Ok? {
      s' := s.(leaves := s.leaves[q := r.value.2]);
      KeysUpdate(s.leaves, q, r.value.2);
    }
  }

  lemma KeysUpdate<K, V>(m: map<K, V>, k: K, v: V)
    ensures m[k := v].Keys == m.Keys + {k}
  {
  }

  lemma FindAllocateChain(m: Machine, nodes: seq<Frame>, root: Frame, va: Word, q: Region)
    requires HeapFits(m) && q == Region(Index(va, 2), Index(va, 1))
    ensures var r := DescendTwice(m, nodes, root, q);
            FindAllocate(m, nodes, root, va, 2) ==
              if r.Panic? || r.value.2 !in r.value.0.mem then Panic
              else Ok(Grown(r.value.0, r.value.1, r.value.2, Index(va, 0)))
  {
  }

  /** `find_allocate` fails exactly when the missing nodes outnumber the free frames. */
  lemma FindAllocateGrows(m: Machine, nodes: seq<Frame>, s: Shape, va: Word) returns (s': Shape)
    requires Owned(m, nodes, s)
    ensures FindAllocate(m, nodes, s.root, va, 2).Panic? ==> Free(m) < Needs(s, RegionOf(Vpn(va)))
    ensures FindAllocate(m, nodes, s.root, va, 2).Ok? ==>
              var g, q := FindAllocate(m, nodes, s.root, va, 2).value, RegionOf(Vpn(va));
              && Ready(s.root, View(m.mem, s), Vpn(va), g, s') && Grew(m, nodes, g.m, g.nodes)
              && |g.nodes| == |nodes| + Needs(s, q)
              && s'.dirs.Keys == s.dirs.Keys + {q.top} && s'.leaves.Keys == s.leaves.Keys + {q}
  {
    IndicesRecombine(va);
    var q := Region(Index(va, 2), Index(va, 1));
    s' := DescendTwiceGrows(m, nodes, s, q);
    FindAllocateChain(m, nodes, s.root, va, q);
  }

  // --------------------------------------------------- well-formed tables

  /** t is a table of shape s, and no node is there without a page below it. */
  ghost predicate Shaped(m: Machine, t: Table, s: Shape) {
    Owned(m, t.nodes, s) && s.root == t.root && Tight(s, View(m.mem, s))
  }

  ghost predicate Tight(s: Shape, view: map<nat, Leaf>) {
    s.dirs.Keys == Dirs(view) && s.leaves.Keys == Regions(view)
  }

  /** The invariant of every table. */
  ghost predicate Wf(m: Machine, t: Table) {
    exists s :: Shaped(m, t, s)
  }

  /** Exact node count: one root, one node per gigabyte and one per two megabytes in use. */
  lemma NodeCountExact(m: Machine, t: Table)
    requires Wf(m, t)
    ensures |t.nodes| == NodeCount(Denote(m.mem, t.root))
  {
    var s :| Shaped(m, t, s);
    DenoteIsView(m.mem, s);
    assert |s.dirs| == |s.dirs.Keys| && |s.leaves| == |s.leaves.Keys|;
  }

  /** Nodes to add before a page in region q can be mapped. */
  ghost function Lacking(view: map<nat, Leaf>, q: Region): nat {
    (if q.top in Dirs(view) then 0 else 1) + (if q in Regions(view) then 0 else 1)
  }

  lemma NeedsIsLacking(s: Shape, view: map<nat, Leaf>, q: Region)
    requires Tight(s, view)
    ensures Needs(s, q) == Lacking(view, q)
  {
  }

  lemma TightInsert(view: map<nat, Leaf>, vpn: nat, leaf: Leaf)
    ensures Dirs(view[vpn := leaf]) == Dirs(view) + {RegionOf(vpn).top}
    ensures Regions(view[vpn := leaf]) == Regions(view) + {RegionOf(vpn)}
  {
  }

  /** m', t' is m, t with one more page mapped, and only the nodes it lacked added. */
  ghost predicate Inserted(m: Machine, t: Table, vpn: nat, leaf: Leaf, m': Machine, t': Table) {
    var view := Denote(m.mem, t.root);
    && Wf(m', t') && t'.root == t.root
    && Denote(m'.mem, t'.root) == view[vpn := leaf]
    && |t'.nodes| == |t.nodes| + Lacking(view, RegionOf(vpn))
    && Grew(m, t.nodes, m', t'.nodes)
  }

  /** `map_one_allocate` refines insertion into the map. It succeeds exactly when the page is
      unmapped, pa is aligned and enough frames are free for the missing nodes. */
  lemma MapOneInserts(m: Machine, t: Table, va: Word, pa: Word, flags: Flags)
    requires Wf(m, t)
    ensures var view, r := Denote(m.mem, t.root), MapOneAllocate(m, t, va, pa, flags);
            && (r.Ok? <==> Vpn(va) !in view && pa % PAGE_SIZE == 0 && Free(m) >= Lacking(view, RegionOf(Vpn(va))))
            && (r.Ok? ==> Inserted(m, t, Vpn(va), Leaf(FrameAt(pa), WithValid(flags)), r.value.0, r.value.1))
  {
    var s :| Shaped(m, t, s);
    DenoteIsView(m.mem, s);
    var s' := FindAllocateGrows(m, t.nodes, s, va);
    NeedsIsLacking(s, View(m.mem, s), RegionOf(Vpn(va)));
    var r := FindAllocate(m, t.nodes, t.root, va, 2);
    if r.Ok? {
      MapFound(m, t, View(m.mem, s), Vpn(va), pa, flags, r.value, s');
    }
  }

  lemma MapFound(m: Machine, t: Table, view: map<nat, Leaf>, vpn: nat, pa: Word, flags: Flags, g: Grown, s: Shape)
    requires vpn < VPNS && Ready(t.root, view, vpn, g, s) && Grew(m, t.nodes, g.m, g.nodes)
    requires s.dirs.Keys == Dirs(view) + {RegionOf(vpn).top} && s.leaves.Keys == Regions(view) + {RegionOf(vpn)}
    ensures g.frame in g.m.mem && g.index < ENTRIES
    ensures var r := FinishMap(g, t.root, pa, flags);
            && (r.Ok? <==> vpn !in view && pa % PAGE_SIZE == 0)
            && (r.Ok? ==>
                  var (m', t') := r.value;
                  && Wf(m', t') && t' == Table(t.root, g.nodes) && Grew(m, t.nodes, m', g.nodes)
                  && Denote(m'.mem, t.root) == view[vpn := Leaf(FrameAt(pa), WithValid(flags))])
  {
    var e := Pte(FrameAt(pa), WithValid(flags));
    FinishDecides(t.root, view, vpn, pa, flags, g, s);
    if vpn !in view && pa % PAGE_SIZE == 0 {
      FinishInserts(t.root, view, vpn, e, g, s);
      assert g.frame in g.nodes;
      GrewWrite(m, t.nodes, g.m, g.nodes, g.frame, g.index, e);
    }
  }

  lemma FinishDecides(root: Frame, view: map<nat, Leaf>, vpn: nat, pa: Word, flags: Flags, g: Grown, s: Shape)
    requires vpn < VPNS && Ready(root, view, vpn, g, s)
    ensures g.frame in g.m.mem && g.index < ENTRIES
    ensures FinishMap(g, root, pa, flags) ==
              if vpn in view || pa % PAGE_SIZE != 0 then Panic
              else Ok((g.m.(mem := Write(g.m.mem, g.frame, g.index, Pte(FrameAt(pa), WithValid(flags)))),
                       Table(root, g.nodes)))
  {
    SlotValidIff(g.m.mem, s, vpn);
  }

  lemma FinishInserts(root: Frame, view: map<nat, Leaf>, vpn: nat, e: Pte, g: Grown, s: Shape)
    requires vpn < VPNS && Ready(root, view, vpn, g, s) && LeafEntry(e) && IsValid(e.low)
    requires s.dirs.Keys == Dirs(view) + {RegionOf(vpn).top} && s.leaves.Keys == Regions(view) + {RegionOf(vpn)}
    ensures var m' := g.m.(mem := Write(g.m.mem, g.frame, g.index, e));
            Wf(m', Table(root, g.nodes)) && Denote(m'.mem, root) == view[vpn := LeafOf(e)]
  {
    var m' := g.m.(mem := Write(g.m.mem, g.frame, g.index, e));
    FillSlot(g.m, g.nodes, s, vpn, e);
    TightInsert(view, vpn, LeafOf(e));
    DenoteIsView(m'.mem, s);
    assert Shaped(m', Table(root, g.nodes), s);
  }

  lemma SlotValidIff(mem: Memory, s: Shape, vpn: nat)
    requires LeavesOk(mem, s) && vpn < VPNS && RegionOf(vpn) in s.leaves
    ensures var e := mem[s.leaves[RegionOf(vpn)]][vpn % 512];
            e.low < 512 && (IsValid(e.low) <==> vpn in View(mem, s))
  {
  }

  lemma GrewWrite(m: Machine, nodes: seq<Frame>, m': Machine, nodes': seq<Frame>, f: Frame, i: nat, e: Pte)
    requires Grew(m, nodes, m', nodes') && f in nodes' && f in m'.mem && i < ENTRIES
    ensures Grew(m, nodes, m'.(mem := Write(m'.mem, f, i, e)), nodes')
  {
  }

  lemma FillSlot(m: Machine, nodes: seq<Frame>, s: Shape, vpn: nat, e: Pte)
    requires Owned(m, nodes, s) && vpn < VPNS && RegionOf(vpn) in s.leaves
    requires LeafEntry(e) && IsValid(e.low)
    ensures var m' := m.(mem := Write(m.mem, s.leaves[RegionOf(vpn)], vpn % 512, e));
            Owned(m', nodes, s) && View(m'.mem, s) == View(m.mem, s)[vpn := LeafOf(e)]
  {
    SetLeaf(m.mem, s, vpn, e);
    OwnedWithMemory(m, nodes, s, Write(m.mem, s.leaves[RegionOf(vpn)], vpn % 512, e));
  }

  lemma OwnedWithMemory(m: Machine, nodes: seq<Frame>, s: Shape, mem: Memory)
    requires MachineOk(m) && Lists(nodes, s) && AllLive(m, nodes) && Tree(mem, s)
    ensures Owned(m.(mem := mem), nodes, s)
  {
    hide Tree, Lists;
    assert forall f :: Live(m.(mem := mem), f) == Live(m, f);
  }

  // ------------------------------------------------------- mapping without allocating

  /** `map_one`: None when the walk finds no level-0 node. */
  function MapOne(mem: Memory, root: Frame, va: Word, pa: Word, flags: Flags): Outcome<Option<Memory>> {
    match Find(mem, root, va)
    case Fault => Panic
    case Missing => Ok(None)
    case Slot(f, i) =>
      var e := mem[f][i];
      if e.low >= 512 || IsValid(e.low) then Panic
      else Ok(Some(Write(mem, f, i, Pte(FrameAt(pa), WithValid(flags)))))
  }

  lemma MapOneTree(mem: Memory, s: Shape, va: Word, pa: Word, flags: Flags)
    requires Tree(mem, s)
    ensures RegionOf(Vpn(va)) !in s.leaves ==> MapOne(mem, s.root, va, pa, flags) == Ok(None)
    ensures RegionOf(Vpn(va)) in s.leaves ==>
              MapOne(mem, s.root, va, pa, flags) ==
                if Vpn(va) in View(mem, s) then Panic
                else Ok(Some(Write(mem, s.leaves[RegionOf(Vpn(va))], Vpn(va) % 512,
                                   Pte(FrameAt(pa), WithValid(flags)))))
  {
    WalkTree(mem, s, va);
    if RegionOf(Vpn(va)) in s.leaves {
      SlotValidIff(mem, s, Vpn(va));
    }
  }

  /** No memory but the frames of nodes differs between mem and mem'. */
  ghost predicate OnlyNodesDiffer(mem: Memory, mem': Memory, nodes: seq<Frame>) {
    mem'.Keys == mem.Keys && forall f :: f in mem && f !in nodes ==> mem'[f] == mem[f]
  }

  /** `map_one` answers None for exactly the regions that hold no page, panics for exactly the
      mapped pages, and inserts otherwise, into the page frame of an unaligned pa too. */
  lemma MapOneFills(m: Machine, t: Table, va: Word, pa: Word, flags: Flags)
    requires Wf(m, t)
    ensures var view, r := Denote(m.mem, t.root), MapOne(m.mem, t.root, va, pa, flags);
            && (r == Ok(None) <==> RegionOf(Vpn(va)) !in Regions(view))
            && (r.Panic? <==> Vpn(va) in view)
            && (r.Ok? && r.value.Some? ==>
                  && Wf(m.(mem := r.value.value), t) && OnlyNodesDiffer(m.mem, r.value.value, t.nodes)
                  && Denote(r.value.value, t.root) == view[Vpn(va) := Leaf(FrameAt(pa), WithValid(flags))])
  {
    var s :| Shaped(m, t, s);
    DenoteIsView(m.mem, s);
    MapOneTree(m.mem, s, va, pa, flags);
    assert RegionOf(Vpn(va)) in s.leaves <==> RegionOf(Vpn(va)) in s.leaves.Keys;
    if RegionOf(Vpn(va)) in s.leaves {
      FillShaped(m, t, s, Vpn(va), Pte(FrameAt(pa), WithValid(flags)));
      WriteInNodes(m.mem, t.nodes, s.leaves[RegionOf(Vpn(va))], Vpn(va) % 512, Pte(FrameAt(pa), WithValid(flags)));
    }
  }

  /** The page va of view is mapped to the frame of pa, and has V and the given flags, bit by bit. */
  ghost predicate MappedWith(view: map<nat, Leaf>, va: Word, pa: Word, flags: Flags) {
    && Vpn(va) in view && view[Vpn(va)].frame == pa / PAGE_SIZE
    && forall k :: 0 <= k < 9 ==> (Bit(view[Vpn(va)].flags, k) <==> k == 0 || Bit(flags, k))
  }

  lemma LeafMappedWith(view: map<nat, Leaf>, va: Word, pa: Word, flags: Flags)
    requires Vpn(va) in view && view[Vpn(va)] == Leaf(FrameAt(pa), WithValid(flags))
    ensures MappedWith(view, va, pa, flags)
  {
    forall k | 0 <= k < 9
      ensures Bit(view[Vpn(va)].flags, k) <==> k == 0 || Bit(flags, k)
    {
      ValidBits(flags, k);
    }
  }

  /** `map_one_allocate` and `map_one` leave a leaf with V and the asked flags, and no other flag. */
  lemma MapSetsFlags(m: Machine, t: Table, va: Word, pa: Word, flags: Flags)
    requires Wf(m, t)
    ensures var r := MapOneAllocate(m, t, va, pa, flags);
            r.Ok? ==> MappedWith(Denote(r.value.0.mem, r.value.1.root), va, pa, flags)
    ensures var r := MapOne(m.mem, t.root, va, pa, flags);
            r.Ok? && r.value.Some? ==> MappedWith(Denote(r.value.value, t.root), va, pa, flags)
  {
    assert HeapFits(m);
    hide Wf, MapOneAllocate, MapOne, Denote, MappedWith;
    MapOneInserts(m, t, va, pa, flags);
    MapOneFills(m, t, va, pa, flags);
    var r, r' := MapOneAllocate(m, t, va, pa, flags), MapOne(m.mem, t.root, va, pa, flags);
    if r.Ok? {
      LeafMappedWith(Denote(r.value.0.mem, r.value.1.root), va, pa, flags);
    }
    if r'.Ok? && r'.value.Some? {
      LeafMappedWith(Denote(r'.value.value, t.root), va, pa, flags);
    }
  }

  lemma FillShaped(m: Machine, t: Table, s: Shape, vpn: nat, e: Pte)
    requires Shaped(m, t, s) && vpn < VPNS && RegionOf(vpn) in s.leaves && LeafEntry(e) && IsValid(e.low)
    ensures var mem := Write(m.mem, s.leaves[RegionOf(vpn)], vpn % 512, e);
            Wf(m.(mem := mem), t) && Denote(mem, t.root) == View(m.mem, s)[vpn := LeafOf(e)]
  {
    var mem := Write(m.mem, s.leaves[RegionOf(vpn)], vpn % 512, e);
    FillSlot(m, t.nodes, s, vpn, e);
    DenoteIsView(mem, s);
    TightKept(s, View(m.mem, s), vpn, LeafOf(e));
    assert Shaped(m.(mem := mem), t, s);
  }

  lemma WriteInNodes(mem: Memory, nodes: seq<Frame>, f: Frame, i: nat, e: Pte)
    requires f in nodes && f in mem && i < ENTRIES
    ensures OnlyNodesDiffer(mem, Write(mem, f, i, e), nodes)
  {
  }

  lemma TightKept(s: Shape, view: map<nat, Leaf>, vpn: nat, leaf: Leaf)
    requires Tight(s, view) && RegionOf(vpn) in s.leaves.Keys
    ensures Tight(s, view[vpn := leaf])
  {
  }
}
