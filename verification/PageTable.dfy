/** The page table as the kernel builds and reads it (kernel/src/mm/page_table.rs), on values. */
module PageTables {
  import opened Wrappers
  import opened Bits
  import opened Sv39Format
  import opened Machines

  /** `PageTableGuard`: the root and the frames of all nodes, in order of allocation. */
  datatype Table = Table(root: Frame, nodes: seq<Frame>)

  // ----------------------------------------------------------------- walking

  /** Where `find` ends: at a leaf slot, at an invalid interior entry, or in a fault (an entry
      with an undefined flag, or a frame that is not memory). */
  datatype Walked = Slot(frame: Frame, index: nat) | Missing | Fault

  /** `find`, from a node of the given level down. */
  function Walk(mem: Memory, table: Frame, va: Word, level: nat): (w: Walked)
    requires level <= 2
    ensures w.Slot? ==> w.frame in mem && w.index < ENTRIES
    decreases level
  {
    if table !in mem then Fault
    else
      var index := Index(va, level);
      if level == 0 then Slot(table, index)
      else
        var e := mem[table][index];
        if e.low >= 512 then Fault
        else if !IsValid(e.low) then Missing
        else Walk(mem, Target(e), va, level - 1)
  }

  function Find(mem: Memory, root: Frame, va: Word): (w: Walked)
    ensures w.Slot? ==> w.frame in mem && w.index < ENTRIES
  {
    Walk(mem, root, va, 2)
  }

  // ---------------------------------------------------------------- building

  /** `PageTableGuard::allocate`. */
  function AllocateTable(m: Machine): Outcome<(Machine, Table)>
    requires HeapFits(m)
  {
    var (m', f) :- AllocateZeroed(m);
    Ok((m', Table(f, [f])))
  }

  /** The interior step of `find_allocate`: follow a valid entry, or allocate a node for it. */
  function Descend(m: Machine, nodes: seq<Frame>, table: Frame, index: nat): (r: Outcome<(Machine, seq<Frame>, Frame)>)
    requires HeapFits(m) && index < ENTRIES
    ensures r.Ok? ==> HeapFits(r.value.0)
  {
    if table !in m.mem then Panic
    else
      var e := m.mem[table][index];
      if e.low >= 512 then Panic
      else if IsValid(e.low) then Ok((m, nodes, Target(e)))
      else
        var (m', f) :- AllocateZeroed(m);
        Ok((m'.(mem := Write(m'.mem, table, index, Pte(f, VALID))), nodes + [f], f))
  }

  datatype Grown = Grown(m: Machine, nodes: seq<Frame>, frame: Frame, index: nat)

  /** `find_allocate`, from a node of the given level down. */
  function FindAllocate(m: Machine, nodes: seq<Frame>, table: Frame, va: Word, level: nat): (r: Outcome<Grown>)
    requires HeapFits(m) && level <= 2
    ensures r.Ok? ==> HeapFits(r.value.m) && r.value.frame in r.value.m.mem && r.value.index < ENTRIES
    decreases level
  {
    var index := Index(va, level);
    if level == 0 then
      if table !in m.mem then Panic else Ok(Grown(m, nodes, table, index))
    else
      var (m', nodes', next) :- Descend(m, nodes, table, index);
      FindAllocate(m', nodes', next, va, level - 1)
  }

  /** The end of `map_one_allocate`: its assertions fail on a valid slot and on an unaligned pa. */
  function FinishMap(g: Grown, root: Frame, pa: Word, flags: Flags): Outcome<(Machine, Table)>
    requires g.frame in g.m.mem && g.index < ENTRIES
  {
    var e := g.m.mem[g.frame][g.index];
    if e.low >= 512 || IsValid(e.low) || pa % PAGE_SIZE != 0 then Panic
    else
      var leaf := Pte(FrameAt(pa), WithValid(flags));
      Ok((g.m.(mem := Write(g.m.mem, g.frame, g.index, leaf)), Table(root, g.nodes)))
  }

  /** `map_one_allocate`. */
  function MapOneAllocate(m: Machine, t: Table, va: Word, pa: Word, flags: Flags): (r: Outcome<(Machine, Table)>)
    requires HeapFits(m)
    ensures r.Ok? ==> HeapFits(r.value.0)
  {
    var g :- FindAllocate(m, t.nodes, t.root, va, 2);
    FinishMap(g, t.root, pa, flags)
  }

  // -------------------------------------------------------------- denotation

  /** What a leaf entry says: the frame and all nine flags. */
  datatype Leaf = Leaf(frame: Frame, flags: Flags)

  /** A leaf entry the kernel can have written: bit 9 and bits 62 and 63 are clear. */
  predicate LeafEntry(e: Pte) {
    e.low < 512 && e.ppn < 0x10_0000_0000_0000
  }

  function LeafOf(e: Pte): Leaf
    requires LeafEntry(e)
  {
    Leaf(e.ppn, e.low)
  }

  /** The walk for page vpn ends at a valid, well-formed leaf entry. */
  predicate Mapped(mem: Memory, root: Frame, vpn: nat)
    requires vpn < VPNS
  {
    var w := Find(mem, root, vpn * PAGE_SIZE);
    w.Slot? && var e := mem[w.frame][w.index]; LeafEntry(e) && IsValid(e.low)
  }

  function LeafAt(mem: Memory, root: Frame, vpn: nat): Leaf
    requires vpn < VPNS && Mapped(mem, root, vpn)
  {
    var w := Find(mem, root, vpn * PAGE_SIZE);
    LeafOf(mem[w.frame][w.index])
  }

  /** The partial map from page numbers to leaves that a table stands for. */
  ghost function Denote(mem: Memory, root: Frame): map<nat, Leaf> {
    map vpn | 0 <= vpn < VPNS && Mapped(mem, root, vpn) :: LeafAt(mem, root, vpn)
  }

  ghost function Dirs(view: map<nat, Leaf>): set<nat> {
    set vpn | vpn in view :: RegionOf(vpn).top
  }

  ghost function Regions(view: map<nat, Leaf>): set<Region> {
    set vpn | vpn in view :: RegionOf(vpn)
  }

  /** Nodes needed to hold exactly the pages of view: one root, one node per gigabyte and one
      per two megabytes in use. */
  ghost function NodeCount(view: map<nat, Leaf>): nat {
    1 + |Dirs(view)| + |Regions(view)|
  }
}

/** The shape of the tree behind a table, and how each kind of write changes it. */
module TableShapes {
  import opened Wrappers
  import opened Bits
  import opened Sv39Format
  import opened Machines
  import opened PageTables

  /** dirs holds the level-1 nodes by top index, leaves the level-0 nodes by region. */
  datatype Shape = Shape(root: Frame, dirs: map<nat, Frame>, leaves: map<Region, Frame>)

  /** An interior entry: flags are exactly VALID. */
  function Pointer(f: Frame): Pte {
    Pte(f, VALID)
  }

  /** f is no node of the tree. */
  ghost predicate Outside(s: Shape, f: Frame) {
    && f != s.root
    && (forall i :: i in s.dirs ==> s.dirs[i] != f)
    && (forall q :: q in s.leaves ==> s.leaves[q] != f)
  }

  ghost predicate RootOk(mem: Memory, s: Shape) {
    && s.root in mem
    && (forall i :: i in s.dirs ==> i < ENTRIES && s.dirs[i] in mem && mem[s.root][i] == Pointer(s.dirs[i]))
    && (forall i :: 0 <= i < ENTRIES && i !in s.dirs ==> mem[s.root][i] == Pte(0, 0))
  }

  ghost predicate DirsOk(mem: Memory, s: Shape)
    requires RootOk(mem, s)
  {
    && (forall q :: q in s.leaves ==>
          && q.top in s.dirs && q.mid < ENTRIES
          && mem[s.dirs[q.top]][q.mid] == Pointer(s.leaves[q]))
    && (forall i, j :: i in s.dirs && 0 <= j < ENTRIES && Region(i, j) !in s.leaves ==> mem[s.dirs[i]][j] == Pte(0, 0))
  }

  ghost predicate LeavesOk(mem: Memory, s: Shape) {
    && (forall q :: q in s.leaves ==> s.leaves[q] in mem)
    && (forall q, k :: q in s.leaves && 0 <= k < ENTRIES ==> LeafEntry(mem[s.leaves[q]][k]))
  }

  /** No two positions of the tree share a frame. */
  ghost predicate Apart(s: Shape) {
    && (forall i :: i in s.dirs ==> s.dirs[i] != s.root)
    && (forall q :: q in s.leaves ==> s.leaves[q] != s.root)
    && (forall i, j :: i in s.dirs && j in s.dirs && s.dirs[i] == s.dirs[j] ==> i == j)
    && (forall q, r :: q in s.leaves && r in s.leaves && s.leaves[q] == s.leaves[r] ==> q == r)
    && (forall i, q :: i in s.dirs && q in s.leaves ==> s.dirs[i] != s.leaves[q])
  }

  /** mem holds a tree of shape s. */
  ghost predicate Tree(mem: Memory, s: Shape) {
    RootOk(mem, s) && DirsOk(mem, s) && LeavesOk(mem, s) && Apart(s)
  }

  lemma WalkThrough(mem: Memory, table: Frame, va: Word, level: nat, f: Frame)
    requires 1 <= level <= 2 && table in mem && mem[table][Index(va, level)] == Pointer(f)
    ensures Walk(mem, table, va, level) == Walk(mem, f, va, level - 1)
  {
  }

  lemma WalkStops(mem: Memory, table: Frame, va: Word, level: nat)
    requires 1 <= level <= 2 && table in mem && mem[table][Index(va, level)] == Pte(0, 0)
    ensures Walk(mem, table, va, level) == Missing
  {
  }

  lemma WalkDir(mem: Memory, s: Shape, va: Word, q: Region)
    requires RootOk(mem, s) && DirsOk(mem, s) && LeavesOk(mem, s) && q.top in s.dirs && q.mid == Index(va, 1)
    ensures Walk(mem, s.dirs[q.top], va, 1) == if q in s.leaves then Slot(s.leaves[q], Index(va, 0)) else Missing
  {
  }

  /** On a tree the walk never faults; it reaches a leaf slot exactly when the level-0 node
      of its two-megabyte region exists. */
  lemma WalkTree(mem: Memory, s: Shape, va: Word)
    requires Tree(mem, s)
    ensures var q := RegionOf(Vpn(va));
            Find(mem, s.root, va) == if q in s.leaves then Slot(s.leaves[q], Vpn(va) % 512) else Missing
  {
    IndicesRecombine(va);
    var q := RegionOf(Vpn(va));
    if q.top in s.dirs {
      WalkThrough(mem, s.root, va, 2, s.dirs[q.top]);
      WalkDir(mem, s, va, q);
    } else {
      WalkStops(mem, s.root, va, 2);
    }
  }

  // -------------------------------------------------------- the map of a tree

  function SlotEntry(mem: Memory, s: Shape, vpn: nat): Pte
    requires RegionOf(vpn) in s.leaves && s.leaves[RegionOf(vpn)] in mem
  {
    mem[s.leaves[RegionOf(vpn)]][vpn % 512]
  }

  /** The pages of a tree, read off its shape. */
  ghost function View(mem: Memory, s: Shape): (v: map<nat, Leaf>)
    requires LeavesOk(mem, s)
  {
    map vpn | 0 <= vpn < VPNS && RegionOf(vpn) in s.leaves && IsValid(SlotEntry(mem, s, vpn).low)
      :: LeafOf(SlotEntry(mem, s, vpn))
  }

  lemma VpnOfPage(vpn: nat)
    requires vpn < VPNS
    ensures Vpn(vpn * PAGE_SIZE) == vpn
  {
  }

  /** Reading the tree by its shape and by the walk give the same map. */
  lemma DenoteIsView(mem: Memory, s: Shape)
    requires Tree(mem, s)
    ensures Denote(mem, s.root) == View(mem, s)
  {
    forall vpn | 0 <= vpn < VPNS
      ensures Mapped(mem, s.root, vpn) <==> vpn in View(mem, s)
      ensures vpn in View(mem, s) ==> LeafAt(mem, s.root, vpn) == View(mem, s)[vpn]
    {
      VpnOfPage(vpn);
      WalkTree(mem, s, vpn * PAGE_SIZE);
    }
  }

  // --------------------------------------------------------------- updates

  /** Adding only empty level-0 nodes leaves the map alone. */
  lemma ViewSame(mem: Memory, s: Shape, mem': Memory, s': Shape)
    requires LeavesOk(mem, s) && LeavesOk(mem', s')
    requires forall q :: q in s.leaves ==>
               q in s'.leaves && s'.leaves[q] == s.leaves[q] && mem'[s.leaves[q]] == mem[s.leaves[q]]
    requires forall q :: q in s'.leaves && q !in s.leaves ==> mem'[s'.leaves[q]] == ZeroNode()
    ensures View(mem', s') == View(mem, s)
  {
  }

  lemma ApartWithDir(s: Shape, i: nat, f: Frame)
    requires Apart(s) && i !in s.dirs && Outside(s, f)
    ensures Apart(s.(dirs := s.dirs[i := f]))
  {
  }

  lemma ApartWithRegion(s: Shape, q: Region, f: Frame)
    requires Apart(s) && q !in s.leaves && Outside(s, f)
    ensures Apart(s.(leaves := s.leaves[q := f]))
  {
  }

  lemma LeavesSame(mem: Memory, s: Shape, mem': Memory, s': Shape)
    requires LeavesOk(mem, s)
    requires forall q :: q in s'.leaves ==> s'.leaves[q] in mem'
    requires forall q :: q in s'.leaves ==>
               mem'[s'.leaves[q]] == ZeroNode() || (q in s.leaves && mem'[s'.leaves[q]] == mem[s.leaves[q]])
    ensures LeavesOk(mem', s')
  {
  }

  /** mem' is mem with a fresh zeroed node f hung into slot (d, j). */
  ghost predicate Hung(mem: Memory, mem': Memory, d: Frame, j: nat, f: Frame) {
    && d in mem && d in mem' && f in mem' && d != f && j < ENTRIES
    && mem'[f] == ZeroNode()
    && mem'[d] == mem[d][j := Pte(f, VALID)]
    && (forall g :: g in mem && g != d && g != f ==> g in mem' && mem'[g] == mem[g])
  }

  /** A fresh zeroed level-1 node hung under the root maps nothing new. */
  lemma AddDir(mem: Memory, s: Shape, i: nat, f: Frame, mem': Memory, s': Shape)
    requires Tree(mem, s) && i !in s.dirs && Outside(s, f)
    requires Hung(mem, mem', s.root, i, f) && s' == s.(dirs := s.dirs[i := f])
    ensures Tree(mem', s') && View(mem', s') == View(mem, s)
  {
    AddDirEntries(mem, s, i, f, mem', s');
    LeavesSame(mem, s, mem', s');
    ViewSame(mem, s, mem', s');
    ApartWithDir(s, i, f);
  }

  lemma AddDirEntries(mem: Memory, s: Shape, i: nat, f: Frame, mem': Memory, s': Shape)
    requires RootOk(mem, s) && DirsOk(mem, s) && Apart(s) && i !in s.dirs && Outside(s, f)
    requires Hung(mem, mem', s.root, i, f) && s' == s.(dirs := s.dirs[i := f])
    ensures RootOk(mem', s') && DirsOk(mem', s')
  {
    assert RootOk(mem', s');
    forall q | q in s'.leaves
      ensures mem'[s'.dirs[q.top]][q.mid] == Pointer(s'.leaves[q])
    {
      assert q.top != i;
    }
  }

  /** A fresh zeroed level-0 node hung under its level-1 node maps nothing new. */
  lemma AddRegion(mem: Memory, s: Shape, q: Region, f: Frame, mem': Memory, s': Shape)
    requires Tree(mem, s) && q.top in s.dirs && q !in s.leaves && Outside(s, f)
    requires Hung(mem, mem', s.dirs[q.top], q.mid, f) && s' == s.(leaves := s.leaves[q := f])
    ensures Tree(mem', s') && View(mem', s') == View(mem, s)
  {
    AddRegionRoot(mem, s, q, f, mem', s');
    AddRegionDirs(mem, s, q, f, mem', s');
    AddRegionLeaves(mem, s, q, f, mem', s');
    ApartWithRegion(s, q, f);
  }

  lemma AddRegionRoot(mem: Memory, s: Shape, q: Region, f: Frame, mem': Memory, s': Shape)
    requires RootOk(mem, s) && Apart(s) && q.top in s.dirs && Outside(s, f)
    requires Hung(mem, mem', s.dirs[q.top], q.mid, f) && s' == s.(leaves := s.leaves[q := f])
    ensures RootOk(mem', s')
  {
  }

  lemma AddRegionDirs(mem: Memory, s: Shape, q: Region, f: Frame, mem': Memory, s': Shape)
    requires RootOk(mem, s) && DirsOk(mem, s) && Apart(s) && q.top in s.dirs && q !in s.leaves && Outside(s, f)
    requires Hung(mem, mem', s.dirs[q.top], q.mid, f) && s' == s.(leaves := s.leaves[q := f]) && RootOk(mem', s')
    ensures DirsOk(mem', s')
  {
    forall i | i in s.dirs && i != q.top
      ensures mem'[s.dirs[i]] == mem[s.dirs[i]]
    {
    }
    forall p | p in s'.leaves && p != q
      ensures mem'[s.dirs[p.top]][p.mid] == Pointer(s'.leaves[p])
    {
      assert p.top != q.top || p.mid != q.mid;
    }
    forall i, j | i in s.dirs && 0 <= j < ENTRIES && Region(i, j) !in s'.leaves
      ensures mem'[s.dirs[i]][j] == Pte(0, 0)
    {
      assert q == Region(q.top, q.mid);
    }
  }

  lemma AddRegionLeaves(mem: Memory, s: Shape, q: Region, f: Frame, mem': Memory, s': Shape)
    requires LeavesOk(mem, s) && Apart(s) && q.top in s.dirs && q !in s.leaves && Outside(s, f)
    requires Hung(mem, mem', s.dirs[q.top], q.mid, f) && s' == s.(leaves := s.leaves[q := f])
    ensures LeavesOk(mem', s') && View(mem', s') == View(mem, s)
  {
    LeavesSame(mem, s, mem', s');
    ViewSame(mem, s, mem', s');
  }

  lemma SetLeafTree(mem: Memory, s: Shape, q: Region, k: nat, e: Pte)
    requires Tree(mem, s) && q in s.leaves && k < ENTRIES && LeafEntry(e)
    ensures Tree(Write(mem, s.leaves[q], k, e), s)
  {
    var mem' := Write(mem, s.leaves[q], k, e);
    assert RootOk(mem', s);
    assert DirsOk(mem', s);
    assert LeavesOk(mem', s);
  }

  lemma SetLeafView(mem: Memory, s: Shape, vpn: nat, e: Pte, mem': Memory)
    requires LeavesOk(mem, s) && LeavesOk(mem', s) && vpn < VPNS && RegionOf(vpn) in s.leaves && LeafEntry(e)
    requires mem' == Write(mem, s.leaves[RegionOf(vpn)], vpn % 512, e)
    requires forall q, r :: q in s.leaves && r in s.leaves && s.leaves[q] == s.leaves[r] ==> q == r
    ensures View(mem', s) == if IsValid(e.low) then View(mem, s)[vpn := LeafOf(e)] else View(mem, s) - {vpn}
  {
    forall w | 0 <= w < VPNS && w != vpn && RegionOf(w) in s.leaves
      ensures SlotEntry(mem', s, w) == SlotEntry(mem, s, w)
    {
      RegionIsShift(w, vpn);
    }
    assert SlotEntry(mem', s, vpn) == e;
  }

  /** Writing a leaf slot changes the one page it stands for. */
  lemma SetLeaf(mem: Memory, s: Shape, vpn: nat, e: Pte)
    requires Tree(mem, s) && vpn < VPNS && RegionOf(vpn) in s.leaves && LeafEntry(e)
    ensures var mem' := Write(mem, s.leaves[RegionOf(vpn)], vpn % 512, e);
            && Tree(mem', s)
            && View(mem', s) == if IsValid(e.low) then View(mem, s)[vpn := LeafOf(e)] else View(mem, s) - {vpn}
  {
    SetLeafTree(mem, s, RegionOf(vpn), vpn % 512, e);
    SetLeafView(mem, s, vpn, e, Write(mem, s.leaves[RegionOf(vpn)], vpn % 512, e));
  }
}
