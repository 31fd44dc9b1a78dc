/** `lock_table` and `unlock_table` (kernel/src/mm/page_table.rs): a table clears or sets the
    writable flag of the identity-mapped entries of its own nodes while walking itself. */
module Locking {
  import opened Wrappers
  import opened Bits
  import opened Sv39Format
  import opened Machines
  import opened PageTables
  import opened TableShapes
  import opened Mapping

  /** One turn of the loop, for the node whose identity address is va. */
  function Relabel(mem: Memory, root: Frame, va: Word, writable: bool): Outcome<Memory> {
    match Find(mem, root, va)
    case Fault => Panic
    case Missing => Panic
    case Slot(f, i) =>
      var e := mem[f][i];
      if e.low >= 512 then Panic else Ok(Write(mem, f, i, Pte(Target(e), SetWritable(e.low, writable))))
  }

  /** The loop over the node frames: `lock_table` with writable false, `unlock_table` with true. */
  function RelabelAll(mem: Memory, root: Frame, nodes: seq<Frame>, writable: bool): Outcome<Memory> {
    if nodes == [] then Ok(mem)
    else
      var mem' :- Relabel(mem, root, BaseAddr(nodes[0]), writable);
      RelabelAll(mem', root, nodes[1..], writable)
  }

  /** The page at which a frame is identity-mapped. */
  function IdentityPage(f: Frame): nat {
    Vpn(BaseAddr(f))
  }

  ghost function IdentityPages(nodes: seq<Frame>): set<nat> {
    set f | f in nodes :: IdentityPage(f)
  }

  function Flip(e: Pte, writable: bool): Pte
    requires e.low < 512
  {
    Pte(e.ppn, SetWritable(e.low, writable))
  }

  lemma FlipTwice(flags: Flags, v: bool, w: bool)
    ensures SetWritable(SetWritable(flags, v), w) == SetWritable(flags, w)
    ensures SetWritable(flags, w) == flags <==> IsWritable(flags) == w
    ensures IsValid(SetWritable(flags, w)) == IsValid(flags)
  {
    assert (flags + 4) / 4 == flags / 4 + 1;
    assert flags >= 4 ==> (flags - 4) / 4 == flags / 4 - 1;
    assert (flags + 4) % 2 == flags % 2;
    assert flags >= 4 ==> (flags - 4) % 2 == flags % 2;
  }

  ghost predicate NotLeafTable(s: Shape, f: Frame) {
    forall q :: q in s.leaves ==> s.leaves[q] != f
  }

  /** From mem to mem' exactly the leaf entries of pages got their writable flag set to w. */
  ghost predicate Relabelled(mem: Memory, mem': Memory, s: Shape, pages: set<nat>, w: bool) {
    && LeavesOk(mem, s) && LeavesOk(mem', s) && mem'.Keys == mem.Keys
    && (forall f :: f in mem && NotLeafTable(s, f) ==> mem'[f] == mem[f])
    && (forall vpn :: 0 <= vpn < VPNS && RegionOf(vpn) in s.leaves ==>
          SlotEntry(mem', s, vpn) == if vpn in pages then Flip(SlotEntry(mem, s, vpn), w) else SlotEntry(mem, s, vpn))
  }

  lemma RelabelledThen(mem: Memory, mem1: Memory, mem2: Memory, s: Shape, a: set<nat>, b: set<nat>, w: bool)
    requires Relabelled(mem, mem1, s, a, w) && Relabelled(mem1, mem2, s, b, w)
    ensures Relabelled(mem, mem2, s, a + b, w)
  {
    forall vpn | 0 <= vpn < VPNS && RegionOf(vpn) in s.leaves
      ensures SlotEntry(mem2, s, vpn) ==
                if vpn in a + b then Flip(SlotEntry(mem, s, vpn), w) else SlotEntry(mem, s, vpn)
    {
      hide SetWritable, LeavesOk, NotLeafTable;
      FlipTwice(SlotEntry(mem, s, vpn).low, w, w);
    }
  }

  /** One turn succeeds exactly when the walk reaches a slot, and it edits that slot only. */
  lemma RelabelOne(mem: Memory, s: Shape, va: Word, w: bool)
    requires Tree(mem, s)
    ensures Relabel(mem, s.root, va, w).Ok? <==> RegionOf(Vpn(va)) in s.leaves
    ensures Relabel(mem, s.root, va, w).Ok? ==>
              && Tree(Relabel(mem, s.root, va, w).value, s)
              && Relabelled(mem, Relabel(mem, s.root, va, w).value, s, {Vpn(va)}, w)
  {
    WalkTree(mem, s, va);
    if RegionOf(Vpn(va)) in s.leaves {
      var e := SlotEntry(mem, s, Vpn(va));
      assert LeafEntry(e);
      RelabelSlot(mem, s, Vpn(va), Flip(e, w), w);
    }
  }

  lemma RelabelSlot(mem: Memory, s: Shape, vpn: nat, e: Pte, w: bool)
    requires Tree(mem, s) && vpn < VPNS && RegionOf(vpn) in s.leaves && LeafEntry(e)
    requires SlotEntry(mem, s, vpn).low < 512 && e == Flip(SlotEntry(mem, s, vpn), w)
    ensures var mem' := Write(mem, s.leaves[RegionOf(vpn)], vpn % 512, e);
            Tree(mem', s) && Relabelled(mem, mem', s, {vpn}, w)
  {
    var mem' := Write(mem, s.leaves[RegionOf(vpn)], vpn % 512, e);
    SetLeafTree(mem, s, RegionOf(vpn), vpn % 512, e);
    forall x | 0 <= x < VPNS && RegionOf(x) in s.leaves
      ensures SlotEntry(mem', s, x) == if x == vpn then e else SlotEntry(mem, s, x)
    {
      RegionIsShift(x, vpn);
    }
  }

  /** Every node's identity page lies in a region that has a level-0 node. */
  ghost predicate Reaches(s: Shape, nodes: seq<Frame>) {
    forall f: Frame :: f in nodes ==> RegionOf(IdentityPage(f)) in s.leaves
  }

  lemma PagesOfFirst(nodes: seq<Frame>)
    requires nodes != []
    ensures IdentityPages(nodes) == {IdentityPage(nodes[0])} + IdentityPages(nodes[1..])
  {
  }

  lemma RelabelledNone(mem: Memory, s: Shape, w: bool)
    requires LeavesOk(mem, s)
    ensures Relabelled(mem, mem, s, {}, w)
  {
  }

  /** The whole loop succeeds exactly when every node is reached, and then it has edited
      exactly the identity entries of the nodes, although it edits the tree it walks. */
  lemma {:induction false} RelabelAllEdits(mem: Memory, s: Shape, nodes: seq<Frame>, w: bool)
    requires Tree(mem, s)
    ensures RelabelAll(mem, s.root, nodes, w).Ok? <==> Reaches(s, nodes)
    ensures RelabelAll(mem, s.root, nodes, w).Ok? ==>
              && Tree(RelabelAll(mem, s.root, nodes, w).value, s)
              && Relabelled(mem, RelabelAll(mem, s.root, nodes, w).value, s, IdentityPages(nodes), w)
    decreases |nodes|
  {
    if nodes == [] {
      RelabelledNone(mem, s, w);
    } else {
      RelabelOne(mem, s, BaseAddr(nodes[0]), w);
      var r := Relabel(mem, s.root, BaseAddr(nodes[0]), w);
      if r.Ok? {
        RelabelAllEdits(r.value, s, nodes[1..], w);
        ReachesFirst(s, nodes);
        PagesOfFirst(nodes);
        var r2 := RelabelAll(r.value, s.root, nodes[1..], w);
        if r2.Ok? {
          RelabelledThen(mem, r.value, r2.value, s, {IdentityPage(nodes[0])}, IdentityPages(nodes[1..]), w);
        }
      } else {
        assert nodes[0] in nodes;
      }
    }
  }

  lemma ReachesFirst(s: Shape, nodes: seq<Frame>)
    requires nodes != []
    ensures Reaches(s, nodes) <==> RegionOf(IdentityPage(nodes[0])) in s.leaves && Reaches(s, nodes[1..])
  {
  }

  // ----------------------------------------------------- effect on the memory

  lemma JoinPage(q: Region, k: nat) returns (vpn: nat)
    requires q.top < ENTRIES && q.mid < ENTRIES && k < ENTRIES
    ensures vpn < VPNS && RegionOf(vpn) == q && vpn % 512 == k
  {
    vpn := (q.top * 512 + q.mid) * 512 + k;
  }

  lemma LeafTableSame(mem: Memory, mem': Memory, s: Shape, q: Region)
    requires Tree(mem, s) && LeavesOk(mem', s) && q in s.leaves
    requires forall vpn :: 0 <= vpn < VPNS && RegionOf(vpn) in s.leaves ==>
               SlotEntry(mem', s, vpn) == SlotEntry(mem, s, vpn)
    ensures mem'[s.leaves[q]] == mem[s.leaves[q]]
  {
    forall k | 0 <= k < ENTRIES
      ensures mem'[s.leaves[q]][k] == mem[s.leaves[q]][k]
    {
      var vpn := JoinPage(q, k);
      assert SlotEntry(mem', s, vpn) == SlotEntry(mem, s, vpn);
    }
  }

  /** Two edits that leave the same slots leave the same memory. */
  lemma SlotsDetermineMemory(mem: Memory, mem': Memory, s: Shape)
    requires Tree(mem, s) && LeavesOk(mem', s) && mem'.Keys == mem.Keys
    requires forall f :: f in mem && NotLeafTable(s, f) ==> mem'[f] == mem[f]
    requires forall vpn :: 0 <= vpn < VPNS && RegionOf(vpn) in s.leaves ==>
               SlotEntry(mem', s, vpn) == SlotEntry(mem, s, vpn)
    ensures mem' == mem
  {
    forall f | f in mem
      ensures mem'[f] == mem[f]
    {
      if !NotLeafTable(s, f) {
        var q :| q in s.leaves && s.leaves[q] == f;
        LeafTableSame(mem, mem', s, q);
      }
    }
  }

  /** Setting the flag a second time changes nothing. */
  lemma RelabelledAgain(mem: Memory, mem1: Memory, mem2: Memory, s: Shape, pages: set<nat>, w: bool)
    requires Tree(mem1, s) && Relabelled(mem, mem1, s, pages, w) && Relabelled(mem1, mem2, s, pages, w)
    ensures mem2 == mem1
  {
    hide Tree, NotLeafTable;
    forall vpn | 0 <= vpn < VPNS && RegionOf(vpn) in s.leaves
      ensures SlotEntry(mem2, s, vpn) == SlotEntry(mem1, s, vpn)
    {
      FlipTwice(SlotEntry(mem, s, vpn).low, w, w);
    }
    SlotsDetermineMemory(mem1, mem2, s);
  }

  /** Every page of the set that has a slot is writable there. */
  ghost predicate AllWritable(mem: Memory, s: Shape, pages: set<nat>)
    requires LeavesOk(mem, s)
  {
    forall vpn :: 0 <= vpn < VPNS && vpn in pages && RegionOf(vpn) in s.leaves ==>
      IsWritable(SlotEntry(mem, s, vpn).low)
  }

  /** Clearing then setting restores the memory exactly when all those entries were writable. */
  lemma RelabelledBack(mem: Memory, mem1: Memory, mem2: Memory, s: Shape, pages: set<nat>)
    requires Tree(mem, s) && Relabelled(mem, mem1, s, pages, false) && Relabelled(mem1, mem2, s, pages, true)
    ensures mem2 == mem <==> AllWritable(mem, s, pages)
  {
    hide Tree, NotLeafTable;
    forall vpn | 0 <= vpn < VPNS && RegionOf(vpn) in s.leaves
      ensures SlotEntry(mem2, s, vpn) == SlotEntry(mem, s, vpn) <==>
                vpn !in pages || IsWritable(SlotEntry(mem, s, vpn).low)
    {
      FlipTwice(SlotEntry(mem, s, vpn).low, false, true);
    }
    if AllWritable(mem, s, pages) {
      SlotsDetermineMemory(mem, mem2, s);
    }
  }

  // --------------------------------------------------------- effect on the map

  ghost function RelabelView(view: map<nat, Leaf>, pages: set<nat>, w: bool): map<nat, Leaf> {
    map vpn | vpn in view :: if vpn in pages then view[vpn].(flags := SetWritable(view[vpn].flags, w)) else view[vpn]
  }

  lemma RelabelledView(mem: Memory, mem': Memory, s: Shape, pages: set<nat>, w: bool)
    requires Relabelled(mem, mem', s, pages, w)
    ensures View(mem', s) == RelabelView(View(mem, s), pages, w)
  {
    forall vpn | 0 <= vpn < VPNS && RegionOf(vpn) in s.leaves
      ensures vpn in View(mem', s) <==> vpn in View(mem, s)
      ensures vpn in View(mem, s) ==> View(mem', s)[vpn] == RelabelView(View(mem, s), pages, w)[vpn]
    {
      FlipTwice(SlotEntry(mem, s, vpn).low, w, w);
    }
  }

  lemma KeysDecideTight(s: Shape, view: map<nat, Leaf>, view': map<nat, Leaf>)
    requires view.Keys == view'.Keys && Tight(s, view)
    ensures Tight(s, view')
  {
  }

  // ------------------------------------------------------------ whole tables

  /** `lock_table` (writable false) and `unlock_table` (writable true). */
  function RelabelTable(m: Machine, t: Table, writable: bool): Outcome<Machine> {
    var mem :- RelabelAll(m.mem, t.root, t.nodes, writable);
    Ok(m.(mem := mem))
  }

  /** The map of the table has some page in the region of every node's identity page. */
  ghost predicate NodesReachable(m: Machine, t: Table) {
    forall f: Frame :: f in t.nodes ==> RegionOf(IdentityPage(f)) in Regions(Denote(m.mem, t.root))
  }

  lemma ReachesIff(m: Machine, t: Table, s: Shape)
    requires Shaped(m, t, s) && Denote(m.mem, t.root) == View(m.mem, s)
    ensures NodesReachable(m, t) <==> Reaches(s, t.nodes)
  {
    assert forall q :: q in s.leaves <==> q in s.leaves.Keys;
  }

  lemma RelabelledInNodes(m: Machine, nodes: seq<Frame>, s: Shape, mem': Memory, pages: set<nat>, w: bool)
    requires Lists(nodes, s) && Relabelled(m.mem, mem', s, pages, w)
    ensures OnlyNodesDiffer(m.mem, mem', nodes)
  {
  }

  /** m' is m after the flag was set to w on exactly the mapped identity pages of the nodes:
      every other leaf and every translated frame is as before, and so is all other memory. */
  ghost predicate RelabelledTo(m: Machine, t: Table, w: bool, m': Machine) {
    && m' == m.(mem := m'.mem) && OnlyNodesDiffer(m.mem, m'.mem, t.nodes)
    && Denote(m'.mem, t.root) == RelabelView(Denote(m.mem, t.root), IdentityPages(t.nodes), w)
  }

  /** Locking or unlocking a table panics exactly when a node's identity page has no slot. */
  lemma RelabelTableOkIff(m: Machine, t: Table, w: bool)
    requires Wf(m, t)
    ensures RelabelTable(m, t, w).Ok? <==> NodesReachable(m, t)
  {
    var s :| Shaped(m, t, s);
    DenoteIsView(m.mem, s);
    ReachesIff(m, t, s);
    RelabelAllEdits(m.mem, s, t.nodes, w);
  }

  /** It keeps the table well formed and edits exactly the flags it means to. */
  lemma RelabelTableEdits(m: Machine, t: Table, w: bool)
    requires Wf(m, t) && RelabelTable(m, t, w).Ok?
    ensures Wf(RelabelTable(m, t, w).value, t) && RelabelledTo(m, t, w, RelabelTable(m, t, w).value)
  {
    var s :| Shaped(m, t, s);
    DenoteIsView(m.mem, s);
    RelabelAllEdits(m.mem, s, t.nodes, w);
    RelabelledTable(m, t, s, RelabelAll(m.mem, t.root, t.nodes, w).value, w);
  }

  /** Leaf b is leaf a with W set to w: the same frame, and every other flag as it was. */
  ghost predicate OnlyWritableSet(a: Leaf, b: Leaf, w: bool) {
    b.frame == a.frame && forall k :: 0 <= k < 9 ==> (Bit(b.flags, k) <==> if k == 2 then w else Bit(a.flags, k))
  }

  lemma WritableLeaf(a: Leaf, w: bool)
    ensures OnlyWritableSet(a, a.(flags := SetWritable(a.flags, w)), w)
  {
    forall k | 0 <= k < 9
      ensures Bit(SetWritable(a.flags, w), k) <==> if k == 2 then w else Bit(a.flags, k)
    {
      WritableBits(a.flags, w, k);
    }
  }

  /** Bit by bit: the page of a node has W as asked and all else as before, any other page is
      untouched. */
  lemma RelabelKeepsFlags(m: Machine, t: Table, w: bool, n: nat)
    requires Wf(m, t) && RelabelTable(m, t, w).Ok?
    ensures var view, view' := Denote(m.mem, t.root), Denote(RelabelTable(m, t, w).value.mem, t.root);
            && (n in view' <==> n in view)
            && (n in view && n in IdentityPages(t.nodes) ==> OnlyWritableSet(view[n], view'[n], w))
            && (n in view && n !in IdentityPages(t.nodes) ==> view'[n] == view[n])
  {
    hide Wf, RelabelTable, Denote, IdentityPages, OnlyWritableSet;
    RelabelTableEdits(m, t, w);
    if n in Denote(m.mem, t.root) {
      WritableLeaf(Denote(m.mem, t.root)[n], w);
    }
  }

  lemma RelabelledTable(m: Machine, t: Table, s: Shape, mem': Memory, w: bool)
    requires Shaped(m, t, s) && Denote(m.mem, t.root) == View(m.mem, s)
    requires Tree(mem', s) && Relabelled(m.mem, mem', s, IdentityPages(t.nodes), w)
    ensures Shaped(m.(mem := mem'), t, s) && RelabelledTo(m, t, w, m.(mem := mem'))
  {
    RelabelledShaped(m, t, s, mem', IdentityPages(t.nodes), w);
    RelabelledInNodes(m, t.nodes, s, mem', IdentityPages(t.nodes), w);
  }

  lemma RelabelledShaped(m: Machine, t: Table, s: Shape, mem': Memory, pages: set<nat>, w: bool)
    requires Shaped(m, t, s) && Tree(mem', s) && Relabelled(m.mem, mem', s, pages, w)
    ensures Shaped(m.(mem := mem'), t, s) && Denote(mem', t.root) == RelabelView(View(m.mem, s), pages, w)
  {
    RelabelledView(m.mem, mem', s, pages, w);
    KeysDecideTight(s, View(m.mem, s), View(mem', s));
    OwnedWithMemory(m, t.nodes, s, mem');
    DenoteIsView(mem', s);
  }

  /** Locking twice is locking once, and so for unlocking: the memory is the same to the bit. */
  lemma RelabelIdempotent(m: Machine, t: Table, w: bool)
    requires Wf(m, t) && RelabelTable(m, t, w).Ok?
    ensures RelabelTable(RelabelTable(m, t, w).value, t, w) == RelabelTable(m, t, w)
  {
    var s :| Shaped(m, t, s);
    RelabelAllEdits(m.mem, s, t.nodes, w);
    var mem1 := RelabelAll(m.mem, t.root, t.nodes, w).value;
    RelabelAllEdits(mem1, s, t.nodes, w);
    var mem2 := RelabelAll(mem1, t.root, t.nodes, w).value;
    RelabelledAgain(m.mem, mem1, mem2, s, IdentityPages(t.nodes), w);
  }

  /** The walk to va ends at a slot that holds a writable entry. */
  predicate SlotWritable(mem: Memory, root: Frame, va: Word) {
    var w := Find(mem, root, va);
    w.Slot? && IsWritable(mem[w.frame][w.index].low)
  }

  /** The slot of the identity page of every node holds a writable entry. */
  ghost predicate NodesWritable(m: Machine, t: Table) {
    forall f: Frame :: f in t.nodes ==> SlotWritable(m.mem, t.root, BaseAddr(f))
  }

  lemma SlotWritableIff(mem: Memory, s: Shape, va: Word)
    requires Tree(mem, s) && RegionOf(Vpn(va)) in s.leaves
    ensures SlotWritable(mem, s.root, va) <==> IsWritable(SlotEntry(mem, s, Vpn(va)).low)
  {
    WalkTree(mem, s, va);
  }

  lemma NodesWritableIff(m: Machine, t: Table, s: Shape)
    requires Tree(m.mem, s) && s.root == t.root && Reaches(s, t.nodes)
    ensures NodesWritable(m, t) <==> AllWritable(m.mem, s, IdentityPages(t.nodes))
  {
    forall f: Frame | f in t.nodes
      ensures SlotWritable(m.mem, t.root, BaseAddr(f)) <==> IsWritable(SlotEntry(m.mem, s, IdentityPage(f)).low)
      ensures IdentityPage(f) in IdentityPages(t.nodes)
    {
      SlotWritableIff(m.mem, s, BaseAddr(f));
    }
    AllWritableByNode(m.mem, s, t.nodes);
  }

  lemma AllWritableByNode(mem: Memory, s: Shape, nodes: seq<Frame>)
    requires LeavesOk(mem, s) && Reaches(s, nodes)
    ensures AllWritable(mem, s, IdentityPages(nodes)) <==>
              forall f: Frame :: f in nodes ==> IsWritable(SlotEntry(mem, s, IdentityPage(f)).low)
  {
  }

  /** Unlocking undoes locking, to the bit, exactly when every node's identity entry was
      writable before. */
  lemma UnlockUndoesLockIff(m: Machine, t: Table)
    requires Wf(m, t) && NodesReachable(m, t)
    ensures RelabelTable(m, t, false).Ok?
    ensures RelabelTable(RelabelTable(m, t, false).value, t, true) == Ok(m) <==> NodesWritable(m, t)
  {
    var s :| Shaped(m, t, s);
    DenoteIsView(m.mem, s);
    ReachesIff(m, t, s);
    NodesWritableIff(m, t, s);
    UnlockUndoesShaped(m, t, s);
  }

  lemma UnlockUndoesShaped(m: Machine, t: Table, s: Shape)
    requires Tree(m.mem, s) && s.root == t.root && Reaches(s, t.nodes)
    ensures RelabelTable(m, t, false).Ok?
    ensures RelabelTable(RelabelTable(m, t, false).value, t, true) == Ok(m) <==>
              AllWritable(m.mem, s, IdentityPages(t.nodes))
  {
    RelabelAllEdits(m.mem, s, t.nodes, false);
    var mem1 := RelabelAll(m.mem, t.root, t.nodes, false).value;
    RelabelAllEdits(mem1, s, t.nodes, true);
    var mem2 := RelabelAll(mem1, t.root, t.nodes, true).value;
    RelabelledBack(m.mem, mem1, mem2, s, IdentityPages(t.nodes));
  }
}
