/** Virtual areas and address spaces on values (kernel/src/mm/address_space.rs). */
module Areas {
  import opened Wrappers
  import opened Bits
  import opened Sv39Format
  import opened Arithmetics
  import opened Machines
  import opened PageTables
  import opened Mapping
  import opened Requests

  /** `VirtFrameGuard`. */
  datatype FrameSource = ExclusivelyAllocated(frame: Frame) | CowShared(frame: Frame) | PhysBorrowed(frame: Frame)

  /** A number of a page whose address fits a word, or the one past the last. */
  type PageNo = n: nat | n <= 0x10_0000_0000_0000

  /** `VirtArea`; frames is the BTreeMap in its iteration order, ascending by address. */
  datatype VirtArea = VirtArea(begin: PageNo, end: PageNo, frames: seq<(Word, FrameSource)>, perms: Flags,
                               identical: bool)

  // -------------------------------------------------------------- construction

  function PageFloor(va: Word): PageNo {
    va / PAGE_SIZE
  }

  /** The rounding addition overflows exactly when the precondition fails. */
  function PageCeil(va: Word): PageNo
    requires va + PAGE_SIZE - 1 < TWO64
  {
    (va + PAGE_SIZE - 1) / PAGE_SIZE
  }

  /** `VirtArea::new` and `VirtArea::identically_mapped`. */
  function NewArea(vaBegin: Word, vaEnd: Word, perms: Flags, identical: bool): Outcome<VirtArea> {
    if vaEnd + PAGE_SIZE - 1 >= TWO64 then Panic
    else Ok(VirtArea(PageFloor(vaBegin), PageCeil(vaEnd), [], perms, identical))
  }

  predicate OnPage(va: nat, n: nat) {
    va / PAGE_SIZE == n
  }

  /** Some address of the area lies on page n. */
  ghost predicate Touches(vaBegin: Word, vaEnd: Word, n: nat) {
    exists va: nat :: vaBegin <= va < vaEnd && OnPage(va, n)
  }

  /** The area encloses exactly the pages that its addresses touch. */
  ghost predicate CoversTouched(vaBegin: Word, vaEnd: Word, a: VirtArea) {
    forall n: nat :: a.begin <= n < a.end <==> Touches(vaBegin, vaEnd, n)
  }

  /** The bounds are those of `align_down` and `align_up`. They enclose exactly the pages that
      the area touches, unless the area is empty and starts inside a page. */
  lemma NewAreaCoversIff(vaBegin: Word, vaEnd: Word, perms: Flags, identical: bool)
    requires vaBegin <= vaEnd && NewArea(vaBegin, vaEnd, perms, identical).Ok?
    ensures var a := NewArea(vaBegin, vaEnd, perms, identical).value;
            && a.begin == PgRoundDown(vaBegin) / PAGE_SIZE && a.end == PgRoundUp(vaEnd) / PAGE_SIZE
            && (CoversTouched(vaBegin, vaEnd, a) <==> vaBegin < vaEnd || vaBegin % PAGE_SIZE == 0)
  {
    var a := NewArea(vaBegin, vaEnd, perms, identical).value;
    if vaBegin < vaEnd {
      forall n: nat
        ensures a.begin <= n < a.end <==> Touches(vaBegin, vaEnd, n)
      {
        TouchedWithin(vaBegin, vaEnd, n);
      }
    } else if vaBegin % PAGE_SIZE != 0 {
      assert a.begin <= vaBegin / PAGE_SIZE < a.end && !Touches(vaBegin, vaEnd, vaBegin / PAGE_SIZE);
    }
  }

  lemma TouchedWithin(vaBegin: Word, vaEnd: Word, n: nat)
    requires vaBegin < vaEnd
    ensures vaBegin / PAGE_SIZE <= n < (vaEnd + PAGE_SIZE - 1) / PAGE_SIZE <==> Touches(vaBegin, vaEnd, n)
  {
    if vaBegin / PAGE_SIZE <= n < (vaEnd + PAGE_SIZE - 1) / PAGE_SIZE {
      var va := if vaBegin <= n * PAGE_SIZE then n * PAGE_SIZE else vaBegin;
      assert OnPage(va, n) && vaBegin <= va < vaEnd;
    }
  }

  /** An empty area at 0x1001 covers page 1, which none of its addresses touches. */
  lemma EmptyAreaCoversPage(perms: Flags, identical: bool)
    ensures NewArea(0x1001, 0x1001, perms, identical) == Ok(VirtArea(1, 2, [], perms, identical))
    ensures !Touches(0x1001, 0x1001, 1)
  {
    assert (0x1001 + PAGE_SIZE - 1) / PAGE_SIZE == 2;
  }

  /** Insertion into the ordered map, replacing an entry with the same address. */
  function InsertFrame(frames: seq<(Word, FrameSource)>, va: Word, g: FrameSource): seq<(Word, FrameSource)> {
    if frames == [] || va < frames[0].0 then [(va, g)] + frames
    else if va == frames[0].0 then [(va, g)] + frames[1..]
    else [frames[0]] + InsertFrame(frames[1..], va, g)
  }

  ghost predicate Ascending(frames: seq<(Word, FrameSource)>) {
    forall i, j :: 0 <= i < j < |frames| ==> frames[i].0 < frames[j].0
  }

  function Lookup(frames: seq<(Word, FrameSource)>, va: Word): Option<FrameSource> {
    if frames == [] then None
    else if frames[0].0 == va then Some(frames[0].1)
    else Lookup(frames[1..], va)
  }

  lemma {:induction false} InsertFrameAscends(frames: seq<(Word, FrameSource)>, va: Word, g: FrameSource)
    requires Ascending(frames)
    ensures Ascending(InsertFrame(frames, va, g))
    ensures forall k :: 0 <= k < |InsertFrame(frames, va, g)| ==>
              InsertFrame(frames, va, g)[k].0 == va || (frames != [] && InsertFrame(frames, va, g)[k].0 >= frames[0].0)
  {
    if frames != [] && va > frames[0].0 {
      InsertFrameAscends(frames[1..], va, g);
      var rest := InsertFrame(frames[1..], va, g);
      assert forall k :: 0 <= k < |rest| ==> rest[k].0 > frames[0].0;
    }
  }

  lemma {:induction false} LookupInserted(frames: seq<(Word, FrameSource)>, va: Word, g: FrameSource, x: Word)
    ensures x != va ==> Lookup(InsertFrame(frames, va, g), x) == Lookup(frames, x)
    ensures Lookup(InsertFrame(frames, va, g), va) == Some(g)
  {
    if frames == [] || va < frames[0].0 {
      assert ([(va, g)] + frames)[1..] == frames;
    } else if va == frames[0].0 {
      assert ([(va, g)] + frames[1..])[1..] == frames[1..];
    } else {
      LookupInserted(frames[1..], va, g, x);
      assert ([frames[0]] + InsertFrame(frames[1..], va, g))[1..] == InsertFrame(frames[1..], va, g);
    }
  }

  /** `track_frame` keeps the order of the map and updates it at one address. */
  lemma TrackFrameUpdates(a: VirtArea, va: Word, g: FrameSource, x: Word)
    requires Ascending(a.frames)
    ensures Ascending(TrackFrame(a, va, g).frames)
    ensures Lookup(TrackFrame(a, va, g).frames, x) == if x == va then Some(g) else Lookup(a.frames, x)
  {
    InsertFrameAscends(a.frames, va, g);
    LookupInserted(a.frames, va, g, x);
  }

  /** `VirtArea::track_frame`. */
  function TrackFrame(a: VirtArea, va: Word, g: FrameSource): VirtArea {
    a.(frames := InsertFrame(a.frames, va, g))
  }

  // ------------------------------------------------------------------ requests

  function FrameRequest(f: (Word, FrameSource), perms: Flags): Request {
    if f.1.CowShared? then Unsupported else Map(f.0, BaseAddr(f.1.frame), perms)
  }

  /** The pages of an identically mapped range. */
  function RangeRequests(begin: PageNo, end: PageNo, perms: Flags): (rs: seq<Request>)
    ensures |rs| == if begin <= end then end - begin else 0
    ensures forall i :: 0 <= i < |rs| ==> rs[i] == Map(BaseAddr(begin + i), BaseAddr(begin + i), perms)
  {
    if begin <= end then
      seq(end - begin, i requires 0 <= i < end - begin => Map(BaseAddr(begin + i), BaseAddr(begin + i), perms))
    else []
  }

  /** The pages that mapping or verifying an area visits, in order. */
  function AreaRequests(a: VirtArea): (rs: seq<Request>)
    ensures a.identical ==> rs == RangeRequests(a.begin, a.end, a.perms)
    ensures !a.identical ==>
              |rs| == |a.frames| && forall i :: 0 <= i < |rs| ==> rs[i] == FrameRequest(a.frames[i], a.perms)
  {
    if a.identical then RangeRequests(a.begin, a.end, a.perms)
    else seq(|a.frames|, i requires 0 <= i < |a.frames| => FrameRequest(a.frames[i], a.perms))
  }

  /** An identical range with begin above end, whose iterator runs until a page number
      overflows. */
  predicate Backward(a: VirtArea) {
    a.identical && a.begin > a.end
  }

  /** `map_virt_area_allocate`. */
  function MapArea(m: Machine, t: Table, a: VirtArea): (o: Outcome<(Machine, Table)>)
    requires HeapFits(m)
    ensures o.Ok? ==> HeapFits(o.value.0)
  {
    if Backward(a) then Panic else MapAll(m, t, AreaRequests(a))
  }

  /** The loop over the areas of a new space. */
  function MapAreas(m: Machine, t: Table, areas: seq<VirtArea>): (o: Outcome<(Machine, Table)>)
    requires HeapFits(m)
    ensures o.Ok? ==> HeapFits(o.value.0)
    decreases |areas|
  {
    if areas == [] then Ok((m, t))
    else
      var (m', t') :- MapArea(m, t, areas[0]);
      MapAreas(m', t', areas[1..])
  }

  /** `PageTableGuard::allocate` and the loop over the areas. */
  function MakeTable(m: Machine, areas: seq<VirtArea>): (o: Outcome<(Machine, Table)>)
    requires HeapFits(m)
    ensures o.Ok? ==> HeapFits(o.value.0)
  {
    var (m', t) :- AllocateTable(m);
    MapAreas(m', t, areas)
  }

  function Flatten(areas: seq<VirtArea>): seq<Request> {
    if areas == [] then [] else AreaRequests(areas[0]) + Flatten(areas[1..])
  }

  lemma {:induction false} MapAllAppend(m: Machine, t: Table, a: seq<Request>, b: seq<Request>)
    requires HeapFits(m)
    ensures MapAll(m, t, a + b) ==
              match MapAll(m, t, a)
              case Panic => Panic
              case Ok((m', t')) => MapAll(m', t', b)
    decreases |a|
  {
    if a == [] {
      assert a + b == b;
    } else {
      assert (a + b)[1..] == a[1..] + b;
      var o := MapRequest(m, t, a[0]);
      if o.Ok? {
        MapAllAppend(o.value.0, o.value.1, a[1..], b);
      }
    }
  }

  lemma {:induction false} MapAreasFlat(m: Machine, t: Table, areas: seq<VirtArea>)
    requires HeapFits(m) && forall a :: a in areas ==> !Backward(a)
    ensures MapAreas(m, t, areas) == MapAll(m, t, Flatten(areas))
    decreases |areas|
  {
    if areas != [] {
      MapAllAppend(m, t, AreaRequests(areas[0]), Flatten(areas[1..]));
      var o := MapArea(m, t, areas[0]);
      assert areas[0] in areas;
      if o.Ok? {
        MapAreasFlat(o.value.0, o.value.1, areas[1..]);
      }
    }
  }

  lemma {:induction false} BackwardPanics(m: Machine, t: Table, areas: seq<VirtArea>, a: VirtArea)
    requires HeapFits(m) && a in areas && Backward(a)
    ensures MapAreas(m, t, areas).Panic?
    decreases |areas|
  {
    if a != areas[0] {
      var o := MapArea(m, t, areas[0]);
      if o.Ok? {
        assert a in areas[1..];
        BackwardPanics(o.value.0, o.value.1, areas[1..], a);
      }
    }
  }

  // ---------------------------------------------------------- disjoint areas

  function AreaView(a: VirtArea): map<nat, Leaf> {
    Asked(AreaRequests(a))
  }

  /** An area that can be mapped by itself into an empty table. */
  ghost predicate AreaFine(a: VirtArea) {
    !Backward(a) && Mappable(AreaRequests(a), {})
  }

  ghost predicate AreasDisjoint(areas: seq<VirtArea>) {
    forall i, j :: 0 <= i < j < |areas| ==> AreaView(areas[i]).Keys !! AreaView(areas[j]).Keys
  }

  /** The union of the areas' pages. */
  function UnionView(areas: seq<VirtArea>): map<nat, Leaf> {
    Asked(Flatten(areas))
  }

  lemma {:induction false} MappableTaken(rs: seq<Request>, taken: set<nat>, more: set<nat>)
    ensures Mappable(rs, taken + more) <==> Mappable(rs, taken) && Asked(rs).Keys !! more
    decreases |rs|
  {
    if rs != [] && Aligned(rs[0]) {
      var v := Vpn(rs[0].va);
      MappableTaken(rs[1..], taken + {v}, more);
      assert taken + more + {v} == taken + {v} + more;
    }
  }

  lemma {:induction false} AskedAppend(a: seq<Request>, b: seq<Request>)
    ensures Asked(a + b) == Asked(b) + Asked(a)
    decreases |a|
  {
    if a == [] {
      assert a + b == b;
    } else {
      assert (a + b)[1..] == a[1..] + b;
      AskedAppend(a[1..], b);
    }
  }

  lemma {:induction false} MappableAppend(a: seq<Request>, b: seq<Request>, taken: set<nat>)
    ensures Mappable(a + b, taken) <==> Mappable(a, taken) && Mappable(b, taken + Asked(a).Keys)
    decreases |a|
  {
    if a == [] {
      assert a + b == b;
      assert taken + Asked(a).Keys == taken;
    } else if Aligned(a[0]) {
      assert (a + b)[1..] == a[1..] + b;
      MappableAppend(a[1..], b, taken + {Vpn(a[0].va)});
      assert taken + {Vpn(a[0].va)} + Asked(a[1..]).Keys == taken + Asked(a).Keys;
    }
  }

  /** A list of areas can be mapped page by page exactly when each can by itself and no two
      share a page. */
  lemma {:induction false} FlattenMappable(areas: seq<VirtArea>)
    requires forall a :: a in areas ==> AreaFine(a)
    ensures Mappable(Flatten(areas), {}) <==> AreasDisjoint(areas)
    decreases |areas|
  {
    if areas != [] {
      var first, rest := AreaRequests(areas[0]), areas[1..];
      assert areas[0] in areas;
      FlattenMappable(rest);
      MappableAppend(first, Flatten(rest), {});
      assert {} + Asked(first).Keys == Asked(first).Keys + {};
      MappableTaken(Flatten(rest), {}, Asked(first).Keys);
      FlattenKeysApart(rest, Asked(first).Keys);
      assert AreasDisjoint(areas) <==>
               && AreasDisjoint(rest)
               && forall j :: 0 <= j < |rest| ==> AreaView(rest[j]).Keys !! AreaView(areas[0]).Keys by {
        DisjointFirst(areas);
      }
    }
  }

  lemma DisjointFirst(areas: seq<VirtArea>)
    requires areas != []
    ensures AreasDisjoint(areas) <==>
              && AreasDisjoint(areas[1..])
              && forall j :: 0 <= j < |areas[1..]| ==> AreaView(areas[1..][j]).Keys !! AreaView(areas[0]).Keys
  {
  }

  lemma {:induction false} FlattenKeysApart(areas: seq<VirtArea>, other: set<nat>)
    ensures Asked(Flatten(areas)).Keys !! other <==> forall j :: 0 <= j < |areas| ==> AreaView(areas[j]).Keys !! other
    decreases |areas|
  {
    if areas != [] {
      FlattenKeysApart(areas[1..], other);
      AskedAppend(AreaRequests(areas[0]), Flatten(areas[1..]));
      assert forall j :: 0 < j < |areas| ==> areas[j] == areas[1..][j - 1];
      assert forall j :: 0 <= j < |areas[1..]| ==> areas[1..][j] == areas[j + 1];
    }
  }

  /** Mapping any list of areas into a fresh table: with each area fine by itself, it succeeds
      exactly when no two share a page and the frames suffice, and the table then stands for
      exactly the union of the areas. */
  lemma MakeTableExact(m: Machine, areas: seq<VirtArea>)
    requires MachineOk(m) && forall a :: a in areas ==> AreaFine(a)
    ensures MakeTable(m, areas).Ok? <==> AreasDisjoint(areas) && NodeCount(UnionView(areas)) <= Free(m)
    ensures MakeTable(m, areas).Ok? ==>
              Built(m, UnionView(areas), MakeTable(m, areas).value.0, MakeTable(m, areas).value.1)
  {
    FlattenMappable(areas);
    BuildTableExact(m, Flatten(areas));
    MakeTableIsBuild(m, areas);
  }

  lemma MakeTableIsBuild(m: Machine, areas: seq<VirtArea>)
    requires HeapFits(m) && forall a :: a in areas ==> !Backward(a)
    ensures MakeTable(m, areas) == BuildTable(m, Flatten(areas))
  {
    var r := AllocateTable(m);
    if r.Ok? {
      MapAreasFlat(r.value.0, r.value.1, areas);
    }
  }

  /** An area that is not fine by itself makes the whole construction panic. */
  lemma MakeTableNeedsFine(m: Machine, areas: seq<VirtArea>, a: VirtArea)
    requires MachineOk(m) && a in areas && !AreaFine(a)
    ensures MakeTable(m, areas).Panic?
  {
    var r := AllocateTable(m);
    if r.Ok? {
      if b :| b in areas && Backward(b) {
        BackwardPanics(r.value.0, r.value.1, areas, b);
      } else {
        MakeTableIsBuild(m, areas);
        BuildTableExact(m, Flatten(areas));
        UnmappableArea(areas, a);
      }
    }
  }

  lemma {:induction false} UnmappableArea(areas: seq<VirtArea>, a: VirtArea)
    requires a in areas && !Mappable(AreaRequests(a), {})
    ensures !Mappable(Flatten(areas), {})
    decreases |areas|
  {
    var first, rest := AreaRequests(areas[0]), areas[1..];
    MappableAppend(first, Flatten(rest), {});
    if a != areas[0] {
      assert a in rest;
      UnmappableArea(rest, a);
      MappableTaken(Flatten(rest), {}, Asked(first).Keys);
    }
  }

  // ---------------------------------------------------------------- verification

  /** `AddrSpace::verify` passes on every area. */
  ghost predicate AreasVerify(mem: Memory, root: Frame, areas: seq<VirtArea>) {
    forall i :: 0 <= i < |areas| ==> !Backward(areas[i]) && VerifiesAll(mem, root, AreaRequests(areas[i]))
  }

  lemma {:induction false} FlattenVerifies(mem: Memory, root: Frame, areas: seq<VirtArea>, i: nat)
    requires VerifiesAll(mem, root, Flatten(areas)) && i < |areas|
    ensures VerifiesAll(mem, root, AreaRequests(areas[i]))
    decreases |areas|
  {
    hide Verifies, AreaRequests;
    var first, rest := AreaRequests(areas[0]), Flatten(areas[1..]);
    assert forall k :: 0 <= k < |first| ==> (first + rest)[k] == first[k];
    assert forall k :: 0 <= k < |rest| ==> (first + rest)[|first| + k] == rest[k];
    if i > 0 {
      FlattenVerifies(mem, root, areas[1..], i - 1);
    }
  }

  /** A table made from areas, whatever they are, verifies on all of them. */
  lemma MadeVerifies(m: Machine, areas: seq<VirtArea>)
    requires MachineOk(m) && MakeTable(m, areas).Ok?
    ensures AreasVerify(MakeTable(m, areas).value.0.mem, MakeTable(m, areas).value.1.root, areas)
  {
    forall a | a in areas
      ensures AreaFine(a)
    {
      if !AreaFine(a) {
        MakeTableNeedsFine(m, areas, a);
      }
    }
    MakeTableIsBuild(m, areas);
    BuiltVerifies(m, Flatten(areas));
    var (m', t) := MakeTable(m, areas).value;
    forall i | 0 <= i < |areas|
      ensures !Backward(areas[i]) && VerifiesAll(m'.mem, t.root, AreaRequests(areas[i]))
    {
      assert areas[i] in areas;
      FlattenVerifies(m'.mem, t.root, areas, i);
    }
  }
}
