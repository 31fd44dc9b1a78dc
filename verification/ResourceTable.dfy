/** `ResourceTable` (kernel/src/common/resource_table.rs): ids handed out from a free set that
    doubles when it runs out. */
module ResourceTables {
  import opened Wrappers
  import opened Bits

  /** active maps each reserved id to its resource, once that is initialised. */
  datatype Slots<T> = Slots(active: map<nat, Option<T>>, free: set<nat>, capacity: nat)

  predicate Within(begin: nat, id: nat, end: nat) {
    begin <= id < end
  }

  function Ids(begin: nat, end: nat): set<nat> {
    set id: nat | begin <= id < end && Within(begin, id, end)
  }

  ghost predicate IsLeast(s: set<nat>, x: nat) {
    x in s && forall y :: y in s ==> x <= y
  }

  lemma {:induction false} LeastExists(s: set<nat>)
    requires s != {}
    ensures exists x :: IsLeast(s, x)
    decreases |s|
  {
    var x :| x in s;
    if s == {x} {
      assert IsLeast(s, x);
    } else {
      var rest := s - {x};
      assert s == rest + {x};
      LeastExists(rest);
      var y :| IsLeast(rest, y);
      assert IsLeast(s, if x < y then x else y);
    }
  }

  /** `pop_first` of the ordered set. */
  ghost function Least(s: set<nat>): (x: nat)
    requires s != {}
    ensures IsLeast(s, x)
  {
    LeastExists(s);
    var w: nat :| IsLeast(s, w);
    w
  }

  function NewSlots<T>(capacity: nat): Slots<T> {
    Slots(map[], Ids(0, capacity), capacity)
  }

  /** The first half of `allocate_one`: double an exhausted free set. */
  function Refill<T>(t: Slots<T>): Outcome<Slots<T>> {
    if t.free != {} then Ok(t)
    else if t.capacity * 2 >= TWO64 then Panic
    else Ok(Slots(t.active, Ids(t.capacity, t.capacity * 2), t.capacity * 2))
  }

  /** `reserve_entry`; the second panic is the id collision. */
  ghost function Reserve<T>(t: Slots<T>): Outcome<(Slots<T>, nat)> {
    var t' :- Refill(t);
    if t'.free == {} then Panic
    else
      var id := Least(t'.free);
      if id in t'.active then Panic
      else Ok((Slots(t'.active[id := None], t'.free - {id}, t'.capacity), id))
  }

  /** `initialise_entry`. */
  function Initialise<T>(t: Slots<T>, id: nat, data: T): Outcome<Slots<T>> {
    if id !in t.active then Panic else Ok(t.(active := t.active[id := Some(data)]))
  }

  /** `get`. */
  function Get<T>(t: Slots<T>, id: nat): Outcome<T> {
    if id !in t.active || t.active[id].None? then Panic else Ok(t.active[id].value)
  }

  /** `remove_entry` as written: the returned id is taken out of the free set once more. */
  function Remove<T>(t: Slots<T>, id: nat): Outcome<Slots<T>> {
    if id !in t.free then Panic else Ok(Slots(t.active - {id}, t.free - {id}, t.capacity))
  }

  /** `remove_entry` as meant: the returned id is put back. */
  function RemoveIntended<T>(t: Slots<T>, id: nat): Outcome<Slots<T>> {
    if id in t.free then Panic else Ok(Slots(t.active - {id}, t.free + {id}, t.capacity))
  }

  // ------------------------------------------------------------------- partition

  /** Free and active ids split the ids below the capacity between them. */
  ghost predicate Partition<T>(t: Slots<T>) {
    t.free !! t.active.Keys && t.free + t.active.Keys == Ids(0, t.capacity)
  }

  lemma LeastUnique(s: set<nat>, x: nat)
    requires s != {} && IsLeast(s, x)
    ensures Least(s) == x
  {
  }

  lemma RefillKeeps<T>(t: Slots<T>)
    requires Partition(t) && Refill(t).Ok?
    ensures Partition(Refill(t).value) && Refill(t).value.active == t.active
    ensures t.capacity > 0 ==> Refill(t).value.free != {}
  {
    if t.free == {} {
      assert t.active.Keys == Ids(0, t.capacity);
      assert t.capacity > 0 ==> t.capacity in Ids(t.capacity, t.capacity * 2);
    }
  }

  /** An id that no resource holds, and every smaller id is held. */
  ghost predicate LowestInactive<T>(t: Slots<T>, id: nat) {
    id !in t.active && forall x: nat :: x < id ==> x in t.active
  }

  /** A reservation returns the lowest id that is not active. It fails only at capacity zero or
      when doubling overflows; ids never collide. */
  lemma ReserveTakesLowest<T>(t: Slots<T>)
    requires Partition(t)
    ensures Reserve(t).Ok? <==> t.capacity > 0 && (t.free != {} || t.capacity * 2 < TWO64)
    ensures Reserve(t).Ok? ==>
              var (t', id) := Reserve(t).value;
              Partition(t') && LowestInactive(t, id) && t'.active == t.active[id := None] && id < t'.capacity
  {
    var refilled := Refill(t);
    if refilled.Ok? {
      RefillKeeps(t);
      var u := refilled.value;
      if u.free != {} {
        LeastIsLowest(u);
      } else {
        assert t.capacity == 0;
      }
    }
    if t.capacity == 0 {
      assert t.free == {} && Ids(0, 0) == {};
    }
  }

  lemma LeastIsLowest<T>(u: Slots<T>)
    requires Partition(u) && u.free != {}
    ensures var id := Least(u.free);
            && LowestInactive(u, id) && id < u.capacity
            && Partition(Slots(u.active[id := None], u.free - {id}, u.capacity))
  {
  }

  // ------------------------------------------------------- runs of reservations

  ghost predicate Doubled(initial: nat, capacity: nat, k: nat) {
    capacity == initial * Pow2(k)
  }

  /** The state after n reservations: ids 0 to n - 1 are active, the rest are free, and the
      capacity was doubled only as often as n ids need. */
  ghost predicate Counted<T>(t: Slots<T>, initial: nat, n: nat) {
    && t.active.Keys == Ids(0, n) && t.free == Ids(n, t.capacity) && n <= t.capacity
    && (exists k :: Doubled(initial, t.capacity, k))
    && (t.capacity == initial || t.capacity < 2 * n)
  }

  lemma NewCounted<T>(initial: nat)
    ensures Counted(NewSlots<T>(initial), initial, 0)
  {
    assert Doubled(initial, initial, 0);
  }

  lemma CountedPartition<T>(t: Slots<T>, initial: nat, n: nat)
    requires Counted(t, initial, n)
    ensures Partition(t)
  {
  }

  lemma DoubledAgain(initial: nat, capacity: nat, k: nat)
    requires Doubled(initial, capacity, k)
    ensures Doubled(initial, 2 * capacity, k + 1)
  {
  }

  /** The n-th reservation, from zero, returns n. */
  lemma ReserveReturnsNext<T>(t: Slots<T>, initial: nat, n: nat)
    requires Counted(t, initial, n) && initial > 0
    ensures Reserve(t).Ok? <==> n < t.capacity || t.capacity * 2 < TWO64
    ensures Reserve(t).Ok? ==> Reserve(t).value.1 == n && Counted(Reserve(t).value.0, initial, n + 1)
  {
    var k :| Doubled(initial, t.capacity, k);
    CountedPartition(t, initial, n);
    CapacityPositive(initial, t.capacity, k);
    assert n < t.capacity ==> n in Ids(n, t.capacity);
    ReserveTakesLowest(t);
    if Reserve(t).Ok? {
      if n == t.capacity {
        assert Ids(n, t.capacity) == {};
        DoubledAgain(initial, t.capacity, k);
      }
      CountedNext(t, initial, n);
    }
  }

  lemma CapacityPositive(initial: nat, capacity: nat, k: nat)
    requires Doubled(initial, capacity, k) && initial > 0
    ensures capacity > 0
  {
  }

  lemma CountedNext<T>(t: Slots<T>, initial: nat, n: nat)
    requires Counted(t, initial, n) && Reserve(t).Ok? && LowestInactive(t, Reserve(t).value.1)
    requires n == t.capacity ==> t.free == {} && exists k :: Doubled(initial, 2 * t.capacity, k)
    ensures Reserve(t).value.1 == n && Counted(Reserve(t).value.0, initial, n + 1)
  {
    var (t', id) := Reserve(t).value;
    assert id == n by {
      assert id >= n;
      assert n < id ==> n in t.active.Keys;
    }
    assert t'.active.Keys == t.active.Keys + {n};
    assert t'.free == Ids(n + 1, t'.capacity);
  }

  // -------------------------------------------------------------------- removal

  /** As written, the assertion of `remove_entry` fails for every active id, and for every id
      not handed out it succeeds and loses the id: neither outcome is a removal. */
  lemma RemoveFailsIff<T>(t: Slots<T>, id: nat)
    requires Partition(t)
    ensures Remove(t, id).Panic? <==> id in t.active || id >= t.capacity
    ensures Remove(t, id).Ok? ==> !Partition(Remove(t, id).value) && Remove(t, id).value.active == t.active
  {
  }

  /** As meant, removing an active id keeps the partition, and the next reservation returns
      the lower of that id and the lowest id that was inactive before. */
  lemma RemoveIntendedKeeps<T>(t: Slots<T>, id: nat)
    requires Partition(t) && id in t.active
    ensures RemoveIntended(t, id).Ok?
    ensures var t' := RemoveIntended(t, id).value;
            && Partition(t') && t'.active == t.active - {id} && t'.capacity == t.capacity
            && Reserve(t').Ok? && IsLeast(t.free + {id}, Reserve(t').value.1)
  {
  }

  /** No other id may be removed: a free one fails the assertion, and one that was never
      handed out is added beyond the capacity. */
  lemma RemoveIntendedKeepsIff<T>(t: Slots<T>, id: nat)
    requires Partition(t)
    ensures RemoveIntended(t, id).Ok? && Partition(RemoveIntended(t, id).value) <==> id in t.active
  {
  }

  // ------------------------------------------------------------------------ runs

  datatype TableOp<T> = ReserveOp | InitialiseOp(id: nat, data: T) | RemoveOp(id: nat)

  /** One step of a table whose removal is the intended one; removing an id that is not active
      ends the run. */
  ghost function TableStep<T>(t: Slots<T>, op: TableOp<T>): Outcome<Slots<T>> {
    match op
    case ReserveOp => var (t', _) :- Reserve(t); Ok(t')
    case InitialiseOp(id, data) => Initialise(t, id, data)
    case RemoveOp(id) => if id in t.active then RemoveIntended(t, id) else Panic
  }

  ghost function TableRun<T>(t: Slots<T>, ops: seq<TableOp<T>>): Outcome<Slots<T>>
    decreases |ops|
  {
    if ops == [] then Ok(t)
    else
      var t' :- TableStep(t, ops[0]);
      TableRun(t', ops[1..])
  }

  lemma InitialiseKeeps<T>(t: Slots<T>, id: nat, data: T)
    requires Initialise(t, id, data).Ok?
    ensures var t' := Initialise(t, id, data).value;
            t'.active.Keys == t.active.Keys && t'.free == t.free && t'.capacity == t.capacity
  {
  }

  /** Over every run with the intended removal, free and active ids stay a partition. */
  lemma {:induction false} TableRunsKeepPartition<T>(t: Slots<T>, ops: seq<TableOp<T>>)
    requires Partition(t) && TableRun(t, ops).Ok?
    ensures Partition(TableRun(t, ops).value)
    decreases |ops|
  {
    if ops != [] {
      match ops[0] {
        case ReserveOp => ReserveTakesLowest(t);
        case InitialiseOp(id, data) => InitialiseKeeps(t, id, data);
        case RemoveOp(id) => RemoveIntendedKeeps(t, id);
      }
      TableRunsKeepPartition(TableStep(t, ops[0]).value, ops[1..]);
    }
  }

  lemma CountedInitialised<T>(t: Slots<T>, initial: nat, n: nat, id: nat, data: T)
    requires Counted(t, initial, n) && Initialise(t, id, data).Ok?
    ensures Counted(Initialise(t, id, data).value, initial, n)
  {
  }

  function Reserving<T>(op: TableOp<T>): nat {
    if op.ReserveOp? then 1 else 0
  }

  function Reservations<T>(ops: seq<TableOp<T>>): nat {
    if ops == [] then 0 else Reserving(ops[0]) + Reservations(ops[1..])
  }

  lemma CountedStep<T>(t: Slots<T>, initial: nat, n: nat, op: TableOp<T>)
    requires Counted(t, initial, n) && initial > 0 && TableStep(t, op).Ok? && !op.RemoveOp?
    ensures Counted(TableStep(t, op).value, initial, n + Reserving(op))
  {
    if op.ReserveOp? {
      ReserveReturnsNext(t, initial, n);
    } else {
      CountedInitialised(t, initial, n, op.id, op.data);
    }
  }

  /** Over every run of reservations and initialisations, the ids handed out are exactly the
      numbers below the count of reservations, in order. */
  lemma {:induction false} ReservationsCount<T>(t: Slots<T>, initial: nat, n: nat, ops: seq<TableOp<T>>)
    requires Counted(t, initial, n) && initial > 0 && TableRun(t, ops).Ok?
    requires forall i :: 0 <= i < |ops| ==> !ops[i].RemoveOp?
    ensures Counted(TableRun(t, ops).value, initial, n + Reservations(ops))
    decreases |ops|
  {
    if ops != [] {
      CountedStep(t, initial, n, ops[0]);
      ReservationsCount(TableStep(t, ops[0]).value, initial, n + Reserving(ops[0]), ops[1..]);
    }
  }

  /** An empty table cannot grow: with capacity zero every reservation panics. */
  lemma EmptyTableNeverReserves<T>()
    ensures Reserve(NewSlots<T>(0)).Panic?
  {
  }

  // -------------------------------------------------------------------- the class

  class ResourceTable<T> {
    var activeSlots: map<nat, Option<T>>
    var freeIds: set<nat>
    var capacity: nat

    constructor (capacity: nat)
      ensures SlotsOf() == NewSlots(capacity)
    {
      this.activeSlots := map[];
      this.freeIds := Ids(0, capacity);
      this.capacity := capacity;
    }

    ghost function SlotsOf(): Slots<T>
      reads this
    {
      Slots(activeSlots, freeIds, capacity)
    }

    /** `FreeSlotsInner::allocate_one`. */
    method AllocateOne() returns (r: Outcome<nat>)
      modifies `freeIds, `capacity
      ensures match Refill(old(SlotsOf()))
              case Panic => r.Panic?
              case Ok(t) =>
                if t.free == {} then r.Panic?
                else r == Ok(Least(t.free)) && freeIds == t.free - {Least(t.free)} && capacity == t.capacity
    {
      if freeIds == {} {
        if capacity * 2 >= TWO64 {
          return Panic;
        }
        var id := capacity;
        while id < capacity * 2
          invariant capacity == old(capacity) && capacity <= id <= capacity * 2 && freeIds == Ids(capacity, id)
        {
          freeIds := freeIds + {id};
          id := id + 1;
        }
        capacity := capacity * 2;
      }
      if freeIds == {} {
        return Panic;
      }
      LeastExists(freeIds);
      var first :| first in freeIds && forall y :: y in freeIds ==> first <= y;
      LeastUnique(freeIds, first);
      freeIds := freeIds - {first};
      return Ok(first);
    }

    /** `reserve_entry`. */
    method ReserveEntry() returns (r: Outcome<nat>)
      modifies this
      ensures match Reserve(old(SlotsOf()))
              case Panic => r.Panic?
              case Ok((t, id)) => r == Ok(id) && SlotsOf() == t
    {
      r := AllocateOne();
      if r.Panic? {
        return Panic;
      }
      if r.value in activeSlots {
        return Panic;
      }
      activeSlots := activeSlots[r.value := None];
    }

    /** `initialise_entry`. */
    method InitialiseEntry(id: nat, data: T) returns (r: Outcome<()>)
      modifies this
      ensures match Initialise(old(SlotsOf()), id, data)
              case Panic => r.Panic?
              case Ok(t) => r == Ok(()) && SlotsOf() == t
    {
      if id !in activeSlots {
        return Panic;
      }
      activeSlots := activeSlots[id := Some(data)];
      return Ok(());
    }

    /** `get`. */
    method GetEntry(id: nat) returns (r: Outcome<T>)
      ensures r == Get(SlotsOf(), id)
    {
      if id !in activeSlots || activeSlots[id].None? {
        return Panic;
      }
      return Ok(activeSlots[id].value);
    }

    /** `remove_entry`, as written. */
    method RemoveEntry(id: nat) returns (r: Outcome<()>)
      modifies this
      ensures match Remove(old(SlotsOf()), id)
              case Panic => r.Panic?
              case Ok(t) => r == Ok(()) && SlotsOf() == t
    {
      activeSlots := activeSlots - {id};
      if id !in freeIds {
        return Panic;
      }
      freeIds := freeIds - {id};
      return Ok(());
    }
  }
}
