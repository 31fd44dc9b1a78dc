/** The first-fit page allocator (kernel/src/allocator/frame_allocator.rs). */
module FrameAllocators {
  import opened Wrappers
  import opened Bits
  import opened Sv39Format
  import opened Arithmetics

  // ------------------------------------------------------------ as written

  /** The inner loop: `!x == 0` complements the count, so it stops only on usize::MAX. */
  function Probe(pages: seq<Word>, i: nat, npages: nat, j: nat): Outcome<bool>
    decreases npages - j
  {
    if j >= npages then Ok(true)
    else if i + j >= |pages| then Panic
    else if Not(pages[i + j]) == 0 then Ok(false)
    else Probe(pages, i, npages, j + 1)
  }

  /** pages with the n entries from i on overwritten by v. */
  function Fill(pages: seq<Word>, i: nat, n: nat, v: Word): (r: seq<Word>)
    requires i + n <= |pages|
    ensures |r| == |pages|
    ensures forall k :: 0 <= k < |r| ==> r[k] == if i <= k < i + n then v else pages[k]
  {
    seq(|pages|, k requires 0 <= k < |pages| => if i <= k < i + n then v else pages[k])
  }

  lemma {:induction false} ProbeInBounds(pages: seq<Word>, i: nat, npages: nat, j: nat)
    requires Probe(pages, i, npages, j) == Ok(true) && j < npages
    ensures i + npages <= |pages|
    decreases npages - j
  {
    if j + 1 < npages {
      ProbeInBounds(pages, i, npages, j + 1);
    }
  }

  function AllocateFrom(pages: seq<Word>, base: Word, size: Word, npages: Word, i: nat): Outcome<(seq<Word>, Word)>
    requires i <= |pages|
    decreases |pages| - i
  {
    if i == |pages| then Panic
    else if pages[i] != 0 then AllocateFrom(pages, base, size, npages, i + 1)
    else
      var found :- Probe(pages, i, npages, 0);
      if !found then AllocateFrom(pages, base, size, npages, i + 1)
      else if base + i * size >= TWO64 then Panic
      else
        assert i + npages <= |pages| by { if npages > 0 { ProbeInBounds(pages, i, npages, 0); } }
        Ok((Fill(pages, i, npages, npages), base + i * size))
  }

  /** The number of pages that hold size bytes. */
  function PageCount(size: Word): (n: Word)
    requires size + PAGE_SIZE - 1 < TWO64
    ensures n == (size + PAGE_SIZE - 1) / PAGE_SIZE
  {
    PgRoundUp(size) / PAGE_SIZE
  }

  /** `FrameAllocator::allocate`: the new page vector and the address returned. */
  function Allocation(pages: seq<Word>, base: Word, size: Word): Outcome<(seq<Word>, Word)> {
    if size + PAGE_SIZE - 1 >= TWO64 then Panic
    else AllocateFrom(pages, base, size, PageCount(size), 0)
  }

  /** The loop of `deallocate` from id up to end. */
  function Clear(pages: seq<Word>, npages: Word, id: nat, end: nat): (r: Outcome<seq<Word>>)
    ensures r.Ok? ==> |r.value| == |pages|
    decreases end - id
  {
    if id >= end then Ok(pages)
    else if id >= |pages| || pages[id] != npages then Panic
    else Clear(pages[id := 0], npages, id + 1, end)
  }

  /** `FrameAllocator::deallocate`. */
  function Deallocation(pages: seq<Word>, base: Word, addr: Word): Outcome<seq<Word>> {
    if addr < base then Panic
    else
      var begin := (addr - base) / PAGE_SIZE;
      if begin >= |pages| then Panic
      else Clear(pages, pages[begin], begin, begin + pages[begin])
  }

  class FrameAllocator {
    var pageAllocated: seq<Word>
    const baseAddr: Word

    constructor (baseAddr: Word, nPages: nat)
      ensures this.baseAddr == baseAddr
      ensures |pageAllocated| == nPages && forall i :: 0 <= i < nPages ==> pageAllocated[i] == 0
    {
      this.baseAddr := baseAddr;
      this.pageAllocated := seq(nPages, i => 0);
    }

    method Allocate(size: Word) returns (r: Outcome<Word>)
      modifies this
      ensures match Allocation(old(pageAllocated), baseAddr, size)
              case Panic => r.Panic?
              case Ok((pages, ptr)) => r == Ok(ptr) && pageAllocated == pages
    {
      if size + PAGE_SIZE - 1 >= TWO64 {
        return Panic;
      }
      var npages := PageCount(size);
      var i := 0;
      while i < |pageAllocated|
        invariant 0 <= i <= |pageAllocated|
        invariant pageAllocated == old(pageAllocated)
        invariant AllocateFrom(pageAllocated, baseAddr, size, npages, 0)
               == AllocateFrom(pageAllocated, baseAddr, size, npages, i)
      {
        if pageAllocated[i] == 0 {
          var found := true;
          var j := 0;
          while j < npages
            invariant 0 <= j <= npages
            invariant Probe(pageAllocated, i, npages, 0) == Probe(pageAllocated, i, npages, j)
            invariant i + j <= |pageAllocated| || j == 0
          {
            if i + j >= |pageAllocated| {
              return Panic;
            }
            if Not(pageAllocated[i + j]) == 0 {
              found := false;
              break;
            }
            j := j + 1;
          }
          if found {
            ghost var was := pageAllocated;
            j := 0;
            while j < npages
              invariant 0 <= j <= npages
              invariant i + npages <= |was|
              invariant pageAllocated == Fill(was, i, j, npages)
            {
              pageAllocated := pageAllocated[i + j := npages];
              j := j + 1;
            }
            if baseAddr + i * size >= TWO64 {
              return Panic;
            }
            return Ok(baseAddr + i * size);
          }
        }
        i := i + 1;
      }
      return Panic;
    }

    method Deallocate(addr: Word) returns (r: Outcome<()>)
      modifies this
      ensures match Deallocation(old(pageAllocated), baseAddr, addr)
              case Panic => r.Panic?
              case Ok(pages) => r == Ok(()) && pageAllocated == pages
    {
      if addr < baseAddr {
        return Panic;
      }
      var begin := (addr - baseAddr) / PAGE_SIZE;
      if begin >= |pageAllocated| {
        return Panic;
      }
      var npages := pageAllocated[begin];
      var id := begin;
      while id < begin + npages
        invariant begin <= id <= begin + npages
        invariant Clear(old(pageAllocated), npages, begin, begin + npages)
               == Clear(pageAllocated, npages, id, begin + npages)
      {
        if id >= |pageAllocated| || pageAllocated[id] != npages {
          return Panic;
        }
        pageAllocated := pageAllocated[id := 0];
        id := id + 1;
      }
      return Ok(());
    }
  }

  // --------------------------------------------------------------- intended

  predicate RunFree(pages: seq<Word>, i: nat, n: nat) {
    i + n <= |pages| && forall k :: i <= k < i + n ==> pages[k] == 0
  }

  /** First fit over contiguous free runs. */
  function IntendedFrom(pages: seq<Word>, base: Word, npages: Word, i: nat): (r: Outcome<(seq<Word>, Word)>)
    requires i <= |pages| && base + |pages| * PAGE_SIZE <= TWO64
    decreases |pages| - i
  {
    if i == |pages| then Panic
    else if pages[i] == 0 && RunFree(pages, i, npages) then
      Ok((Fill(pages, i, npages, npages), base + i * PAGE_SIZE))
    else IntendedFrom(pages, base, npages, i + 1)
  }

  function AllocationIntended(pages: seq<Word>, base: Word, size: Word): Outcome<(seq<Word>, Word)>
    requires base + |pages| * PAGE_SIZE <= TWO64
  {
    if size + PAGE_SIZE - 1 >= TWO64 then Panic
    else IntendedFrom(pages, base, PageCount(size), 0)
  }

  /** The least free index, or |pages|. */
  function FirstFree(pages: seq<Word>): (i: nat)
    ensures i <= |pages|
    ensures i < |pages| ==> pages[i] == 0
    ensures forall k :: 0 <= k < i ==> pages[k] != 0
  {
    if |pages| == 0 || pages[0] == 0 then 0 else 1 + FirstFree(pages[1..])
  }

  lemma {:induction false} SkipUsed(pages: seq<Word>, base: Word, size: Word, npages: Word, i: nat)
    requires i <= FirstFree(pages) && base + |pages| * PAGE_SIZE <= TWO64
    ensures AllocateFrom(pages, base, size, npages, i) == AllocateFrom(pages, base, size, npages, FirstFree(pages))
    ensures IntendedFrom(pages, base, npages, i) == IntendedFrom(pages, base, npages, FirstFree(pages))
    decreases FirstFree(pages) - i
  {
    if i < FirstFree(pages) {
      SkipUsed(pages, base, size, npages, i + 1);
    }
  }

  lemma {:induction false} ProbeWithoutMax(pages: seq<Word>, i: nat, npages: nat, j: nat)
    requires forall k :: 0 <= k < |pages| ==> pages[k] != TWO64 - 1
    requires j <= npages && (i + j <= |pages| || j == 0)
    ensures Probe(pages, i, npages, j) == if j < npages && i + npages > |pages| then Panic else Ok(true)
    decreases npages - j
  {
    if j < npages && i + j < |pages| {
      ProbeWithoutMax(pages, i, npages, j + 1);
    }
  }

  /** What the intended search returns: the first free run that fits, at or after i. */
  lemma {:induction false} IntendedFinds(pages: seq<Word>, base: Word, npages: Word, i: nat)
    requires i <= |pages| && base + |pages| * PAGE_SIZE <= TWO64
    ensures match IntendedFrom(pages, base, npages, i)
            case Panic => forall k :: i <= k < |pages| && pages[k] == 0 ==> !RunFree(pages, k, npages)
            case Ok((after, ptr)) =>
              exists k :: i <= k < |pages| && pages[k] == 0 && RunFree(pages, k, npages)
                && after == Fill(pages, k, npages, npages) && ptr == base + k * PAGE_SIZE
                && forall k' :: i <= k' < k && pages[k'] == 0 ==> !RunFree(pages, k', npages)
    decreases |pages| - i
  {
    if i < |pages| && !(pages[i] == 0 && RunFree(pages, i, npages)) {
      IntendedFinds(pages, base, npages, i + 1);
    }
  }

  /** No free run of n pages starts at a free page. */
  predicate NoRun(pages: seq<Word>, n: nat) {
    forall k :: 0 <= k < |pages| && pages[k] == 0 ==> !RunFree(pages, k, n)
  }

  /** Whether the code as written meets its intent on a request, decided before the call. With i
      the first free page: either the run at i is free and the address is not mis-scaled, or
      both forms panic, because there is no i, or the run leaves the vector, or no run is
      free and the mis-scaled address overflows. */
  predicate FirstRunFits(pages: seq<Word>, base: Word, size: Word)
    requires size + PAGE_SIZE - 1 < TWO64
  {
    var i, n := FirstFree(pages), PageCount(size);
    || (RunFree(pages, i, n) && (i == 0 || size == PAGE_SIZE))
    || i == |pages|
    || i + n > |pages|
    || (NoRun(pages, n) && base + i * size >= TWO64)
  }

  lemma ScaledAddress(base: nat, i: nat, size: nat)
    ensures base + i * size == base + i * PAGE_SIZE <==> i == 0 || size == PAGE_SIZE
  {
  }

  /** With no page marked usize::MAX, the code takes the run at the first free page blindly. */
  lemma CodeAtFirstFree(pages: seq<Word>, base: Word, size: Word, n: Word)
    requires FirstFree(pages) < |pages| && forall k :: 0 <= k < |pages| ==> pages[k] != TWO64 - 1
    ensures var i := FirstFree(pages);
            AllocateFrom(pages, base, size, n, i) ==
              if i + n > |pages| || base + i * size >= TWO64 then Panic
              else Ok((Fill(pages, i, n, n), base + i * size))
  {
    ProbeWithoutMax(pages, FirstFree(pages), n, 0);
  }

  lemma IntendedAtFirstFree(pages: seq<Word>, base: Word, n: Word)
    requires FirstFree(pages) < |pages| && base + |pages| * PAGE_SIZE <= TWO64
    requires RunFree(pages, FirstFree(pages), n)
    ensures var i := FirstFree(pages);
            IntendedFrom(pages, base, n, i) == Ok((Fill(pages, i, n, n), base + i * PAGE_SIZE))
  {
  }

  /** The code returns what first fit returns exactly when FirstRunFits holds. */
  lemma AllocateAgreesIff(pages: seq<Word>, base: Word, size: Word)
    requires base + |pages| * PAGE_SIZE <= TWO64 && size + PAGE_SIZE - 1 < TWO64
    requires forall k :: 0 <= k < |pages| ==> pages[k] != TWO64 - 1
    ensures Allocation(pages, base, size) == AllocationIntended(pages, base, size) <==> FirstRunFits(pages, base, size)
  {
    var i, n := FirstFree(pages), PageCount(size);
    SkipUsed(pages, base, size, n, 0);
    if i < |pages| {
      AgreesAtFirstFree(pages, base, size, n);
    }
  }

  lemma AgreesAtFirstFree(pages: seq<Word>, base: Word, size: Word, n: Word)
    requires base + |pages| * PAGE_SIZE <= TWO64 && FirstFree(pages) < |pages|
    requires forall k :: 0 <= k < |pages| ==> pages[k] != TWO64 - 1
    ensures var i := FirstFree(pages);
            AllocateFrom(pages, base, size, n, i) == IntendedFrom(pages, base, n, i) <==>
              || (RunFree(pages, i, n) && (i == 0 || size == PAGE_SIZE))
              || i + n > |pages|
              || (NoRun(pages, n) && base + i * size >= TWO64)
  {
    var i := FirstFree(pages);
    CodeAtFirstFree(pages, base, size, n);
    ScaledAddress(base, i, size);
    if RunFree(pages, i, n) {
      IntendedAtFirstFree(pages, base, n);
    } else {
      OverlapDiffers(pages, base, n);
    }
  }

  /** When the run at the first free page is not free, the code marks a page that first fit
      leaves free. */
  lemma OverlapDiffers(pages: seq<Word>, base: Word, n: Word)
    requires base + |pages| * PAGE_SIZE <= TWO64 && FirstFree(pages) < |pages|
    requires !RunFree(pages, FirstFree(pages), n)
    ensures var i := FirstFree(pages);
            var intended := IntendedFrom(pages, base, n, i);
            && (i + n > |pages| ==> intended.Panic?)
            && (intended.Panic? ==> NoRun(pages, n))
            && (i + n <= |pages| && intended.Ok? ==> intended.value.0 != Fill(pages, i, n, n))
            && (NoRun(pages, n) ==> intended.Panic?)
  {
    var i := FirstFree(pages);
    IntendedFinds(pages, base, n, i);
    var intended := IntendedFrom(pages, base, n, i);
    assert intended.Ok? ==> intended.value.0[i] == 0;
  }

  /** Taking the lowest free page. */
  function AllocateOne(pages: seq<Word>, base: Word): Outcome<(seq<Word>, Word)>
    requires base + |pages| * PAGE_SIZE <= TWO64
  {
    var i := FirstFree(pages);
    if i == |pages| then Panic else Ok((pages[i := 1], base + i * PAGE_SIZE))
  }

  /** A request of one page is answered as intended in every state: by the lowest free page. */
  lemma AllocatePageAgrees(pages: seq<Word>, base: Word, size: Word)
    requires base + |pages| * PAGE_SIZE <= TWO64 && size == PAGE_SIZE
    ensures Allocation(pages, base, size) == AllocationIntended(pages, base, size)
    ensures Allocation(pages, base, size) == AllocateOne(pages, base)
  {
    assert PageCount(size) == 1;
    OnePageFromStart(pages, base);
  }

  lemma OnePageFromStart(pages: seq<Word>, base: Word)
    requires base + |pages| * PAGE_SIZE <= TWO64
    ensures AllocateFrom(pages, base, PAGE_SIZE, 1, 0) == IntendedFrom(pages, base, 1, 0)
    ensures IntendedFrom(pages, base, 1, 0) == AllocateOne(pages, base)
  {
    SkipUsed(pages, base, PAGE_SIZE, 1, 0);
    if FirstFree(pages) < |pages| {
      OnePage(pages, base, FirstFree(pages));
    }
  }

  lemma OnePage(pages: seq<Word>, base: Word, i: nat)
    requires base + |pages| * PAGE_SIZE <= TWO64
    requires i < |pages| && pages[i] == 0
    ensures AllocateFrom(pages, base, PAGE_SIZE, 1, i) == Ok((pages[i := 1], base + i * PAGE_SIZE))
    ensures IntendedFrom(pages, base, 1, i) == Ok((pages[i := 1], base + i * PAGE_SIZE))
  {
    assert RunFree(pages, i, 1);
    assert Probe(pages, i, 1, 0) == Probe(pages, i, 1, 1) == Ok(true);
    assert Fill(pages, i, 1, 1) == pages[i := 1];
  }

  /** A two-page request over a one-page hole: the code hands out a page that is in use. */
  lemma TwoPagesOverlap()
    ensures var pages: seq<Word> := [0, 1, 0, 0];
            && Allocation(pages, 0x8000_0000, 8192) == Ok(([2, 2, 0, 0], 0x8000_0000))
            && AllocationIntended(pages, 0x8000_0000, 8192) == Ok(([0, 1, 2, 2], 0x8000_2000))
  {
    var pages: seq<Word> := [0, 1, 0, 0];
    var base: Word := 0x8000_0000;
    assert FirstFree(pages) == 0;
    ProbeWithoutMax(pages, 0, 2, 0);
    assert Fill(pages, 0, 2, 2) == [2, 2, 0, 0];
    assert !RunFree(pages, 0, 2) by { assert pages[1] == 1; }
    assert IntendedFrom(pages, base, 2, 0) == IntendedFrom(pages, base, 2, 1);
    assert IntendedFrom(pages, base, 2, 1) == IntendedFrom(pages, base, 2, 2);
    assert RunFree(pages, 2, 2);
    assert Fill(pages, 2, 2, 2) == [0, 1, 2, 2];
  }
}
