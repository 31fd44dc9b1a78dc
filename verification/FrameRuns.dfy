/** What every run of the frame allocator keeps
    (kernel/src/allocator/frame_allocator.rs, public interface and general requests). */
module FrameRuns {
  import opened Wrappers
  import opened Bits
  import opened Sv39Format
  import opened Arithmetics
  import opened FrameAllocators

  function FreeCount(pages: seq<Word>): (n: nat)
    ensures n <= |pages|
  {
    if |pages| == 0 then 0 else (if pages[0] == 0 then 1 else 0) + FreeCount(pages[1..])
  }

  lemma {:induction false} FreeCountUpdate(pages: seq<Word>, i: nat, v: Word)
    requires i < |pages|
    ensures FreeCount(pages[i := v])
         == FreeCount(pages) - (if pages[i] == 0 then 1 else 0) + (if v == 0 then 1 else 0)
  {
    if i == 0 {
      assert pages[0 := v][1..] == pages[1..];
    } else {
      FreeCountUpdate(pages[1..], i - 1, v);
      assert pages[i := v][1..] == pages[1..][i - 1 := v];
    }
  }

  lemma {:induction false} FreeCountZero(pages: seq<Word>)
    ensures FreeCount(pages) == 0 <==> FirstFree(pages) == |pages|
  {
    if |pages| > 0 {
      FreeCountZero(pages[1..]);
    }
  }

  lemma {:induction false} FreeCountAll(pages: seq<Word>)
    requires forall i :: 0 <= i < |pages| ==> pages[i] == 0
    ensures FreeCount(pages) == |pages|
  {
    if |pages| > 0 {
      FreeCountAll(pages[1..]);
    }
  }

  /** Returning a one-page allocation clears its entry and nothing else. */
  lemma DeallocatePage(pages: seq<Word>, base: Word, i: nat, addr: Word)
    requires i < |pages| && pages[i] == 1 && addr == base + i * PAGE_SIZE
    ensures Deallocation(pages, base, addr) == Ok(pages[i := 0])
  {
    assert (addr - base) / PAGE_SIZE == i;
    assert Clear(pages, 1, i, i + 1) == Clear(pages[i := 0], 1, i + 1, i + 1);
  }

  // ------------------------------------------------- runs of single frames

  datatype FrameState = FrameState(pages: seq<Word>, live: set<Word>)

  datatype FrameOp = Take | Give(pa: Word)

  /** `allocate_one_frame` and `deallocate_one_frame`; only a live frame is given back. */
  ghost predicate FrameStep(base: Word, s: FrameState, op: FrameOp, s': FrameState)
    requires base + |s.pages| * PAGE_SIZE <= TWO64
  {
    match op
    case Take =>
      var r := AllocateOne(s.pages, base);
      r.Ok? && s' == FrameState(r.value.0, s.live + {r.value.1})
    case Give(pa) =>
      pa in s.live &&
      var r := Deallocation(s.pages, base, pa);
      r.Ok? && s' == FrameState(r.value, s.live - {pa})
  }

  ghost predicate FrameNext(base: Word, s: FrameState, s': FrameState) {
    base + |s.pages| * PAGE_SIZE <= TWO64 && exists op :: FrameStep(base, s, op, s')
  }

  /** A run from n free pages. */
  ghost predicate FrameRun(base: Word, n: nat, run: seq<FrameState>) {
    && |run| > 0
    && |run[0].pages| == n && (forall i :: 0 <= i < n ==> run[0].pages[i] == 0) && run[0].live == {}
    && forall i :: 0 < i < |run| ==> FrameNext(base, run[i - 1], run[i])
  }

  /** The address of page i of the vector. */
  function PageAddr(base: Word, i: nat): nat {
    base + i * PAGE_SIZE
  }

  lemma PageAddrInjective(base: Word, i: nat, k: nat)
    ensures PageAddr(base, i) == PageAddr(base, k) <==> i == k
  {
  }

  /** Page i of the vector is live exactly when its entry is set. */
  ghost predicate FrameInv(base: Word, n: nat, s: FrameState) {
    && |s.pages| == n
    && (forall i :: 0 <= i < n ==> s.pages[i] == 0 || s.pages[i] == 1)
    && (forall i :: 0 <= i < n ==> (s.pages[i] == 1 <==> PageAddr(base, i) in s.live))
    && (forall pa :: pa in s.live ==> base <= pa < base + n * PAGE_SIZE && pa % PAGE_SIZE == 0)
    && FreeCount(s.pages) + |s.live| == n
  }

  /** In a state that satisfies the invariant an allocation returns the lowest free page, which
      is aligned, in range and not live; it panics exactly when every page is live. */
  lemma TakeReturnsLowest(base: Word, n: nat, s: FrameState)
    requires base % PAGE_SIZE == 0 && base + n * PAGE_SIZE <= TWO64 && FrameInv(base, n, s)
    ensures match AllocateOne(s.pages, base)
            case Panic => |s.live| == n
            case Ok((pages, pa)) =>
              && |s.live| < n && pa !in s.live && pa % PAGE_SIZE == 0 && base <= pa < base + n * PAGE_SIZE
              && (forall lower: nat :: base <= lower < pa && lower % PAGE_SIZE == 0 ==> lower in s.live)
  {
    FreeCountZero(s.pages);
    forall lower: nat | base <= lower < base + FirstFree(s.pages) * PAGE_SIZE && lower % PAGE_SIZE == 0
      ensures lower in s.live
    {
      LowerIsLive(base, n, s, lower);
    }
  }

  lemma TakeKeepsInv(base: Word, n: nat, s: FrameState)
    requires base % PAGE_SIZE == 0 && base + n * PAGE_SIZE <= TWO64 && FrameInv(base, n, s)
    ensures var r := AllocateOne(s.pages, base);
            r.Ok? ==> FrameInv(base, n, FrameState(r.value.0, s.live + {r.value.1}))
  {
    if FirstFree(s.pages) < n {
      TakePage(base, n, s, FirstFree(s.pages));
    }
  }

  lemma PageAddrAligned(base: Word, i: nat)
    requires base % PAGE_SIZE == 0
    ensures PageAddr(base, i) % PAGE_SIZE == 0
  {
  }

  lemma TakePage(base: Word, n: nat, s: FrameState, i: nat)
    requires base % PAGE_SIZE == 0 && base + n * PAGE_SIZE <= TWO64 && FrameInv(base, n, s) && i < n && s.pages[i] == 0
    ensures FrameInv(base, n, FrameState(s.pages[i := 1], s.live + {PageAddr(base, i)}))
  {
    FreeCountUpdate(s.pages, i, 1);
    PageAddrAligned(base, i);
    forall k | 0 <= k < n
      ensures PageAddr(base, k) in s.live + {PageAddr(base, i)} <==> PageAddr(base, k) in s.live || k == i
    {
      PageAddrInjective(base, k, i);
    }
  }

  lemma LowerIsLive(base: Word, n: nat, s: FrameState, lower: nat)
    requires base % PAGE_SIZE == 0 && base + n * PAGE_SIZE <= TWO64 && FrameInv(base, n, s)
    requires base <= lower < base + FirstFree(s.pages) * PAGE_SIZE && lower % PAGE_SIZE == 0
    ensures lower in s.live
  {
    var k := (lower - base) / PAGE_SIZE;
    assert lower == PageAddr(base, k) && s.pages[k] == 1;
  }

  /** Giving back a live frame never panics. */
  lemma GiveKeepsInv(base: Word, n: nat, s: FrameState, pa: Word)
    requires base % PAGE_SIZE == 0 && base + n * PAGE_SIZE <= TWO64 && FrameInv(base, n, s) && pa in s.live
    ensures var r := Deallocation(s.pages, base, pa);
            r.Ok? && FrameInv(base, n, FrameState(r.value, s.live - {pa}))
  {
    var k := (pa - base) / PAGE_SIZE;
    assert pa == PageAddr(base, k) && s.pages[k] == 1;
    DeallocatePage(s.pages, base, k, pa);
    FreeCountUpdate(s.pages, k, 0);
    forall i | 0 <= i < n
      ensures PageAddr(base, i) in s.live - {pa} <==> PageAddr(base, i) in s.live && i != k
    {
      PageAddrInjective(base, i, k);
    }
  }

  /** The invariant holds in every state of every run. */
  lemma {:induction false} FrameRunsKeepInv(base: Word, n: nat, run: seq<FrameState>, k: nat)
    requires base % PAGE_SIZE == 0 && base + n * PAGE_SIZE <= TWO64
    requires FrameRun(base, n, run) && k < |run|
    ensures FrameInv(base, n, run[k])
  {
    if k == 0 {
      FreeCountAll(run[0].pages);
    } else {
      FrameRunsKeepInv(base, n, run, k - 1);
      var op :| FrameStep(base, run[k - 1], op, run[k]);
      match op {
        case Take => TakeKeepsInv(base, n, run[k - 1]);
        case Give(pa) => GiveKeepsInv(base, n, run[k - 1], pa);
      }
    }
  }

  // ------------------------------------ runs of the intended general allocator

  /** blocks maps the first page of every live allocation to its length; a request of no pages
      gets an address and no page. */
  datatype BlockState = BlockState(pages: seq<Word>, blocks: map<nat, nat>)

  datatype BlockOp = Request(npages: Word) | Release(start: nat)

  ghost predicate BlockStep(base: Word, s: BlockState, op: BlockOp, s': BlockState)
    requires base + |s.pages| * PAGE_SIZE <= TWO64
  {
    match op
    case Request(npages) =>
      var r := IntendedFrom(s.pages, base, npages, 0);
      && r.Ok? && r.value.1 >= base
      && s'.pages == r.value.0
      && s'.blocks == if npages == 0 then s.blocks else s.blocks[(r.value.1 - base) / PAGE_SIZE := npages]
    case Release(start) =>
      && start in s.blocks && base + start * PAGE_SIZE < TWO64
      && var r := Deallocation(s.pages, base, base + start * PAGE_SIZE);
      && r.Ok? && s' == BlockState(r.value, s.blocks - {start})
  }

  ghost predicate BlockNext(base: Word, s: BlockState, s': BlockState) {
    base + |s.pages| * PAGE_SIZE <= TWO64 && exists op :: BlockStep(base, s, op, s')
  }

  /** Page k belongs to the live block that starts at b. */
  predicate InBlock(blocks: map<nat, nat>, b: nat, k: nat) {
    b in blocks && b <= k < b + blocks[b]
  }

  /** Every used page lies in exactly one block, and its entry is that block's length. */
  ghost predicate BlockInv(s: BlockState) {
    && (forall b :: b in s.blocks ==> 0 < s.blocks[b] && b + s.blocks[b] <= |s.pages|)
    && (forall b, k :: 0 <= k < |s.pages| && InBlock(s.blocks, b, k) ==> s.pages[k] == s.blocks[b])
    && (forall b, c, k :: InBlock(s.blocks, b, k) && InBlock(s.blocks, c, k) ==> b == c)
    && (forall k :: 0 <= k < |s.pages| && s.pages[k] != 0 ==> exists b :: InBlock(s.blocks, b, k))
  }

  lemma {:induction false} ClearRun(pages: seq<Word>, npages: Word, id: nat, end: nat)
    requires id <= end <= |pages| && forall k :: id <= k < end ==> pages[k] == npages
    ensures Clear(pages, npages, id, end) == Ok(Fill(pages, id, end - id, 0))
    decreases end - id
  {
    if id < end {
      ClearRun(pages[id := 0], npages, id + 1, end);
      assert Fill(pages[id := 0], id + 1, end - id - 1, 0) == Fill(pages, id, end - id, 0);
    } else {
      assert Fill(pages, id, 0, 0) == pages;
    }
  }

  /** The intended allocator keeps its live runs disjoint over every run of requests and
      releases, and releasing a live run never panics. */
  lemma RequestKeepsBlocks(base: Word, s: BlockState, n: Word, s': BlockState)
    requires base + |s.pages| * PAGE_SIZE <= TWO64
    requires BlockInv(s) && BlockStep(base, s, Request(n), s')
    ensures |s'.pages| == |s.pages| && BlockInv(s')
  {
    IntendedFinds(s.pages, base, n, 0);
    var r := IntendedFrom(s.pages, base, n, 0);
    var k :| 0 <= k < |s.pages| && RunFree(s.pages, k, n)
             && r.value.0 == Fill(s.pages, k, n, n) && r.value.1 == base + k * PAGE_SIZE;
    assert (r.value.1 - base) / PAGE_SIZE == k;
    if n == 0 {
      assert Fill(s.pages, k, 0, 0) == s.pages;
    } else {
      BlockAdded(s, k, n);
    }
  }

  lemma BlockAdded(s: BlockState, k: nat, n: Word)
    requires BlockInv(s) && n > 0 && RunFree(s.pages, k, n)
    ensures BlockInv(BlockState(Fill(s.pages, k, n, n), s.blocks[k := n]))
  {
    var blocks := s.blocks[k := n];
    forall b, x: nat | InBlock(s.blocks, b, x) && x < |s.pages|
      ensures !(k <= x < k + n) && b != k
    {
      assert s.pages[x] != 0;
      if b == k {
        assert InBlock(s.blocks, k, k);
      }
    }
    forall b, x: nat | InBlock(blocks, b, x)
      ensures b == k || InBlock(s.blocks, b, x)
    {
    }
    forall x | 0 <= x < |s.pages| && Fill(s.pages, k, n, n)[x] != 0
      ensures exists b :: InBlock(blocks, b, x)
    {
      if k <= x < k + n {
        assert InBlock(blocks, k, x);
      } else {
        var b :| InBlock(s.blocks, b, x);
        assert InBlock(blocks, b, x);
      }
    }
  }

  lemma ReleaseKeepsBlocks(base: Word, s: BlockState, start: nat)
    requires base + |s.pages| * PAGE_SIZE <= TWO64
    requires BlockInv(s) && start in s.blocks
    ensures base + start * PAGE_SIZE < TWO64
    ensures Deallocation(s.pages, base, base + start * PAGE_SIZE) == Ok(Fill(s.pages, start, s.blocks[start], 0))
    ensures BlockInv(BlockState(Fill(s.pages, start, s.blocks[start], 0), s.blocks - {start}))
  {
    var n := s.blocks[start];
    forall k | start <= k < start + n
      ensures s.pages[k] == n
    {
      assert InBlock(s.blocks, start, k);
    }
    ClearRun(s.pages, n, start, start + n);
    var after := BlockState(Fill(s.pages, start, n, 0), s.blocks - {start});
    forall b, k: nat | InBlock(after.blocks, b, k)
      ensures InBlock(s.blocks, b, k) && !(start <= k < start + n)
    {
      if start <= k < start + n {
        assert InBlock(s.blocks, start, k);
        assert InBlock(s.blocks, b, k);
      }
    }
    forall k | 0 <= k < |after.pages| && after.pages[k] != 0
      ensures exists b :: InBlock(after.blocks, b, k)
    {
      var b :| InBlock(s.blocks, b, k);
      assert InBlock(after.blocks, b, k);
    }
  }

  ghost predicate BlockRun(base: Word, n: nat, run: seq<BlockState>)
    requires base + n * PAGE_SIZE <= TWO64
  {
    && |run| > 0 && run[0] == BlockState(seq(n, i => 0), map[])
    && forall i :: 0 < i < |run| ==> BlockNext(base, run[i - 1], run[i])
  }

  lemma BlockStepKeeps(base: Word, s: BlockState, op: BlockOp, s': BlockState)
    requires base + |s.pages| * PAGE_SIZE <= TWO64 && BlockInv(s) && BlockStep(base, s, op, s')
    ensures |s'.pages| == |s.pages| && BlockInv(s')
  {
    match op
    case Request(npages) => RequestKeepsBlocks(base, s, npages, s');
    case Release(start) => ReleaseKeepsBlocks(base, s, start);
  }

  /** In every state of every run the live runs are disjoint and make up the used pages. */
  lemma {:induction false} BlockRunsKeepInv(base: Word, n: nat, run: seq<BlockState>, k: nat)
    requires base + n * PAGE_SIZE <= TWO64 && BlockRun(base, n, run) && k < |run|
    ensures |run[k].pages| == n && BlockInv(run[k])
  {
    if k > 0 {
      BlockRunsKeepInv(base, n, run, k - 1);
      assert BlockNext(base, run[k - 1], run[k]);
      var op :| BlockStep(base, run[k - 1], op, run[k]);
      BlockStepKeeps(base, run[k - 1], op, run[k]);
    }
  }

  // -------------------------------------------------- runs of the code as written

  datatype CodeOp = Allocating(size: Word) | Deallocating(addr: Word)

  predicate CodeStep(base: Word, pages: seq<Word>, op: CodeOp, pages': seq<Word>) {
    match op
    case Allocating(size) =>
      var r := Allocation(pages, base, size);
      r.Ok? && pages' == r.value.0
    case Deallocating(addr) => Deallocation(pages, base, addr) == Ok(pages')
  }

  ghost predicate CodeNext(base: Word, pages: seq<Word>, pages': seq<Word>) {
    exists op :: CodeStep(base, pages, op, pages')
  }

  ghost predicate CodeRun(base: Word, n: nat, run: seq<seq<Word>>) {
    |run| > 0 && run[0] == seq(n, i => 0) && forall i :: 0 < i < |run| ==> CodeNext(base, run[i - 1], run[i])
  }

  /** No entry exceeds the number of pages. */
  ghost predicate Bounded(pages: seq<Word>, n: nat) {
    |pages| == n && forall k :: 0 <= k < n ==> pages[k] <= n
  }

  lemma {:induction false} AllocateFromBounded(pages: seq<Word>, base: Word, size: Word, npages: Word, i: nat)
    requires i <= |pages| && Bounded(pages, |pages|)
    ensures var r := AllocateFrom(pages, base, size, npages, i);
            r.Ok? ==> Bounded(r.value.0, |pages|)
    decreases |pages| - i
  {
    if i < |pages| {
      AllocateFromBounded(pages, base, size, npages, i + 1);
      if Probe(pages, i, npages, 0) == Ok(true) && npages > 0 {
        ProbeInBounds(pages, i, npages, 0);
      }
    }
  }

  lemma {:induction false} ClearBounded(pages: seq<Word>, npages: Word, id: nat, end: nat, n: nat)
    requires Bounded(pages, n)
    ensures Clear(pages, npages, id, end).Ok? ==> Bounded(Clear(pages, npages, id, end).value, n)
    decreases end - id
  {
    if id < end && id < |pages| {
      ClearBounded(pages[id := 0], npages, id + 1, end, n);
    }
  }

  lemma CodeStepBounded(base: Word, pages: seq<Word>, op: CodeOp, pages': seq<Word>)
    requires Bounded(pages, |pages|) && CodeStep(base, pages, op, pages')
    ensures Bounded(pages', |pages|)
  {
    match op
    case Allocating(size) =>
      AllocateFromBounded(pages, base, size, PageCount(size), 0);
    case Deallocating(addr) =>
      var begin := (addr - base) / PAGE_SIZE;
      ClearBounded(pages, pages[begin], begin, begin + pages[begin], |pages|);
  }

  /** In every state of every run of the code, no entry exceeds the number of pages. */
  lemma {:induction false} CodeRunsBounded(base: Word, n: nat, run: seq<seq<Word>>, k: nat)
    requires CodeRun(base, n, run) && k < |run|
    ensures Bounded(run[k], n)
  {
    if k > 0 {
      CodeRunsBounded(base, n, run, k - 1);
      assert CodeNext(base, run[k - 1], run[k]);
      var op :| CodeStep(base, run[k - 1], op, run[k]);
      CodeStepBounded(base, run[k - 1], op, run[k]);
    }
  }

  /** In every state of every run of the code, and for every size, the code answers as first
      fit does exactly when the first free page allows it, or the size overflows when rounded. */
  lemma CodeRunsAgreeIff(base: Word, n: nat, run: seq<seq<Word>>, k: nat, size: Word)
    requires base + n * PAGE_SIZE <= TWO64 && CodeRun(base, n, run) && k < |run|
    ensures |run[k]| == n
    ensures Allocation(run[k], base, size) == AllocationIntended(run[k], base, size) <==>
              size + PAGE_SIZE - 1 >= TWO64 || FirstRunFits(run[k], base, size)
  {
    CodeRunsBounded(base, n, run, k);
    if size + PAGE_SIZE - 1 < TWO64 {
      AllocateAgreesIff(run[k], base, size);
    }
  }
}
