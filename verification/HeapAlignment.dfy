/** Where the release arithmetic wraps and where it cannot: short runs that make kfree wrap, and a
    discipline on request sizes under which only the last page of the address space does. */
module HeapAlignment {
  import opened Machine
  import opened PageTable
  import opened Layout
  import opened ReleaseArithmetic
  import opened HeapModel
  import opened HeapRuns
  import opened PageMap

  const GRAIN := 32  // a divisor of the page size larger than a header

  predicate OnGrain(b: Block)
  {
    b.addr % GRAIN == 0 && b.End() % GRAIN == 0
  }

  ghost predicate AllOnGrain(bs: seq<Block>)
  {
    forall i :: 0 <= i < |bs| ==> OnGrain(bs[i])
  }

  /** Payload sizes that make header and payload together a multiple of the grain. */
  predicate GrainSize(n: nat)
  {
    (n + HSIZE) % GRAIN == 0
  }

  predicate GrainCall(call: Call)
  {
    call.Kfree? || GrainSize(call.n)
  }

  predicate LastPageClaimed(pages: seq<PageState>)
  {
    |pages| == PAGE_COUNT && pages[PAGE_COUNT - 1] == PUsed
  }

  lemma {:induction false} CarveOnGrain(bs: seq<Block>, k: nat, n: nat)
    requires k < |bs| && AllOnGrain(bs) && GrainSize(n)
    ensures AllOnGrain(Carve(bs, k, n))
  {
    var r, b := Carve(bs, k, n), bs[k];
    assert OnGrain(b);
    PiecesOnGrain(b, n);
    hide OnGrain, GrainSize;
    forall i | 0 <= i < |r| ensures OnGrain(r[i]) {
      if i < k { assert OnGrain(bs[i]); }
      if i > k { assert OnGrain(bs[i - 1]) && (i < |bs| ==> OnGrain(bs[i])); }
    }
  }

  lemma PiecesOnGrain(b: Block, n: nat)
    requires OnGrain(b) && GrainSize(n)
    ensures OnGrain(b.(free := false)) && OnGrain(Block(b.addr, n, false))
    ensures n + HSIZE <= b.size ==> OnGrain(Block(b.addr + HSIZE + n, b.size - n - HSIZE, true))
  {
  }

  lemma FreshOnGrain(i: nat, c: nat)
    requires c > 0
    ensures OnGrain(FreshBlock(i, c))
  {
  }

  lemma {:induction false} MallocOnGrain(s: State, n: u32)
    requires Inv(s) && AllOnGrain(s.blocks) && GrainSize(n) && Malloc(s, n).Got?
    ensures AllOnGrain(Malloc(s, n).state.blocks)
  {
    hide Carve, Sound, Ledger, LowReserved;
    GrownFits(s, n);
    PageCountCovers(n);
    if FirstFit(s.blocks, n, 0) == |s.blocks| {
      FreshOnGrain(FindRun(s.pages, PageCountFor(n), 0).value, PageCountFor(n));
    }
    CarveOnGrain(Grown(s, n).blocks, FirstFit(s.blocks, n, 0), n);
  }

  lemma {:induction false} MergeAtOnGrain(bs: seq<Block>, k: int)
    requires AllOnGrain(bs)
    ensures AllOnGrain(MergeAt(bs, k))
  {
  }

  lemma FrontOnGrain(b: Block)
    requires OnGrain(b) && b.addr + HSIZE <= RoundUp(b.addr)
    ensures OnGrain(Block(b.addr, RoundUp(b.addr) - b.addr - HSIZE, true))
  {
    PageOnGrain(RoundUp(b.addr));
    hide RoundUp;
  }

  lemma PageOnGrain(a: nat)
    requires a % PAGE_SIZE == 0
    ensures a % GRAIN == 0
  {
  }

  lemma {:induction false} ReleaseOnGrain(s: State, k: nat)
    requires AllOnGrain(s.blocks) && k < |s.blocks|
    ensures AllOnGrain(Release(s, k).blocks)
  {
    var r, b := Release(s, k).blocks, s.blocks[k];
    assert OnGrain(b);
    if b.addr + HSIZE <= RoundUp(b.addr) { FrontOnGrain(b); }
    hide OnGrain, RoundUp, Releasable, SetPages;
    forall i | 0 <= i < |r| ensures OnGrain(r[i]) {
      assert OnGrain(s.blocks[i]) && (i + 1 < |s.blocks| ==> OnGrain(s.blocks[i + 1]));
    }
  }

  lemma {:induction false} JoinedOnGrain(bs: seq<Block>, k: nat)
    requires AllOnGrain(bs) && k < |bs|
    ensures AllOnGrain(Joined(bs, k).0)
  {
    var marked := Mark(bs, k, true);
    assert AllOnGrain(marked) by {
      forall i | 0 <= i < |marked| ensures OnGrain(marked[i]) { assert OnGrain(bs[i]); }
    }
    MergeAtOnGrain(marked, k);
    MergeAtOnGrain(MergeAt(marked, k), k - 1);
  }

  /** On the grain no header straddles a page boundary, so only the last page can make kfree wrap. */
  lemma {:induction false} FreeOnGrain(s: State, k: nat)
    requires Inv(s) && AllOnGrain(s.blocks) && k < |s.blocks| && !s.blocks[k].free
    ensures Free(s, k).Freed? ==> AllOnGrain(Free(s, k).state.blocks)
    ensures !LastPageClaimed(s.pages) ==> Free(s, k).Freed?
  {
    hide Release, Ledger, MergeAt;
    JoinedKeeps(s, k);
    JoinedOnGrain(s.blocks, k);
    var (bs, j) := Joined(s.blocks, k);
    ReleaseOnGrain(s.(blocks := bs), j);
    if !LastPageClaimed(s.pages) { GrainSafe(bs[j], s.pages); }
  }

  lemma {:induction false} GrainSafe(b: Block, pages: seq<PageState>)
    requires OnGrain(b) && InHeap(b) && Owns(b, pages) && |pages| == PAGE_COUNT
    requires !LastPageClaimed(pages)
    ensures !Unsafe(b)
  {
  }

  /** The same for the kfree inside krealloc. */
  lemma {:induction false} ReallocOnGrain(s: State, k: nat, n: u32)
    requires Inv(s) && AllOnGrain(s.blocks) && GrainSize(n) && k < |s.blocks|
    ensures Realloc(s, k, n).Resized? ==> AllOnGrain(Realloc(s, k, n).state.blocks)
    ensures Realloc(s, k, n).NotReleased? ==> Malloc(s, n).Got? && LastPageClaimed(Malloc(s, n).state.pages)
  {
    hide Malloc, Free, Sound, Ledger, LowReserved, Find, OnGrain, GrainSize, LastPageClaimed;
    if s.blocks[k].size < n && Malloc(s, n).Got? {
      MallocRefines(s, n);
      MallocOnGrain(s, n);
      MallocKeepsBlock(s, n, k);
      var t := Malloc(s, n).state;
      var k' := Find(t.blocks, s.blocks[k].addr);
      if !t.blocks[k'].free { FreeOnGrain(t, k'); }
    }
  }

  /** The last page is in use when the call comes to free a block. */
  ghost predicate LastPageInUse(s: State, call: Call)
  {
    LastPageClaimed(s.pages) ||
    (call.Krealloc? && Malloc(s, call.n).Got? && LastPageClaimed(Malloc(s, call.n).state.pages))
  }

  /** What a halt of a call on the grain comes down to. */
  ghost predicate HaltCause(s: State, call: Call, why: Halt)
  {
    match why
    case OutOfPages => !call.Kfree? && forall p :: 0 <= p ==> !RunFree(s.pages, p, PageCountFor(call.n))
    case SizeWraps => !call.Kfree? && call.n + HSIZE == TOP
    case ReleaseWraps => LastPageInUse(s, call)
    case UnknownBlock =>
      (call.Krealloc? || (call.Kfree? && !call.refused)) && Find(s.blocks, call.ptr - HSIZE) == |s.blocks|
  }

  lemma {:induction false} MallocHalts(s: State, call: Call)
    requires Inv(s) && !call.Kfree? && GrainCall(call) && !Malloc(s, call.n).Got?
    ensures HaltCause(s, call, AfterAlloc(Malloc(s, call.n)).why)
  {
    MallocChoice(s, call.n);
  }

  lemma {:induction false} OtherHalts(s: State, call: Call)
    ensures LastPageInUse(s, call) ==> HaltCause(s, call, ReleaseWraps)
    ensures (call.Krealloc? || (call.Kfree? && !call.refused)) && Find(s.blocks, call.ptr - HSIZE) == |s.blocks| ==>
              HaltCause(s, call, UnknownBlock)
  {
  }

  lemma {:induction false} StepOnGrain(s: State, call: Call)
    requires Healthy(s) && AllOnGrain(s.blocks) && GrainCall(call)
    ensures match Step(s, call)
            case Next(t) => AllOnGrain(t.blocks)
            case Halted(why) => HaltCause(s, call, why)
  {
    assert Inv(s);
    hide Malloc, Free, Inv, Healthy, LastPageClaimed, AllOnGrain, GrainSize, Find, HaltCause, Realloc;
    if call.Kfree? {
      FreeStep(s, call);
    } else if call.Krealloc? && call.ptr != 0 {
      ReallocStep(s, call);
    } else {
      MallocStep(s, call);
    }
  }

  lemma {:induction false} FreeStep(s: State, call: Call)
    requires Inv(s) && AllOnGrain(s.blocks) && call.Kfree?
    ensures match Step(s, call)
            case Next(t) => AllOnGrain(t.blocks)
            case Halted(why) => HaltCause(s, call, why)
  {
    hide Free, Inv, LastPageClaimed, AllOnGrain, Find, HaltCause;
    OtherHalts(s, call);
    var k := Find(s.blocks, call.ptr - HSIZE);
    if k < |s.blocks| && !s.blocks[k].free { FreeOnGrain(s, k); }
  }

  lemma {:induction false} ReallocStep(s: State, call: Call)
    requires Inv(s) && AllOnGrain(s.blocks) && call.Krealloc? && call.ptr != 0 && GrainCall(call)
    ensures match Step(s, call)
            case Next(t) => AllOnGrain(t.blocks)
            case Halted(why) => HaltCause(s, call, why)
  {
    hide Malloc, Free, Inv, LastPageClaimed, AllOnGrain, GrainSize, Find, HaltCause, Realloc;
    var k := Find(s.blocks, call.ptr - HSIZE);
    OtherHalts(s, call);
    if k < |s.blocks| {
      ReallocOnGrain(s, k, call.n);
      ReallocFails(s, k, call.n);
      MallocStep(s, call);
    }
  }

  lemma {:induction false} MallocStep(s: State, call: Call)
    requires Inv(s) && AllOnGrain(s.blocks) && !call.Kfree? && GrainCall(call)
    ensures match AfterAlloc(Malloc(s, call.n))
            case Next(t) => AllOnGrain(t.blocks)
            case Halted(why) => HaltCause(s, call, why)
  {
    hide Malloc, Inv, AllOnGrain, GrainSize, HaltCause;
    if Malloc(s, call.n).Got? { MallocOnGrain(s, call.n); } else { MallocHalts(s, call); }
  }

  /** A run whose requests are all grain sizes comes to its end, or stops for want of pages, at the
      one grain size that wraps, at a pointer to no listed block, or when it frees a block with
      the last page of the address space in use. A run from boot starts with no blocks, which is on
      the grain. */
  lemma {:induction false} GrainRunHalts(s: State, calls: seq<Call>)
    requires Healthy(s) && AllOnGrain(s.blocks)
    requires forall i :: 0 <= i < |calls| ==> GrainCall(calls[i])
    ensures var r := Run(s, calls);
            && AllOnGrain(r.state.blocks)
            && (if r.done == |calls| then r.halt == None
                else r.halt.Some? && HaltCause(r.state, calls[r.done], r.halt.value))
    decreases |calls|
  {
    hide HaltCause, AllOnGrain, Healthy, Step, GrainCall, SameReserved, TopKept;
    if calls != [] {
      StepOnGrain(s, calls[0]);
      if Step(s, calls[0]).Next? {
        StepKeeps(s, calls[0]);
        GrainRunHalts(Step(s, calls[0]).state, calls[1..]);
      }
    }
  }

  // ----- six calls, the last of which wraps

  function UsedAt(addr: nat, size: nat): Block { Block(HEAP_START + addr, size, false) }

  function FreeAt(addr: nat, size: nat): Block { Block(HEAP_START + addr, size, true) }

  function OnePage(pages: seq<PageState>, p: nat): seq<PageState> { SetPages(pages, p, p + 1, PUsed) }

  // The lowest run of one page, when the pages below it are taken.
  lemma LowestPage(pages: seq<PageState>, p: nat)
    requires p < |pages| && pages[p] == PFree && forall q :: 0 <= q < p ==> pages[q] != PFree
    ensures FindRun(pages, 1, 0) == Some(p)
  {
    assert RunFree(pages, p, 1);
    var r := FindRun(pages, 1, 0).value;
    assert pages[r] == PFree;
  }

  lemma {:induction false} ClaimingStep(s: State, n: u32, p: nat)
    requires |s.pages| == PAGE_COUNT && p < PAGE_COUNT && s.pages[p] == PFree
    requires forall q :: 0 <= q < p ==> s.pages[q] != PFree
    requires forall i :: 0 <= i < |s.blocks| ==> !Fits(s.blocks[i], n)
    requires n < 4000 + HSIZE
    ensures Malloc(s, n) == Got(State(s.blocks + [Block(p * PAGE_SIZE, n, false),
                                                  Block(p * PAGE_SIZE + HSIZE + n, 4048 - n, true)],
                                      OnePage(s.pages, p), s.lost), |s.blocks|)
  {
    LowestPage(s.pages, p);
    var k, g := |s.blocks|, Claimed(s, p, 1);
    assert FirstFit(s.blocks, n, 0) == k;
    assert g.blocks[..k] == s.blocks && g.blocks[k + 1..] == [];
    assert Carve(g.blocks, k, n) == s.blocks + [Block(p * PAGE_SIZE, n, false),
                                                Block(p * PAGE_SIZE + HSIZE + n, 4048 - n, true)];
  }

  // One step of a run whose first call is known to come back.
  lemma {:induction false} RunOn(s: State, calls: seq<Call>, t: State)
    requires calls != [] && Step(s, calls[0]) == Next(t)
    ensures var r := Run(t, calls[1..]); Run(s, calls) == r.(done := r.done + 1)
  {
  }

  lemma {:induction false} RunStops(s: State, call: Call)
    requires Step(s, call).Halted?
    ensures Run(s, [call]) == Trace(s, 0, Some(Step(s, call).why))
  {
  }

  /** The largest request there is wraps in any heap without blocks. */
  lemma {:induction false} LargestRequestWraps(s: State)
    requires Boot(s)
    ensures Run(s, [Kmalloc(0xFFFF_FFFF)]) == Trace(s, 0, Some(SizeWraps))
  {
    RunStops(s, Kmalloc(0xFFFF_FFFF));
  }

  function SixCalls(): seq<Call>
  {
    [Kmalloc(4000), Kmalloc(2000), Kmalloc(2000), Kfree(HEAP_START + 4120, false), Kmalloc(30),
     Kfree(HEAP_START + 6144, false)]
  }

  /** Three allocations, one free and one more allocation leave a free header across a page
      boundary; freeing the block after it wraps, and what free_pages computes is wrong. */
  lemma {:induction false} SixCallsWrap(s: State)
    requires Boot(s) && s.pages[1024] == PFree && s.pages[1025] == PFree
    ensures var r := Run(s, SixCalls());
            && r.done == 5 && r.halt == Some(ReleaseWraps)
            && var k := Find(r.state.blocks, HEAP_START + 6120);
            && k < |r.state.blocks|
            && var (bs, j) := Joined(r.state.blocks, k);
            !ReleaseCorrect(bs[j])
  {
    var s1 := State([UsedAt(0, 4000), FreeAt(4024, 48)], OnePage(s.pages, 1024), 0);
    var s2 := State([UsedAt(0, 4000), FreeAt(4024, 48), UsedAt(4096, 2000), FreeAt(6120, 2048)],
                    OnePage(s1.pages, 1025), 0);
    MallocFirst(s, s1);
    MallocSecond(s1, s2);
    hide Step, Run, Joined, ReleaseCorrect;
    var s3 := s2.(blocks := [UsedAt(0, 4000), FreeAt(4024, 48), UsedAt(4096, 2000), UsedAt(6120, 2000),
                             FreeAt(8144, 24)]);
    MallocThird(s2, s3);
    var s4 := s3.(blocks := [UsedAt(0, 4000), FreeAt(4024, 2072), UsedAt(6120, 2000), FreeAt(8144, 24)]);
    FreeSecond(s3, s4);
    var s5 := s4.(blocks := [UsedAt(0, 4000), UsedAt(4024, 30), FreeAt(4078, 2018), UsedAt(6120, 2000),
                             FreeAt(8144, 24)]);
    MallocFifth(s4, s5);
    FreeFourth(s5);
    RunOfSix(s, s1, s2, s3, s4, s5);
  }

  lemma {:induction false} MallocFirst(s: State, s1: State)
    requires Boot(s) && s.pages[1024] == PFree
    requires s1 == State([UsedAt(0, 4000), FreeAt(4024, 48)], OnePage(s.pages, 1024), 0)
    ensures Step(s, Kmalloc(4000)) == Next(s1)
  {
    ClaimingStep(s, 4000, 1024);
    assert Malloc(s, 4000).state.blocks == s1.blocks;
  }

  lemma {:induction false} MallocSecond(s1: State, s2: State)
    requires |s1.pages| == PAGE_COUNT && s1.pages[1025] == PFree && forall q :: 0 <= q < 1025 ==> s1.pages[q] != PFree
    requires s1.blocks == [UsedAt(0, 4000), FreeAt(4024, 48)] && s1.lost == 0
    requires s2 == State([UsedAt(0, 4000), FreeAt(4024, 48), UsedAt(4096, 2000), FreeAt(6120, 2048)],
                         OnePage(s1.pages, 1025), 0)
    ensures Step(s1, Kmalloc(2000)) == Next(s2)
  {
    ClaimingStep(s1, 2000, 1025);
    assert Malloc(s1, 2000).state.blocks == s2.blocks;
  }

  lemma {:induction false} MallocThird(s2: State, s3: State)
    requires s2.blocks == [UsedAt(0, 4000), FreeAt(4024, 48), UsedAt(4096, 2000), FreeAt(6120, 2048)]
    requires s3 == s2.(blocks := [UsedAt(0, 4000), FreeAt(4024, 48), UsedAt(4096, 2000), UsedAt(6120, 2000),
                                  FreeAt(8144, 24)])
    ensures Step(s2, Kmalloc(2000)) == Next(s3)
  {
    var bs := s2.blocks;
    assert !Fits(bs[0], 2000) && !Fits(bs[1], 2000) && !Fits(bs[2], 2000) && Fits(bs[3], 2000);
    assert FirstFit(bs, 2000, 0) == 3;
    assert Carve(s2.blocks, 3, 2000) == s3.blocks;
  }

  lemma {:induction false} MallocFifth(s4: State, s5: State)
    requires s4.blocks == [UsedAt(0, 4000), FreeAt(4024, 2072), UsedAt(6120, 2000), FreeAt(8144, 24)]
    requires s5 == s4.(blocks := [UsedAt(0, 4000), UsedAt(4024, 30), FreeAt(4078, 2018), UsedAt(6120, 2000),
                                  FreeAt(8144, 24)])
    ensures Step(s4, Kmalloc(30)) == Next(s5)
  {
    assert FirstFit(s4.blocks, 30, 0) == 1;
    assert Carve(s4.blocks, 1, 30) == s5.blocks;
  }

  lemma {:induction false} FreeSecond(s3: State, s4: State)
    requires s3.blocks == [UsedAt(0, 4000), FreeAt(4024, 48), UsedAt(4096, 2000), UsedAt(6120, 2000), FreeAt(8144, 24)]
    requires s4 == s3.(blocks := [UsedAt(0, 4000), FreeAt(4024, 2072), UsedAt(6120, 2000), FreeAt(8144, 24)])
    ensures Step(s3, Kfree(HEAP_START + 4120, false)) == Next(s4)
  {
    var bs := s3.blocks;
    assert bs[2].addr == HEAP_START + 4096 && Find(bs, HEAP_START + 4096) == 2;
    var marked := Mark(bs, 2, true);
    assert MergeAt(marked, 2) == marked;
    assert MergeAt(marked, 1) == s4.blocks;
    assert Joined(bs, 2) == (s4.blocks, 1);
  }

  lemma {:induction false} FreeFourth(s5: State)
    requires s5.blocks == [UsedAt(0, 4000), UsedAt(4024, 30), FreeAt(4078, 2018), UsedAt(6120, 2000), FreeAt(8144, 24)]
    ensures Find(s5.blocks, HEAP_START + 6120) == 3 && Step(s5, Kfree(HEAP_START + 6144, false)) == Halted(ReleaseWraps)
    ensures var (bs, j) := Joined(s5.blocks, 3); !ReleaseCorrect(bs[j])
  {
    var bs := s5.blocks;
    assert bs[3].addr == HEAP_START + 6120 && Find(bs, HEAP_START + 6120) == 3;
    var forward := MergeAt(Mark(bs, 3, true), 3);
    assert forward == [UsedAt(0, 4000), UsedAt(4024, 30), FreeAt(4078, 2018), FreeAt(6120, 2048)];
    assert MergeAt(forward, 2) == [UsedAt(0, 4000), UsedAt(4024, 30), FreeAt(4078, 4090)];
    ReleaseCorrectIff(FreeAt(4078, 4090));
  }

  lemma {:induction false} RunOfSix(s: State, s1: State, s2: State, s3: State, s4: State, s5: State)
    requires Step(s, Kmalloc(4000)) == Next(s1) && Step(s1, Kmalloc(2000)) == Next(s2)
    requires Step(s2, Kmalloc(2000)) == Next(s3) && Step(s3, Kfree(HEAP_START + 4120, false)) == Next(s4)
    requires Step(s4, Kmalloc(30)) == Next(s5) && Step(s5, Kfree(HEAP_START + 6144, false)) == Halted(ReleaseWraps)
    ensures Run(s, SixCalls()) == Trace(s5, 5, Some(ReleaseWraps))
  {
    hide Step, Run;
    var calls := SixCalls();
    RunOn(s, calls, s1);
    RunOn(s1, calls[1..], s2);
    RunOn(s2, calls[1..][1..], s3);
    RunOn(s3, calls[1..][1..][1..], s4);
    RunOn(s4, calls[1..][1..][1..][1..], s5);
    assert calls[1..][1..][1..][1..][1..] == [Kfree(HEAP_START + 6144, false)];
    RunStops(s5, Kfree(HEAP_START + 6144, false));
  }

  // ----- the last page of the address space

  const LAST := TOP - PAGE_SIZE

  ghost predicate OnlyLastFree(pages: seq<PageState>)
  {
    |pages| == PAGE_COUNT && forall p :: 0 <= p < PAGE_COUNT ==> (pages[p] == PFree <==> p == PAGE_COUNT - 1)
  }

  /** A memory map that reports everything above the kernel as absent leaves such a page map. */
  lemma {:induction false} OnlyLastFreeAtBoot(pages: seq<PageState>)
    requires |pages| == PAGE_COUNT
    requires forall p :: 0 <= p < PAGE_COUNT ==> pages[p] == BootState([AboveKernel()], 1, p)
    ensures OnlyLastFree(pages) && Boot(State([], pages, 0))
  {
    var entries := [AboveKernel()];
    forall p | 0 <= p < PAGE_COUNT
      ensures pages[p] == if HEAP_START / PAGE_SIZE <= p < PAGE_COUNT - 1 then PNone
              else if p == PAGE_COUNT - 1 then PFree else PSys
    {
      assert Covers(entries[0], p) <==> HEAP_START / PAGE_SIZE <= p < PAGE_COUNT - 1;
    }
  }

  function AboveKernel(): MapEntry
  {
    MapEntry(HEAP_START, TOP - 1 - HEAP_START, false)
  }

  function LastPageBlocks(): seq<Block>
  {
    [Block(LAST, 1000, false), Block(LAST + 1024, 1000, false), Block(LAST + 2048, 1000, false),
     Block(LAST + 3072, 1000, true)]
  }

  function FourCalls(): seq<Call>
  {
    [Kmalloc(1000), Kmalloc(1000), Kmalloc(1000), Kfree(LAST + 1048, false)]
  }

  /** Three allocations in the last page and a free of the second: the address rounds up to 0, and
      free_pages sets every page of the kernel free. */
  lemma {:induction false} FourCallsFreeTheKernel(s: State)
    requires Boot(s) && OnlyLastFree(s.pages)
    ensures var r := Run(s, FourCalls());
            && r.done == 3 && r.halt == Some(ReleaseWraps)
            && r.state == State(LastPageBlocks(), OnePage(s.pages, PAGE_COUNT - 1), 0)
            && var (bs, j) := Joined(LastPageBlocks(), 1);
            && !ReleaseCorrect(bs[j])
            && forall p :: 0 <= p < HEAP_START / PAGE_SIZE ==> Frees(bs[j], p) && s.pages[p] != PFree
  {
    var pages := OnePage(s.pages, PAGE_COUNT - 1);
    var s1 := State([Block(LAST, 1000, false), Block(LAST + 1024, 3048, true)], pages, 0);
    assert Step(s, Kmalloc(1000)) == Next(s1) by {
      ClaimingStep(s, 1000, PAGE_COUNT - 1);
      assert Malloc(s, 1000).state.blocks == s1.blocks;
    }
    var s2 := State([Block(LAST, 1000, false), Block(LAST + 1024, 1000, false), Block(LAST + 2048, 2024, true)], pages,
                    0);
    CarveSecond(s1, s2);
    var s3 := State(LastPageBlocks(), pages, 0);
    CarveThird(s2, s3);
    FreeInLastPage(s3);
    var calls := FourCalls();
    RunOn(s, calls, s1);
    RunOn(s1, calls[1..], s2);
    RunOn(s2, calls[1..][1..], s3);
    assert calls[1..][1..][1..] == [Kfree(LAST + 1048, false)];
    RunStops(s3, Kfree(LAST + 1048, false));
  }

  lemma {:induction false} CarveSecond(s1: State, s2: State)
    requires s1.blocks == [Block(LAST, 1000, false), Block(LAST + 1024, 3048, true)]
    requires s2 == s1.(blocks := [Block(LAST, 1000, false), Block(LAST + 1024, 1000, false),
                                  Block(LAST + 2048, 2024, true)])
    ensures Step(s1, Kmalloc(1000)) == Next(s2)
  {
    assert FirstFit(s1.blocks, 1000, 0) == 1;
    assert Carve(s1.blocks, 1, 1000) == s2.blocks;
  }

  lemma {:induction false} CarveThird(s2: State, s3: State)
    requires s2.blocks == [Block(LAST, 1000, false), Block(LAST + 1024, 1000, false), Block(LAST + 2048, 2024, true)]
    requires s3 == s2.(blocks := LastPageBlocks())
    ensures Step(s2, Kmalloc(1000)) == Next(s3)
  {
    assert !Fits(s2.blocks[0], 1000) && !Fits(s2.blocks[1], 1000) && Fits(s2.blocks[2], 1000);
    assert FirstFit(s2.blocks, 1000, 0) == 2;
    assert Carve(s2.blocks, 2, 1000) == s3.blocks;
  }

  lemma {:induction false} FreeInLastPage(s: State)
    requires s.blocks == LastPageBlocks()
    ensures Step(s, Kfree(LAST + 1048, false)) == Halted(ReleaseWraps)
    ensures var (bs, j) := Joined(s.blocks, 1);
            && !ReleaseCorrect(bs[j])
            && forall p :: 0 <= p < HEAP_START / PAGE_SIZE ==> Frees(bs[j], p)
  {
    var bs := s.blocks;
    assert bs[1].addr == LAST + 1024 && Find(bs, LAST + 1024) == 1;
    var marked := Mark(bs, 1, true);
    assert MergeAt(marked, 1) == marked && MergeAt(marked, 0) == marked;
    ReleaseCorrectIff(Block(LAST + 1024, 1000, true));
  }

  /** With only the last page free, kfree does not undo kmalloc: the page stays claimed. */
  lemma {:induction false} LastPageNotGivenBack(s: State)
    requires Boot(s) && OnlyLastFree(s.pages)
    ensures Malloc(s, 4000).Got? && !ClearOfTop(s, 4000)
    ensures Malloc(s, 4000).index < |Malloc(s, 4000).state.blocks|
    ensures Free(Malloc(s, 4000).state, Malloc(s, 4000).index) != Freed(s)
  {
    LowestPage(s.pages, PAGE_COUNT - 1);
    BootHealthy(s);
    FreeUndoesMalloc(s, 4000);
  }
}
