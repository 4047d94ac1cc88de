/** Whole runs of kmalloc, kcalloc, krealloc and kfree, from the state the kernel boots into. */
module HeapRuns {
  import opened Machine
  import opened PageTable
  import opened Layout
  import opened ReleaseArithmetic
  import opened HeapModel

  /** NotReleased is where the kfree inside krealloc wraps. */
  datatype Resize = Resized(state: State, index: nat) | NotAllocated(why: Alloc) | NotReleased

  /** krealloc on the listed block k: the index in the result is that of the block returned. A
      block that is free already is copied from like any other, and not freed again. */
  function Realloc(s: State, k: nat, n: u32): Resize
    requires k < |s.blocks|
  {
    if n <= s.blocks[k].size then Resized(s, k)
    else match Malloc(s, n)
      case Got(t, j) =>
        var k' := Find(t.blocks, s.blocks[k].addr);
        if k' < |t.blocks| then
          match Free(t, k')
          case Freed(u) => Resized(u, Find(u.blocks, t.blocks[j].addr))
          case NotUsed => Resized(t, j)
          case Wrapped => NotReleased
        else NotReleased
      case other => NotAllocated(other)
  }

  lemma {:induction false} ReallocFails(s: State, k: nat, n: u32)
    requires k < |s.blocks|
    ensures Realloc(s, k, n).NotAllocated? ==> Realloc(s, k, n).why == Malloc(s, n) && !Malloc(s, n).Got?
  {
  }

  /** Allocating neither moves nor resizes a block that is live or too small for the request. */
  lemma {:induction false} MallocKeepsBlock(s: State, n: u32, k: nat)
    requires Inv(s) && Malloc(s, n).Got? && k < |s.blocks| && !Fits(s.blocks[k], n)
    ensures var Got(t, j) := Malloc(s, n);
            var k' := Find(t.blocks, s.blocks[k].addr);
            k' < |t.blocks| && t.blocks[k'] == s.blocks[k] && j < |t.blocks| && k' != j
  {
    MallocRefines(s, n);
    GrownFits(s, n);
    hide Malloc, Sound, Ledger, LowReserved, Live, UsedBlocks, Carve;
    var g, i := Grown(s, n), FirstFit(s.blocks, n, 0);
    assert g.blocks[k] == s.blocks[k] && k != i;
    CarveLive(g.blocks, i, n);
    CarveKeeps(g.blocks, i, n, k);
    hide Grown, Claimed;
    var t := Malloc(s, n).state;
    assert Disjoint(g.blocks) && Disjoint(t.blocks);
    AddrsDiffer(g.blocks);
    AddrsDiffer(t.blocks);
  }

  lemma {:induction false} CarveKeeps(bs: seq<Block>, i: nat, n: nat, k: nat)
    requires i < |bs| && k < |bs| && k != i && n <= bs[i].size
    ensures bs[k] in Carve(bs, i, n)
  {
    var r := Carve(bs, i, n);
    assert k < i ==> r[k] == bs[k];
    assert k > i ==> r[k] == bs[k] || (k + 1 < |r| && r[k + 1] == bs[k]);
  }

  /** What the callers see of krealloc that moves a payload from p to q. */
  ghost predicate MovesTo(m: map<nat, nat>, p: nat, n: nat, q: nat, size: nat, m': map<nat, nat>)
  {
    q !in m && n <= size <= n + HSIZE && m' == (m - {p})[q := size]
  }

  /** krealloc keeps the heap sound and returns a block with room for the request: the same one if
      it is large enough, else a new one of at most one header more, while the old payload, if it
      was live, is no longer. Every other live payload stays where it is. */
  lemma {:induction false} ReallocRefines(s: State, k: nat, n: u32)
    requires Inv(s) && k < |s.blocks| && Realloc(s, k, n).Resized?
    ensures var Resized(t, j) := Realloc(s, k, n);
            && Inv(t) && j < |t.blocks| && n <= t.blocks[j].size
            && (n <= s.blocks[k].size ==> t == s && j == k)
            && (s.blocks[k].size < n ==>
                  !t.blocks[j].free
                  && MovesTo(Live(s.blocks), s.blocks[k].Payload(), n, t.blocks[j].Payload(), t.blocks[j].size,
                             Live(t.blocks)))
  {
    hide Malloc, Free, Live, UsedBlocks, Ledger, LowReserved;
    if s.blocks[k].size < n {
      MallocRefines(s, n);
      MallocKeepsBlock(s, n, k);
      var Got(m, i) := Malloc(s, n);
      if s.blocks[k].free {
        FreeBlockNotLive(s.blocks, k);
        assert Live(s.blocks) - {s.blocks[k].Payload()} == Live(s.blocks);
      } else {
        LiveHas(s.blocks, k);
        FreeAfterMalloc(m, Find(m.blocks, s.blocks[k].addr), i);
      }
    }
  }

  /** A live block that is too small is replaced exactly when kmalloc succeeds and kfree of the old
      block then goes through, and the state is what that kfree leaves. */
  lemma {:induction false} ResizedIff(s: State, k: nat, n: u32)
    requires Inv(s) && k < |s.blocks| && !s.blocks[k].free && s.blocks[k].size < n
    ensures Realloc(s, k, n).NotAllocated? <==> !Malloc(s, n).Got?
    ensures Malloc(s, n).Got? ==>
              var Got(t, i) := Malloc(s, n);
              var k' := Find(t.blocks, s.blocks[k].addr);
              && k' < |t.blocks| && t.blocks[k'] == s.blocks[k]
              && (Realloc(s, k, n).Resized? <==> Free(t, k').Freed?)
              && (Realloc(s, k, n).Resized? ==>
                    var Resized(u, j) := Realloc(s, k, n);
                    u == Free(t, k').state && j < |u.blocks| && u.blocks[j] == t.blocks[i])
  {
    hide Malloc, Free, Live, Inv;
    if Malloc(s, n).Got? {
      MallocRefines(s, n);
      MallocKeepsBlock(s, n, k);
      var Got(t, i) := Malloc(s, n);
      var k' := Find(t.blocks, s.blocks[k].addr);
      if Free(t, k').Freed? { FreeAfterMalloc(t, k', i); }
    }
  }

  // Freeing one live block leaves another one where it was.
  lemma {:induction false} FreeAfterMalloc(s: State, k: nat, i: nat)
    requires Inv(s) && k < |s.blocks| && i < |s.blocks| && k != i && !s.blocks[i].free
    requires Free(s, k).Freed?
    ensures var t := Free(s, k).state;
            && Inv(t) && Live(t.blocks) == Live(s.blocks) - {s.blocks[k].Payload()}
            && Find(t.blocks, s.blocks[i].addr) < |t.blocks|
            && t.blocks[Find(t.blocks, s.blocks[i].addr)] == s.blocks[i]
  {
    hide Free;
    FreeRefines(s, k);
    AddrsDiffer(s.blocks);
    LiveHas(s.blocks, i);
    LiveFound(Free(s, k).state.blocks, s.blocks[i]);
  }

  // A block is found at its address as long as its payload is live.
  lemma {:induction false} LiveFound(bs: seq<Block>, b: Block)
    requires Disjoint(bs) && b.Payload() in Live(bs) && Live(bs)[b.Payload()] == b.size && !b.free
    ensures Find(bs, b.addr) < |bs| && bs[Find(bs, b.addr)] == b
  {
  }

  // ----- runs

  /** Memory is not part of the state of a run, so kfree carries what it reads there: refused says
      that the word where the block's state would be is not "used". */
  datatype Call = Kmalloc(n: u32) | Kcalloc(n: u32) | Krealloc(ptr: u32, n: u32) | Kfree(ptr: u32, refused: bool)

  /** Why a run stops: the kernel panics for want of pages, the size of a request wraps, the
      arithmetic of free_pages wraps, or what is taken for a block header is none: krealloc is given
      a pointer to no listed block, or kfree such a pointer and the word there reads as used. */
  datatype Halt = OutOfPages | SizeWraps | ReleaseWraps | UnknownBlock

  datatype After = Next(state: State) | Halted(why: Halt)

  /** One call. */
  function Step(s: State, call: Call): After
  {
    match call
    case Kmalloc(n) => AfterAlloc(Malloc(s, n))
    case Kcalloc(n) => AfterAlloc(Malloc(s, n))
    case Krealloc(ptr, n) =>
      if ptr == 0 then AfterAlloc(Malloc(s, n)) else
      var k := Find(s.blocks, ptr - HSIZE);
      if k == |s.blocks| then Halted(UnknownBlock) else
      match Realloc(s, k, n) {
        case Resized(t, _) => Next(t)
        case NotAllocated(why) => AfterAlloc(why)
        case NotReleased => Halted(ReleaseWraps)
      }
    case Kfree(ptr, refused) =>
      var k := Find(s.blocks, ptr - HSIZE);
      if k == |s.blocks| then if refused then Next(s) else Halted(UnknownBlock) else
      match Free(s, k)
      case Freed(t) => Next(t)
      case NotUsed => Next(s)
      case Wrapped => Halted(ReleaseWraps)
  }

  function AfterAlloc(r: Alloc): After
  {
    match r
    case Got(t, _) => Next(t)
    case NoPages => Halted(OutOfPages)
    case Overflow => Halted(SizeWraps)
  }

  /** The state after the last call that came back, how many did, and why the next one did not. */
  datatype Trace = Trace(state: State, done: nat, halt: Option<Halt>)

  function Run(s: State, calls: seq<Call>): (r: Trace)
    ensures r.done <= |calls| && (r.halt == None <==> r.done == |calls|)
    decreases |calls|
  {
    if calls == [] then Trace(s, 0, None) else
    match Step(s, calls[0])
    case Halted(why) => Trace(s, 0, Some(why))
    case Next(t) => var r := Run(t, calls[1..]); r.(done := r.done + 1)
  }

  /** What paging_initialize and init_heap leave: an empty list and no used page. */
  ghost predicate Boot(s: State)
  {
    && s.blocks == [] && s.lost == 0 && LowReserved(s.pages)
    && forall p :: 0 <= p < |s.pages| ==> s.pages[p] != PUsed
  }

  /** Kernel and absent pages are the same ones in both maps. */
  ghost predicate SameReserved(p: seq<PageState>, q: seq<PageState>)
  {
    |p| == |q| && forall i :: 0 <= i < |p| && (p[i] in {PSys, PNone} || q[i] in {PSys, PNone}) ==> p[i] == q[i]
  }

  // The last page of the address space, once claimed, is never given back.
  ghost predicate TopKept(p: seq<PageState>, q: seq<PageState>)
  {
    |p| == |q| == PAGE_COUNT && (p[PAGE_COUNT - 1] == PUsed ==> q[PAGE_COUNT - 1] == PUsed)
  }

  ghost predicate Healthy(s: State)
  {
    Inv(s) && Trimmed(s.blocks)
  }

  lemma {:induction false} BootHealthy(s: State)
    requires Boot(s)
    ensures Healthy(s)
  {
    UsedCountUniform(s.pages, false);
  }

  lemma {:induction false} MallocPages(s: State, n: u32)
    requires Inv(s) && Malloc(s, n).Got?
    ensures SameReserved(s.pages, Malloc(s, n).state.pages) && TopKept(s.pages, Malloc(s, n).state.pages)
  {
  }

  lemma {:induction false} FreePages(s: State, k: nat)
    requires Inv(s) && k < |s.blocks| && Free(s, k).Freed?
    ensures SameReserved(s.pages, Free(s, k).state.pages) && TopKept(s.pages, Free(s, k).state.pages)
  {
    FreeReturnsOnlyItsPages(s, k);
    JoinedKeeps(s, k);
    var (bs, j) := Joined(s.blocks, k);
    assert InHeap(bs[j]);
  }

  /** What every call that comes back leaves as it should be. */
  ghost predicate StaysHealthy(s: State, t: State)
  {
    Healthy(t) && SameReserved(s.pages, t.pages) && TopKept(s.pages, t.pages)
  }

  lemma {:induction false} StaysTrans(s: State, t: State, u: State)
    requires StaysHealthy(s, t) && StaysHealthy(t, u)
    ensures StaysHealthy(s, u)
  {
  }

  lemma {:induction false} StaysRefl(s: State)
    requires Healthy(s)
    ensures StaysHealthy(s, s)
  {
  }

  lemma {:induction false} StepKeeps(s: State, call: Call)
    requires Healthy(s) && Step(s, call).Next?
    ensures StaysHealthy(s, Step(s, call).state)
  {
    hide Malloc, Free, Healthy, SameReserved, TopKept, Find;
    StaysRefl(s);
    if call.Kfree? {
      var k := Find(s.blocks, call.ptr - HSIZE);
      if k < |s.blocks| && Free(s, k).Freed? { FreeKeeps(s, k); }
    } else if Malloc(s, call.n).Got? {
      MallocKeeps(s, call.n);
      if call.Krealloc? && call.ptr != 0 {
        ReallocKeeps(s, Find(s.blocks, call.ptr - HSIZE), call.n);
      }
    }
  }

  lemma {:induction false} ReallocKeeps(s: State, k: nat, n: u32)
    requires Healthy(s) && k < |s.blocks| && Realloc(s, k, n).Resized?
    ensures StaysHealthy(s, Realloc(s, k, n).state)
  {
    hide Malloc, Free, Healthy, SameReserved, TopKept, Find;
    StaysRefl(s);
    if s.blocks[k].size < n {
      MallocKeeps(s, n);
      var t := Malloc(s, n).state;
      var k' := Find(t.blocks, s.blocks[k].addr);
      if Free(t, k').Freed? {
        FreeKeeps(t, k');
        StaysTrans(s, t, Free(t, k').state);
      }
    }
  }

  lemma {:induction false} MallocKeeps(s: State, n: u32)
    requires Healthy(s) && Malloc(s, n).Got?
    ensures StaysHealthy(s, Malloc(s, n).state)
  {
    MallocRefines(s, n);
    MallocTrimmed(s, n);
    MallocPages(s, n);
  }

  lemma {:induction false} FreeKeeps(s: State, k: nat)
    requires Healthy(s) && k < |s.blocks| && Free(s, k).Freed?
    ensures StaysHealthy(s, Free(s, k).state)
  {
    FreeRefines(s, k);
    FreeTrimmed(s, k);
    FreePages(s, k);
  }

  /** Over every run, whether or not it stops early: blocks disjoint and inside the heap area,
      their pages used, the ledger exact, no releasable page left in a free block, kernel and
      absent pages untouched. */
  lemma {:induction false} RunKeeps(s: State, calls: seq<Call>)
    requires Healthy(s)
    ensures StaysHealthy(s, Run(s, calls).state)
    decreases |calls|
  {
    if calls != [] && Step(s, calls[0]).Next? {
      StepKeeps(s, calls[0]);
      RunKeeps(Step(s, calls[0]).state, calls[1..]);
    }
  }

  /** The same from boot, spelled out. */
  lemma {:induction false} RunFromBoot(s: State, calls: seq<Call>)
    requires Boot(s)
    ensures var t := Run(s, calls).state;
            && (forall i :: 0 <= i < |t.blocks| ==> HEAP_START <= t.blocks[i].addr && t.blocks[i].End() <= TOP)
            && (forall i, j :: 0 <= i < j < |t.blocks| ==>
                  t.blocks[i].End() <= t.blocks[j].addr || t.blocks[j].End() <= t.blocks[i].addr)
            && |t.pages| == PAGE_COUNT
            && (forall i, p :: 0 <= i < |t.blocks| && 0 <= p < PAGE_COUNT ==>
                  t.blocks[i].addr < (p + 1) * PAGE_SIZE && p * PAGE_SIZE < t.blocks[i].End() ==> t.pages[p] == PUsed)
            && (forall p :: 0 <= p < PAGE_COUNT && s.pages[p] in {PSys, PNone} ==> t.pages[p] == s.pages[p])
            && Trimmed(t.blocks)
            && Bytes(t.blocks) + t.lost == PAGE_SIZE * UsedCount(t.pages)
            && forall p :: p in Live(t.blocks) ==> HEAP_START < p < TOP && p + Live(t.blocks)[p] <= TOP
  {
    BootHealthy(s);
    RunKeeps(s, calls);
    var t := Run(s, calls).state;
    hide Run, Bytes, UsedCount, Trimmed, Live;
    forall p | p in Live(t.blocks) ensures HEAP_START < p < TOP && p + Live(t.blocks)[p] <= TOP {
      var i := LiveAt(t.blocks, p);
      assert InHeap(t.blocks[i]);
    }
    forall i, p | 0 <= i < |t.blocks| && 0 <= p < PAGE_COUNT
      && t.blocks[i].addr < (p + 1) * PAGE_SIZE && p * PAGE_SIZE < t.blocks[i].End()
      ensures t.pages[p] == PUsed
    {
      assert Owns(t.blocks[i], t.pages) && Touches(t.blocks[i], p);
    }
    forall i, j | 0 <= i < j < |t.blocks|
      ensures t.blocks[i].End() <= t.blocks[j].addr || t.blocks[j].End() <= t.blocks[i].addr
    {
      assert Apart(t.blocks[i], t.blocks[j]);
    }
  }

  // ----- refinement of a map from payload address to size

  /** The allocator its callers see. krealloc of a pointer that is not live returns either that
      pointer or a new payload. */
  ghost predicate AbstractStep(m: map<nat, nat>, call: Call, m': map<nat, nat>)
  {
    match call
    case Kmalloc(n) => Adds(m, n, m')
    case Kcalloc(n) => Adds(m, n, m')
    case Krealloc(ptr, n) =>
      if ptr == 0 then Adds(m, n, m')
      else if ptr !in m then m' == m || Adds(m, n, m')
      else if n <= m[ptr] then m' == m
      else exists q, size :: MovesTo(m, ptr, n, q, size, m')
    case Kfree(ptr, _) => m' == m - {ptr}
  }

  ghost predicate AddsAt(m: map<nat, nat>, p: nat, size: nat, m': map<nat, nat>)
  {
    p !in m && m' == m[p := size]
  }

  ghost predicate Adds(m: map<nat, nat>, n: nat, m': map<nat, nat>)
  {
    exists p: nat, size: nat :: AddsAt(m, p, size, m') && n <= size <= n + HSIZE
  }

  /** The address ranges of distinct live payloads do not meet, not even with room for a header. */
  ghost predicate RangesApart(m: map<nat, nat>)
  {
    forall p, q :: p in m && q in m && p < q ==> p + m[p] + HSIZE <= q
  }

  lemma {:induction false} LiveApart(bs: seq<Block>)
    requires Disjoint(bs)
    ensures RangesApart(Live(bs))
  {
  }

  /** Each call is a step of the abstract allocator, and live ranges stay apart. */
  lemma {:induction false} StepRefines(s: State, call: Call)
    requires Healthy(s) && Step(s, call).Next?
    ensures var t := Step(s, call).state;
            && Disjoint(t.blocks) && RangesApart(Live(t.blocks))
            && AbstractStep(Live(s.blocks), call, Live(t.blocks))
  {
    StepKeeps(s, call);
    LiveApart(Step(s, call).state.blocks);
    match call {
      case Kfree(ptr, refused) =>
        KfreeRefines(s, ptr, refused);
      case Krealloc(ptr, n) =>
        if ptr == 0 { MallocAdds(s, n); } else { KreallocRefines(s, ptr, n); }
      case Kmalloc(n) => MallocAdds(s, n);
      case Kcalloc(n) => MallocAdds(s, n);
    }
  }

  /** The maps the abstract allocator goes through on these calls, one after each. */
  ghost predicate AbstractRun(ms: seq<map<nat, nat>>, calls: seq<Call>)
  {
    && |ms| == |calls| + 1
    && (forall i :: 0 <= i < |ms| ==> RangesApart(ms[i]))
    && forall i :: 0 <= i < |calls| ==> AbstractStep(ms[i], calls[i], ms[i + 1])
  }

  /** Every run of the allocator is, as far as it gets, a run of the abstract one. */
  lemma {:induction false} RunRefines(s: State, calls: seq<Call>) returns (ms: seq<map<nat, nat>>)
    requires Healthy(s)
    ensures var r := Run(s, calls);
            && AbstractRun(ms, calls[..r.done]) && ms[0] == Live(s.blocks)
            && Disjoint(r.state.blocks) && ms[r.done] == Live(r.state.blocks)
    decreases |calls|
  {
    hide Step, AbstractStep, Live, RangesApart;
    LiveApart(s.blocks);
    ms := [Live(s.blocks)];
    if calls != [] && Step(s, calls[0]).Next? {
      var t := Step(s, calls[0]).state;
      StepKeeps(s, calls[0]);
      StepRefines(s, calls[0]);
      var rest := RunRefines(t, calls[1..]);
      ms := ms + rest;
      var done := calls[..Run(s, calls).done];
      assert done[1..] == calls[1..][..Run(t, calls[1..]).done];
      forall i | 0 <= i < |done| ensures AbstractStep(ms[i], done[i], ms[i + 1]) {
        if i > 0 { assert done[i] == done[1..][i - 1] && ms[i] == rest[i - 1] && ms[i + 1] == rest[i]; }
      }
    }
  }

  lemma {:induction false} MallocAdds(s: State, n: u32)
    requires Inv(s) && Malloc(s, n).Got?
    ensures Disjoint(Malloc(s, n).state.blocks)
    ensures Adds(Live(s.blocks), n, Live(Malloc(s, n).state.blocks))
  {
    MallocRefines(s, n);
    var Got(t, k) := Malloc(s, n);
    assert AddsAt(Live(s.blocks), t.blocks[k].Payload(), t.blocks[k].size, Live(t.blocks));
  }

  lemma {:induction false} FreeBlockNotLive(bs: seq<Block>, k: nat)
    requires Disjoint(bs) && k < |bs| && bs[k].free
    ensures bs[k].Payload() !in Live(bs)
  {
  }

  lemma {:induction false} KfreeRefines(s: State, ptr: u32, refused: bool)
    requires Inv(s) && Step(s, Kfree(ptr, refused)).Next?
    ensures var t := Step(s, Kfree(ptr, refused)).state;
            Disjoint(t.blocks) && Live(t.blocks) == Live(s.blocks) - {ptr}
  {
    hide Free, UsedBlocks, Ledger, LowReserved, Live;
    var k := Find(s.blocks, ptr - HSIZE);
    if k < |s.blocks| && !s.blocks[k].free {
      FreeRefines(s, k);
    } else {
      NotLive(s.blocks, ptr);
      assert Live(s.blocks) - {ptr} == Live(s.blocks);
    }
  }

  // A pointer is live when the block found for it is in use.
  lemma {:induction false} NotLive(bs: seq<Block>, ptr: u32)
    requires Disjoint(bs)
    ensures var k := Find(bs, ptr - HSIZE); ptr in Live(bs) <==> k < |bs| && !bs[k].free
  {
    var k := Find(bs, ptr - HSIZE);
    if ptr in Live(bs) {
      var i := LiveAt(bs, ptr);
      AddrsDiffer(bs);
    }
    if k < |bs| && !bs[k].free { LiveHas(bs, k); }
  }

  lemma {:induction false} KreallocRefines(s: State, ptr: u32, n: u32)
    requires Inv(s) && ptr != 0 && Step(s, Krealloc(ptr, n)).Next?
    ensures var t := Step(s, Krealloc(ptr, n)).state;
            Disjoint(t.blocks) && AbstractStep(Live(s.blocks), Krealloc(ptr, n), Live(t.blocks))
  {
    hide Malloc, Free, Live, UsedBlocks, Ledger, LowReserved;
    var k := Find(s.blocks, ptr - HSIZE);
    NotLive(s.blocks, ptr);
    if !s.blocks[k].free { LiveHas(s.blocks, k); }
    if s.blocks[k].size < n && s.blocks[k].free {
      MallocAdds(s, n);
      MallocKeepsBlock(s, n, k);
    } else {
      ReallocRefines(s, k, n);
      if s.blocks[k].size < n {
        var Resized(t, j) := Realloc(s, k, n);
        assert MovesTo(Live(s.blocks), ptr, n, t.blocks[j].Payload(), t.blocks[j].size, Live(t.blocks));
      }
    }
  }

  // ----- blocks that no call names

  /** The pointer a call is given; 0, which is never a payload, where it is given none. */
  function Named(call: Call): u32
  {
    if call.Krealloc? || call.Kfree? then call.ptr else 0
  }

  lemma {:induction false} AbstractKeeps(m: map<nat, nat>, call: Call, m': map<nat, nat>, p: nat)
    requires AbstractStep(m, call, m') && p in m && p != Named(call)
    ensures p in m' && m'[p] == m[p]
  {
  }

  /** A call leaves every block in use as it is, but the one it names. */
  lemma {:induction false} UnnamedStays(s: State, call: Call, b: Block)
    requires Healthy(s) && Step(s, call).Next? && b in UsedBlocks(s.blocks) && b.Payload() != Named(call)
    ensures b in UsedBlocks(Step(s, call).state.blocks)
  {
    StepRefines(s, call);
    hide Step, AbstractStep, RangesApart;
    var bs, r := s.blocks, Step(s, call).state.blocks;
    var i :| 0 <= i < |bs| && bs[i] == b;
    assert Disjoint(bs) by { assert Inv(s); }
    LiveHas(bs, i);
    AbstractKeeps(Live(bs), call, Live(r), b.Payload());
    hide Live;
    var j := LiveAt(r, b.Payload());
    assert r[j] == b;
  }
}
