/** The allocator on values: block list, page states and the bytes lost so far. These functions
    specify the methods of class Heap; the lemmas say what the kernel relies on. */
module HeapModel {
  import opened Machine
  import opened PageTable
  import opened Layout
  import opened ReleaseArithmetic

  datatype State = State(blocks: seq<Block>, pages: seq<PageState>, lost: nat)

  /** The first 4 MB are never free, so no claim can reach below HEAP_START. */
  ghost predicate LowReserved(pages: seq<PageState>)
  {
    |pages| == PAGE_COUNT && forall p :: 0 <= p < HEAP_START / PAGE_SIZE ==> pages[p] != PFree
  }

  /** Every byte of a used page is in a listed block, header or payload, or has been lost. */
  ghost predicate Ledger(s: State)
  {
    Bytes(s.blocks) + s.lost == PAGE_SIZE * UsedCount(s.pages)
  }

  ghost predicate Inv(s: State)
  {
    LowReserved(s.pages) && Sound(s.blocks, s.pages) && Ledger(s)
  }

  // ----- kmalloc

  predicate Fits(b: Block, n: nat)
  {
    b.free && n <= b.size
  }

  function FirstFit(bs: seq<Block>, n: nat, i: nat): (r: nat)
    requires i <= |bs|
    ensures i <= r <= |bs|
    ensures r < |bs| ==> bs[r].free && n <= bs[r].size
    ensures forall j :: i <= j < r ==> !(bs[j].free && n <= bs[j].size)
    decreases |bs| - i
  {
    if i == |bs| || Fits(bs[i], n) then i else FirstFit(bs, n, i + 1)
  }

  /** Pages asked of page_claim; the sum wraps like the kernel's. */
  function PageCountFor(n: u32): (r: nat)
  {
    Wrap(n + HSIZE) / PAGE_SIZE + if Wrap(n + HSIZE) % PAGE_SIZE > 0 then 1 else 0
  }

  function FreshBlock(i: nat, c: nat): Block
    requires c > 0
  {
    Block(i * PAGE_SIZE, c * PAGE_SIZE - HSIZE, true)
  }

  function Claimed(s: State, i: nat, c: nat): State
    requires c > 0
  {
    State(s.blocks + [FreshBlock(i, c)], SetPages(s.pages, i, i + c, PUsed), s.lost)
  }

  function Carve(bs: seq<Block>, k: nat, n: nat): seq<Block>
    requires k < |bs|
  {
    Mark(if bs[k].size - n - HSIZE > 0 then Split(bs, k, n) else bs, k, false)
  }

  /** NoPages is the kernel panic of page_claim; Overflow is where the size of the request wraps. */
  datatype Alloc = Got(state: State, index: nat) | NoPages | Overflow

  function Malloc(s: State, n: u32): (r: Alloc)
    ensures r.Got? ==> r.index < |r.state.blocks|
  {
    var k := FirstFit(s.blocks, n, 0);
    if k < |s.blocks| then Got(s.(blocks := Carve(s.blocks, k, n)), k)
    else if n + HSIZE >= TOP then Overflow
    else
      var c := PageCountFor(n);
      match FindRun(s.pages, c, 0)
      case None => NoPages
      case Some(i) =>
        var t := Claimed(s, i, c);
        Got(t.(blocks := Carve(t.blocks, k, n)), k)
  }

  /** The page computation covers the request exactly when adding the header does not wrap; when
      it wraps, one page or none is asked for. */
  lemma {:induction false} PageCountCovers(n: u32)
    ensures TOP <= n + HSIZE ==> PageCountFor(n) <= 1
    ensures n + HSIZE <= PageCountFor(n) * PAGE_SIZE <==> n + HSIZE < TOP
    ensures n + HSIZE < TOP ==> 0 < PageCountFor(n) <= PAGE_COUNT
    ensures n + HSIZE < TOP ==> (PageCountFor(n) - 1) * PAGE_SIZE < n + HSIZE
  {
  }

  /** The block get_pages makes of claimed pages, its size in 32 bits. */
  function RawBlock(i: nat, c: nat): Block
  {
    Block(i * PAGE_SIZE, Wrap(c * PAGE_SIZE - HSIZE), true)
  }

  /** That block lies in the heap area and has room for the request exactly when adding the header
      to the request does not wrap. Otherwise it is a block at address 0, or too small. */
  lemma {:induction false} RequestServedIff(s: State, n: u32)
    requires Inv(s) && FindRun(s.pages, PageCountFor(n), 0).Some?
    ensures var b := RawBlock(FindRun(s.pages, PageCountFor(n), 0).value, PageCountFor(n));
            && (InHeap(b) && n <= b.size <==> n + HSIZE < TOP)
            && (n + HSIZE == TOP ==> b == Block(0, TOP - HSIZE, true))
            && (n + HSIZE > TOP ==> b.size == PAGE_SIZE - HSIZE)
  {
    PageCountCovers(n);
    var c := PageCountFor(n);
    var i := FindRun(s.pages, c, 0).value;
    if c == 0 {
      assert RunFree(s.pages, 0, 0);
    } else {
      assert s.pages[i] == PFree;
    }
  }

  // A block and a free page have no byte in common.
  lemma {:induction false} FreeRunApart(b: Block, pages: seq<PageState>, i: nat, c: nat)
    requires InHeap(b) && Owns(b, pages) && |pages| == PAGE_COUNT && c > 0
    requires RunFree(pages, i, c)
    ensures Apart(b, FreshBlock(i, c))
  {
    var p := b.addr / PAGE_SIZE;
    if i <= p < i + c {
      assert Touches(b, p);
    } else if p < i && i * PAGE_SIZE < b.End() {
      assert Touches(b, i);
    }
  }

  lemma {:induction false} ClaimInv(s: State, i: nat, c: nat)
    requires Inv(s) && c > 0 && RunFree(s.pages, i, c)
    ensures Inv(Claimed(s, i, c))
    ensures UsedBlocks(Claimed(s, i, c).blocks) == UsedBlocks(s.blocks)
  {
    var t, b := Claimed(s, i, c), FreshBlock(i, c);
    assert s.pages[i] == PFree;
    assert i >= HEAP_START / PAGE_SIZE;
    forall j | 0 <= j < |s.blocks| ensures Apart(s.blocks[j], b) && Owns(s.blocks[j], t.pages) {
      FreeRunApart(s.blocks[j], s.pages, i, c);
    }
    assert Sound(s.blocks, t.pages);
    AppendSound(s.blocks, b, t.pages);
    UsedCountSet(s.pages, i, i + c, PUsed);
    BytesConcat(s.blocks, [b]);
    BytesOfOne(b);
  }

  lemma {:induction false} ClaimPlaced(s: State, i: nat, c: nat)
    requires Inv(s) && c > 0 && RunFree(s.pages, i, c)
    ensures Placed(s.blocks + [FreshBlock(i, c)]) && InHeap(FreshBlock(i, c))
  {
    ClaimInv(s, i, c);
    assert (s.blocks + [FreshBlock(i, c)])[|s.blocks|] == FreshBlock(i, c);
  }

  lemma {:induction false} CarveInv(s: State, k: nat, n: nat)
    requires Inv(s) && k < |s.blocks| && Fits(s.blocks[k], n)
    ensures Inv(s.(blocks := Carve(s.blocks, k, n)))
  {
    var bs := s.blocks;
    if bs[k].size - n - HSIZE > 0 {
      SplitSound(bs, k, n, s.pages);
      SplitBytes(bs, k, n);
      bs := Split(bs, k, n);
    }
    MarkSound(bs, k, false, s.pages);
    MarkBytes(bs, k, false);
  }

  lemma {:induction false} CarveLive(bs: seq<Block>, k: nat, n: nat)
    requires k < |bs| && Fits(bs[k], n)
    ensures k < |Carve(bs, k, n)|
    ensures UsedBlocks(Carve(bs, k, n)) == UsedBlocks(bs) + {Carve(bs, k, n)[k]}
    ensures Carve(bs, k, n)[k].addr == bs[k].addr && n <= Carve(bs, k, n)[k].size <= n + HSIZE
  {
    if bs[k].size - n - HSIZE > 0 {
      SplitLive(bs, k, n);
      MarkUsedLive(Split(bs, k, n), k);
    } else {
      MarkUsedLive(bs, k);
    }
  }

  lemma {:induction false} CarveTrimmed(bs: seq<Block>, k: nat, n: nat)
    requires k < |bs| && Fits(bs[k], n)
    requires forall i :: 0 <= i < |bs| && i != k && bs[i].free ==> !Releasable(bs[i])
    requires bs[k].size - n - HSIZE > 0 ==> !Releasable(Split(bs, k, n)[k + 1])
    ensures Trimmed(Carve(bs, k, n))
  {
  }

  /** The state a successful kmalloc starts carving from: the old one, or one block longer. */
  function Grown(s: State, n: u32): State
    requires Malloc(s, n).Got?
  {
    if FirstFit(s.blocks, n, 0) < |s.blocks| then s
    else
      PageCountCovers(n);
      Claimed(s, FindRun(s.pages, PageCountFor(n), 0).value, PageCountFor(n))
  }

  lemma {:induction false} GrownFits(s: State, n: u32)
    requires Inv(s) && Malloc(s, n).Got?
    ensures Inv(Grown(s, n)) && UsedBlocks(Grown(s, n).blocks) == UsedBlocks(s.blocks)
    ensures var t, k := Grown(s, n), FirstFit(s.blocks, n, 0);
            && k < |t.blocks| && Fits(t.blocks[k], n)
            && Malloc(s, n) == Got(t.(blocks := Carve(t.blocks, k, n)), k)
  {
    PageCountCovers(n);
    if FirstFit(s.blocks, n, 0) == |s.blocks| {
      ClaimInv(s, FindRun(s.pages, PageCountFor(n), 0).value, PageCountFor(n));
    }
  }

  /** kmalloc keeps the heap sound, and to its callers it adds exactly one payload: new, at least
      as large as asked, at most one header larger, and apart from every other live one. */
  lemma {:induction false} MallocRefines(s: State, n: u32)
    requires Inv(s) && Malloc(s, n).Got?
    ensures var Got(t, k) := Malloc(s, n);
            && Inv(t) && k < |t.blocks| && !t.blocks[k].free
            && t.blocks[k].Payload() !in Live(s.blocks)
            && Live(t.blocks) == Live(s.blocks)[t.blocks[k].Payload() := t.blocks[k].size]
            && n <= t.blocks[k].size <= n + HSIZE
            && HEAP_START < t.blocks[k].Payload() < TOP
  {
    GrownFits(s, n);
    var g, k := Grown(s, n), FirstFit(s.blocks, n, 0);
    CarveInv(g, k, n);
    CarveLive(g.blocks, k, n);
    var b := Malloc(s, n).state.blocks[k];
    AddrsDiffer(g.blocks);
    LiveAdd(s.blocks, Malloc(s, n).state.blocks, b);
  }

  /** The blocks in use after kmalloc: those before, and the one returned, at a new address. */
  lemma {:induction false} MallocUsed(s: State, n: u32)
    requires Inv(s) && Malloc(s, n).Got?
    ensures var Got(t, k) := Malloc(s, n);
            && UsedBlocks(t.blocks) == UsedBlocks(s.blocks) + {t.blocks[k]}
            && forall b :: b in UsedBlocks(s.blocks) ==> b.addr != t.blocks[k].addr
  {
    GrownFits(s, n);
    CarveLive(Grown(s, n).blocks, FirstFit(s.blocks, n, 0), n);
    AddrsDiffer(Grown(s, n).blocks);
  }

  // A request within a header of 2^32 fits in no block.
  lemma {:induction false} TooLargeToFit(s: State, n: u32)
    requires Inv(s) && TOP <= n + HSIZE
    ensures FirstFit(s.blocks, n, 0) == |s.blocks|
  {
    forall i | 0 <= i < |s.blocks| ensures !Fits(s.blocks[i], n) {
      assert InHeap(s.blocks[i]);
    }
  }

  /** A free block that is large enough is enough: kmalloc succeeds with it or one before it, and
      asks for no pages. */
  lemma {:induction false} MallocTakes(s: State, n: u32, j: nat)
    requires Inv(s) && j < |s.blocks| && s.blocks[j].free && n <= s.blocks[j].size
    ensures Malloc(s, n).Got? && Malloc(s, n).index <= j && Malloc(s, n).state.pages == s.pages
  {
  }

  /** Which block kmalloc takes, when it asks for pages and for how many, and when it fails. */
  lemma {:induction false} MallocChoice(s: State, n: u32)
    requires Inv(s)
    ensures Malloc(s, n).Overflow? <==> TOP <= n + HSIZE
    ensures match Malloc(s, n)
            case Got(t, k) =>
              && k <= |s.blocks| && t.lost == s.lost
              && (forall j :: 0 <= j < k ==> !(s.blocks[j].free && n <= s.blocks[j].size))
              && (t.pages == s.pages <==> k < |s.blocks|)
              && (k < |s.blocks| ==> s.blocks[k].free && n <= s.blocks[k].size)
              && (k == |s.blocks| ==>
                    var p, c := t.blocks[k].addr / PAGE_SIZE, (n + HSIZE + PAGE_SIZE - 1) / PAGE_SIZE;
                    && t.blocks[k].addr == p * PAGE_SIZE && p + c <= PAGE_COUNT
                    && (forall q :: p <= q < p + c ==> s.pages[q] == PFree)
                    && t.pages == SetPages(s.pages, p, p + c, PUsed))
            case NoPages =>
              forall j :: 0 <= j < |s.blocks| ==> !(s.blocks[j].free && n <= s.blocks[j].size)
            case Overflow =>
              forall j :: 0 <= j < |s.blocks| ==> !(s.blocks[j].free && n <= s.blocks[j].size)
  {
    if TOP <= n + HSIZE { TooLargeToFit(s, n); }
    if Malloc(s, n).Got? && FirstFit(s.blocks, n, 0) == |s.blocks| { MallocFresh(s, n); }
    hide Sound, Ledger, SetPages, Carve, FindRun;
  }

  /** The same as a caller sees it: no pages are claimed exactly when some free block is large
      enough, and then the block returned is the first such one. */
  lemma {:induction false} MallocIsFirstFit(s: State, n: u32)
    requires Inv(s)
    ensures (exists j :: 0 <= j < |s.blocks| && s.blocks[j].free && n <= s.blocks[j].size) <==>
            Malloc(s, n).Got? && Malloc(s, n).state.pages == s.pages
    ensures Malloc(s, n).Got? && Malloc(s, n).state.pages == s.pages ==>
              var Got(t, k) := Malloc(s, n);
              && k < |s.blocks| && t.blocks[k].addr == s.blocks[k].addr && s.blocks[k].free && n <= s.blocks[k].size
              && forall j :: 0 <= j < k ==> !(s.blocks[j].free && n <= s.blocks[j].size)
  {
    MallocChoice(s, n);
    if j :| 0 <= j < |s.blocks| && s.blocks[j].free && n <= s.blocks[j].size { MallocTakes(s, n, j); }
    if Malloc(s, n).Got? { MallocList(s, n); }
    hide Malloc, Inv;
  }

  lemma {:induction false} MallocFresh(s: State, n: u32)
    requires Inv(s) && Malloc(s, n).Got? && FirstFit(s.blocks, n, 0) == |s.blocks|
    ensures var Got(t, k) := Malloc(s, n);
            var p, c := t.blocks[k].addr / PAGE_SIZE, (n + HSIZE + PAGE_SIZE - 1) / PAGE_SIZE;
            && t.blocks[k].addr == p * PAGE_SIZE && p + c <= PAGE_COUNT
            && (forall q :: p <= q < p + c ==> s.pages[q] == PFree)
            && t.pages == SetPages(s.pages, p, p + c, PUsed) && t.pages != s.pages
  {
    hide Inv, UsedBlocks, Carve, SetPages, FirstFit, FindRun, Grown, PageCountFor, Malloc;
    GrownFits(s, n);
    var p := ClaimedRun(s, n);
    assert p * PAGE_SIZE / PAGE_SIZE == p;
    CarveLive(Grown(s, n).blocks, |s.blocks|, n);
  }

  lemma {:induction false} ClaimedRun(s: State, n: u32) returns (p: nat)
    requires Inv(s) && Malloc(s, n).Got? && FirstFit(s.blocks, n, 0) == |s.blocks|
    ensures var c := (n + HSIZE + PAGE_SIZE - 1) / PAGE_SIZE;
            && c > 0 && Grown(s, n) == Claimed(s, p, c)
            && p + c <= |s.pages| == PAGE_COUNT && (forall q :: p <= q < p + c ==> s.pages[q] == PFree)
            && SetPages(s.pages, p, p + c, PUsed) != s.pages
  {
    PageCountCovers(n);
    assert PageCountFor(n) == (n + HSIZE + PAGE_SIZE - 1) / PAGE_SIZE;
    hide Sound, Ledger, UsedBlocks, Carve, FirstFit;
    var c := PageCountFor(n);
    LowestRun(s.pages, c, 0);
    p := FindRun(s.pages, c, 0).value;
    assert s.pages[p] == PFree && SetPages(s.pages, p, p + c, PUsed)[p] == PUsed;
  }

  /** Where no block fits, a run of as many free pages as header and request need, from i on, is
      enough: kmalloc succeeds, with pages from i or below. So it fails for want of pages only
      without such a run, and the run it claims is the lowest. */
  lemma {:induction false} MallocClaims(s: State, n: u32, i: nat)
    requires Inv(s) && n + HSIZE < TOP
    requires forall j :: 0 <= j < |s.blocks| ==> !(s.blocks[j].free && n <= s.blocks[j].size)
    requires var c := (n + HSIZE + PAGE_SIZE - 1) / PAGE_SIZE;
             i + c <= PAGE_COUNT && forall p :: i <= p < i + c ==> s.pages[p] == PFree
    ensures Malloc(s, n).Got? && Malloc(s, n).index == |s.blocks|
    ensures Malloc(s, n).state.blocks[|s.blocks|].addr <= i * PAGE_SIZE
  {
    assert PageCountFor(n) == (n + HSIZE + PAGE_SIZE - 1) / PAGE_SIZE;
    LowestRun(s.pages, PageCountFor(n), i);
    GrownFits(s, n);
    CarveLive(Grown(s, n).blocks, |s.blocks|, n);
  }

  /** The list kmalloc leaves: the block taken, or made of the claimed pages, is cut to exactly the
      size asked where more than a header would be left over, and is otherwise given whole. */
  lemma {:induction false} MallocList(s: State, n: u32)
    requires Inv(s) && Malloc(s, n).Got?
    ensures var Got(t, k) := Malloc(s, n);
            && k <= |s.blocks| && k < |t.blocks|
            && var addr := t.blocks[k].addr;
               var size := if k < |s.blocks| then s.blocks[k].size
                           else (n + HSIZE + PAGE_SIZE - 1) / PAGE_SIZE * PAGE_SIZE - HSIZE;
               var rest := if k < |s.blocks| then s.blocks[k + 1..] else [];
               && (k < |s.blocks| ==> addr == s.blocks[k].addr)
               && t.blocks == s.blocks[..k] + (if size > n + HSIZE
                                               then [Block(addr, n, false),
                                                     Block(addr + HSIZE + n, size - n - HSIZE, true)]
                                               else [Block(addr, size, false)]) + rest
  {
    hide Sound, Ledger, LowReserved, Carve, UsedBlocks, SetPages, FindRun, FirstFit;
    GrownFits(s, n);
    var g, k := Grown(s, n), FirstFit(s.blocks, n, 0);
    CarveList(g.blocks, k, n);
    GrownList(s, n);
    hide Malloc, Grown;
  }

  lemma {:induction false} GrownList(s: State, n: u32)
    requires Malloc(s, n).Got?
    ensures var g, k := Grown(s, n), FirstFit(s.blocks, n, 0);
            if k < |s.blocks| then g == s
            else
              && |g.blocks| == k + 1 && g.blocks[..k] == s.blocks[..k] && g.blocks[k + 1..] == []
              && g.blocks[k].size == (n + HSIZE + PAGE_SIZE - 1) / PAGE_SIZE * PAGE_SIZE - HSIZE
  {
    PageCountCovers(n);
    assert n + HSIZE < TOP ==> PageCountFor(n) == (n + HSIZE + PAGE_SIZE - 1) / PAGE_SIZE;
  }

  lemma {:induction false} CarveList(bs: seq<Block>, k: nat, n: nat)
    requires k < |bs| && Fits(bs[k], n)
    ensures var b := bs[k];
            Carve(bs, k, n) ==
            bs[..k] + (if b.size > n + HSIZE
                       then [Block(b.addr, n, false), Block(b.addr + HSIZE + n, b.size - n - HSIZE, true)]
                       else [Block(b.addr, b.size, false)]) + bs[k + 1..]
  {
  }

  // What is left of a free block after carving holds no page that the whole did not.
  lemma {:induction false} RemainderTrimmed(b: Block, n: nat)
    requires n + HSIZE <= b.size && !Releasable(b)
    ensures !Releasable(Block(b.addr + HSIZE + n, b.size - n - HSIZE, true))
  {
  }

  // What is left of freshly claimed pages lies in the last of them.
  lemma {:induction false} FreshTrimmed(i: nat, c: nat, n: nat)
    requires c > 0 && (c - 1) * PAGE_SIZE < n + HSIZE && n + 2 * HSIZE <= c * PAGE_SIZE
    ensures !Releasable(Block(i * PAGE_SIZE + HSIZE + n, c * PAGE_SIZE - 2 * HSIZE - n, true))
  {
  }

  /** First fit never leaves a free block that still holds a page to give back. */
  lemma {:induction false} MallocTrimmed(s: State, n: u32)
    requires Inv(s) && Trimmed(s.blocks) && Malloc(s, n).Got?
    ensures Trimmed(Malloc(s, n).state.blocks)
  {
    hide Releasable, Sound, Ledger, Carve;
    GrownFits(s, n);
    PageCountCovers(n);
    var g, k := Grown(s, n), FirstFit(s.blocks, n, 0);
    if g.blocks[k].size - n - HSIZE > 0 {
      if k < |s.blocks| {
        RemainderTrimmed(g.blocks[k], n);
      } else {
        FreshTrimmed(FindRun(s.pages, PageCountFor(n), 0).value, PageCountFor(n), n);
      }
    }
    CarveTrimmed(g.blocks, k, n);
  }

  // ----- kfree

  function MergeAt(bs: seq<Block>, k: int): seq<Block>
  {
    if 0 <= k && k + 1 < |bs| && bs[k].free && bs[k + 1].free && bs[k].End() == bs[k + 1].addr
    then Merge(bs, k) else bs
  }

  /** The list after block k is marked free and merged with its free neighbours, and where the
      merged block stands in it. */
  function Joined(bs: seq<Block>, k: nat): (r: (seq<Block>, nat))
    requires k < |bs|
    ensures r.1 < |r.0| && r.1 <= k
  {
    var forward := MergeAt(Mark(bs, k, true), k);
    var back := MergeAt(forward, k - 1);
    (back, if |back| < |forward| then k - 1 else k)
  }

  /** free_pages on block k, where its arithmetic does not wrap. */
  function Release(s: State, k: nat): State
    requires k < |s.blocks|
  {
    var b := s.blocks[k];
    var ps := RoundUp(b.addr);
    if !Releasable(b) || 0 < ps - b.addr < HSIZE then s
    else State(
      if b.addr < ps then s.blocks[k := Block(b.addr, ps - b.addr - HSIZE, true)] else Drop(s.blocks, k),
      SetPages(s.pages, ps / PAGE_SIZE, b.End() / PAGE_SIZE, PFree),
      s.lost + b.End() % PAGE_SIZE)
  }

  datatype FreeResult = Freed(state: State) | NotUsed | Wrapped

  function Free(s: State, k: nat): (r: FreeResult)
    requires k < |s.blocks|
    ensures r.NotUsed? <==> s.blocks[k].free
  {
    if s.blocks[k].free then NotUsed
    else
      var (bs, j) := Joined(s.blocks, k);
      if Unsafe(bs[j]) then Wrapped else Freed(Release(s.(blocks := bs), j))
  }

  lemma {:induction false} MergeAtKeeps(bs: seq<Block>, k: int, pages: seq<PageState>)
    requires Sound(bs, pages)
    ensures Sound(MergeAt(bs, k), pages)
    ensures Bytes(MergeAt(bs, k)) == Bytes(bs)
    ensures UsedBlocks(MergeAt(bs, k)) == UsedBlocks(bs)
  {
    if Adjacent(bs, k) {
      MergeSound(bs, k, pages);
      MergeBytes(bs, k);
      MergeLive(bs, k);
    }
  }

  lemma {:induction false} MergeAtUsed(bs: seq<Block>, k: int)
    ensures UsedBlocks(MergeAt(bs, k)) == UsedBlocks(bs)
  {
  }

  /** Marking and merging keep the heap sound and end exactly one live payload. */
  lemma {:induction false} JoinedKeeps(s: State, k: nat)
    requires Inv(s) && k < |s.blocks| && !s.blocks[k].free
    ensures Inv(s.(blocks := Joined(s.blocks, k).0))
    ensures UsedBlocks(Joined(s.blocks, k).0) == UsedBlocks(s.blocks) - {s.blocks[k]}
  {
    var marked := Mark(s.blocks, k, true);
    MarkSound(s.blocks, k, true, s.pages);
    MarkBytes(s.blocks, k, true);
    MarkFreeLive(s.blocks, k);
    MergeAtKeeps(marked, k, s.pages);
    MergeAtKeeps(MergeAt(marked, k), k - 1, s.pages);
  }

  // Merging keeps every block but the two it joins.
  lemma {:induction false} MergeAtShape(bs: seq<Block>, k: int)
    ensures var r := MergeAt(bs, k);
            if Adjacent(bs, k) then
              && |r| == |bs| - 1 && r[..k] == bs[..k] && r[k + 1..] == bs[k + 2..]
              && r[k].free && r[k].addr == bs[k].addr && r[k].End() == bs[k + 1].End()
            else r == bs
  {
  }

  /** The merged block is free, starts where its first part did and ends where its last part did;
      which those are depends on the two neighbours alone, and no other block changes. */
  lemma {:induction false} JoinedCovers(bs: seq<Block>, k: nat)
    requires k < |bs|
    ensures var (r, j) := Joined(bs, k);
            var next := k + 1 < |bs| && bs[k + 1].free && bs[k].End() == bs[k + 1].addr;
            var previous := k > 0 && bs[k - 1].free && bs[k - 1].End() == bs[k].addr;
            var m := if next then k + 2 else k + 1;
            && j == (if previous then k - 1 else k)
            && r[..j] == bs[..j] && r[j + 1..] == bs[m..]
            && r[j].free && r[j].addr == bs[j].addr && r[j].End() == bs[m - 1].End()
            && r[j].addr <= bs[k].addr && bs[k].End() <= r[j].End()
  {
    var marked := Mark(bs, k, true);
    var forward := MergeAt(marked, k);
    var (r, j) := Joined(bs, k);
    MergeAtShape(marked, k);
    MergeAtShape(forward, k - 1);
    var m := if k + 1 < |bs| && bs[k + 1].free && bs[k].End() == bs[k + 1].addr then k + 2 else k + 1;
    assert forward[..k] == bs[..k] && forward[k + 1..] == bs[m..];
    assert r[j + 1..] == bs[m..];
    assert r[..j] == bs[..j];
  }

  lemma {:induction false} ReleaseSound(s: State, k: nat)
    requires Inv(s) && k < |s.blocks| && s.blocks[k].free
    ensures LowReserved(Release(s, k).pages)
    ensures Sound(Release(s, k).blocks, Release(s, k).pages)
    ensures UsedBlocks(Release(s, k).blocks) == UsedBlocks(s.blocks)
  {
    var b, t := s.blocks[k], Release(s, k);
    if Releasable(b) && !HeaderStraddles(b) {
      var ps := RoundUp(b.addr);
      assert RoundUp(HEAP_START) == HEAP_START;
      if b.addr < ps {
        var n := ps - b.addr - HSIZE;
        SplitSound(s.blocks, k, n, s.pages);
        SplitLive(s.blocks, k, n);
        var cut := Split(s.blocks, k, n);
        ReleaseSecond(cut, k + 1, s.pages);
        DropLive(cut, k + 1);
        assert t.blocks == Drop(cut, k + 1);
      } else {
        ReleaseSecond(s.blocks, k, s.pages);
        DropLive(s.blocks, k);
      }
    }
  }

  // Unlinking a block that starts on a page boundary and freeing its whole pages.
  lemma {:induction false} ReleaseSecond(bs: seq<Block>, k: nat, pages: seq<PageState>)
    requires Sound(bs, pages) && k < |bs| && bs[k].addr % PAGE_SIZE == 0 && Releasable(bs[k])
    ensures Sound(Drop(bs, k), SetPages(pages, bs[k].addr / PAGE_SIZE, bs[k].End() / PAGE_SIZE, PFree))
  {
  }

  lemma {:induction false} ReleaseBytes(s: State, k: nat)
    requires k < |s.blocks| && s.blocks[k].free
    requires Releasable(s.blocks[k]) && !HeaderStraddles(s.blocks[k])
    ensures Bytes(Release(s, k).blocks) ==
            Bytes(s.blocks) - (s.blocks[k].End() - RoundUp(s.blocks[k].addr))
  {
    var b := s.blocks[k];
    var ps := RoundUp(b.addr);
    if b.addr < ps {
      var n := ps - b.addr - HSIZE;
      SplitBytes(s.blocks, k, n);
      DropBytes(Split(s.blocks, k, n), k + 1);
      assert Release(s, k).blocks == Drop(Split(s.blocks, k, n), k + 1);
    } else {
      DropBytes(s.blocks, k);
    }
  }

  /** Release is what splitting off the front part, unlinking the rest and freeing pages leave. */
  lemma {:induction false} ReleaseByDrop(s: State, k: nat)
    requires k < |s.blocks| && s.blocks[k].free && !HeaderStraddles(s.blocks[k])
    ensures var b := s.blocks[k];
            var ps := RoundUp(b.addr);
            Release(s, k) ==
            if !Releasable(b) then s
            else State(if b.addr < ps then Drop(Split(s.blocks, k, ps - b.addr - HSIZE), k + 1) else Drop(s.blocks, k),
                       SetPages(s.pages, ps / PAGE_SIZE, b.End() / PAGE_SIZE, PFree), s.lost + b.End() % PAGE_SIZE)
  {
  }

  /** The ledger closes: what leaves the list is the freed pages and the bytes counted as lost. */
  lemma {:induction false} ReleaseLedger(s: State, k: nat)
    requires Inv(s) && k < |s.blocks| && s.blocks[k].free
    ensures Ledger(Release(s, k))
  {
    var b := s.blocks[k];
    if Releasable(b) && !HeaderStraddles(b) {
      var lo, hi := RoundUp(b.addr) / PAGE_SIZE, b.End() / PAGE_SIZE;
      forall p | lo <= p < hi ensures s.pages[p] == PUsed {
        assert Owns(b, s.pages) && Touches(b, p);
      }
      UsedCountSet(s.pages, lo, hi, PFree);
      ReleaseBytes(s, k);
    }
  }

  /** kfree of a live block goes through exactly when the arithmetic of free_pages on the merged
      block frees and keeps what it should. */
  lemma {:induction false} FreedIffCorrect(s: State, k: nat)
    requires Inv(s) && k < |s.blocks| && !s.blocks[k].free
    ensures var (bs, j) := Joined(s.blocks, k);
            Free(s, k).Freed? <==> ReleaseCorrect(bs[j])
  {
    JoinedKeeps(s, k);
    var (bs, j) := Joined(s.blocks, k);
    ReleaseCorrectIff(bs[j]);
  }

  /** kfree of a live block keeps the heap sound and takes exactly that payload away. */
  lemma {:induction false} FreeRefines(s: State, k: nat)
    requires Inv(s) && k < |s.blocks| && Free(s, k).Freed?
    ensures var t := Free(s, k).state;
            && Inv(t)
            && s.blocks[k].Payload() in Live(s.blocks)
            && Live(t.blocks) == Live(s.blocks) - {s.blocks[k].Payload()}
  {
    JoinedKeeps(s, k);
    JoinedCovers(s.blocks, k);
    var (bs, j) := Joined(s.blocks, k);
    var g := s.(blocks := bs);
    ReleaseSound(g, j);
    ReleaseLedger(g, j);
    LiveRemove(s.blocks, Free(s, k).state.blocks, s.blocks[k]);
  }

  /** Only pages wholly inside the merged block go back; none of them holds a byte of a block
      that stays listed, and the loss is the part of the merged block's last page. */
  lemma {:induction false} FreeReturnsOnlyItsPages(s: State, k: nat)
    requires Inv(s) && k < |s.blocks| && Free(s, k).Freed?
    ensures var t := Free(s, k).state;
            var (bs, j) := Joined(s.blocks, k);
            && (forall p :: 0 <= p < PAGE_COUNT ==>
                  if t.pages[p] == s.pages[p] then true
                  else s.pages[p] == PUsed && t.pages[p] == PFree && WhollyInside(p, bs[j]))
            && (forall p, i :: 0 <= p < PAGE_COUNT && 0 <= i < |t.blocks| && t.pages[p] != s.pages[p]
                  ==> !Touches(t.blocks[i], p))
            && t.lost == s.lost + if t.pages == s.pages then 0 else bs[j].End() % PAGE_SIZE
  {
    JoinedKeeps(s, k);
    JoinedCovers(s.blocks, k);
    var (bs, j) := Joined(s.blocks, k);
    var g, t := s.(blocks := bs), Free(s, k).state;
    ReleaseSound(g, j);
    forall p | 0 <= p < PAGE_COUNT && t.pages[p] != s.pages[p]
      ensures s.pages[p] == PUsed && t.pages[p] == PFree && WhollyInside(p, bs[j])
    {
      assert Owns(bs[j], s.pages) && Touches(bs[j], p);
    }
    forall p, i | 0 <= p < PAGE_COUNT && 0 <= i < |t.blocks| && t.pages[p] != s.pages[p]
      ensures !Touches(t.blocks[i], p)
    {
      assert Owns(t.blocks[i], t.pages);
    }
    if Releasable(bs[j]) {
      var p := RoundUp(bs[j].addr) / PAGE_SIZE;
      assert Owns(bs[j], s.pages) && Touches(bs[j], p);
      assert t.pages[p] == PFree;
    }
  }

  /** What a kfree that goes through leaves, page by page and block by block. Exactly the pages
      wholly inside the merged block are given back, unless it ends at 2^32; if there are any, what
      is left of it is the part before the first of them, where there is one. */
  lemma {:induction false} FreeExact(s: State, k: nat)
    requires Inv(s) && k < |s.blocks| && Free(s, k).Freed?
    ensures var t := Free(s, k).state;
            var (bs, j) := Joined(s.blocks, k);
            var b := bs[j];
            && (forall p :: 0 <= p < PAGE_COUNT ==>
                  t.pages[p] == if b.End() < TOP && b.addr <= p * PAGE_SIZE && (p + 1) * PAGE_SIZE <= b.End()
                                then PFree else s.pages[p])
            && (t.pages == s.pages ==> t.blocks == bs && t.lost == s.lost)
            && (t.pages != s.pages ==>
                  && t.lost == s.lost + b.End() % PAGE_SIZE
                  && t.blocks == bs[..j] + (if b.addr % PAGE_SIZE == 0 then []
                                            else [Block(b.addr, PAGE_SIZE - b.addr % PAGE_SIZE - HSIZE, true)]) +
                                              bs[j + 1..])
  {
    hide Joined, Inv, UsedBlocks, Release, Unsafe, ReleaseCorrect;
    JoinedKeeps(s, k);
    var (bs, j) := Joined(s.blocks, k);
    ReleasePages(s.(blocks := bs), j);
    ReleaseList(s.(blocks := bs), j);
  }

  lemma {:induction false} ReleasePages(s: State, k: nat)
    requires Inv(s) && k < |s.blocks| && !Unsafe(s.blocks[k])
    ensures var b, t := s.blocks[k], Release(s, k);
            && |t.pages| == PAGE_COUNT
            && forall p :: 0 <= p < PAGE_COUNT ==>
                 t.pages[p] == if b.End() < TOP && b.addr <= p * PAGE_SIZE && (p + 1) * PAGE_SIZE <= b.End()
                               then PFree else s.pages[p]
  {
    var b := s.blocks[k];
    hide Sound, Ledger;
    if Releasable(b) {
      var lo, hi := RoundUp(b.addr) / PAGE_SIZE, b.End() / PAGE_SIZE;
      forall p: nat ensures lo <= p < hi <==> b.addr <= p * PAGE_SIZE && (p + 1) * PAGE_SIZE <= b.End() {
        InsideBounds(b, p);
      }
    } else {
      forall p: nat ensures !(b.End() < TOP && b.addr <= p * PAGE_SIZE && (p + 1) * PAGE_SIZE <= b.End()) { }
    }
  }

  lemma InsideBounds(b: Block, p: nat)
    ensures RoundUp(b.addr) / PAGE_SIZE <= p < b.End() / PAGE_SIZE <==>
            b.addr <= p * PAGE_SIZE && (p + 1) * PAGE_SIZE <= b.End()
  {
  }

  lemma {:induction false} ReleaseList(s: State, k: nat)
    requires Inv(s) && k < |s.blocks| && !Unsafe(s.blocks[k])
    ensures var b, t := s.blocks[k], Release(s, k);
            && (t.pages == s.pages ==> t.blocks == s.blocks && t.lost == s.lost)
            && (t.pages != s.pages ==>
                  && t.lost == s.lost + b.End() % PAGE_SIZE
                  && t.blocks == s.blocks[..k] + (if b.addr % PAGE_SIZE == 0 then []
                                                  else [Block(b.addr, PAGE_SIZE - b.addr % PAGE_SIZE - HSIZE, true)])
                                 + s.blocks[k + 1..])
  {
    hide Ledger, Drop, UsedBlocks;
    var b := s.blocks[k];
    if Releasable(b) {
      PageGoes(b, s.pages);
      DropIs(s.blocks, k);
    }
    hide Inv, Owns;
  }

  // A block with a page to give back changes the page map by giving it back.
  lemma {:induction false} PageGoes(b: Block, pages: seq<PageState>)
    requires |pages| == PAGE_COUNT && Owns(b, pages) && Releasable(b)
    ensures SetPages(pages, RoundUp(b.addr) / PAGE_SIZE, b.End() / PAGE_SIZE, PFree) != pages
  {
    var p := RoundUp(b.addr) / PAGE_SIZE;
    assert Touches(b, p);
    assert SetPages(pages, p, b.End() / PAGE_SIZE, PFree)[p] == PFree;
  }

  lemma {:induction false} DropIs(bs: seq<Block>, k: nat)
    requires k < |bs|
    ensures Drop(bs, k) == bs[..k] + [] + bs[k + 1..]
    ensures forall b :: bs[k := b] == bs[..k] + [b] + bs[k + 1..]
  {
  }

  // A release keeps the blocks around k and leaves nothing in its place that could be released.
  lemma {:induction false} ReleaseShape(s: State, k: nat)
    requires k < |s.blocks| && !HeaderStraddles(s.blocks[k])
    ensures forall b :: b in Release(s, k).blocks ==>
              b in s.blocks[..k] || b in s.blocks[k + 1..] || !Releasable(b)
  {
  }

  /** Merging and releasing leave no free block holding a page that could go back. */
  lemma {:induction false} FreeTrimmed(s: State, k: nat)
    requires Trimmed(s.blocks) && k < |s.blocks| && Free(s, k).Freed?
    ensures Trimmed(Free(s, k).state.blocks)
  {
    JoinedCovers(s.blocks, k);
    var (bs, j) := Joined(s.blocks, k);
    ReleaseShape(s.(blocks := bs), j);
    var r := Free(s, k).state.blocks;
    forall i | 0 <= i < |r| && r[i].free ensures !Releasable(r[i]) {
      assert r[i] in r;
      assert r[i] in bs[..j] || r[i] in bs[j + 1..] ==> r[i] in s.blocks;
    }
  }

  // ----- kfree after kmalloc

  // Freeing a freshly carved block rejoins what carving cut.
  lemma {:induction false} CarveJoined(bs: seq<Block>, k: nat, n: nat)
    requires k < |bs| && Fits(bs[k], n) && !Adjacent(bs, k)
    ensures k < |Carve(bs, k, n)|
    ensures Joined(Carve(bs, k, n), k) == (MergeAt(bs, k - 1), if Adjacent(bs, k - 1) then k - 1 else k)
  {
    var r := Carve(bs, k, n);
    if bs[k].size - n - HSIZE > 0 {
      var cut := Split(bs, k, n);
      assert Mark(r, k, true) == cut;
      assert Merge(cut, k) == bs;
    } else {
      assert Mark(r, k, true) == bs;
    }
    MergeAtShape(bs, k - 1);
  }

  /** Whether the block kmalloc would carve n bytes from stays clear of the end of the address
      space, where the release test of kfree wraps. */
  predicate ClearOfTop(s: State, n: u32)
    requires Malloc(s, n).Got?
  {
    var k := FirstFit(s.blocks, n, 0);
    if k < |s.blocks| then !RoundsPastTop(s.blocks[k])
    else
      PageCountCovers(n);
      FindRun(s.pages, PageCountFor(n), 0).value + PageCountFor(n) < PAGE_COUNT
  }

  /** kfree is the exact inverse of kmalloc: every block, every link and the whole page map are
      back, whether the block was cut from a free one or new pages were claimed. */
  lemma {:induction false} FreeUndoesMalloc(s: State, n: u32)
    requires Inv(s) && Trimmed(s.blocks) && Coalesced(s.blocks) && Malloc(s, n).Got?
    ensures Malloc(s, n).index < |Malloc(s, n).state.blocks|
    ensures Free(Malloc(s, n).state, Malloc(s, n).index) == Freed(s) <==> ClearOfTop(s, n)
  {
    GrownFits(s, n);
    var g, k := Grown(s, n), FirstFit(s.blocks, n, 0);
    CarveLive(g.blocks, k, n);
    CarveJoined(g.blocks, k, n);
    if k < |s.blocks| {
      assert !Adjacent(s.blocks, k - 1);
    } else {
      PageCountCovers(n);
      var c := PageCountFor(n);
      ClaimReleased(s, FindRun(s.pages, c, 0).value, c);
    }
  }

  // Releasing freshly claimed pages, alone or merged with a free predecessor.
  lemma {:induction false} ClaimReleased(s: State, i: nat, c: nat)
    requires Inv(s) && Trimmed(s.blocks) && c > 0 && RunFree(s.pages, i, c)
    ensures var g := Claimed(s, i, c);
            var k := |s.blocks|;
            var j := if Adjacent(g.blocks, k - 1) then k - 1 else k;
            var m := g.(blocks := MergeAt(g.blocks, k - 1));
            && j < |m.blocks| && !Unsafe(m.blocks[j])
            && (Release(m, j) == s <==> i + c < PAGE_COUNT)
  {
    hide Sound, Ledger, LowReserved, MergeAt;
    var g, k := Claimed(s, i, c), |s.blocks|;
    var j := if Adjacent(g.blocks, k - 1) then k - 1 else k;
    var m := g.(blocks := MergeAt(g.blocks, k - 1));
    MergeAtShape(g.blocks, k - 1);
    assert s.pages[i] == PFree && g.pages[i] == PUsed;
    assert m.blocks[j].free && m.blocks[j].End() == (i + c) * PAGE_SIZE;
    if i + c < PAGE_COUNT {
      var ps := i * PAGE_SIZE;
      assert RoundUp(m.blocks[j].addr) == ps && (m.blocks[j].addr < ps ==> m.blocks[j].addr + HSIZE <= ps) by {
        if j < k { assert !Releasable(s.blocks[j]); }
      }
      assert SetPages(g.pages, i, i + c, PFree) == s.pages;
      assert if j < k then m.blocks[j := s.blocks[j]] == s.blocks else Drop(m.blocks, j) == s.blocks;
    }
  }
}
