/** The arithmetic of free_pages, in 32-bit unsigned words as the kernel computes it, and the
    exact condition under which the wrapped results are the intended ones. */
module ReleaseArithmetic {
  import opened Machine
  import opened PageTable
  import opened Layout

  function PageStart(b: Block): (r: u32)
  {
    if b.addr % PAGE_SIZE == 0 then Wrap(b.addr) else Wrap(b.addr + PAGE_SIZE - b.addr % PAGE_SIZE)
  }

  function BlockEnd(b: Block): (r: u32)
  {
    Wrap(b.addr + b.size + HSIZE)
  }

  function ReleaseLen(b: Block): (r: u32)
  {
    Wrap(BlockEnd(b) - PageStart(b))
  }

  predicate Releases(b: Block)
  {
    ReleaseLen(b) >= PAGE_SIZE && BlockEnd(b) > PageStart(b)
  }

  /** The payload size handed to memory_split for the part in front of the released pages. */
  function FrontSize(b: Block): (r: u32)
  {
    Wrap(PageStart(b) - b.addr - HSIZE)
  }

  /** Pages set to PAGE_FREE by the call of page_set_range. */
  predicate Frees(b: Block, p: nat)
  {
    Releases(b) && PageStart(b) / PAGE_SIZE <= p < Wrap(PageStart(b) + ReleaseLen(b)) / PAGE_SIZE
  }

  predicate WhollyInside(p: nat, b: Block)
  {
    b.addr <= p * PAGE_SIZE && (p + 1) * PAGE_SIZE <= b.End()
  }

  /** The next page boundary cuts through the block's own header. */
  predicate HeaderStraddles(b: Block)
  {
    Releasable(b) && 0 < RoundUp(b.addr) - b.addr < HSIZE
  }

  /** The block starts inside the last page of the address space and ends inside it as well. */
  predicate RoundsPastTop(b: Block)
  {
    TOP - PAGE_SIZE < b.addr && b.End() < TOP
  }

  predicate Unsafe(b: Block)
  {
    HeaderStraddles(b) || RoundsPastTop(b)
  }

  /** What a release has to guarantee: only pages wholly inside the block go back, and the part
      that stays in the list ends where those pages begin. */
  ghost predicate ReleaseCorrect(b: Block)
  {
    && (forall p: nat :: Frees(b, p) ==> WhollyInside(p, b))
    && (Releases(b) && b.addr < PageStart(b) ==> b.addr + HSIZE + FrontSize(b) <= PageStart(b))
  }

  lemma {:induction false} SafeRelease(b: Block)
    requires InHeap(b) && !Unsafe(b)
    ensures Releases(b) <==> Releasable(b)
    ensures Releasable(b) ==>
              && PageStart(b) == RoundUp(b.addr) && BlockEnd(b) == b.End()
              && ReleaseLen(b) == b.End() - RoundUp(b.addr)
              && (b.addr < PageStart(b) ==> FrontSize(b) == PageStart(b) - b.addr - HSIZE)
  {
  }

  /** free_pages does what it is for exactly when neither wrap-around case arises. */
  lemma {:induction false} ReleaseCorrectIff(b: Block)
    requires InHeap(b)
    ensures ReleaseCorrect(b) <==> !Unsafe(b)
  {
    if RoundsPastTop(b) {
      assert PageStart(b) == 0 && Frees(b, 0) && !WhollyInside(0, b);
    } else if HeaderStraddles(b) {
      assert FrontSize(b) == PageStart(b) - b.addr - HSIZE + TOP;
    } else {
      SafeRelease(b);
    }
  }

  /** A block of one header and 4100 bytes, 16 bytes below a page boundary, is such a case. */
  lemma {:induction false} ReleaseCanFail()
    ensures var b := Block(HEAP_START + 4080, 4100, true);
            InHeap(b) && Releases(b) && FrontSize(b) == TOP - 8 && !ReleaseCorrect(b)
  {
  }
}
