/** The kernel heap: mlist, the memory its headers live in, and the page map it draws on. */
module Heap {
  import opened Machine
  import opened PageTable
  import opened Layout
  import opened ReleaseArithmetic
  import opened HeapModel
  import opened Memory
  import opened HeapRuns
  import opened PageMap

  /** Panic: page_claim found no run of free pages. Wraps: 32-bit arithmetic lost a carry, and the
      model stops where the kernel would go on with the wrapped value. */
  datatype Outcome = Done(ptr: u32) | Panic | Wraps

  datatype FreeOutcome = Returned | Reported | FreeWraps

  class Heap {
    var head: u32
    var tail: u32
    var size: nat
    const mem: array<u8>
    const pages: PageMap
    ghost var blocks: seq<Block>  // the list, in list order
    ghost var lost: nat           // bytes of used pages that no listed block accounts for

    ghost predicate Linked()
      reads this, mem
    {
      Memory.Linked(mem[..], head, tail, size, blocks)
    }

    ghost function Contents(): (s: State)
      reads this, pages.memoryMap
    {
      State(blocks, pages.Pages(), lost)
    }

    /** The list is in memory as it should be, and the heap is sound. */
    ghost predicate Valid()
      reads this, mem, pages.memoryMap
    {
      mem as object != pages.memoryMap && pages.Valid() && Linked() && Inv(Contents())
    }

    /** init_heap, after paging_initialize. */
    constructor (mem: array<u8>, pages: PageMap)
      requires mem.Length == TOP && pages.Valid() && mem as object != pages.memoryMap
      requires Boot(State([], pages.Pages(), 0))
      ensures this.mem == mem && this.pages == pages
      ensures Valid() && Contents() == State([], pages.Pages(), 0)
    {
      head, tail, size := NULL, NULL, 0;
      this.mem, this.pages := mem, pages;
      blocks, lost := [], 0;
      BootHealthy(State([], pages.Pages(), 0));
    }

    /** memory_split */
    method Split(block: u32, n: u32, ghost k: nat) returns (r: u32)
      requires Linked() && k < |blocks| && block == blocks[k].addr
      requires n + HSIZE <= blocks[k].size && (n + HSIZE < blocks[k].size || blocks[k].End() < TOP)
      modifies this`tail, this`size, this`blocks, mem
      ensures Linked()
      ensures r == if HSIZE < old(blocks)[k].size && old(blocks)[k].free then block else NULL
      ensures blocks == if r == NULL then old(blocks) else Layout.Split(old(blocks), k, n)
      ensures PayloadsKept(old(mem[..]), mem[..], old(blocks))
    {
      hide HeaderAt, SameOutside, PayloadsKept, Placed, Memory.Linked, Layout.Split, SplitOf, Sound;
      LinkedAt(mem[..], head, tail, size, blocks, k);
      SplitPlaced(blocks, k, n);
      var h := HeaderAt(mem[..], block);
      if h.size <= HSIZE || h.state != FREE {
        NothingWritten(mem[..], blocks);
        return NULL;
      }
      ghost var m0 := mem[..];
      var newBlock := Wrap(block + HSIZE + n);
      CreateBlockAt(newBlock, block, h.next, Wrap(h.size - n - HSIZE), FREE);
      ghost var m1 := mem[..];
      if block == tail {
        tail := newBlock;
      } else {
        SetField(mem, h.next, PREV_AT, newBlock);
      }
      ghost var m2 := mem[..];
      SetField(mem, block, NEXT_AT, newBlock);
      ghost var m3 := mem[..];
      SetField(mem, block, SIZE_AT, n);
      RewriteAgain(m2, m3, mem[..], block, HeaderAt(m3, block), HeaderAt(mem[..], block));
      assert SplitWrites(m0, m1, m2, mem[..], blocks, k, n);
      SplitKeeps(m0, m1, m2, mem[..], blocks, k, n);
      SplitIsSplitOf(blocks, k, n);
      SplitLinks(m0, m1, m2, mem[..], head, old(tail), blocks, Layout.Split(blocks, k, n), k, n);
      size := size + 1;
      blocks := Layout.Split(blocks, k, n);
      r := block;
    }

    /** create_block_at */
    method CreateBlockAt(address: u32, prev: u32, next: u32, n: u32, state: u32)
      requires address + HSIZE <= mem.Length
      modifies mem
      ensures Rewrites(old(mem[..]), mem[..], address, Header(n, state, next, prev))
    {
      SetField(mem, address, PREV_AT, prev);
      SetField(mem, address, NEXT_AT, next);
      SetField(mem, address, SIZE_AT, n);
      SetField(mem, address, STATE_AT, state);
    }

    /** memory_merge */
    method Merge(block: u32, ghost k: nat) returns (r: u32)
      requires Linked() && k < |blocks| && block == blocks[k].addr
      modifies this`tail, this`size, this`blocks, mem
      ensures Linked()
      ensures blocks == MergeAt(old(blocks), k)
      ensures r == if Adjacent(old(blocks), k) then block else NULL
      ensures PayloadsKept(old(mem[..]), mem[..], old(blocks))
    {
      hide HeaderAt, SameOutside, PayloadsKept, Placed, Memory.Linked, Layout.Merge, MergeOf;
      LinkedAt(mem[..], head, tail, size, blocks, k);
      NothingWritten(mem[..], blocks);
      var h := HeaderAt(mem[..], block);
      if block == tail || h.state != FREE {
        return NULL;
      }
      LinkedAt(mem[..], head, tail, size, blocks, k + 1);
      var next := HeaderAt(mem[..], h.next);
      if next.state != FREE || Wrap(block + h.size + HSIZE) != h.next {
        return NULL;
      }
      MergeIsMergeOf(blocks, k);
      ghost var m0 := mem[..];
      if h.next == tail {
        tail := block;
      }
      size := size - 1;
      SetField(mem, block, SIZE_AT, Wrap(h.size + next.size + HSIZE));
      ghost var m := mem[..];
      SetField(mem, block, NEXT_AT, next.next);
      RewriteAgain(m0, m, mem[..], block, HeaderAt(m, block), HeaderAt(mem[..], block));
      ghost var m1 := mem[..];
      SetField(mem, next.next, PREV_AT, block);
      assert MergeWrites(m0, m1, mem[..], blocks, k);
      MergeKeeps(m0, m1, mem[..], blocks, k);
      MergeLinks(m0, m1, mem[..], head, old(tail), blocks, Layout.Merge(blocks, k), k);
      blocks := Layout.Merge(blocks, k);
      r := block;
    }

    /** The list surgery of free_pages. */
    method Unlink(block: u32, ghost k: nat)
      requires Linked() && k < |blocks| && block == blocks[k].addr
      modifies this`head, this`tail, this`size, this`blocks, mem
      ensures Linked()
      ensures blocks == Drop(old(blocks), k)
      ensures PayloadsKept(old(mem[..]), mem[..], old(blocks))
    {
      hide HeaderAt, SameOutside, PayloadsKept, Placed, Memory.Linked, Drop, DropOf;
      LinkedAt(mem[..], head, tail, size, blocks, k);
      DropIsDropOf(blocks, k);
      var h := HeaderAt(mem[..], block);
      ghost var m0 := mem[..];
      if block == head {
        head := h.next;
      } else {
        SetField(mem, h.prev, NEXT_AT, h.next);
      }
      ghost var m1 := mem[..];
      if block == tail {
        tail := h.prev;
      } else {
        SetField(mem, h.next, PREV_AT, h.prev);
      }
      assert UnlinkWrites(m0, m1, mem[..], blocks, k);
      UnlinkKeeps(m0, m1, mem[..], blocks, k);
      UnlinkLinks(m0, m1, mem[..], old(head), old(tail), blocks, Drop(blocks, k), k);
      size := size - 1;
      blocks := Drop(blocks, k);
    }

    /** get_pages; None is the panic in page_claim. */
    method GetPages(n: u32) returns (r: Option<u32>)
      requires Valid() && n + HSIZE < TOP
      modifies this`head, this`tail, this`size, this`blocks, mem, pages.memoryMap
      ensures Valid() && lost == old(lost)
      ensures PayloadsKept(old(mem[..]), mem[..], old(blocks))
      ensures 0 < PageCountFor(n)
      ensures match FindRun(old(pages.Pages()), PageCountFor(n), 0)
              case None => r == None && Contents() == old(Contents()) && mem[..] == old(mem[..])
              case Some(i) =>
                r == Some(FreshBlock(i, PageCountFor(n)).addr) &&
                  Contents() == Claimed(old(Contents()), i, PageCountFor(n))
    {
      hide HeaderAt, SameOutside, PayloadsKept, Placed, Memory.Linked, Sound, Ledger, Unpack, FindRun, SetPages,
           RunFree;
      PageCountCovers(n);
      var count := Wrap(n + HSIZE) / PAGE_SIZE;
      count := count + if Wrap(n + HSIZE) % PAGE_SIZE > 0 then 1 else 0;
      ghost var before := Contents();
      NothingWritten(mem[..], blocks);
      var claimed := pages.Claim(count);
      if claimed == None {
        return None;
      }
      var address := claimed.value;
      ghost var i := FindRun(before.pages, count, 0).value;
      ghost var b := FreshBlock(i, count);
      ClaimInv(before, i, count);
      ListEnds(mem[..], head, tail, size, blocks);
      ClaimPlaced(before, i, count);
      ghost var m0 := mem[..];
      CreateBlockAt(address, tail, NULL, Wrap(count * PAGE_SIZE - HSIZE), FREE);
      ghost var m1 := mem[..];
      if size == 0 {
        head := address;
      } else {
        SetField(mem, tail, NEXT_AT, address);
      }
      assert AppendWrites(m0, m1, mem[..], blocks, b);
      AppendKeeps(m0, m1, mem[..], blocks, b);
      AppendLinks(m0, m1, mem[..], old(head), tail, blocks, b);
      tail := address;
      size := size + 1;
      blocks := blocks + [b];
      r := Some(address);
    }
  
    /** __kmalloc: the first free block that fits, or new pages; cut to size and marked used. */
    method Kmalloc(n: u32, filename: u32, line: u32) returns (r: Outcome)
      requires Valid()
      modifies this`head, this`tail, this`size, this`blocks, mem, pages.memoryMap
      ensures Valid() && lost == old(lost)
      ensures PayloadsKept(old(mem[..]), mem[..], old(blocks))
      ensures (exists j :: 0 <= j < |old(blocks)| && old(blocks)[j].free && n <= old(blocks)[j].size) <==>
              r.Done? && pages.Pages() == old(pages.Pages())
      ensures r.Done? && pages.Pages() == old(pages.Pages()) ==>
                exists i :: && 0 <= i < |old(blocks)| && r.ptr == old(blocks)[i].Payload()
                            && old(blocks)[i].free && n <= old(blocks)[i].size
                            && forall j :: 0 <= j < i ==> !(old(blocks)[j].free && n <= old(blocks)[j].size)
      ensures match Malloc(old(Contents()), n)
              case Got(t, k) => Contents() == t && r == Done(t.blocks[k].Payload())
              case NoPages => Contents() == old(Contents()) && r == Panic
              case Overflow => Contents() == old(Contents()) && r == Wraps
    {
      hide HeaderAt, SameOutside, PayloadsKept, Placed, Memory.Linked, Sound, Ledger, Unpack, Carve, FindRun,
           LowReserved;
      ghost var before, m0 := Contents(), mem[..];
      MallocIsFirstFit(before, n);
      NothingWritten(mem[..], blocks);
      ListEnds(mem[..], head, tail, size, blocks);
      var current := head;
      var found := NULL;
      var i := 0;
      while i < size
        invariant 0 <= i <= size == |blocks| && found == NULL && current == AddrAt(blocks, i)
        invariant forall j :: 0 <= j < i ==> !Fits(blocks[j], n)
        invariant mem[..] == m0
        modifies {}
      {
        LinkedAt(mem[..], head, tail, size, blocks, i);
        var h := HeaderAt(mem[..], current);
        if h.state == FREE && h.size >= n {
          found := current;
          break;
        }
        current := h.next;
        i := i + 1;
      }
      ghost var k := i;
      assert FirstFit(blocks, n, 0) == k;
      if found == NULL {
        if n + HSIZE >= TOP {
          return Wraps;
        }
        var page := GetPages(n);
        if page == None {
          return Panic;
        }
        found := page.value;
      }
      assert Malloc(before, n).Got? && Contents() == Grown(before, n) && found == blocks[k].addr;
      ghost var m1, grown := mem[..], blocks;
      CarveAt(found, n, k, filename, line);
      GrownFits(before, n);
      CarveLive(grown, k, n);
      KeptByUsed(m1, mem[..], before.blocks, grown);
      KeptTrans(m0, m1, mem[..], before.blocks);
      r := Done(found + HSIZE);
    }

    /** The second half of __kmalloc: cut the block found to n bytes and mark it used. */
    method CarveAt(found: u32, n: u32, ghost k: nat, filename: u32, line: u32)
      requires Valid() && k < |blocks| && found == blocks[k].addr && Fits(blocks[k], n)
      modifies this`tail, this`size, this`blocks, mem
      ensures Valid() && Contents() == old(Contents()).(blocks := Carve(old(blocks), k, n))
      ensures PayloadsKept(old(mem[..]), mem[..], old(blocks))
    {
      hide HeaderAt, SameOutside, PayloadsKept, Placed, Memory.Linked, Sound, Ledger, Unpack, Layout.Split, LowReserved;
      ghost var before, m0 := Contents(), mem[..];
      CarveInv(before, k, n);
      LinkedAt(mem[..], head, tail, size, blocks, k);
      NothingWritten(mem[..], blocks);
      if HeaderAt(mem[..], found).size - n - HSIZE > 0 {
        var block := Split(found, n, k);
        SplitIsSplitOf(before.blocks, k, n);
        SplitLive(before.blocks, k, n);
      }
      ghost var m1, bs := mem[..], blocks;
      LinkedAt(mem[..], head, tail, size, blocks, k);
      SetField(mem, found, STATE_AT, USED);
      MarkLinks(m1, mem[..], head, tail, bs, k, false);
      blocks := Mark(blocks, k, false);
      ghost var m2 := mem[..];
      SetField(mem, found, FILENAME_AT, filename);
      DebugFieldLinks(m2, mem[..], head, tail, blocks, k);
      ghost var m3 := mem[..];
      SetField(mem, found, LINE_AT, line);
      DebugFieldLinks(m3, mem[..], head, tail, blocks, k);
      KeptByUsed(m1, m2, before.blocks, bs);
      MarkUsedLive(bs, k);
      KeptByUsed(m2, m3, before.blocks, blocks);
      KeptByUsed(m3, mem[..], before.blocks, blocks);
      KeptTrans(m0, m1, m2, before.blocks);
      KeptTrans(m0, m2, m3, before.blocks);
      KeptTrans(m0, m3, mem[..], before.blocks);
    }
  
    /** __kcalloc: the payload starts out as zeros. */
    method Kcalloc(n: u32, filename: u32, line: u32) returns (r: Outcome)
      requires Valid()
      modifies this`head, this`tail, this`size, this`blocks, mem, pages.memoryMap
      ensures Valid() && lost == old(lost)
      ensures PayloadsKept(old(mem[..]), mem[..], old(blocks))
      ensures match Malloc(old(Contents()), n)
              case Got(t, k) =>
                && Contents() == t && r == Done(t.blocks[k].Payload())
                && forall x :: r.ptr <= x < r.ptr + n && x < mem.Length ==> mem[x] == 0
              case NoPages => Contents() == old(Contents()) && r == Panic
              case Overflow => Contents() == old(Contents()) && r == Wraps
    {
      hide HeaderAt, PayloadsKept, Placed, Memory.Linked, Sound, Ledger, Unpack, Malloc, LowReserved, Live;
      ghost var before, m0 := Contents(), mem[..];
      r := Kmalloc(n, filename, line);
      if !r.Done? {
        return;
      }
      var ptr := r.ptr;
      ghost var m1 := mem[..];
      ghost var k := Malloc(before, n).index;
      MallocRefines(before, n);
      LinkedAt(m1, head, tail, size, blocks, k);
      var i := 0;
      while i < n
        invariant 0 <= i <= n && Contents() == Malloc(before, n).state
        invariant SameOutside(m1, mem[..], ptr, ptr + n)
        invariant forall x :: ptr <= x < ptr + i ==> mem[x] == 0
        modifies mem
      {
        mem[ptr + i] := 0;
        i := i + 1;
      }
      PayloadWrite(m1, mem[..], head, tail, blocks, k);
      MallocUsed(before, n);
      NewPayloadKeeps(m0, m1, mem[..], before.blocks, blocks, k);
    }

    /** free_pages, where its arithmetic does not wrap. */
    method FreePages(block: u32, ghost k: nat)
      requires Valid() && k < |blocks| && block == blocks[k].addr && blocks[k].free
      requires !Unsafe(blocks[k])
      modifies this, mem, pages.memoryMap
      ensures Valid() && Contents() == Release(old(Contents()), k)
      ensures PayloadsKept(old(mem[..]), mem[..], old(blocks))
    {
      hide HeaderAt, SameOutside, PayloadsKept, Placed, Memory.Linked, Sound, Ledger, Unpack, LowReserved,
           Layout.Split, Drop, Release, SetPages;
      ghost var before, m0, b := Contents(), mem[..], blocks[k];
      NothingWritten(mem[..], blocks);
      LinkedAt(mem[..], head, tail, size, blocks, k);
      ReleaseSound(before, k);
      ReleaseLedger(before, k);
      ReleaseByDrop(before, k);
      SafeRelease(b);
      var pageStart: int := block;
      if block % PAGE_SIZE != 0 {
        pageStart := Wrap(block + PAGE_SIZE - block % PAGE_SIZE);
      }
      var blockEnd := Wrap(block + HeaderAt(mem[..], block).size + HSIZE);
      var len := Wrap(blockEnd - pageStart);
      assert pageStart == PageStart(b) && blockEnd == BlockEnd(b) && len == ReleaseLen(b);
      assert Releasable(b) ==> b.addr <= pageStart && Wrap(pageStart + len) == b.End() && HSIZE < b.size;
      hide PageStart, BlockEnd, ReleaseLen, FrontSize, Wrap, RoundUp;
      if len >= PAGE_SIZE && blockEnd > pageStart {
        TakeOut(block, pageStart, k);
        pages.SetRange(pageStart, len, PFree);
        lost := lost + b.End() % PAGE_SIZE;
      }
    }

    /** The list part of free_pages: what lies before pageStart stays as a free block of its own,
        the rest leaves the list. */
    method TakeOut(block0: u32, pageStart: u32, ghost k: nat)
      requires Linked() && k < |blocks| && block0 == blocks[k].addr && blocks[k].free
      requires block0 < pageStart ==> block0 + HSIZE <= pageStart && pageStart + HSIZE <= blocks[k].End()
      requires HSIZE < blocks[k].size && blocks[k].End() < TOP
      modifies this`head, this`tail, this`size, this`blocks, mem
      ensures Linked()
      ensures blocks == if block0 < pageStart then Drop(Layout.Split(old(blocks), k, pageStart - block0 - HSIZE), k + 1)
                        else Drop(old(blocks), k)
      ensures PayloadsKept(old(mem[..]), mem[..], old(blocks))
    {
      hide HeaderAt, SameOutside, PayloadsKept, Placed, Memory.Linked, Layout.Split, Drop;
      ghost var m0, bs := mem[..], blocks;
      NothingWritten(m0, bs);
      var block := block0;
      ghost var j := k;
      if block < pageStart {
        ghost var n := pageStart - block - HSIZE;
        var front := Split(block, Wrap(pageStart - block - HSIZE), k);
        SplitIsSplitOf(bs, k, n);
        SplitLive(bs, k, n);
        LinkedAt(mem[..], head, tail, size, blocks, k);
        j := k + 1;
        block := HeaderAt(mem[..], front).next;
      }
      ghost var m1, cut := mem[..], blocks;
      Unlink(block, j);
      KeptByUsed(m1, mem[..], bs, cut);
      KeptTrans(m0, m1, mem[..], bs);
    }

    /** kfree. A pointer to no listed block is refused as well, as long as the word where a state
        would be does not read as used: so it is with a block merged into another since, until
        that word is written over. */
    method Kfree(ptr: u32) returns (r: FreeOutcome)
      requires Valid()
      requires Find(blocks, ptr - HSIZE) < |blocks| || Refused(mem[..], ptr)
      modifies this, mem, pages.memoryMap
      ensures Valid()
      ensures var k := Find(old(blocks), ptr - HSIZE);
              match if k < |old(blocks)| then Free(old(Contents()), k) else NotUsed
              case Freed(t) =>
                r == Returned && Contents() == t && OthersKept(old(mem[..]), mem[..], old(blocks), ptr)
              case NotUsed => r == Reported && Contents() == old(Contents()) && mem[..] == old(mem[..])
              case Wrapped => r == FreeWraps && OthersKept(old(mem[..]), mem[..], old(blocks), ptr)
    {
      hide HeaderAt, SameOutside, OthersKept, Placed, Memory.Linked, Sound, Ledger, Unpack, LowReserved;
      hide Joined, Release;
      ghost var k := Find(blocks, ptr - HSIZE);
      ListedState(mem[..], head, tail, size, blocks, ptr);
      var state := Load(mem[..], Wrap(ptr - HSIZE + STATE_AT));
      if state != USED {
        return Reported;
      }
      r := FreeUsed(ptr - HSIZE, k);
    }

    /** The rest of kfree, once the block is known to be in use. */
    method FreeUsed(block: u32, ghost k: nat) returns (r: FreeOutcome)
      requires Valid() && k < |blocks| && block == blocks[k].addr && !blocks[k].free
      modifies this, mem, pages.memoryMap
      ensures Valid() && OthersKept(old(mem[..]), mem[..], old(blocks), block + HSIZE)
      ensures match Free(old(Contents()), k)
              case Freed(t) => r == Returned && Contents() == t
              case NotUsed => false
              case Wrapped => r == FreeWraps
    {
      hide HeaderAt, SameOutside, PayloadsKept, OthersKept, Placed, Memory.Linked, Sound, Ledger, Unpack, LowReserved;
      hide MergeAt, Release;
      ghost var before, m0, bs := Contents(), mem[..], blocks;
      LinkedAt(m0, head, tail, size, blocks, k);
      SetField(mem, block, STATE_AT, FREE);
      MarkLinks(m0, mem[..], head, tail, blocks, k, true);
      blocks := Mark(blocks, k, true);
      ghost var m1, marked := mem[..], blocks;
      var merged := MergeNeighbours(block, k);
      ghost var m2, j := mem[..], Joined(bs, k).1;
      JoinedKeeps(before, k);
      JoinedCovers(bs, k);
      MarkFreeLive(bs, k);
      FreedKeeps(m0, m1, m2, bs, marked, k);
      LinkedAt(m2, head, tail, size, blocks, j);
      if Unsafe(Block(merged, HeaderAt(mem[..], merged).size, true)) {
        return FreeWraps;
      }
      FreePages(merged, j);
      KeptByUsed(m2, mem[..], marked, Joined(bs, k).0);
      KeptTrans(m1, m2, mem[..], marked);
      FreedKeeps(m0, m1, mem[..], bs, marked, k);
      r := Returned;
    }

    /** The merging part of kfree: with the successor, then with the predecessor. */
    method MergeNeighbours(block0: u32, ghost k: nat) returns (block: u32)
      requires Linked() && k < |blocks| && block0 == blocks[k].addr && blocks[k].free
      modifies this`tail, this`size, this`blocks, mem
      ensures Linked() && blocks == MergeAt(MergeAt(old(blocks), k), k - 1)
      ensures var j := if |blocks| < |MergeAt(old(blocks), k)| then k - 1 else k;
              j < |blocks| && block == blocks[j].addr
      ensures PayloadsKept(old(mem[..]), mem[..], old(blocks))
    {
      hide HeaderAt, SameOutside, PayloadsKept, Placed, Memory.Linked, MergeAt;
      ghost var m0, bs := mem[..], blocks;
      LinkedAt(m0, head, tail, size, blocks, k);
      NothingWritten(m0, blocks);
      MergeAtShape(bs, k);
      block := block0;
      var merged := NULL;
      if block != tail && HeaderAt(mem[..], HeaderAt(mem[..], block).next).state == FREE {
        merged := Merge(block, k);
      }
      if merged != NULL {
        block := merged;
      }
      ghost var m1, forward := mem[..], blocks;
      MergeAtUsed(bs, k);
      assert forward == MergeAt(bs, k) && k < |forward| && forward[k].addr == block && forward[k].free;
      LinkedAt(m1, head, tail, size, blocks, k);
      NothingWritten(m1, blocks);
      MergeAtShape(forward, k - 1);
      if block != head && HeaderAt(mem[..], HeaderAt(mem[..], block).prev).state == FREE {
        merged := Merge(HeaderAt(mem[..], block).prev, k - 1);
      }
      if merged != NULL {
        block := merged;
      }
      KeptByUsed(m1, mem[..], bs, forward);
      KeptTrans(m0, m1, mem[..], bs);
    }
  
    /** __krealloc of a pointer to a listed block: a large enough one is returned as it is, otherwise
        the payload moves. Nothing is asked of the block's state, and the source does not look. */
    method Krealloc(ptr: u32, n: u32, filename: u32, line: u32) returns (r: Outcome)
      requires Valid()
      requires ptr == NULL || Find(blocks, ptr - HSIZE) < |blocks|
      modifies this, mem, pages.memoryMap
      ensures Valid()
      ensures ptr == NULL ==>
                match Malloc(old(Contents()), n)
                case Got(t, k) => Contents() == t && r == Done(t.blocks[k].Payload())
                case NoPages => Contents() == old(Contents()) && r == Panic
                case Overflow => Contents() == old(Contents()) && r == Wraps
      ensures ptr != NULL ==>
                var k := Find(old(blocks), ptr - HSIZE);
                match Realloc(old(Contents()), k, n)
                case Resized(t, j) =>
                  && Contents() == t && j < |t.blocks| && r == Done(t.blocks[j].Payload())
                  && (!old(blocks)[k].free ==> BytesMoved(old(mem[..]), mem[..], ptr, r.ptr, old(blocks)[k].size))
                case NotAllocated(why) => Contents() == old(Contents()) && r == if why.NoPages? then Panic else Wraps
                case NotReleased => r == Wraps
      ensures OthersKept(old(mem[..]), mem[..], old(blocks), ptr)
    {
      hide HeaderAt, SameOutside, PayloadsKept, OthersKept, Placed, Memory.Linked, Sound, Ledger, Unpack, LowReserved;
      hide Malloc, Free, Live, UsedBlocks, Inv, BytesMoved;
      ghost var before, m0, bs := Contents(), mem[..], blocks;
      ListEnds(m0, head, tail, size, blocks);
      NothingWritten(m0, bs);
      KeptMeansOthers(m0, m0, bs, ptr);
      if ptr == NULL {
        r := Kmalloc(n, filename, line);
        KeptMeansOthers(m0, mem[..], bs, ptr);
        return;
      }
      var oldBlock := ptr - HSIZE;
      ghost var k := Find(blocks, oldBlock);
      LinkedAt(m0, head, tail, size, blocks, k);
      if HeaderAt(mem[..], oldBlock).size >= n {
        StayedPut(m0, ptr, bs[k].size);
        return Done(ptr);
      }
      r := Kmalloc(n, filename, line);
      if !r.Done? {
        KeptMeansOthers(m0, mem[..], bs, ptr);
        return;
      }
      ghost var m1, r1 := mem[..], blocks;
      ghost var j := Malloc(before, n).index;
      MallocRefines(before, n);
      MallocUsed(before, n);
      MallocKeepsBlock(before, n, k);
      ghost var k' := Find(blocks, oldBlock);
      LinkedAt(m1, head, tail, size, blocks, j);
      CopyPayload(r.ptr, oldBlock, k', j);
      ghost var m2 := mem[..];
      var freed := Kfree(ptr);
      if freed == Reported {
        NewPayloadKeeps(m0, m1, m2, bs, r1, j);
        KeptMeansOthers(m0, m2, bs, ptr);
      } else {
        MovedKeeps(m0, m1, m2, mem[..], bs, r1, k, k', j);
      }
      if freed == FreeWraps {
        return Wraps;
      }
      ReallocRefines(before, k, n);
    }

    /** The copy loop of __krealloc, from the payload of block k to that of the larger block j. */
    method CopyPayload(newPtr: u32, oldBlock: u32, ghost k: nat, ghost j: nat)
      requires Valid() && k < |blocks| && j < |blocks| && k != j && !blocks[j].free
      requires oldBlock == blocks[k].addr && newPtr == blocks[j].Payload() && blocks[k].size <= blocks[j].size
      modifies mem
      ensures Valid() && OthersKept(old(mem[..]), mem[..], blocks, newPtr)
      ensures BytesMoved(old(mem[..]), mem[..], blocks[k].Payload(), newPtr, blocks[k].size)
    {
      hide HeaderAt, OthersKept, Placed, Memory.Linked, Sound, Ledger, Unpack, LowReserved, BytesMoved;
      ghost var m1 := mem[..];
      var oldPtr := oldBlock + HSIZE;
      LinkedAt(m1, head, tail, size, blocks, k);
      LinkedAt(m1, head, tail, size, blocks, j);
      PlacedApart(blocks, k, j);
      CopyNone(m1, oldPtr, newPtr);
      var i := 0;
      while i < HeaderAt(mem[..], oldBlock).size
        invariant 0 <= i <= blocks[k].size == HeaderAt(mem[..], oldBlock).size
        invariant SameOutside(m1, mem[..], newPtr, newPtr + blocks[k].size)
        invariant BytesMoved(m1, mem[..], oldPtr, newPtr, i)
        modifies mem
      {
        CopyOne(m1, mem[..], oldPtr, newPtr, i);
        mem[newPtr + i] := mem[oldPtr + i];
        HeaderFrame(m1, mem[..], newPtr, newPtr + blocks[k].size, oldBlock);
        i := i + 1;
      }
      PayloadWrite(m1, mem[..], head, tail, blocks, j);
    }

    /** One call, as a step of the model of runs. */
    method Serve(call: Call) returns (ok: bool)
      requires Valid() && Step(Contents(), call) != Halted(UnknownBlock)
      requires call.Kfree? ==> (call.refused <==> Refused(mem[..], call.ptr))
      modifies this, mem, pages.memoryMap
      ensures Valid() && OthersKept(old(mem[..]), mem[..], old(blocks), Named(call))
      ensures match Step(old(Contents()), call)
              case Next(t) => ok && Contents() == t
              case Halted(why) => !ok && (why != ReleaseWraps ==> Contents() == old(Contents()))
    {
      hide OthersKept, PayloadsKept, Memory.Linked, Inv, Malloc, Free, Realloc, Find, Refused, BytesMoved;
      ghost var m0, bs := mem[..], blocks;
      match call {
        case Kmalloc(n) =>
          var r := Kmalloc(n, 0, 0);
          ok := r.Done?;
          KeptMeansOthers(m0, mem[..], bs, Named(call));
        case Kcalloc(n) =>
          var r := Kcalloc(n, 0, 0);
          ok := r.Done?;
          KeptMeansOthers(m0, mem[..], bs, Named(call));
        case Krealloc(ptr, n) =>
          if ptr != NULL { ReallocFails(Contents(), Find(blocks, ptr - HSIZE), n); }
          var r := Krealloc(ptr, n, 0, 0);
          ok := r.Done?;
        case Kfree(ptr, refused) =>
          NothingWritten(m0, bs);
          KeptMeansOthers(m0, m0, bs, ptr);
          var r := Kfree(ptr);
          ok := r != FreeWraps;
      }
    }

    /** A run of calls, as far as it comes back; it stops before a kfree for which memory does not
        read as the call says. The heap goes through the states of the run, and a payload that was
        live at the start and is named by no call keeps its place, its size and its bytes. */
    method Perform(calls: seq<Call>) returns (done: nat, asRead: bool)
      requires Valid() && Healthy(Contents()) && Run(Contents(), calls).halt != Some(UnknownBlock)
      modifies this, mem, pages.memoryMap
      ensures Valid() && BytesKept(old(mem[..]), mem[..], Unnamed(old(blocks), calls))
      ensures var r := Run(old(Contents()), calls);
              && done <= r.done
              && (asRead ==> done == r.done && (r.halt != Some(ReleaseWraps) ==> Contents() == r.state))
              && (!asRead ==>
                    && done < |calls| && calls[done].Kfree?
                    && Run(Contents(), calls[done..]) == r.(done := r.done - done))
      ensures (asRead ==> Run(old(Contents()), calls).halt != Some(ReleaseWraps)) ==>
                Healthy(Contents()) && Unnamed(old(blocks), calls) <= UsedBlocks(blocks)
    {
      hide BytesKept, OthersKept, Memory.Linked, Inv, Healthy, Step, Refused, UsedBlocks;
      ghost var goal, m0, held := Run(Contents(), calls), mem[..], Unnamed(blocks, calls);
      UnnamedUsed(blocks, calls);
      NothingLost(m0, held);
      done := 0;
      while done < |calls|
        invariant 0 <= done <= |calls| && done <= goal.done && Valid() && Healthy(Contents())
        invariant Run(Contents(), calls[done..]) == goal.(done := goal.done - done)
        invariant held <= UsedBlocks(blocks) && BytesKept(m0, mem[..], held)
      {
        var call := calls[done];
        if call.Kfree? && call.refused != Refused(mem[..], call.ptr) {
          return done, false;
        }
        ghost var s, m1 := Contents(), mem[..];
        NotNamed(old(blocks), calls, done);
        var ok := Serve(call);
        BytesStillKept(m0, m1, mem[..], s.blocks, held, Named(call));
        if !ok {
          return done, true;
        }
        StepKeeps(s, call);
        forall b | b in held ensures b in UsedBlocks(blocks) { UnnamedStays(s, call, b); }
        assert calls[done..][1..] == calls[done + 1..];
        done := done + 1;
      }
      asRead := true;
    }

    /** kmalloc and then kfree, in memory: from a trimmed and coalesced heap, away from the end of
        the address space, every link and every header is back, and no live payload has changed. */
    method KmallocThenKfree(n: u32, filename: u32, line: u32) returns (r: Outcome)
      requires Valid() && Trimmed(blocks) && Coalesced(blocks)
      requires Malloc(Contents(), n).Got? && ClearOfTop(Contents(), n)
      modifies this, mem, pages.memoryMap
      ensures Valid() && Contents() == old(Contents()) && PayloadsKept(old(mem[..]), mem[..], blocks)
      ensures head == old(head) && tail == old(tail) && size == old(size)
      ensures forall b :: b in blocks ==> HeaderAt(mem[..], b.addr) == HeaderAt(old(mem[..]), b.addr)
    {
      hide HeaderAt, OthersKept, PayloadsKept, Memory.Linked, Inv, Malloc, Free, Live, UsedBlocks, ClearOfTop;
      ghost var s, m0 := Contents(), mem[..];
      FreeUndoesMalloc(s, n);
      MallocRefines(s, n);
      MallocUsed(s, n);
      r := Kmalloc(n, filename, line);
      ghost var k, m1, r1 := Malloc(s, n).index, mem[..], blocks;
      LinkedAt(m1, head, tail, size, r1, k);
      FoundAt(r1, k);
      var freed := Kfree(r.ptr);
      NewPayloadKeeps(m0, m1, mem[..], s.blocks, r1, k);
      SameList(m0, old(head), old(tail), old(size), mem[..], head, tail, size, blocks);
    }
  }

  // ----- payload bytes over a run of calls

  /** The blocks in use whose payload no call names. */
  ghost function Unnamed(bs: seq<Block>, calls: seq<Call>): set<Block>
  {
    set b | b in UsedBlocks(bs) && forall c :: c in calls ==> Named(c) != b.Payload()
  }

  ghost predicate BytesKept(m: seq<u8>, m': seq<u8>, held: set<Block>)
  {
    |m| == |m'| && forall b, x :: b in held && b.Payload() <= x < b.End() && x < |m| ==> m'[x] == m[x]
  }

  lemma {:induction false} BytesStillKept(m0: seq<u8>, m1: seq<u8>, m2: seq<u8>, bs: seq<Block>, held: set<Block>,
                                          p: int)
    requires BytesKept(m0, m1, held) && OthersKept(m1, m2, bs, p)
    requires forall b :: b in held ==> b in UsedBlocks(bs) && b.Payload() != p
    ensures BytesKept(m0, m2, held)
  {
  }

  lemma {:induction false} UnnamedUsed(bs: seq<Block>, calls: seq<Call>)
    ensures Unnamed(bs, calls) <= UsedBlocks(bs)
  {
  }

  lemma {:induction false} NotNamed(bs: seq<Block>, calls: seq<Call>, i: nat)
    requires i < |calls|
    ensures forall b :: b in Unnamed(bs, calls) ==> b.Payload() != Named(calls[i])
  {
  }

  lemma NothingLost(m: seq<u8>, held: set<Block>)
    ensures BytesKept(m, m, held)
  {
  }

  lemma {:induction false} FoundAt(bs: seq<Block>, k: nat)
    requires Disjoint(bs) && k < |bs|
    ensures Find(bs, bs[k].addr) == k
  {
    AddrsDiffer(bs);
  }

  /** The memory set-up of kernel_main: the page map first, then an empty heap over it. */
  method StartKernel(mem: array<u8>, entries: seq<MapEntry>) returns (h: Heap)
    requires mem.Length == TOP
    ensures h.Valid() && h.blocks == [] && h.lost == 0 && Healthy(h.Contents())
  {
    var pages := new PageMap(entries);
    ghost var s := State([], pages.Pages(), 0);
    assert pages.memoryMap != mem as object;
    BootHealthy(s);
    h := new Heap(mem, pages);
  }
}
