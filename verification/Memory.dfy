/** Byte memory with block headers stored in it, little-endian words at fixed offsets. */
module Memory {
  import opened Machine
  import opened Layout

  const SIZE_AT := 0
  const STATE_AT := 4
  const NEXT_AT := 8
  const PREV_AT := 12
  const FILENAME_AT := 16
  const LINE_AT := 20

  const NULL: u32 := 0
  const FREE: u32 := 0
  const USED: u32 := 1

  function Load(m: seq<u8>, a: nat): (r: u32)
    requires a + 4 <= |m|
  {
    var b0: int, b1: int, b2: int, b3: int := m[a], m[a + 1], m[a + 2], m[a + 3];
    b0 + 0x100 * b1 + 0x1_0000 * b2 + 0x100_0000 * b3
  }

  function Store(m: seq<u8>, a: nat, v: u32): (r: seq<u8>)
    requires a + 4 <= |m|
  {
    m[a := v % 0x100][a + 1 := v / 0x100 % 0x100][a + 2 := v / 0x1_0000 % 0x100][a + 3 := v / 0x100_0000]
  }

  lemma LoadStore(m: seq<u8>, a: nat, v: u32)
    requires a + 4 <= |m|
    ensures Load(Store(m, a, v), a) == v
  {
    Digits(v);
  }

  lemma Digits(v: u32)
    ensures v == v % 0x100 + 0x100 * (v / 0x100 % 0x100) + 0x1_0000 * (v / 0x1_0000 % 0x100) +
            0x100_0000 * (v / 0x100_0000)
  {
  }

  /** The four fields of a header that the allocator reads back. */
  datatype Header = Header(size: int, state: int, next: int, prev: int)

  function HeaderAt(m: seq<u8>, a: int): (h: Header)
    ensures 0 <= h.size < TOP && 0 <= h.next < TOP && 0 <= h.prev < TOP
  {
    if 0 <= a && a + HSIZE <= |m|
    then Header(Load(m, a + SIZE_AT), Load(m, a + STATE_AT), Load(m, a + NEXT_AT), Load(m, a + PREV_AT))
    else Header(0, 0, 0, 0)
  }

  /** What kfree of ptr looks at: the word where the state of a block would be is there and does not
      read as used. The address is computed in 32 bits, so a null pointer has one too. */
  predicate Refused(m: seq<u8>, ptr: u32)
  {
    var at := Wrap(ptr - HSIZE + STATE_AT);
    at + 4 <= |m| && Load(m, at) != USED
  }

  function WithWord(h: Header, offset: nat, v: int): Header
  {
    if offset == SIZE_AT then h.(size := v)
    else if offset == STATE_AT then h.(state := v)
    else if offset == NEXT_AT then h.(next := v)
    else if offset == PREV_AT then h.(prev := v)
    else h
  }

  ghost predicate SameOutside(m: seq<u8>, m': seq<u8>, lo: int, hi: int)
  {
    |m| == |m'| && forall x :: 0 <= x < |m| && !(lo <= x < hi) ==> m'[x] == m[x]
  }

  /** The header at a becomes h, and nothing outside it changes. */
  ghost predicate Rewrites(m: seq<u8>, m': seq<u8>, a: int, h: Header)
  {
    SameOutside(m, m', a, a + HSIZE) && HeaderAt(m', a) == h
  }

  lemma RewriteAgain(m: seq<u8>, m': seq<u8>, m'': seq<u8>, a: int, h: Header, h': Header)
    requires Rewrites(m, m', a, h) && Rewrites(m', m'', a, h')
    ensures Rewrites(m, m'', a, h')
  {
  }

  lemma HeaderFrame(m: seq<u8>, m': seq<u8>, lo: int, hi: int, b: nat)
    requires SameOutside(m, m', lo, hi) && b + HSIZE <= |m| && (b + HSIZE <= lo || hi <= b)
    ensures HeaderAt(m', b) == HeaderAt(m, b)
  {
  }

  /** A store to one field of a header changes that field, and no other header and no byte
      outside this one. */
  lemma StoreField(m: seq<u8>, a: nat, offset: nat, v: u32)
    requires a + HSIZE <= |m| && offset in {SIZE_AT, STATE_AT, NEXT_AT, PREV_AT, FILENAME_AT, LINE_AT}
    ensures var m' := Store(m, a + offset, v);
            && SameOutside(m, m', a, a + HSIZE)
            && HeaderAt(m', a) == WithWord(HeaderAt(m, a), offset, v)
  {
    LoadStore(m, a + offset, v);
  }

  method StoreWord(mem: array<u8>, a: nat, v: u32)
    requires a + 4 <= mem.Length
    modifies mem
    ensures mem[..] == Store(old(mem[..]), a, v)
  {
    mem[a] := v % 0x100;
    mem[a + 1] := v / 0x100 % 0x100;
    mem[a + 2] := v / 0x1_0000 % 0x100;
    mem[a + 3] := v / 0x100_0000;
  }

  /** One assignment to a field of the header at a. */
  method SetField(mem: array<u8>, a: u32, offset: nat, v: u32)
    requires a + HSIZE <= mem.Length
    requires offset in {SIZE_AT, STATE_AT, NEXT_AT, PREV_AT, FILENAME_AT, LINE_AT}
    modifies mem
    ensures Rewrites(old(mem[..]), mem[..], a, WithWord(HeaderAt(old(mem[..]), a), offset, v))
  {
    StoreField(mem[..], a, offset, v);
    StoreWord(mem, a + offset, v);
  }

  // ----- the linked list in memory

  /** The header address at a list position, NULL before the first and after the last. */
  function AddrAt(bs: seq<Block>, i: int): nat
  {
    if 0 <= i < |bs| then bs[i].addr else NULL
  }

  ghost predicate IsHeader(m: seq<u8>, bs: seq<Block>, i: int)
  {
    && 0 <= i < |bs| && var h := HeaderAt(m, bs[i].addr);
    && h.size == bs[i].size && h.state == (if bs[i].free then FREE else USED)
    && h.next == AddrAt(bs, i + 1) && h.prev == AddrAt(bs, i - 1)
  }

  /** Memory holds the list: every block's header has its size and state, the next and previous
      pointers are each other's inverses along the list, and head, tail and size agree. */
  ghost predicate Linked(m: seq<u8>, head: int, tail: int, size: int, bs: seq<Block>)
  {
    && |m| == TOP && Placed(bs)
    && head == AddrAt(bs, 0) && tail == AddrAt(bs, |bs| - 1) && size == |bs|
    && forall i :: 0 <= i < |bs| ==> IsHeader(m, bs, i)
  }

  /** The header reached from a in i steps along the next pointers. */
  function Hop(m: seq<u8>, a: int, i: nat): int
  {
    if i == 0 then a else HeaderAt(m, Hop(m, a, i - 1)).next
  }

  /** Following next from head reaches every block once, in list order, and then NULL; the
      previous pointer of each leads back to the one before. */
  lemma {:induction false} ListWalk(m: seq<u8>, head: int, tail: int, size: int, bs: seq<Block>, i: nat)
    requires Linked(m, head, tail, size, bs) && i <= |bs|
    ensures Hop(m, head, i) == AddrAt(bs, i)
    ensures i < |bs| ==> HeaderAt(m, Hop(m, head, i)).prev == if i == 0 then NULL else Hop(m, head, i - 1)
    ensures i < |bs| ==> forall j :: 0 <= j < |bs| && j != i ==> bs[j].addr != Hop(m, head, i)
    ensures bs != [] ==> (Hop(m, head, i) == tail <==> i == |bs| - 1)
  {
    HopsTo(m, head, tail, size, bs, i);
    if i < |bs| {
      LinkedAt(m, head, tail, size, bs, i);
      AddrsDiffer(bs);
      if i > 0 { HopsTo(m, head, tail, size, bs, i - 1); }
    } else if i > 0 {
      LinkedAt(m, head, tail, size, bs, i - 1);
    }
    hide HeaderAt, Linked, Placed, Hop;
  }

  lemma {:induction false} HopsTo(m: seq<u8>, head: int, tail: int, size: int, bs: seq<Block>, i: nat)
    requires Linked(m, head, tail, size, bs) && i <= |bs|
    ensures Hop(m, head, i) == AddrAt(bs, i)
  {
    ListEnds(m, head, tail, size, bs);
    if i > 0 {
      HopsTo(m, head, tail, size, bs, i - 1);
      LinkedAt(m, head, tail, size, bs, i - 1);
    }
    hide HeaderAt, Linked, Placed;
  }

  /** What a listed block is in memory, byte by byte: size, state, next and previous header, least
      significant byte first; the state is 0 for a free block and 1 for one in use. */
  lemma {:induction false} BlockBytes(m: seq<u8>, head: int, tail: int, size: int, bs: seq<Block>, i: nat)
    requires Linked(m, head, tail, size, bs) && i < |bs|
    ensures var a := bs[i].addr;
            && a + 16 <= |m|
            && bs[i].size == m[a] as int + 0x100 * (m[a + 1] as int) + 0x1_0000 * (m[a + 2] as int) +
              0x100_0000 * (m[a + 3] as int)
            && m[a + 4] == (if bs[i].free then 0 else 1) && m[a + 5] == m[a + 6] == m[a + 7] == 0
            && (if i + 1 < |bs| then bs[i + 1].addr else 0) ==
               m[a + 8] as int + 0x100 * (m[a + 9] as int) + 0x1_0000 * (m[a + 10] as int) +
                 0x100_0000 * (m[a + 11] as int)
            && (if i > 0 then bs[i - 1].addr else 0) ==
               m[a + 12] as int + 0x100 * (m[a + 13] as int) + 0x1_0000 * (m[a + 14] as int) +
                 0x100_0000 * (m[a + 15] as int)
  {
    LinkedAt(m, head, tail, size, bs, i);
    hide Linked, Placed;
  }

  /** The list fixes the memory that holds it: two memories with the same list agree on the head,
      the tail, the size and every header. */
  lemma {:induction false} SameList(m: seq<u8>, head: int, tail: int, size: int,
                                    m': seq<u8>, head': int, tail': int, size': int, bs: seq<Block>)
    requires Linked(m, head, tail, size, bs) && Linked(m', head', tail', size', bs)
    ensures head == head' && tail == tail' && size == size'
    ensures forall b :: b in bs ==> HeaderAt(m, b.addr) == HeaderAt(m', b.addr)
  {
    hide HeaderAt;
    forall b | b in bs ensures HeaderAt(m, b.addr) == HeaderAt(m', b.addr) {
      var i :| 0 <= i < |bs| && bs[i] == b;
      assert IsHeader(m, bs, i) && IsHeader(m', bs, i);
    }
  }

  /** No byte of a live payload differs. */
  ghost predicate PayloadsKept(m: seq<u8>, m': seq<u8>, bs: seq<Block>)
  {
    |m| == |m'| && forall b, x :: b in bs && !b.free && b.Payload() <= x < b.End() && x < |m| ==> m'[x] == m[x]
  }

  /** Writing inside a free block, or in the header of any block, touches no live payload. */
  lemma {:induction false} WriteKeepsPayloads(m: seq<u8>, m': seq<u8>, bs: seq<Block>, k: nat, lo: int, hi: int)
    requires Placed(bs) && k < |bs| && SameOutside(m, m', lo, hi)
    requires bs[k].addr <= lo && hi <= if bs[k].free then bs[k].End() else bs[k].Payload()
    ensures PayloadsKept(m, m', bs)
  {
  }

  lemma {:induction false} NothingWritten(m: seq<u8>, bs: seq<Block>)
    ensures PayloadsKept(m, m, bs)
  {
  }

  lemma {:induction false} KeptTrans(m0: seq<u8>, m1: seq<u8>, m2: seq<u8>, bs: seq<Block>)
    requires PayloadsKept(m0, m1, bs) && PayloadsKept(m1, m2, bs)
    ensures PayloadsKept(m0, m2, bs)
  {
  }

  // ----- what each list operation has to leave in memory

  /** The stores of memory_split: the new header, its successor's back pointer, and the header
      of the block being cut. */
  ghost predicate SplitWrites(m0: seq<u8>, m1: seq<u8>, m2: seq<u8>, m3: seq<u8>, bs: seq<Block>, k: int, n: nat)
  {
    0 <= k < |bs| &&
    var cut, next := bs[k].addr + HSIZE + n, AddrAt(bs, k + 1);
    && Rewrites(m0, m1, cut, Header(bs[k].size - n - HSIZE, FREE, next, bs[k].addr))
    && (if k + 1 < |bs| then Rewrites(m1, m2, next, HeaderAt(m1, next).(prev := cut)) else m2 == m1)
    && Rewrites(m2, m3, bs[k].addr, HeaderAt(m2, bs[k].addr).(next := cut, size := n))
  }

  lemma {:induction false} SplitKeeps(m0: seq<u8>, m1: seq<u8>, m2: seq<u8>, m3: seq<u8>, bs: seq<Block>, k: nat,
                                      n: nat)
    requires Placed(bs) && SplitWrites(m0, m1, m2, m3, bs, k, n) && bs[k].free && n + HSIZE <= bs[k].size
    ensures PayloadsKept(m0, m3, bs)
  {
    hide HeaderAt, PayloadsKept;
    var cut, next := bs[k].addr + HSIZE + n, AddrAt(bs, k + 1);
    WriteKeepsPayloads(m0, m1, bs, k, cut, cut + HSIZE);
    if k + 1 < |bs| {
      WriteKeepsPayloads(m1, m2, bs, k + 1, next, next + HSIZE);
      KeptTrans(m0, m1, m2, bs);
    }
    WriteKeepsPayloads(m2, m3, bs, k, bs[k].addr, bs[k].addr + HSIZE);
    KeptTrans(m0, m2, m3, bs);
  }

  ghost predicate Off(a: int, b: int)
  {
    a + HSIZE <= b || b + HSIZE <= a
  }

  // Distinct listed headers do not overlap; nothing is asked of positions that do not exist.
  lemma {:induction false} HeadersOff(bs: seq<Block>, i: int, j: int)
    requires Placed(bs)
    ensures 0 <= i < |bs| ==> InHeap(bs[i]) && Off(bs[i].addr, NULL)
    ensures 0 <= i < |bs| && 0 <= j < |bs| && i != j ==> Off(bs[i].addr, bs[j].addr)
  {
  }

  // A header that a write elsewhere, or no write, leaves alone.
  lemma WriteOff(m: seq<u8>, m': seq<u8>, a: int, b: int)
    requires m' == m || SameOutside(m, m', a, a + HSIZE)
    requires 0 <= b && b + HSIZE <= |m|
    ensures |m'| == |m| && (m' == m || Off(b, a) ==> HeaderAt(m', b) == HeaderAt(m, b))
  {
  }

  // What the code at list position k relies on.
  lemma {:induction false} LinkedAt(m: seq<u8>, head: int, tail: int, size: int, bs: seq<Block>, k: nat)
    requires Linked(m, head, tail, size, bs) && k < |bs|
    ensures |m| == TOP && size == |bs| && Placed(bs) && IsHeader(m, bs, k) && InHeap(bs[k])
    ensures bs[k].addr == tail <==> k + 1 == |bs|
    ensures bs[k].addr == head <==> k == 0
    ensures k + 1 < |bs| ==> InHeap(bs[k + 1]) && IsHeader(m, bs, k + 1)
    ensures k > 0 ==> InHeap(bs[k - 1]) && IsHeader(m, bs, k - 1)
  {
  }

  // The state word that kfree reads, for a pointer to a listed block.
  lemma {:induction false} ListedState(m: seq<u8>, head: int, tail: int, size: int, bs: seq<Block>, ptr: u32)
    requires Linked(m, head, tail, size, bs)
    ensures var k := Find(bs, ptr - HSIZE);
            k < |bs| ==>
              && Wrap(ptr - HSIZE + STATE_AT) + 4 <= |m| && HSIZE <= ptr
              && Load(m, Wrap(ptr - HSIZE + STATE_AT)) == if bs[k].free then FREE else USED
  {
    hide Linked, Placed, Load, Find;
    var k := Find(bs, ptr - HSIZE);
    if k < |bs| {
      LinkedAt(m, head, tail, size, bs, k);
      assert HeaderAt(m, bs[k].addr).state == Load(m, bs[k].addr + STATE_AT);
    }
  }

  lemma {:induction false} ListEnds(m: seq<u8>, head: int, tail: int, size: int, bs: seq<Block>)
    requires Linked(m, head, tail, size, bs)
    ensures |m| == TOP && size == |bs| && tail == AddrAt(bs, |bs| - 1) && head == AddrAt(bs, 0)
    ensures bs != [] ==> InHeap(bs[|bs| - 1])
  {
  }

  lemma {:induction false} SplitPlaced(bs: seq<Block>, k: nat, n: nat)
    requires Placed(bs) && k < |bs| && n + HSIZE <= bs[k].size
    requires n + HSIZE < bs[k].size || bs[k].End() < TOP
    ensures Placed(Split(bs, k, n))
  {
  }

  // Where the blocks of the split list stand in the old one.
  ghost predicate SplitOf(bs: seq<Block>, r: seq<Block>, k: int, n: nat)
  {
    && 0 <= k < |bs| && bs[k].free && n + HSIZE <= bs[k].size && |r| == |bs| + 1
    && r[k] == bs[k].(size := n)
    && r[k + 1] == Block(bs[k].addr + HSIZE + n, bs[k].size - n - HSIZE, true)
    && (forall i {:trigger r[i]} :: 0 <= i < k ==> r[i] == bs[i])
    && (forall i {:trigger r[i]} :: k + 1 < i < |r| ==> r[i] == bs[i - 1])
  }

  lemma {:induction false} SplitIsSplitOf(bs: seq<Block>, k: nat, n: nat)
    requires k < |bs| && bs[k].free && n + HSIZE <= bs[k].size
    ensures SplitOf(bs, Split(bs, k, n), k, n)
  {
  }

  lemma {:induction false} SplitHeader(m0: seq<u8>, m1: seq<u8>, m2: seq<u8>, m3: seq<u8>,
                                       bs: seq<Block>, r: seq<Block>, k: nat, n: nat, i: nat)
    requires |m0| == TOP && SplitWrites(m0, m1, m2, m3, bs, k, n) && SplitOf(bs, r, k, n)
    requires i < |r| && InHeap(r[i]) && AddrAt(r, k + 2) == AddrAt(bs, k + 1)
    requires i != k ==> Off(r[i].addr, r[k].addr)
    requires i != k + 1 ==> Off(r[i].addr, r[k + 1].addr)
    requires i != k + 2 && k + 1 < |bs| ==> Off(r[i].addr, AddrAt(r, k + 2))
    requires IsHeader(m0, bs, if i <= k then i else i - 1)
    ensures IsHeader(m3, r, i)
  {
    hide HeaderAt, SameOutside, Off;
    WriteOff(m0, m1, r[k + 1].addr, r[i].addr);
    WriteOff(m1, m2, AddrAt(bs, k + 1), r[i].addr);
    WriteOff(m2, m3, r[k].addr, r[i].addr);
  }

  lemma {:induction false} SplitLinkAt(m0: seq<u8>, m1: seq<u8>, m2: seq<u8>, m3: seq<u8>,
                                       bs: seq<Block>, r: seq<Block>, k: nat, n: nat, i: nat)
    requires |m0| == TOP && SplitWrites(m0, m1, m2, m3, bs, k, n) && SplitOf(bs, r, k, n) && Placed(r)
    requires i < |r| && AddrAt(r, k + 2) == AddrAt(bs, k + 1) && IsHeader(m0, bs, if i <= k then i else i - 1)
    ensures IsHeader(m3, r, i)
  {
    assert k < |bs| && |r| == |bs| + 1;
    hide SplitWrites, HeaderAt, IsHeader, Placed, Off, SplitOf;
    HeadersOff(r, i, k);
    HeadersOff(r, i, k + 1);
    HeadersOff(r, i, k + 2);
    SplitHeader(m0, m1, m2, m3, bs, r, k, n, i);
  }

  lemma {:induction false} SplitEnds(m0: seq<u8>, m1: seq<u8>, m2: seq<u8>, m3: seq<u8>, bs: seq<Block>, r: seq<Block>,
                                     k: nat, n: nat)
    requires SplitWrites(m0, m1, m2, m3, bs, k, n) && SplitOf(bs, r, k, n)
    ensures |m3| == |m0| && k < |bs| && |r| == |bs| + 1
    ensures AddrAt(r, 0) == AddrAt(bs, 0) && AddrAt(r, k + 2) == AddrAt(bs, k + 1)
    ensures AddrAt(r, |r| - 1) == if k + 1 == |bs| then r[k + 1].addr else AddrAt(bs, |bs| - 1)
  {
    hide HeaderAt;
  }

  /** The list those stores leave in memory is the split list. */
  lemma {:induction false} SplitLinks(m0: seq<u8>, m1: seq<u8>, m2: seq<u8>, m3: seq<u8>,
                                      head: int, tail: int, bs: seq<Block>, r: seq<Block>, k: nat, n: nat)
    requires Linked(m0, head, tail, |bs|, bs) && SplitWrites(m0, m1, m2, m3, bs, k, n)
    requires SplitOf(bs, r, k, n) && Placed(r)
    ensures Linked(m3, head, if k + 1 == |bs| then r[k + 1].addr else tail, |r|, r)
  {
    hide SplitWrites, HeaderAt, IsHeader, Placed, SplitOf;
    SplitEnds(m0, m1, m2, m3, bs, r, k, n);
    forall i | 0 <= i < |r| ensures IsHeader(m3, r, i) {
      assert IsHeader(m0, bs, if i <= k then i else i - 1);
      SplitLinkAt(m0, m1, m2, m3, bs, r, k, n, i);
    }
  }

  // ----- memory_merge

  /** The stores of memory_merge. The last one goes through next_block; where the absorbed block
      was the tail that pointer is NULL and the store lands at the bottom of memory. */
  ghost predicate MergeWrites(m0: seq<u8>, m1: seq<u8>, m2: seq<u8>, bs: seq<Block>, k: int)
  {
    0 <= k && k + 1 < |bs| &&
    var blk, next := bs[k].addr, AddrAt(bs, k + 2);
    && Rewrites(m0, m1, blk, HeaderAt(m0, blk).(size := bs[k].size + bs[k + 1].size + HSIZE, next := next))
    && Rewrites(m1, m2, next, HeaderAt(m1, next).(prev := blk))
  }

  ghost predicate MergeOf(bs: seq<Block>, r: seq<Block>, k: int)
  {
    && 0 <= k && k + 1 < |bs| && |r| == |bs| - 1
    && r[k] == bs[k].(size := bs[k].size + bs[k + 1].size + HSIZE)
    && (forall i {:trigger r[i]} :: 0 <= i < k ==> r[i] == bs[i])
    && (forall i {:trigger r[i]} :: k < i < |r| ==> r[i] == bs[i + 1])
  }

  lemma {:induction false} MergeIsMergeOf(bs: seq<Block>, k: nat)
    requires Adjacent(bs, k) && Placed(bs)
    ensures MergeOf(bs, Merge(bs, k), k) && Placed(Merge(bs, k))
  {
  }

  lemma {:induction false} MergeKeeps(m0: seq<u8>, m1: seq<u8>, m2: seq<u8>, bs: seq<Block>, k: nat)
    requires Placed(bs) && MergeWrites(m0, m1, m2, bs, k)
    ensures PayloadsKept(m0, m2, bs)
  {
    hide HeaderAt, PayloadsKept;
    var next := AddrAt(bs, k + 2);
    WriteKeepsPayloads(m0, m1, bs, k, bs[k].addr, bs[k].addr + HSIZE);
    if k + 2 < |bs| {
      WriteKeepsPayloads(m1, m2, bs, k + 2, next, next + HSIZE);
    } else {
      LowWriteKeepsPayloads(m1, m2, bs);
    }
    KeptTrans(m0, m1, m2, bs);
  }

  /** A store through a null block pointer stays below the heap. */
  lemma {:induction false} LowWriteKeepsPayloads(m: seq<u8>, m': seq<u8>, bs: seq<Block>)
    requires Placed(bs) && SameOutside(m, m', NULL, NULL + HSIZE)
    ensures PayloadsKept(m, m', bs)
  {
  }

  lemma {:induction false} MergeHeader(m0: seq<u8>, m1: seq<u8>, m2: seq<u8>, bs: seq<Block>, r: seq<Block>, k: nat,
                                       i: nat)
    requires |m0| == TOP && MergeWrites(m0, m1, m2, bs, k) && MergeOf(bs, r, k)
    requires i < |r| && InHeap(r[i]) && AddrAt(r, k + 1) == AddrAt(bs, k + 2)
    requires i != k ==> Off(r[i].addr, r[k].addr)
    requires i != k + 1 ==> Off(r[i].addr, AddrAt(r, k + 1))
    requires IsHeader(m0, bs, if i <= k then i else i + 1)
    ensures IsHeader(m2, r, i)
  {
    hide HeaderAt, SameOutside, Off;
    WriteOff(m0, m1, r[k].addr, r[i].addr);
    WriteOff(m1, m2, AddrAt(bs, k + 2), r[i].addr);
  }

  lemma {:induction false} MergeLinkAt(m0: seq<u8>, m1: seq<u8>, m2: seq<u8>, bs: seq<Block>, r: seq<Block>, k: nat,
                                       i: nat)
    requires |m0| == TOP && MergeWrites(m0, m1, m2, bs, k) && MergeOf(bs, r, k) && Placed(r)
    requires i < |r| && AddrAt(r, k + 1) == AddrAt(bs, k + 2) && IsHeader(m0, bs, if i <= k then i else i + 1)
    ensures IsHeader(m2, r, i)
  {
    assert k + 1 < |bs| && |r| == |bs| - 1;
    hide MergeWrites, HeaderAt, IsHeader, Placed, Off, MergeOf;
    HeadersOff(r, i, k);
    HeadersOff(r, i, k + 1);
    MergeHeader(m0, m1, m2, bs, r, k, i);
  }

  lemma {:induction false} MergeEnds(m0: seq<u8>, m1: seq<u8>, m2: seq<u8>, bs: seq<Block>, r: seq<Block>, k: nat)
    requires MergeWrites(m0, m1, m2, bs, k) && MergeOf(bs, r, k)
    ensures |m2| == |m0| && k + 1 < |bs| && |r| == |bs| - 1
    ensures AddrAt(r, 0) == AddrAt(bs, 0) && AddrAt(r, k + 1) == AddrAt(bs, k + 2)
    ensures AddrAt(r, |r| - 1) == if k + 2 == |bs| then r[k].addr else AddrAt(bs, |bs| - 1)
  {
  }

  lemma {:induction false} MergeLinks(m0: seq<u8>, m1: seq<u8>, m2: seq<u8>, head: int, tail: int,
                                      bs: seq<Block>, r: seq<Block>, k: nat)
    requires Linked(m0, head, tail, |bs|, bs) && MergeWrites(m0, m1, m2, bs, k)
    requires MergeOf(bs, r, k) && Placed(r)
    ensures Linked(m2, head, if k + 2 == |bs| then r[k].addr else tail, |r|, r)
  {
    hide MergeWrites, HeaderAt, IsHeader, Placed, MergeOf;
    MergeEnds(m0, m1, m2, bs, r, k);
    forall i | 0 <= i < |r| ensures IsHeader(m2, r, i) {
      assert IsHeader(m0, bs, if i <= k then i else i + 1);
      MergeLinkAt(m0, m1, m2, bs, r, k, i);
    }
  }

  // ----- get_pages

  /** The stores of get_pages: a header on the claimed pages, and the old tail's next pointer. */
  ghost predicate AppendWrites(m0: seq<u8>, m1: seq<u8>, m2: seq<u8>, bs: seq<Block>, b: Block)
  {
    var tail := AddrAt(bs, |bs| - 1);
    && Rewrites(m0, m1, b.addr, Header(b.size, FREE, NULL, tail))
    && if bs == [] then m2 == m1 else Rewrites(m1, m2, tail, HeaderAt(m1, tail).(next := b.addr))
  }

  lemma {:induction false} AppendKeeps(m0: seq<u8>, m1: seq<u8>, m2: seq<u8>, bs: seq<Block>, b: Block)
    requires Placed(bs + [b]) && b.free && AppendWrites(m0, m1, m2, bs, b)
    ensures PayloadsKept(m0, m2, bs)
  {
    var r := bs + [b];
    WriteKeepsPayloads(m0, m1, r, |bs|, b.addr, b.addr + HSIZE);
    if bs != [] {
      WriteKeepsPayloads(m1, m2, r, |bs| - 1, r[|bs| - 1].addr, r[|bs| - 1].addr + HSIZE);
      KeptTrans(m0, m1, m2, r);
    }
    assert forall c :: c in bs ==> c in r;
  }

  lemma {:induction false} AppendLinks(m0: seq<u8>, m1: seq<u8>, m2: seq<u8>, head: int, tail: int, bs: seq<Block>,
                                       b: Block)
    requires Linked(m0, head, tail, |bs|, bs) && AppendWrites(m0, m1, m2, bs, b) && b.free && Placed(bs + [b])
    ensures Linked(m2, if bs == [] then b.addr else head, b.addr, |bs| + 1, bs + [b])
  {
    var r := bs + [b];
    assert |m0| == |m1| == |m2| == TOP;
    forall i | 0 <= i < |r| ensures IsHeader(m2, r, i) {
      HeadersOff(r, i, |bs|);
      HeadersOff(r, i, |bs| - 1);
      assert i < |bs| ==> IsHeader(m0, bs, i) && r[i] == bs[i];
      assert AddrAt(r, i - 1) == AddrAt(bs, i - 1);
      assert AddrAt(r, i + 1) == if i + 1 == |bs| then b.addr else AddrAt(bs, i + 1);
      hide HeaderAt, SameOutside, Placed, Linked, Off;
      WriteOff(m0, m1, b.addr, r[i].addr);
      WriteOff(m1, m2, AddrAt(bs, |bs| - 1), r[i].addr);
    }
  }

  // ----- unlinking, in free_pages

  ghost predicate UnlinkWrites(m0: seq<u8>, m1: seq<u8>, m2: seq<u8>, bs: seq<Block>, k: int)
  {
    0 <= k < |bs| &&
    var prev, next := AddrAt(bs, k - 1), AddrAt(bs, k + 1);
    && (if k == 0 then m1 == m0 else Rewrites(m0, m1, prev, HeaderAt(m0, prev).(next := next)))
    && (if k + 1 == |bs| then m2 == m1 else Rewrites(m1, m2, next, HeaderAt(m1, next).(prev := prev)))
  }

  ghost predicate DropOf(bs: seq<Block>, r: seq<Block>, k: int)
  {
    && 0 <= k < |bs| && |r| == |bs| - 1
    && (forall i {:trigger r[i]} :: 0 <= i < k ==> r[i] == bs[i])
    && (forall i {:trigger r[i]} :: k <= i < |r| ==> r[i] == bs[i + 1])
  }

  lemma {:induction false} DropIsDropOf(bs: seq<Block>, k: nat)
    requires k < |bs| && Placed(bs)
    ensures DropOf(bs, Drop(bs, k), k) && Placed(Drop(bs, k))
  {
  }

  lemma {:induction false} UnlinkKeeps(m0: seq<u8>, m1: seq<u8>, m2: seq<u8>, bs: seq<Block>, k: nat)
    requires Placed(bs) && UnlinkWrites(m0, m1, m2, bs, k)
    ensures PayloadsKept(m0, m2, bs)
  {
    if k > 0 { WriteKeepsPayloads(m0, m1, bs, k - 1, bs[k - 1].addr, bs[k - 1].addr + HSIZE); }
    if k + 1 < |bs| { WriteKeepsPayloads(m1, m2, bs, k + 1, bs[k + 1].addr, bs[k + 1].addr + HSIZE); }
  }

  lemma {:induction false} UnlinkHeader(m0: seq<u8>, m1: seq<u8>, m2: seq<u8>, bs: seq<Block>, r: seq<Block>, k: nat,
                                        i: nat)
    requires |m0| == TOP && UnlinkWrites(m0, m1, m2, bs, k) && DropOf(bs, r, k)
    requires i < |r| && InHeap(r[i]) && AddrAt(r, k - 1) == AddrAt(bs, k - 1) && AddrAt(r, k) == AddrAt(bs, k + 1)
    requires i != k - 1 && k > 0 ==> Off(r[i].addr, AddrAt(r, k - 1))
    requires i != k && k + 1 < |bs| ==> Off(r[i].addr, AddrAt(r, k))
    requires IsHeader(m0, bs, if i < k then i else i + 1)
    ensures IsHeader(m2, r, i)
  {
    hide HeaderAt, SameOutside, Off;
    WriteOff(m0, m1, AddrAt(bs, k - 1), r[i].addr);
    WriteOff(m1, m2, AddrAt(bs, k + 1), r[i].addr);
  }

  lemma {:induction false} UnlinkLinkAt(m0: seq<u8>, m1: seq<u8>, m2: seq<u8>, bs: seq<Block>, r: seq<Block>, k: nat,
                                        i: nat)
    requires |m0| == TOP && UnlinkWrites(m0, m1, m2, bs, k) && DropOf(bs, r, k) && Placed(r)
    requires i < |r| && AddrAt(r, k - 1) == AddrAt(bs, k - 1) && AddrAt(r, k) == AddrAt(bs, k + 1) &&
             IsHeader(m0, bs, if i < k then i else i + 1)
    ensures IsHeader(m2, r, i)
  {
    assert k < |bs| && |r| == |bs| - 1;
    hide UnlinkWrites, HeaderAt, IsHeader, Placed, Off, DropOf;
    HeadersOff(r, i, k - 1);
    HeadersOff(r, i, k);
    UnlinkHeader(m0, m1, m2, bs, r, k, i);
  }

  lemma {:induction false} UnlinkEnds(m0: seq<u8>, m1: seq<u8>, m2: seq<u8>, bs: seq<Block>, r: seq<Block>, k: nat)
    requires UnlinkWrites(m0, m1, m2, bs, k) && DropOf(bs, r, k)
    ensures |m2| == |m0| && k < |bs| && |r| == |bs| - 1
    ensures AddrAt(r, k - 1) == AddrAt(bs, k - 1) && AddrAt(r, k) == AddrAt(bs, k + 1)
    ensures AddrAt(r, 0) == AddrAt(bs, if k == 0 then 1 else 0)
    ensures AddrAt(r, |r| - 1) == AddrAt(bs, if k + 1 == |bs| then k - 1 else |bs| - 1)
  {
  }

  lemma {:induction false} UnlinkLinks(m0: seq<u8>, m1: seq<u8>, m2: seq<u8>, head: int, tail: int,
                                       bs: seq<Block>, r: seq<Block>, k: nat)
    requires Linked(m0, head, tail, |bs|, bs) && UnlinkWrites(m0, m1, m2, bs, k)
    requires DropOf(bs, r, k) && Placed(r)
    ensures Linked(m2, if k == 0 then AddrAt(bs, 1) else head,
                   if k + 1 == |bs| then AddrAt(bs, k - 1) else tail, |r|, r)
  {
    hide UnlinkWrites, HeaderAt, IsHeader, Placed, DropOf;
    UnlinkEnds(m0, m1, m2, bs, r, k);
    forall i | 0 <= i < |r| ensures IsHeader(m2, r, i) {
      assert IsHeader(m0, bs, if i < k then i else i + 1);
      UnlinkLinkAt(m0, m1, m2, bs, r, k, i);
    }
  }

  // ----- changing a block's state

  lemma {:induction false} MarkHeader(m0: seq<u8>, m1: seq<u8>, bs: seq<Block>, r: seq<Block>, k: nat, free: bool,
                                      i: nat)
    requires |m0| == TOP && k < |bs| == |r| && i < |r| && InHeap(bs[i])
    requires Rewrites(m0, m1, bs[k].addr, HeaderAt(m0, bs[k].addr).(state := if free then FREE else USED))
    requires r == bs[k := bs[k].(free := free)] && IsHeader(m0, bs, i)
    requires i != k ==> Off(bs[i].addr, bs[k].addr)
    ensures IsHeader(m1, r, i)
  {
    hide HeaderAt, SameOutside, Off;
    WriteOff(m0, m1, bs[k].addr, bs[i].addr);
  }

  lemma {:induction false} MarkLinks(m0: seq<u8>, m1: seq<u8>, head: int, tail: int, bs: seq<Block>, k: nat, free: bool)
    requires Linked(m0, head, tail, |bs|, bs) && k < |bs|
    requires Rewrites(m0, m1, bs[k].addr, HeaderAt(m0, bs[k].addr).(state := if free then FREE else USED))
    ensures Linked(m1, head, tail, |bs|, Mark(bs, k, free)) && PayloadsKept(m0, m1, bs)
  {
    hide HeaderAt, PayloadsKept;
    var r := Mark(bs, k, free);
    assert |m1| == TOP;
    hide SameOutside, IsHeader;
    WriteKeepsPayloads(m0, m1, bs, k, bs[k].addr, bs[k].addr + HSIZE);
    MarkSound(bs, k, free, []);
    hide Placed;
    forall i | 0 <= i < |r| ensures IsHeader(m1, r, i) {
      assert IsHeader(m0, bs, i);
      HeadersOff(bs, i, k);
      MarkHeader(m0, m1, bs, r, k, free, i);
    }
  }

  // The debug words of a header are read by no one here.
  lemma {:induction false} DebugFieldLinks(m0: seq<u8>, m1: seq<u8>, head: int, tail: int, bs: seq<Block>, k: nat)
    requires Linked(m0, head, tail, |bs|, bs) && k < |bs|
    requires Rewrites(m0, m1, bs[k].addr, HeaderAt(m0, bs[k].addr))
    ensures Linked(m1, head, tail, |bs|, bs) && PayloadsKept(m0, m1, bs)
  {
    assert IsHeader(m0, bs, k) && Mark(bs, k, bs[k].free) == bs;
    MarkLinks(m0, m1, head, tail, bs, k, bs[k].free);
  }

  // ----- payload bytes

  /** No byte differs in any live payload but the one at p. */
  ghost predicate OthersKept(m: seq<u8>, m': seq<u8>, bs: seq<Block>, p: int)
  {
    |m| == |m'| && forall b, x :: b in bs && !b.free && b.Payload() != p && b.Payload() <= x < b.End() && x < |m| ==>
      m'[x] == m[x]
  }

  /** The bytes at q are now those that were at p. */
  ghost predicate BytesMoved(m: seq<u8>, m': seq<u8>, p: nat, q: nat, len: nat)
  {
    p + len <= |m| && q + len <= |m'| && m'[q..q + len] == m[p..p + len]
  }

  lemma {:induction false} CopyNone(m: seq<u8>, p: nat, q: nat)
    requires p <= |m| && q <= |m|
    ensures BytesMoved(m, m, p, q, 0)
  {
  }

  lemma {:induction false} StayedPut(m: seq<u8>, p: nat, len: nat)
    requires p + len <= |m|
    ensures BytesMoved(m, m, p, p, len)
  {
  }

  lemma {:induction false} CopyOne(m: seq<u8>, m': seq<u8>, p: nat, q: nat, i: nat)
    requires BytesMoved(m, m', p, q, i) && p + i < |m| && q + i < |m'|
    ensures BytesMoved(m, m'[q + i := m[p + i]], p, q, i + 1)
  {
    var m'' := m'[q + i := m[p + i]];
    assert m''[q..q + i] == m'[q..q + i];
    assert m''[q..q + i + 1] == m''[q..q + i] + [m[p + i]];
    assert m[p..p + i + 1] == m[p..p + i] + [m[p + i]];
  }

  lemma {:induction false} KeptByUsed(m: seq<u8>, m': seq<u8>, bs: seq<Block>, r: seq<Block>)
    requires PayloadsKept(m, m', r) && UsedBlocks(bs) <= UsedBlocks(r)
    ensures PayloadsKept(m, m', bs)
  {
    assert forall b :: b in bs && !b.free ==> b in UsedBlocks(bs);
  }

  /** Writing inside one live payload leaves the list and every other live payload as they were. */
  lemma {:induction false} PayloadWrite(m: seq<u8>, m': seq<u8>, head: int, tail: int, bs: seq<Block>, k: nat)
    requires Linked(m, head, tail, |bs|, bs) && k < |bs| && !bs[k].free
    requires SameOutside(m, m', bs[k].Payload(), bs[k].End())
    ensures Linked(m', head, tail, |bs|, bs) && OthersKept(m, m', bs, bs[k].Payload())
  {
    forall i | 0 <= i < |bs| ensures IsHeader(m', bs, i) {
      assert IsHeader(m, bs, i) && InHeap(bs[i]);
      if i != k { PlacedApart(bs, i, k); }
      HeaderFrame(m, m', bs[k].Payload(), bs[k].End(), bs[i].addr);
    }
    forall b, x | b in bs && !b.free && b.Payload() != bs[k].Payload() && b.Payload() <= x < b.End() && x < |m|
      ensures m'[x] == m[x]
    {
      var i :| 0 <= i < |bs| && bs[i] == b;
      PlacedApart(bs, i, k);
    }
  }

  /** Filling a block that was not in use before keeps every payload that was live before. */
  lemma {:induction false} NewPayloadKeeps(m0: seq<u8>, m1: seq<u8>, m2: seq<u8>, bs: seq<Block>, r: seq<Block>, k: nat)
    requires PayloadsKept(m0, m1, bs) && k < |r| && OthersKept(m1, m2, r, r[k].Payload())
    requires UsedBlocks(r) == UsedBlocks(bs) + {r[k]}
    requires forall b :: b in UsedBlocks(bs) ==> b.addr != r[k].addr
    ensures PayloadsKept(m0, m2, bs)
  {
    forall b, x | b in bs && !b.free && b.Payload() <= x < b.End() && x < |m0| ensures m2[x] == m0[x] {
      assert b in UsedBlocks(bs) && b in UsedBlocks(r);
    }
  }

  /** Once block k is marked free, what keeps the payloads still live keeps all but its own. */
  lemma {:induction false} FreedKeeps(m0: seq<u8>, m1: seq<u8>, m2: seq<u8>, bs: seq<Block>, marked: seq<Block>, k: nat)
    requires PayloadsKept(m0, m1, bs) && PayloadsKept(m1, m2, marked) && k < |bs|
    requires UsedBlocks(marked) == UsedBlocks(bs) - {bs[k]}
    ensures OthersKept(m0, m2, bs, bs[k].Payload())
  {
    forall b, x | b in bs && !b.free && b.Payload() != bs[k].Payload() && b.Payload() <= x < b.End() && x < |m0|
      ensures m2[x] == m0[x]
    {
      assert b in UsedBlocks(bs) && b in UsedBlocks(marked);
    }
  }

  lemma {:induction false} KeptMeansOthers(m: seq<u8>, m': seq<u8>, bs: seq<Block>, p: int)
    requires PayloadsKept(m, m', bs)
    ensures OthersKept(m, m', bs, p)
  {
  }

  lemma {:induction false} PlacedApart(bs: seq<Block>, i: nat, j: nat)
    requires Placed(bs) && i < |bs| && j < |bs| && i != j
    ensures Apart(bs[i], bs[j])
  {
  }

  /** Allocating, copying and freeing: every other payload keeps its bytes, and the new block has
      the bytes copied into it. */
  lemma {:induction false} MovedKeeps(m0: seq<u8>, m1: seq<u8>, m2: seq<u8>, m3: seq<u8>,
                                      bs: seq<Block>, r: seq<Block>, k: nat, k': nat, j: nat)
    requires k < |bs| && k' < |r| && j < |r| && r[k'] == bs[k] && !bs[k].free && !r[j].free
    requires UsedBlocks(r) == UsedBlocks(bs) + {r[j]}
    requires forall b :: b in UsedBlocks(bs) ==> b.addr != r[j].addr
    requires PayloadsKept(m0, m1, bs) && OthersKept(m1, m2, r, r[j].Payload()) && OthersKept(m2, m3, r, bs[k].Payload())
    ensures OthersKept(m0, m3, bs, bs[k].Payload())
    ensures BytesMoved(m1, m2, bs[k].Payload(), r[j].Payload(), bs[k].size) && bs[k].size <= r[j].size ==>
              BytesMoved(m0, m3, bs[k].Payload(), r[j].Payload(), bs[k].size)
  {
    assert bs[k] in UsedBlocks(bs);
    var p, q, len := bs[k].Payload(), r[j].Payload(), bs[k].size;
    if BytesMoved(m1, m2, p, q, len) && len <= r[j].size {
      assert m1[p..p + len] == m0[p..p + len] && m3[q..q + len] == m2[q..q + len];
    }
    forall b, x | b in bs && !b.free && b.Payload() != bs[k].Payload() && b.Payload() <= x < b.End() && x < |m0|
      ensures m3[x] == m0[x]
    {
      assert b in UsedBlocks(bs) && b in UsedBlocks(r);
    }
  }
}
