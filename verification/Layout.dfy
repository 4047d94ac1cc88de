/** The block list as a value: one record per header, in list order, which is not address order.
    Here are the edits the allocator makes to it and the facts that each edit keeps. */
module Layout {
  import opened Machine
  import opened PageTable

  datatype Block = Block(addr: nat, size: nat, free: bool)
  {
    function End(): nat { addr + size + HSIZE }
    function Payload(): nat { addr + HSIZE }
  }

  ghost predicate Apart(b: Block, c: Block)
  {
    b.End() <= c.addr || c.End() <= b.addr
  }

  ghost predicate Disjoint(bs: seq<Block>)
  {
    forall i, j :: 0 <= i < j < |bs| ==> Apart(bs[i], bs[j])
  }

  ghost predicate InHeap(b: Block)
  {
    HEAP_START <= b.addr && b.Payload() < TOP && b.End() <= TOP
  }

  /** The list is well placed: every block inside the heap area, no two sharing a byte. */
  ghost predicate Placed(bs: seq<Block>)
  {
    && (forall i :: 0 <= i < |bs| ==> InHeap(bs[i]))
    && Disjoint(bs)
  }

  predicate Touches(b: Block, p: nat)
  {
    b.addr < (p + 1) * PAGE_SIZE && p * PAGE_SIZE < b.End()
  }

  /** Every page that holds a byte of the block is in state PAGE_USED. */
  ghost predicate Owns(b: Block, pages: seq<PageState>)
  {
    forall p :: 0 <= p < |pages| && Touches(b, p) ==> pages[p] == PUsed
  }

  ghost predicate AllOwn(bs: seq<Block>, pages: seq<PageState>)
  {
    forall i :: 0 <= i < |bs| ==> Owns(bs[i], pages)
  }

  // Every listed block and every page the bytes of its header and payload lie in.
  ghost predicate Sound(bs: seq<Block>, pages: seq<PageState>)
  {
    Placed(bs) && AllOwn(bs, pages)
  }

  ghost predicate Adjacent(bs: seq<Block>, k: int)
  {
    0 <= k && k + 1 < |bs| && bs[k].free && bs[k + 1].free && bs[k].End() == bs[k + 1].addr
  }

  /** No two blocks that are neighbours in the list and in memory are both free. */
  ghost predicate Coalesced(bs: seq<Block>)
  {
    forall k :: !Adjacent(bs, k)
  }

  /** The list position of the block whose header is at a; the length of the list if there is none. */
  function Find(bs: seq<Block>, a: int): (r: nat)
    ensures r <= |bs|
    ensures r < |bs| ==> bs[r].addr == a
    ensures forall i :: 0 <= i < r ==> bs[i].addr != a
  {
    if bs == [] || bs[0].addr == a then 0 else Find(bs[1..], a) + 1
  }

  // ----- page rounding and the release test

  function RoundUp(a: nat): (r: nat)
    ensures a <= r < a + PAGE_SIZE && r % PAGE_SIZE == 0
  {
    if a % PAGE_SIZE == 0 then a else a + PAGE_SIZE - a % PAGE_SIZE
  }

  /** The block ends below 2^32 and holds a whole page that starts at or after its header. */
  predicate Releasable(b: Block)
  {
    b.End() < TOP && RoundUp(b.addr) + PAGE_SIZE <= b.End()
  }

  /** No free block still holds a page that free_pages would give back. */
  ghost predicate Trimmed(bs: seq<Block>)
  {
    forall i :: 0 <= i < |bs| && bs[i].free ==> !Releasable(bs[i])
  }

  // ----- edits of the list

  function Mark(bs: seq<Block>, k: nat, free: bool): (r: seq<Block>)
    requires k < |bs|
  {
    bs[k := bs[k].(free := free)]
  }

  /** Cut block k after n payload bytes; what follows becomes a free block with its own header. */
  function Split(bs: seq<Block>, k: nat, n: nat): (r: seq<Block>)
    requires k < |bs| && n + HSIZE <= bs[k].size
  {
    bs[..k]
    + [bs[k].(size := n), Block(bs[k].addr + HSIZE + n, bs[k].size - n - HSIZE, true)]
    + bs[k + 1..]
  }

  function Merge(bs: seq<Block>, k: nat): (r: seq<Block>)
    requires k + 1 < |bs|
  {
    bs[..k] + [bs[k].(size := bs[k].size + bs[k + 1].size + HSIZE)] + bs[k + 2..]
  }

  function Drop(bs: seq<Block>, k: nat): (r: seq<Block>)
    requires k < |bs|
  {
    bs[..k] + bs[k + 1..]
  }

  /** The bytes that the listed blocks account for, headers included. */
  function Bytes(bs: seq<Block>): nat
  {
    if bs == [] then 0 else Bytes(bs[..|bs| - 1]) + bs[|bs| - 1].size + HSIZE
  }

  lemma {:induction false} BytesConcat(a: seq<Block>, b: seq<Block>)
    ensures Bytes(a + b) == Bytes(a) + Bytes(b)
  {
    if b == [] {
      assert a + b == a;
    } else {
      assert (a + b)[..|a + b| - 1] == a + b[..|b| - 1];
      BytesConcat(a, b[..|b| - 1]);
    }
  }

  lemma {:induction false} BytesReplace(pre: seq<Block>, was: seq<Block>, now: seq<Block>, post: seq<Block>)
    ensures Bytes(pre + now + post) == Bytes(pre + was + post) - Bytes(was) + Bytes(now)
  {
    BytesConcat(pre + was, post);
    BytesConcat(pre, was);
    BytesConcat(pre + now, post);
    BytesConcat(pre, now);
  }

  lemma {:induction false} BytesOfOne(b: Block)
    ensures Bytes([b]) == b.size + HSIZE
  {
  }

  lemma {:induction false} BytesOfTwo(b: Block, c: Block)
    ensures Bytes([b, c]) == b.size + c.size + 2 * HSIZE
  {
    assert [b, c][..1] == [b];
    BytesOfOne(b);
  }

  lemma {:induction false} CutAtPair(bs: seq<Block>, k: nat)
    requires k + 1 < |bs|
    ensures bs == bs[..k] + [bs[k], bs[k + 1]] + bs[k + 2..]
  {
  }

  lemma {:induction false} CutAround(bs: seq<Block>, i: nat, j: nat)
    requires i <= j <= |bs|
    ensures bs == bs[..i] + bs[i..j] + bs[j..]
  {
  }

  lemma {:induction false} BytesOneAsTwo(pre: seq<Block>, whole: Block, left: Block, right: Block, post: seq<Block>)
    requires whole.size == left.size + right.size + HSIZE
    ensures Bytes(pre + [left, right] + post) == Bytes(pre + [whole] + post)
  {
    BytesOfOne(whole);
    BytesOfTwo(left, right);
    BytesReplace(pre, [whole], [left, right], post);
  }

  /** Splitting moves no byte in or out of the list. */
  lemma {:induction false} SplitBytes(bs: seq<Block>, k: nat, n: nat)
    requires k < |bs| && n + HSIZE <= bs[k].size
    ensures Bytes(Split(bs, k, n)) == Bytes(bs)
  {
    assert bs == bs[..k] + [bs[k]] + bs[k + 1..];
    BytesOneAsTwo(bs[..k], bs[k], bs[k].(size := n),
                  Block(bs[k].addr + HSIZE + n, bs[k].size - n - HSIZE, true), bs[k + 1..]);
  }

  lemma {:induction false} MergeBytes(bs: seq<Block>, k: nat)
    requires k + 1 < |bs|
    ensures Bytes(Merge(bs, k)) == Bytes(bs)
  {
    var pre, post, m := bs[..k], bs[k + 2..], bs[k].(size := bs[k].size + bs[k + 1].size + HSIZE);
    CutAtPair(bs, k);
    BytesOneAsTwo(pre, m, bs[k], bs[k + 1], post);
  }

  lemma {:induction false} DropBytes(bs: seq<Block>, k: nat)
    requires k < |bs|
    ensures Bytes(Drop(bs, k)) == Bytes(bs) - bs[k].size - HSIZE
  {
    CutAround(bs, k, k + 1);
    assert bs[k..k + 1] == [bs[k]];
    BytesOfOne(bs[k]);
    BytesReplace(bs[..k], [bs[k]], [], bs[k + 1..]);
    assert bs[..k] + [] + bs[k + 1..] == Drop(bs, k);
  }

  lemma {:induction false} MarkBytes(bs: seq<Block>, k: nat, free: bool)
    requires k < |bs|
    ensures Bytes(Mark(bs, k, free)) == Bytes(bs)
  {
    var m := bs[k].(free := free);
    CutAround(bs, k, k + 1);
    assert bs[k..k + 1] == [bs[k]];
    assert Mark(bs, k, free) == bs[..k] + [m] + bs[k + 1..];
    BytesOfOne(bs[k]);
    BytesOfOne(m);
    BytesReplace(bs[..k], [bs[k]], [m], bs[k + 1..]);
  }

  // ----- each edit keeps the blocks sound

  lemma {:induction false} MarkSound(bs: seq<Block>, k: nat, free: bool, pages: seq<PageState>)
    requires k < |bs| && Sound(bs, pages)
    ensures Sound(Mark(bs, k, free), pages)
  {
  }

  lemma {:induction false} SplitSound(bs: seq<Block>, k: nat, n: nat, pages: seq<PageState>)
    requires k < |bs| && n + HSIZE <= bs[k].size && Sound(bs, pages)
    requires n + HSIZE < bs[k].size || bs[k].End() < TOP
    ensures Sound(Split(bs, k, n), pages)
  {
  }

  lemma {:induction false} MergeSound(bs: seq<Block>, k: nat, pages: seq<PageState>)
    requires Adjacent(bs, k) && Sound(bs, pages)
    ensures Sound(Merge(bs, k), pages)
  {
  }

  lemma {:induction false} AppendSound(bs: seq<Block>, b: Block, pages: seq<PageState>)
    requires Sound(bs, pages) && InHeap(b) && Owns(b, pages)
    requires forall i :: 0 <= i < |bs| ==> Apart(bs[i], b)
    ensures Sound(bs + [b], pages)
  {
  }

  // ----- what the callers see: the live payloads

  function UsedBlocks(bs: seq<Block>): set<Block>
  {
    set b | b in bs && !b.free
  }

  ghost function SizeAt(bs: seq<Block>, p: nat): nat
    requires exists b :: b in UsedBlocks(bs) && b.Payload() == p
  {
    var b :| b in UsedBlocks(bs) && b.Payload() == p;
    b.size
  }

  /** Payload address to payload size, over the blocks that are in use. */
  ghost function Live(bs: seq<Block>): (r: map<nat, nat>)
    requires Disjoint(bs)
  {
    var addrs := set b | b in UsedBlocks(bs) :: b.Payload();
    map p | p in addrs :: SizeAt(bs, p)
  }

  lemma {:induction false} AddrsDiffer(bs: seq<Block>)
    requires Disjoint(bs)
    ensures forall i, j :: 0 <= i < |bs| && 0 <= j < |bs| && bs[i].addr == bs[j].addr ==> i == j
  {
  }

  lemma {:induction false} LiveHas(bs: seq<Block>, i: nat)
    requires Disjoint(bs) && i < |bs| && !bs[i].free
    ensures bs[i].Payload() in Live(bs) && Live(bs)[bs[i].Payload()] == bs[i].size
  {
  }

  lemma {:induction false} LiveAt(bs: seq<Block>, p: nat) returns (i: nat)
    requires Disjoint(bs) && p in Live(bs)
    ensures i < |bs| && !bs[i].free && bs[i].Payload() == p && Live(bs)[p] == bs[i].size
  {
    var b :| b in UsedBlocks(bs) && b.Payload() == p;
    i :| 0 <= i < |bs| && bs[i] == b;
    LiveHas(bs, i);
  }

  lemma {:induction false} SplitLive(bs: seq<Block>, k: nat, n: nat)
    requires k < |bs| && n + HSIZE <= bs[k].size && bs[k].free
    ensures UsedBlocks(Split(bs, k, n)) == UsedBlocks(bs)
  {
  }

  lemma {:induction false} MergeLive(bs: seq<Block>, k: nat)
    requires Adjacent(bs, k)
    ensures UsedBlocks(Merge(bs, k)) == UsedBlocks(bs)
  {
  }

  lemma {:induction false} DropLive(bs: seq<Block>, k: nat)
    requires k < |bs| && bs[k].free
    ensures UsedBlocks(Drop(bs, k)) == UsedBlocks(bs)
  {
  }

  lemma {:induction false} MarkUsedLive(bs: seq<Block>, k: nat)
    requires k < |bs| && bs[k].free
    ensures UsedBlocks(Mark(bs, k, false)) == UsedBlocks(bs) + {bs[k].(free := false)}
  {
    var r := Mark(bs, k, false);
    assert bs == bs[..k] + [bs[k]] + bs[k + 1..];
    assert r == bs[..k] + [bs[k].(free := false)] + bs[k + 1..];
    forall b ensures b in UsedBlocks(r) <==> b in UsedBlocks(bs) + {bs[k].(free := false)} { }
  }

  lemma {:induction false} MarkFreeLive(bs: seq<Block>, k: nat)
    requires k < |bs| && !bs[k].free && Disjoint(bs)
    ensures UsedBlocks(Mark(bs, k, true)) == UsedBlocks(bs) - {bs[k]}
  {
    var r := Mark(bs, k, true);
    AddrsDiffer(bs);
    assert bs == bs[..k] + [bs[k]] + bs[k + 1..];
    assert r == bs[..k] + [bs[k].(free := true)] + bs[k + 1..];
    forall b ensures b in UsedBlocks(r) <==> b in UsedBlocks(bs) - {bs[k]} { }
  }

  lemma {:induction false} LiveAdd(bs: seq<Block>, r: seq<Block>, b: Block)
    requires Disjoint(bs) && Disjoint(r) && b !in UsedBlocks(bs)
    requires UsedBlocks(r) == UsedBlocks(bs) + {b}
    ensures b.Payload() !in Live(bs)
    ensures Live(r) == Live(bs)[b.Payload() := b.size]
  {
    AddrsDiffer(r);
    forall c | c in UsedBlocks(bs) ensures c.addr != b.addr {
      assert c in UsedBlocks(r) && b in UsedBlocks(r);
    }
    AddrsDiffer(bs);
  }

  lemma {:induction false} LiveRemove(bs: seq<Block>, r: seq<Block>, b: Block)
    requires Disjoint(bs) && Disjoint(r) && b in UsedBlocks(bs)
    requires UsedBlocks(r) == UsedBlocks(bs) - {b}
    ensures b.Payload() in Live(bs) && Live(bs)[b.Payload()] == b.size
    ensures Live(r) == Live(bs) - {b.Payload()}
  {
    AddrsDiffer(bs);
    forall c | c in UsedBlocks(r) ensures c.addr != b.addr {
      assert c in UsedBlocks(bs);
    }
    AddrsDiffer(r);
  }
}
