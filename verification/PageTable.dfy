/** What the packed page map means: a sequence of page states, and the functions that the
    range, claim and count operations are specified by. */
module PageTable {
  import opened Machine

  datatype PageState = PFree | PUsed | PSys | PNone

  /** Pages i to i+c-1 exist and are all free. */
  predicate RunFree(pages: seq<PageState>, i: nat, c: nat)
  {
    i + c <= |pages| && forall j :: i <= j < i + c ==> pages[j] == PFree
  }

  /** The lowest start, from i on, of a run of c free pages. */
  function FindRun(pages: seq<PageState>, c: nat, i: nat): (r: Option<nat>)
    ensures r.Some? ==> i <= r.value && RunFree(pages, r.value, c)
    ensures r.Some? ==> forall j :: i <= j < r.value ==> !RunFree(pages, j, c)
    ensures r.None? ==> forall j :: i <= j ==> !RunFree(pages, j, c)
    decreases |pages| - i
  {
    if i + c > |pages| then None
    else if RunFree(pages, i, c) then Some(i)
    else FindRun(pages, c, i + 1)
  }

  /** The pages of the run found are free, and where there is a run of c free pages, from k on,
      one is found, at k or below. */
  lemma {:induction false} LowestRun(pages: seq<PageState>, c: nat, k: nat)
    ensures FindRun(pages, c, 0).Some? ==>
              var i := FindRun(pages, c, 0).value;
              i + c <= |pages| && forall p :: i <= p < i + c ==> pages[p] == PFree
    ensures k + c <= |pages| && (forall p :: k <= p < k + c ==> pages[p] == PFree) ==>
              FindRun(pages, c, 0).Some? && FindRun(pages, c, 0).value <= k
  {
    if k + c <= |pages| && forall p :: k <= p < k + c ==> pages[p] == PFree {
      assert RunFree(pages, k, c);
    }
  }

  function SetPages(pages: seq<PageState>, lo: nat, hi: nat, st: PageState): (r: seq<PageState>)
    ensures |r| == |pages|
    ensures forall p :: 0 <= p < |r| ==> r[p] == if lo <= p < hi then st else pages[p]
  {
    seq(|pages|, p requires 0 <= p < |pages| => if lo <= p < hi then st else pages[p])
  }

  /** The number of pages in state PAGE_USED. */
  function UsedCount(pages: seq<PageState>): nat
  {
    if pages == [] then 0
    else UsedCount(pages[..|pages| - 1]) + if pages[|pages| - 1] == PUsed then 1 else 0
  }

  lemma {:induction false} UsedCountConcat(a: seq<PageState>, b: seq<PageState>)
    ensures UsedCount(a + b) == UsedCount(a) + UsedCount(b)
  {
    if b == [] {
      assert a + b == a;
    } else {
      var front := b[..|b| - 1];
      assert (a + b)[..|a + b| - 1] == a + front;
      UsedCountConcat(a, front);
    }
  }

  lemma {:induction false} UsedCountUniform(pages: seq<PageState>, used: bool)
    requires forall p :: 0 <= p < |pages| ==> (pages[p] == PUsed <==> used)
    ensures UsedCount(pages) == if used then |pages| else 0
  {
    if pages != [] {
      UsedCountUniform(pages[..|pages| - 1], used);
    }
  }

  /** Turning a uniformly used or unused range into a uniformly used or unused one moves the
      count by the length of the range. */
  lemma {:induction false} UsedCountSet(pages: seq<PageState>, lo: nat, hi: nat, st: PageState)
    requires lo <= hi <= |pages|
    requires forall p :: lo <= p < hi ==> (pages[p] == PUsed <==> st != PUsed)
    ensures UsedCount(SetPages(pages, lo, hi, st)) ==
            UsedCount(pages) + if st == PUsed then hi - lo else lo - hi
  {
    var after := SetPages(pages, lo, hi, st);
    Cut(pages, lo, hi);
    Cut(after, lo, hi);
    assert after[..lo] == pages[..lo] && after[hi..] == pages[hi..];
    UsedCountUniform(pages[lo..hi], st != PUsed);
    UsedCountUniform(after[lo..hi], st == PUsed);
  }

  lemma {:induction false} Cut(pages: seq<PageState>, lo: nat, hi: nat)
    requires lo <= hi <= |pages|
    ensures UsedCount(pages) == UsedCount(pages[..lo]) + UsedCount(pages[lo..hi]) + UsedCount(pages[hi..])
  {
    assert pages == pages[..lo] + pages[lo..hi] + pages[hi..];
    UsedCountConcat(pages[..lo] + pages[lo..hi], pages[hi..]);
    UsedCountConcat(pages[..lo], pages[lo..hi]);
  }
}
