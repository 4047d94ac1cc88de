/** The file allocation table as a value: entries, chains, and the two updates that build them.
    Entries are those of the Microsoft FAT32 File System Specification, section "FAT Data Structure". */
module FatTable {
  import opened Machine

  const EOC := 0x0FFF_FFF8        // this and above: end of chain
  const BAD := 0x0FFF_FFF7        // defective cluster
  const END_MARK := 0x0FFF_FFFF   // what allocate_cluster writes

  const ENTRY_LIMIT := 0x1000_0000  // entries have 28 bits

  type Table = seq<u32>

  /** The entry is in some chain: neither free nor marked bad. */
  predicate InUse(fat: Table, c: int)
  {
    2 <= c < |fat| && fat[c] != 0 && fat[c] != BAD
  }

  predicate HasNext(fat: Table, c: int)
  {
    InUse(fat, c) && fat[c] < EOC
  }

  /** Links stay inside the table and never point to a free or bad entry; no two entries link to
      the same one; entries 0 and 1 are reserved. */
  ghost predicate Links(fat: Table)
  {
    && 2 <= |fat| <= BAD && fat[0] != 0 && fat[1] != 0
    && (forall c :: 0 <= c < |fat| ==> fat[c] < ENTRY_LIMIT)
    && (forall c {:trigger HasNext(fat, c)} :: HasNext(fat, c) ==> InUse(fat, fat[c]))
    && (forall c, d {:trigger HasNext(fat, c), HasNext(fat, d)} ::
          HasNext(fat, c) && HasNext(fat, d) && fat[c] == fat[d] ==> c == d)
  }

  /** A number for every entry that falls along every link: there is no cycle. */
  ghost predicate Falls(fat: Table, rank: seq<nat>)
  {
    && |rank| == |fat|
    && forall c {:trigger HasNext(fat, c)} :: HasNext(fat, c) ==> fat[c] < |rank| && rank[fat[c]] < rank[c]
  }

  ghost predicate WellFormed(fat: Table)
  {
    Links(fat) && exists rank :: Falls(fat, rank)
  }

  /** The clusters that the walk in list_directory visits, first to last. */
  ghost predicate IsChain(fat: Table, cs: seq<nat>)
  {
    && cs != []
    && (forall i {:trigger cs[i]} :: 0 <= i < |cs| ==> InUse(fat, cs[i]))
    && (forall i {:trigger cs[i]} :: 0 <= i < |cs| - 1 ==> fat[cs[i]] == cs[i + 1])
    && fat[cs[|cs| - 1]] >= EOC
  }

  ghost predicate Distinct(cs: seq<nat>)
  {
    forall i, j :: 0 <= i < j < |cs| ==> cs[i] != cs[j]
  }

  function ChainFrom(fat: Table, rank: seq<nat>, c: nat): (cs: seq<nat>)
    requires Links(fat) && Falls(fat, rank) && InUse(fat, c)
    ensures IsChain(fat, cs) && cs[0] == c
    decreases rank[c]
  {
    if HasNext(fat, c) then
      var rest := ChainFrom(fat, rank, fat[c]);
      [c] + rest
    else [c]
  }

  /** From every cluster in use the walk reaches the end of a chain: it neither runs forever nor
      meets a free entry, the case the walk panics on. */
  lemma WalkEnds(fat: Table, c: nat)
    requires WellFormed(fat) && InUse(fat, c)
    ensures exists cs :: IsChain(fat, cs) && cs[0] == c && Distinct(cs)
  {
    var rank :| Falls(fat, rank);
    var cs := ChainFrom(fat, rank, c);
    ChainDistinct(fat, rank, cs);
  }

  lemma {:induction false} RankFalls(fat: Table, rank: seq<nat>, cs: seq<nat>, i: nat, j: nat)
    requires |fat| <= BAD && Falls(fat, rank) && IsChain(fat, cs) && i < j < |cs|
    ensures rank[cs[j]] < rank[cs[i]]
    decreases j - i
  {
    assert HasNext(fat, cs[j - 1]) by { assert InUse(fat, cs[j]); }
    if i < j - 1 { RankFalls(fat, rank, cs, i, j - 1); }
  }

  lemma {:induction false} ChainDistinct(fat: Table, rank: seq<nat>, cs: seq<nat>)
    requires |fat| <= BAD && Falls(fat, rank) && IsChain(fat, cs)
    ensures Distinct(cs)
  {
    forall i, j | 0 <= i < j < |cs| ensures cs[i] != cs[j] { RankFalls(fat, rank, cs, i, j); }
  }

  /** There is one chain from a given cluster. */
  lemma {:induction false} ChainUnique(fat: Table, a: seq<nat>, b: seq<nat>)
    requires |fat| <= BAD && IsChain(fat, a) && IsChain(fat, b) && a[0] == b[0]
    ensures a == b
    decreases |a|
  {
    if |a| > 1 && |b| > 1 {
      assert a[1] == fat[a[0]] == fat[b[0]] == b[1];
      ChainUnique(fat, a[1..], b[1..]);
      assert a == [a[0]] + a[1..] && b == [b[0]] + b[1..];
    }
  }

  /** Nothing links to the first cluster of a file. */
  ghost predicate IsHead(fat: Table, c: int)
  {
    forall d {:trigger HasNext(fat, d)} :: HasNext(fat, d) ==> fat[d] != c
  }

  /** Chains of different files have no cluster in common. */
  lemma {:induction false} ChainsDisjoint(fat: Table, a: seq<nat>, b: seq<nat>, i: nat, j: nat)
    requires Links(fat) && IsChain(fat, a) && IsChain(fat, b)
    requires IsHead(fat, a[0]) && IsHead(fat, b[0]) && a[0] != b[0]
    requires i < |a| && j < |b|
    ensures a[i] != b[j]
    decreases i
  {
    if a[i] == b[j] {
      if i > 0 { assert InUse(fat, a[i - 1]) && InUse(fat, a[i]) && HasNext(fat, a[i - 1]); }
      if j > 0 { assert InUse(fat, b[j - 1]) && InUse(fat, b[j]) && HasNext(fat, b[j - 1]); }
      if i > 0 && j > 0 { ChainsDisjoint(fat, a, b, i - 1, j - 1); }
    }
  }

  /** A chain survives any update of entries outside it. */
  lemma {:induction false} ChainKept(fat: Table, fat': Table, cs: seq<nat>)
    requires IsChain(fat, cs) && |fat'| == |fat| && forall c :: c in cs ==> fat'[c] == fat[c]
    ensures IsChain(fat', cs)
  {
  }

  // ----- the two updates

  /** allocate_cluster takes a free entry. */
  lemma {:induction false} TakeWellFormed(fat: Table, c: nat)
    requires WellFormed(fat) && c < |fat| && fat[c] == 0
    ensures WellFormed(fat[c := END_MARK]) && InUse(fat[c := END_MARK], c) && IsHead(fat[c := END_MARK], c)
  {
    var rank :| Falls(fat, rank);
    var after := fat[c := END_MARK];
    assert forall d :: HasNext(after, d) ==> HasNext(fat, d);
    assert Falls(after, rank);
  }

  /** write_file_fun links the last cluster of the chain so far to the one just taken. */
  lemma {:induction false} LinkWellFormed(fat: Table, p: nat, c: nat)
    requires WellFormed(fat) && InUse(fat, p) && fat[p] >= EOC && p != c
    requires InUse(fat, c) && fat[c] >= EOC && IsHead(fat, c)
    ensures WellFormed(fat[p := c])
  {
    var rank :| Falls(fat, rank);
    var after := fat[p := c];
    var rank' := seq(|rank|, i requires 0 <= i < |rank| => if i == c then 0 else rank[i] + 1);
    forall d | HasNext(after, d) ensures HasNext(fat, d) || d == p { }
    assert Falls(after, rank');
  }

  /** Taking a free entry and linking the end of a chain to it makes the chain one longer. */
  lemma {:induction false} ExtendChain(fat: Table, cs: seq<nat>, c: nat)
    requires WellFormed(fat) && 2 <= c < |fat| && fat[c] == 0
    requires cs != [] ==> IsChain(fat, cs) && IsHead(fat, cs[0])
    ensures var taken := fat[c := END_MARK];
            (cs != [] ==> cs[|cs| - 1] < |fat|) &&
            var after := if cs == [] then taken else taken[cs[|cs| - 1] := c];
            WellFormed(after) && IsChain(after, cs + [c]) && IsHead(after, (cs + [c])[0])
  {
    var taken := fat[c := END_MARK];
    TakeWellFormed(fat, c);
    if cs != [] {
      var last := cs[|cs| - 1];
      assert InUse(fat, last) && InUse(fat, cs[0]);
      LinkWellFormed(taken, last, c);
      var rank :| Falls(fat, rank);
      ChainDistinct(fat, rank, cs);
      ExtendedIsChain(fat, taken[last := c], cs, c);
      ExtendedIsHead(fat, taken[last := c], cs[0], last, c);
    }
  }

  lemma {:induction false} ExtendedIsChain(fat: Table, after: Table, cs: seq<nat>, c: nat)
    requires |fat| <= BAD && IsChain(fat, cs) && Distinct(cs) && 2 <= c < |fat| && fat[c] == 0
    requires cs[|cs| - 1] < |fat| && after == fat[c := END_MARK][cs[|cs| - 1] := c]
    ensures IsChain(after, cs + [c])
  {
  }

  lemma {:induction false} ExtendedIsHead(fat: Table, after: Table, h: nat, last: nat, c: nat)
    requires IsHead(fat, h) && h != c && c < |fat| && last < |fat| && fat[c] == 0
    requires after == fat[c := END_MARK][last := c]
    ensures IsHead(after, h)
  {
    forall d | HasNext(after, d) ensures after[d] != h {
      if d != last { assert HasNext(fat, d); }
    }
  }

  // ----- searching and counting

  /** The first free entry at or after i and before hi. */
  function FreeFrom(fat: Table, i: nat, hi: nat): (r: Option<nat>)
    requires i <= hi <= |fat|
    ensures r.Some? ==> i <= r.value < hi && fat[r.value] == 0 && forall j :: i <= j < r.value ==> fat[j] != 0
    ensures r.None? ==> forall j :: i <= j < hi ==> fat[j] != 0
    decreases hi - i
  {
    if i == hi then None else if fat[i] == 0 then Some(i) else FreeFrom(fat, i + 1, hi)
  }

  /** The first free entry in circular order from the hint. */
  function NextFree(fat: Table, hint: nat): (r: Option<nat>)
    requires hint <= |fat|
  {
    var up := FreeFrom(fat, hint, |fat|);
    if up.Some? then up else FreeFrom(fat, 0, hint)
  }

  function FreeCount(fat: Table): nat
  {
    if fat == [] then 0 else FreeCount(fat[..|fat| - 1]) + if fat[|fat| - 1] == 0 then 1 else 0
  }

  lemma {:induction false} FreeCountUpdate(fat: Table, c: nat, v: u32)
    requires c < |fat|
    ensures FreeCount(fat[c := v]) == FreeCount(fat) + (if v == 0 then 1 else 0) - (if fat[c] == 0 then 1 else 0)
  {
    var n := |fat| - 1;
    if c < n {
      assert fat[c := v][..n] == fat[..n][c := v];
      FreeCountUpdate(fat[..n], c, v);
    } else {
      assert fat[c := v][..n] == fat[..n];
    }
  }

  lemma {:induction false} FreeCountZero(fat: Table)
    ensures FreeCount(fat) == 0 <==> forall c :: 0 <= c < |fat| ==> fat[c] != 0
  {
    if fat != [] { FreeCountZero(fat[..|fat| - 1]); }
  }

  /** The search fails exactly when no entry is free, and then only. */
  lemma {:induction false} NextFreeIff(fat: Table, hint: nat)
    requires hint <= |fat|
    ensures NextFree(fat, hint).Some? <==> FreeCount(fat) > 0
    ensures NextFree(fat, hint).Some? ==>
              var r := NextFree(fat, hint).value;
              && r < |fat| && fat[r] == 0
              && (r >= hint ==> forall j :: hint <= j < r ==> fat[j] != 0)
              && (r < hint ==> (forall j :: hint <= j < |fat| ==> fat[j] != 0) && forall j :: 0 <= j < r ==>
                  fat[j] != 0)
  {
    FreeCountZero(fat);
  }

  // ----- stepping along a chain

  /** get_next_cluster_id as it is in the code: the mask keeps 24 bits. */
  function NextMasked24(entry: u32): (r: u32)
  {
    entry % 0x100_0000
  }

  /** The same with the 28 bits a FAT32 entry has. */
  function NextMasked28(entry: u32): (r: u32)
  {
    entry % ENTRY_LIMIT
  }

  /** With the 24-bit mask the test for the end of a chain never succeeds, whatever the entry;
      with 28 bits it succeeds exactly on the entries that end a chain. */
  lemma MaskDecidesEnd(entry: u32)
    ensures NextMasked24(entry) < EOC
    ensures entry < ENTRY_LIMIT ==> (NextMasked28(entry) >= EOC <==> entry >= EOC) && NextMasked28(entry) == entry
  {
  }

  /** The cluster read_file is at after i steps of get_next_cluster_id from c, as long as it stays
      inside the table. */
  function MaskedWalk(fat: Table, c: nat, i: nat): nat
  {
    if i == 0 then c
    else
      var at := MaskedWalk(fat, c, i - 1);
      if at < |fat| then NextMasked24(fat[at]) else at
  }

  /** With the 24-bit mask the loop of read_file never sees an end of chain, wherever it starts. */
  lemma {:induction false} ReadNeverEnds(fat: Table, c: nat, i: nat)
    requires |fat| <= BAD && c < |fat|
    ensures MaskedWalk(fat, c, i) < EOC
  {
    if i > 0 { ReadNeverEnds(fat, c, i - 1); }
  }

  /** On a chain of clusters below 2^24 it goes through all of them, and then on to the entry that
      the masked end mark names, one of the last eight below 2^24. */
  lemma {:induction false} ReadRunsPast(fat: Table, cs: seq<nat>, i: nat)
    requires Links(fat) && IsChain(fat, cs) && i <= |cs|
    requires forall j {:trigger cs[j]} :: 0 <= j < |cs| ==> cs[j] < 0x100_0000
    ensures if i < |cs| then MaskedWalk(fat, cs[0], i) == cs[i]
            else 0xFF_FFF8 <= MaskedWalk(fat, cs[0], i) < 0x100_0000
  {
    if i > 0 {
      ReadRunsPast(fat, cs, i - 1);
      assert InUse(fat, cs[i - 1]) && (i < |cs| ==> InUse(fat, cs[i]));
      MaskKeepsSmall(fat[cs[i - 1]]);
    } else {
      assert InUse(fat, cs[0]);
    }
  }

  lemma MaskKeepsSmall(entry: u32)
    ensures entry < 0x100_0000 ==> NextMasked24(entry) == entry
    ensures EOC <= entry < ENTRY_LIMIT ==> 0xFF_FFF8 <= NextMasked24(entry) < 0x100_0000
  {
  }

  /** With no entry free, the store that write_file_fun makes without looking at the result of
      allocate_cluster marks the last cluster of the new chain free again. */
  lemma {:induction false} LinkToNothing(fat: Table, hint: nat, p: nat)
    requires Links(fat) && hint <= |fat| && FreeCount(fat) == 0 && InUse(fat, p)
    ensures NextFree(fat, hint) == None
    ensures FreeCount(fat[p := 0]) == 1 && !InUse(fat[p := 0], p) && NextFree(fat[p := 0], hint) == Some(p)
  {
    NextFreeIff(fat, hint);
    FreeCountZero(fat);
    FreeCountUpdate(fat, p, 0);
    NextFreeIff(fat[p := 0], hint);
  }
}
