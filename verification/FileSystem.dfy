/** FAT32 files over a table and an array of clusters: allocation, writing, reading, walking. */
module FileSystem {
  import opened Machine
  import opened FatTable

  function Zeros(n: nat): (r: seq<u8>)
    ensures |r| == n && forall i :: 0 <= i < n ==> r[i] == 0
  {
    seq(n, _ => 0)
  }

  /** The clusters of a chain, one after the other. */
  function Contents(disk: seq<seq<u8>>, cs: seq<nat>): seq<u8>
  {
    if cs == [] then [] else Contents(disk, cs[..|cs| - 1]) + Cluster(disk, cs[|cs| - 1])
  }

  function Cluster(disk: seq<seq<u8>>, c: nat): seq<u8>
  {
    if c < |disk| then disk[c] else []
  }

  lemma {:induction false} ContentsKept(disk: seq<seq<u8>>, disk': seq<seq<u8>>, cs: seq<nat>)
    requires forall c {:trigger Cluster(disk', c)} :: c in cs ==> Cluster(disk', c) == Cluster(disk, c)
    ensures Contents(disk', cs) == Contents(disk, cs)
  {
    if cs != [] { ContentsKept(disk, disk', cs[..|cs| - 1]); }
  }

  /** The byte of a file that is byte x of its cluster i. */
  lemma {:induction false} ContentsAt(disk: seq<seq<u8>>, cs: seq<nat>, size: nat, i: nat, x: nat)
    requires forall j {:trigger cs[j]} :: 0 <= j < |cs| ==> cs[j] < |disk| && |disk[cs[j]]| == size
    requires i < |cs| && x < size
    ensures |Contents(disk, cs)| == |cs| * size && 0 <= i * size + x < |cs| * size
    ensures Contents(disk, cs)[i * size + x] == disk[cs[i]][x]
    decreases |cs|
  {
    var front, n := cs[..|cs| - 1], |cs| - 1;
    assert |cs| * size == n * size + size;
    if i < n {
      ContentsAt(disk, front, size, i, x);
    } else if n > 0 {
      ContentsAt(disk, front, size, 0, x);
    }
  }

  /** A file as it should be on disk: its chain, and the bytes it was written with. */
  datatype File = File(chain: seq<nat>, bytes: seq<u8>)

  /** The chain holds the bytes and then zeros to the end of its last cluster. */
  ghost predicate Stored(fat: Table, disk: seq<seq<u8>>, f: File, size: nat)
  {
    && |disk| == |fat| && IsChain(fat, f.chain) && IsHead(fat, f.chain[0])
    && |f.chain| == ClustersFor(|f.bytes|, size)
    && |f.bytes| <= |Contents(disk, f.chain)|
    && Contents(disk, f.chain) == f.bytes + Zeros(|Contents(disk, f.chain)| - |f.bytes|)
  }

  ghost predicate AllStored(fat: Table, disk: seq<seq<u8>>, files: map<nat, File>, size: nat)
  {
    forall f {:trigger files[f]} :: f in files ==>
      files[f].chain != [] && files[f].chain[0] == f && Stored(fat, disk, files[f], size)
  }

  lemma StoredMore(fat: Table, disk: seq<seq<u8>>, files: map<nat, File>, f: File, size: nat)
    requires AllStored(fat, disk, files, size) && f.chain != [] && Stored(fat, disk, f, size)
    ensures AllStored(fat, disk, files[f.chain[0] := f], size)
  {
  }

  /** Clusters for a file of the given length; an empty file still gets one. */
  function ClustersFor(len: nat, size: nat): (n: nat)
  {
    if size == 0 then 1 else
    var n := len / size + if len % size != 0 then 1 else 0;
    if n == 0 then 1 else n
  }

  lemma ClustersForIsCeiling(len: nat, size: nat)
    requires size > 0
    ensures var n := ClustersFor(len, size);
            n >= 1 && len <= n * size && (n > 1 ==> (n - 1) * size < len)
  {
  }

  class FileSystem {
    const fat: array<u32>
    const disk: array<seq<u8>>     // one element a cluster
    const clusterSize: nat
    var hint: nat                  // cluster_alloc_hint
    ghost var files: map<nat, File>  // first cluster to file

    ghost predicate Shaped()
      reads this, disk
    {
      && disk.Length == fat.Length && clusterSize > 0 && hint <= fat.Length
      && forall i :: 0 <= i < disk.Length ==> |disk[i]| == clusterSize
    }

    /** The table is well formed and every file is on disk as it was written. */
    ghost predicate Valid()
      reads this, fat, disk
    {
      && Shaped() && WellFormed(fat[..])
      && AllStored(fat[..], disk[..], files, clusterSize)
    }

    constructor (fat: array<u32>, disk: array<seq<u8>>, clusterSize: nat)
      requires disk.Length == fat.Length && clusterSize > 0 && WellFormed(fat[..])
      requires forall i :: 0 <= i < disk.Length ==> |disk[i]| == clusterSize
      ensures this.fat == fat && this.disk == disk && this.clusterSize == clusterSize
      ensures Valid() && hint == 0 && files == map[]
    {
      this.fat, this.disk, this.clusterSize := fat, disk, clusterSize;
      hint, files := 0, map[];
    }

    /** count_free_clusters */
    method CountFreeClusters() returns (count: nat)
      ensures count == FreeCount(fat[..])
    {
      count := 0;
      var i := 0;
      while i < fat.Length
        invariant 0 <= i <= fat.Length && count == FreeCount(fat[..i])
      {
        assert fat[..i + 1][..i] == fat[..i];
        if fat[i] == 0 {
          count := count + 1;
        }
        i := i + 1;
      }
      assert fat[..i] == fat[..];
    }

    /** clear_cluster, and the end mark and the new hint of allocate_cluster */
    method TakeCluster(i: nat)
      requires Shaped() && i < fat.Length
      modifies this`hint, fat, disk
      ensures Shaped() && hint == i + 1
      ensures fat[..] == old(fat[..])[i := END_MARK] && disk[..] == old(disk[..])[i := Zeros(clusterSize)]
    {
      fat[i] := END_MARK;
      disk[i] := Zeros(clusterSize);
      hint := i + 1;
    }

    /** allocate_cluster: next fit from the hint; 0 when no entry is free. */
    method AllocateCluster() returns (r: nat)
      requires Shaped()
      modifies this`hint, fat, disk
      ensures Shaped()
      ensures match NextFree(old(fat[..]), old(hint))
              case None => r == 0 && fat[..] == old(fat[..]) && disk[..] == old(disk[..]) && hint == old(hint)
              case Some(i) => r == i && hint == i + 1
                              && fat[..] == old(fat[..])[i := END_MARK] &&
                                disk[..] == old(disk[..])[i := Zeros(clusterSize)]
      ensures FreeCount(fat[..]) == FreeCount(old(fat[..])) - if FreeCount(old(fat[..])) > 0 then 1 else 0
      ensures fat.Length > 0 && old(fat[..])[0] != 0 ==> (r == 0 <==> FreeCount(old(fat[..])) == 0)
    {
      NextFreeIff(fat[..], hint);
      if NextFree(fat[..], hint).Some? { FreeCountUpdate(fat[..], NextFree(fat[..], hint).value, END_MARK); }
      ghost var table: Table := fat[..];
      var i := hint;
      while i < fat.Length
        invariant hint <= i <= fat.Length
        invariant FreeFrom(table, hint, |table|) == FreeFrom(table, i, |table|)
        invariant fat[..] == table && disk[..] == old(disk[..]) && hint == old(hint)
      {
        if fat[i] == 0 {
          TakeCluster(i);
          return i;
        }
        i := i + 1;
      }
      i := 0;
      while i < hint
        invariant 0 <= i <= hint
        invariant FreeFrom(table, 0, hint) == FreeFrom(table, i, hint)
        invariant fat[..] == table && disk[..] == old(disk[..]) && hint == old(hint)
      {
        if fat[i] == 0 {
          TakeCluster(i);
          return i;
        }
        i := i + 1;
      }
      return 0;
    }
  
    ghost predicate Holds(w: WriteState)
      reads this, fat, disk
    {
      fat[..] == w.fat && disk[..] == w.disk && hint == w.hint
    }

    /** One turn of the loop in write_file_fun: the next piece of the data goes to the next free
        cluster, which is linked to the previous one. ok is false where allocate_cluster found no
        free entry; the kernel does not look and would go on with cluster 0. */
    method WriteCluster(data: seq<u8>, written: nat, prev: nat, ghost w: WriteState) returns (ok: bool, cluster: nat,
          n: nat)
      requires Shaped() && fat as object != disk && Ready(w, data)
      requires Holds(w) && w.written == written && w.ok && prev == LastOf(w.cs)
      modifies this`hint, fat, disk
      ensures Shaped()
      ensures var v := WriteTurn(w, data, clusterSize);
              && Holds(v) && v.ok == ok
              && (ok ==> cluster != 0 && v.cs == w.cs + [cluster] && v.written == written + n)
              && (!ok ==> v.cs == w.cs)
    {
      hide NextFree;
      ReadyFacts(w, data);
      NextFreeIff(fat[..], hint);
      cluster := AllocateCluster();
      if cluster == 0 {
        return false, 0, 0;
      }
      n := if |data| - written > clusterSize then clusterSize else |data| - written;
      PutPiece(cluster, data[written..written + n]);
      if prev != 0 {
        fat[prev] := cluster;
      }
      ok := true;
    }

    /** memset, memcpy and put_cluster: one cluster of data, zeros after it. */
    method PutPiece(cluster: nat, piece: seq<u8>)
      requires Shaped() && cluster < disk.Length && |piece| <= clusterSize
      modifies disk
      ensures Shaped() && disk[..] == old(disk[..])[cluster := piece + Zeros(clusterSize - |piece|)]
    {
      var buffer := new u8[clusterSize](_ => 0);
      CopyOut(buffer, 0, piece, |piece|);
      assert buffer[..] == piece + Zeros(clusterSize - |piece|);
      disk[cluster] := buffer[..];
    }

    /** The first lines of write_file_fun. */
    method RequiredClusters(len: nat) returns (required: nat)
      requires clusterSize > 0
      ensures required == ClustersFor(len, clusterSize)
    {
      required := len / clusterSize;
      if len % clusterSize != 0 {
        required := required + 1;
      }
      if required == 0 {
        required := required + 1;  // at least one cluster
      }
    }

    /** That turn with the loop's variables: the totals after turn i + 1. */
    method Turn(data: seq<u8>, written0: nat, prev0: nat, first0: nat, ghost start: WriteState, ghost i: nat)
      returns (ok: bool, written: nat, prev: nat, first: nat)
      requires Shaped() && fat as object != disk && Ready(start, data)
      requires var w := WriteTurns(start, data, clusterSize, i);
               Holds(w) && w.ok && w.written == written0 && prev0 == LastOf(w.cs) && first0 == FirstOf(w.cs)
      modifies this`hint, fat, disk
      ensures Shaped()
      ensures var w := WriteTurns(start, data, clusterSize, i + 1);
              Holds(w) && w.ok == ok && (ok ==> w.written == written && prev == LastOf(w.cs) && first == FirstOf(w.cs))
    {
      hide WriteTurn, WriteTurns, Ready, Shaped;
      TurnsNext(start, data, clusterSize, i);
      ghost var w: WriteState := WriteTurns(start, data, clusterSize, i);
      var cluster: nat, n: nat;
      ok, cluster, n := WriteCluster(data, written0, prev0, w);
      LastOfMore(w.cs, cluster);
      first := first0;
      if first == 0 {
        first := cluster;
      }
      written := written0 + n;
      prev := cluster;
    }

    /** The cluster loop of write_file_fun, for a file that starts on a new cluster. */
    method BuildChain(data: seq<u8>) returns (ok: bool, first: nat)
      requires Shaped() && Links(fat[..]) && fat as object != disk
      modifies this`hint, fat, disk
      ensures Shaped()
      ensures var w := WriteTurns(WriteStart(old(fat[..]), old(disk[..]), old(hint)), data, clusterSize,
                                  ClustersFor(|data|, clusterSize));
              Holds(w) && ok == w.ok && (ok ==> first == FirstOf(w.cs))
    {
      var required := RequiredClusters(|data|);
      ghost var start: WriteState := WriteStart(fat[..], disk[..], hint);
      assert Ready(start, data) && WriteTurns(start, data, clusterSize, 0) == start && Holds(start);
      hide WriteTurn, WriteTurns, ClustersFor, Ready, Links, Shaped, LastOf, FirstOf, Holds;
      var written: nat, prev: nat, i: nat := 0, 0, 0;
      ok, first := true, 0;
      while i < required
        invariant i <= required && Shaped() && ok
        invariant var w := WriteTurns(start, data, clusterSize, i);
                  Holds(w) && w.ok && w.written == written && prev == LastOf(w.cs) && first == FirstOf(w.cs)
      {
        ok, written, prev, first := Turn(data, written, prev, first, start, i);
        i := i + 1;
        if !ok {
          Stopped(start, data, clusterSize, i, required);
          return;
        }
      }
    }

    /** write_file_fun on disk, for a file that starts on a new cluster. It succeeds exactly when
        there are enough free clusters, and then the chain it builds is new, holds the data
        followed by zeros, and leaves every other entry and cluster as it was. */
    method WriteClusters(data: seq<u8>) returns (ok: bool, first: nat, ghost cs: seq<nat>)
      requires Valid() && fat as object != disk
      modifies this, fat, disk
      ensures Valid()
      ensures ok <==> ClustersFor(|data|, clusterSize) <= FreeCount(old(fat[..]))
      ensures ok ==> IsChain(fat[..], cs) && cs[0] == first && Distinct(cs) && |cs| == ClustersFor(|data|, clusterSize)
      ensures ok ==> 2 <= first < fat.Length <= BAD && first in cs
      ensures ok ==> first !in old(files) && files == old(files)[first := File(cs, data)]
      ensures !ok ==> files == old(files) && FreeCount(fat[..]) == 0
      ensures FreeCount(fat[..]) == FreeCount(old(fat[..])) - |cs|
      ensures forall c :: c in cs ==> c < fat.Length && old(fat[..])[c] == 0
      ensures Picked(old(fat[..]), old(hint), fat[..], cs)
      ensures hint == if cs == [] then old(hint) else cs[|cs| - 1] + 1
      ensures forall c :: 0 <= c < fat.Length && c !in cs ==>
                fat[..][c] == old(fat[..])[c] && disk[..][c] == old(disk[..])[c]
    {
      hide TableBuilt, DataBuilt, Contents, ClustersFor, IsChain, IsHead, Distinct, WriteTurns, Stored, AllStored;
      ghost var fat0: Table, disk0: seq<seq<u8>>, hint0: nat := fat[..], disk[..], hint;
      ok, first := BuildChain(data);
      ghost var w: WriteState := WriteTurns(WriteStart(fat0, disk0, hint0), data, clusterSize,
                                            ClustersFor(|data|, clusterSize));
      cs := w.cs;
      LoopBuilds(fat0, disk0, hint0, data, clusterSize);
      hide WellFormed, Picked;
      TableFacts(fat0, w.fat, cs);
      DataKept(disk0, w.disk, cs, data, w.written);
      TurnsPick(fat0, disk0, hint0, data, clusterSize, ClustersFor(|data|, clusterSize));
      OthersStored(fat0, disk0, w.fat, w.disk, cs, data, w.written, files, clusterSize);
      if ok {
        BuiltIsStored(fat0, disk0, w.fat, w.disk, cs, data, clusterSize);
        StoredMore(fat[..], disk[..], files, File(cs, data), clusterSize);
        files := files[first := File(cs, data)];
      }
    }

    /** get_next_cluster_id, with the mask of 28 bits. */
    method GetNextClusterId(cluster: nat) returns (next: u32)
      requires cluster < fat.Length
      ensures fat[cluster] < ENTRY_LIMIT ==> next == fat[cluster]
      ensures fat[cluster] < ENTRY_LIMIT ==> (next >= EOC <==> fat[cluster] >= EOC)
      ensures next < ENTRY_LIMIT && (fat[cluster] - next) % ENTRY_LIMIT == 0
    {
      next := NextMasked28(fat[cluster]);
    }

    /** The walk of list_directory. ok is false where it panics over a free entry: on a table that
        is well formed, exactly when the first cluster is free itself. From a cluster in use it
        counts the clusters of the chain; from a reserved entry that is an end mark, one. */
    method CountClusters(first: nat) returns (ok: bool, count: nat, ghost chain: seq<nat>)
      requires WellFormed(fat[..]) && first < fat.Length && fat[first] != BAD
      requires first < 2 ==> fat[first] >= EOC
      ensures ok <==> fat[first] != 0
      ensures ok && 2 <= first ==> IsChain(fat[..], chain) && chain[0] == first && Distinct(chain) && count == |chain|
      ensures first < 2 ==> count == 1
    {
      if InUse(fat[..], first) {
        WalkEnds(fat[..], first);
        chain :| IsChain(fat[..], chain) && chain[0] == first && Distinct(chain);
      } else {
        chain := [first];
      }
      hide WellFormed, Distinct;
      var cluster: nat := first;
      count := 1;
      while true
        invariant 1 <= count <= |chain| && cluster == chain[count - 1] < fat.Length
        decreases |chain| - count
      {
        assert InUse(fat[..], first) ==>
            InUse(fat[..], chain[count - 1]) && (count < |chain| ==> InUse(fat[..], chain[count]));
        cluster := fat[cluster];
        if cluster >= EOC {
          break;
        }
        if cluster == 0 {
          return false, count, chain;
        }
        count := count + 1;
      }
      ok := true;
    }

    /** One turn of the loop in read_file: as much of the cluster as the file still lacks. */
    method CopyCluster(file: array<u8>, at: nat, copied: nat, ghost chain: seq<nat>, ghost k: nat, cluster: nat)
      returns (toCopy: nat)
      requires Shaped() && k < |chain| && cluster == chain[k] < disk.Length && file as object != disk
      requires at == |Contents(disk[..], chain[..k])| && Copied(file[..], Contents(disk[..], chain[..k]))
      requires copied == if at <= file.Length then at else file.Length
      modifies file
      ensures copied + toCopy == if at + clusterSize <= file.Length then at + clusterSize else file.Length
      ensures |Contents(disk[..], chain[..k + 1])| == at + clusterSize
      ensures Copied(file[..], Contents(disk[..], chain[..k + 1]))
    {
      hide Contents, Copied;
      ghost var bytes, before := Contents(disk[..], chain[..k]), file[..];
      var copyBytes := disk[cluster];
      var remaining := file.Length - copied;
      toCopy := if remaining > clusterSize then clusterSize else remaining;
      ContentsNext(disk[..], chain, k);
      CopyOut(file, at, copyBytes, toCopy);
      CopiedMore(before, file[..], bytes, copyBytes, toCopy);
    }

    /** read_file: the first `size` bytes of the clusters on the chain. */
    method ReadFile(first: nat, size: u32, ghost chain: seq<nat>) returns (file: array<u8>)
      requires Shaped() && Links(fat[..]) && IsChain(fat[..], chain) && chain[0] == first
      ensures fresh(file) && file.Length == size
      ensures var all := Contents(disk[..], chain);
              if size <= |all| then file[..] == all[..size] else file[..|all|] == all
    {
      hide Contents, Copied, Links, IsChain;
      ghost var table: Table, store: seq<seq<u8>> := fat[..], disk[..];
      ChainInTable(table, chain);
      file := new u8[size];
      var cluster: nat := first;
      var copied, at := 0, 0;
      ghost var k := 0;
      CopiedNone(file[..], store, chain);
      while true
        invariant 0 <= k < |chain| && cluster == chain[k]
        invariant 0 <= copied <= size && at == |Contents(store, chain[..k])|
        invariant copied == if at <= size then at else size
        invariant Copied(file[..], Contents(store, chain[..k]))
        invariant fat[..] == table && disk[..] == store
        modifies file
        decreases |chain| - k
      {
        InChain(table, chain, k);
        var toCopy := CopyCluster(file, at, copied, chain, k, cluster);
        at := at + clusterSize;
        copied := copied + toCopy;
        k := k + 1;
        cluster := GetNextClusterId(cluster);
        if cluster >= EOC {
          break;
        }
      }
      assert chain[..k] == chain;
      CopiedAll(file[..], Contents(store, chain));
    }

    /** read_file on a file written here, however many others were written before or after it. */
    method ReadBack(first: nat, size: u32) returns (file: array<u8>)
      requires Valid() && first in files && size == |files[first].bytes|
      ensures fresh(file) && file[..] == files[first].bytes
    {
      ghost var f: File := files[first];
      file := ReadFile(first, size, f.chain);
    }
  }

  // ----- building a chain

  /** cs is a chain of entries that were free, and no other entry has changed. */
  ghost predicate TableBuilt(fat0: Table, fat: Table, cs: seq<nat>)
  {
    && |fat| == |fat0| && WellFormed(fat)
    && (cs != [] ==> IsChain(fat, cs) && IsHead(fat, cs[0]))
    && (forall i {:trigger cs[i]} :: 0 <= i < |cs| ==> 2 <= cs[i] < |fat0| && fat0[cs[i]] == 0)
    && (forall c :: 0 <= c < |fat| && c !in cs ==> fat[c] == fat0[c])
    && FreeCount(fat) == FreeCount(fat0) - |cs|
  }

  /** The clusters of cs hold the data written so far and zeros; no other cluster has changed. */
  ghost predicate DataBuilt(disk0: seq<seq<u8>>, disk: seq<seq<u8>>, cs: seq<nat>, data: seq<u8>, written: nat)
  {
    && |disk| == |disk0| && written <= |data| && written <= |Contents(disk, cs)|
    && (forall c :: 0 <= c < |disk| && c !in cs ==> disk[c] == disk0[c])
    && Contents(disk, cs) == data[..written] + Zeros(|Contents(disk, cs)| - written)
  }

  /** The link store of the loop: skipped on the first turn, where prev is 0. */
  function WithLink(fat: Table, prev: nat, c: u32): Table
    requires prev < |fat|
  {
    if prev != 0 then fat[prev := c] else fat
  }

  lemma BuildStart(fat: Table, disk: seq<seq<u8>>, data: seq<u8>)
    requires WellFormed(fat)
    ensures TableBuilt(fat, fat, []) && DataBuilt(disk, disk, [], data, 0) && Contents(disk, []) == []
  {
  }

  lemma TableSizes(fat0: Table, fat: Table, cs: seq<nat>)
    requires TableBuilt(fat0, fat, cs)
    ensures FreeCount(fat) == FreeCount(fat0) - |cs| && (cs != [] ==> 2 <= cs[0])
    ensures 2 <= |fat| == |fat0| && fat[0] != 0 && fat[1] != 0 && |fat| <= BAD
    ensures cs != [] ==> 2 <= cs[|cs| - 1] < |fat|
  {
  }

  lemma NewCluster(fat0: Table, fat: Table, cs: seq<nat>, c: nat)
    requires TableBuilt(fat0, fat, cs) && c < |fat| && fat[c] == 0
    ensures c !in cs && 2 <= c
  {
    TableFacts(fat0, fat, cs);
  }

  lemma TableFacts(fat0: Table, fat: Table, cs: seq<nat>)
    requires TableBuilt(fat0, fat, cs)
    ensures |fat| == |fat0| && WellFormed(fat) && 2 <= |fat| <= BAD && fat[0] != 0 && fat[1] != 0
    ensures cs != [] ==> IsChain(fat, cs) && IsHead(fat, cs[0]) && 2 <= cs[0] && 2 <= cs[|cs| - 1] < |fat|
    ensures forall c :: c in cs ==> 2 <= c < |fat| && fat0[c] == 0 && fat[c] != 0
    ensures forall c :: 0 <= c < |fat| && c !in cs ==> fat[c] == fat0[c]
    ensures FreeCount(fat) == FreeCount(fat0) - |cs|
  {
    forall c | c in cs ensures 2 <= c < |fat| && fat0[c] == 0 && fat[c] != 0 {
      var i :| 0 <= i < |cs| && cs[i] == c;
      assert InUse(fat, cs[i]);
    }
    if cs != [] { assert InUse(fat, cs[0]) && InUse(fat, cs[|cs| - 1]); }
  }

  lemma {:induction false} TableStep(fat0: Table, fat: Table, cs: seq<nat>, c: nat)
    requires TableBuilt(fat0, fat, cs) && 2 <= c < |fat| && fat[c] == 0
    requires cs != [] ==> cs[|cs| - 1] < |fat|
    ensures LastOf(cs) < |fat| && TableBuilt(fat0, WithLink(fat[c := END_MARK], LastOf(cs), c), cs + [c])
  {
    hide WellFormed, IsChain, IsHead, FreeCount, TableBuilt;
    TableFacts(fat0, fat, cs);
    ExtendChain(fat, cs, c);
    var taken := fat[c := END_MARK];
    FreeCountUpdate(fat, c, END_MARK);
    if cs != [] { FreeCountUpdate(taken, cs[|cs| - 1], c); }
    var after := if cs == [] then taken else taken[cs[|cs| - 1] := c];
    TableIs(fat0, fat, after, cs, c);
  }

  // The pieces of a table one cluster further.
  lemma {:induction false} TableIs(fat0: Table, fat: Table, after: Table, cs: seq<nat>, c: nat)
    requires |after| == |fat| == |fat0| && WellFormed(after) && IsChain(after, cs + [c]) && IsHead(after, (cs + [c])[0])
    requires 2 <= c < |fat| && fat[c] == 0
    requires forall d :: d in cs ==> 2 <= d < |fat| && fat0[d] == 0 && fat[d] != 0
    requires forall d :: 0 <= d < |fat| && d !in cs ==> fat[d] == fat0[d]
    requires forall d :: 0 <= d < |fat| && d != c && d !in cs ==> after[d] == fat[d]
    requires FreeCount(after) == FreeCount(fat0) - |cs| - 1
    ensures TableBuilt(fat0, after, cs + [c])
  {
    hide WellFormed, IsChain, IsHead, FreeCount;
    var r := cs + [c];
    forall i | 0 <= i < |r| ensures 2 <= r[i] < |fat0| && fat0[r[i]] == 0 {
      if i < |cs| { assert cs[i] in cs; }
    }
    forall d | 0 <= d < |fat| && d !in r ensures after[d] == fat0[d] {
      assert d !in cs && d != c;
    }
  }

  lemma PieceFits(data: seq<u8>, written: nat, n: nat, size: nat, before: seq<u8>)
    requires n <= size && written + n <= |data|
    requires |before| == written && before == data[..written] + Zeros(0)
    ensures before + (data[written..written + n] + Zeros(size - n)) == data[..written + n] + Zeros(size - n)
  {
  }

  lemma {:induction false} DataStep(disk0: seq<seq<u8>>, disk: seq<seq<u8>>, cs: seq<nat>, data: seq<u8>, written: nat,
                                    c: nat, n: nat, size: nat)
    requires DataBuilt(disk0, disk, cs, data, written) && |Contents(disk, cs)| == written
    requires c < |disk| && c !in cs && n <= size && written + n <= |data|
    ensures var disk' := disk[c := data[written..written + n] + Zeros(size - n)];
            DataBuilt(disk0, disk', cs + [c], data, written + n) && |Contents(disk', cs + [c])| == written + size
  {
    var r, piece := cs + [c], data[written..written + n] + Zeros(size - n);
    var disk' := disk[c := piece];
    ContentsKept(disk, disk', cs);
    ContentsNext(disk', r, |cs|);
    hide Contents, Zeros;
    assert r[..|cs|] == cs && r[..|cs| + 1] == r;
    PieceFits(data, written, n, size, Contents(disk, cs));
    forall d | 0 <= d < |disk| && d !in r ensures disk'[d] == disk0[d] {
      assert d !in cs && d != c;
    }
  }

  /** How far the write loop is after i turns: a whole number of clusters, or done. */
  ghost predicate Progress(len: nat, size: nat, i: nat, required: nat, written: nat)
  {
    && i <= required && 1 <= required && len <= Times(required, size)
    && (required > 1 ==> Times(required - 1, size) < len)
    && if i == required then written == len else written == Times(i, size) <= len
  }

  // Kept apart so that products stay out of the proofs about the loop.
  function Times(a: nat, b: nat): (r: nat)
  {
    a * b
  }

  lemma ProgressStart(len: nat, size: nat)
    requires size > 0
    ensures Progress(len, size, 0, ClustersFor(len, size), 0)
  {
  }

  // ----- the write loop as a function

  /** ok turns false, and stays so, on the first turn that finds no free entry. */
  datatype WriteState = WriteState(fat: Table, disk: seq<seq<u8>>, hint: nat, cs: seq<nat>, written: nat, ok: bool)

  function WriteStart(fat: Table, disk: seq<seq<u8>>, hint: nat): WriteState
  {
    WriteState(fat, disk, hint, [], 0, true)
  }

  function FirstOf(cs: seq<nat>): nat
  {
    if cs == [] then 0 else cs[0]
  }

  function LastOf(cs: seq<nat>): nat
  {
    if cs == [] then 0 else cs[|cs| - 1]
  }

  ghost predicate Ready(w: WriteState, data: seq<u8>)
  {
    && 2 <= |w.fat| <= BAD && w.fat[0] != 0 && |w.disk| == |w.fat| && w.hint <= |w.fat|
    && LastOf(w.cs) < |w.fat| && w.written <= |data| && (w.cs != [] ==> w.cs[0] != 0)
  }

  ghost function WriteTurn(w: WriteState, data: seq<u8>, size: nat): WriteState
    requires Ready(w, data)
  {
    match NextFree(w.fat, w.hint)
    case None => w.(ok := false)
    case Some(c) =>
      var n := if |data| - w.written > size then size else |data| - w.written;
      WriteState(WithLink(w.fat[c := END_MARK], LastOf(w.cs), c),
                 w.disk[c := data[w.written..w.written + n] + Zeros(size - n)],
                 c + 1, w.cs + [c], w.written + n, true)
  }

  lemma ReadyTurn(w: WriteState, data: seq<u8>, size: nat)
    requires Ready(w, data)
    ensures Ready(WriteTurn(w, data, size), data)
  {
  }

  lemma ReadyFacts(w: WriteState, data: seq<u8>)
    requires Ready(w, data)
    ensures 2 <= |w.fat| <= BAD && w.fat[0] != 0 && |w.disk| == |w.fat| && w.hint <= |w.fat|
    ensures LastOf(w.cs) < |w.fat| && w.written <= |data| && (w.cs != [] ==> w.cs[0] != 0)
  {
  }

  ghost function WriteTurns(w: WriteState, data: seq<u8>, size: nat, i: nat): (v: WriteState)
    requires Ready(w, data)
    ensures Ready(v, data)
  {
    if i == 0 then w
    else
      var v := WriteTurns(w, data, size, i - 1);
      if v.ok then ReadyTurn(v, data, size); WriteTurn(v, data, size) else v
  }

  lemma LastOfMore(cs: seq<nat>, c: nat)
    ensures LastOf(cs + [c]) == c && FirstOf(cs + [c]) == if cs == [] then c else FirstOf(cs)
  {
  }

  lemma {:induction false} TurnsNext(w: WriteState, data: seq<u8>, size: nat, i: nat)
    requires Ready(w, data) && WriteTurns(w, data, size, i).ok
    ensures var v := WriteTurns(w, data, size, i);
            WriteTurns(w, data, size, i + 1) == WriteTurn(v, data, size) && (v.cs != [] ==> v.cs[0] != 0)
  {
  }

  lemma {:induction false} Stopped(w: WriteState, data: seq<u8>, size: nat, i: nat, j: nat)
    requires Ready(w, data) && i <= j && !WriteTurns(w, data, size, i).ok
    ensures WriteTurns(w, data, size, j) == WriteTurns(w, data, size, i)
    decreases j
  {
    if i < j { Stopped(w, data, size, i, j - 1); }
  }

  lemma StartReady(fat: Table, disk: seq<seq<u8>>, hint: nat, data: seq<u8>)
    requires WellFormed(fat) && |disk| == |fat| && hint <= |fat|
    ensures Ready(WriteStart(fat, disk, hint), data)
  {
  }

  /** After i turns: a chain of i clusters, all of them new, holding the data so far; or the
      table is full. */
  lemma {:induction false} TurnsBuild(fat0: Table, disk0: seq<seq<u8>>, hint0: nat, data: seq<u8>, size: nat, i: nat)
    requires WellFormed(fat0) && |disk0| == |fat0| && hint0 <= |fat0| && size > 0 && i <= ClustersFor(|data|, size)
    ensures var w := WriteTurns(WriteStart(fat0, disk0, hint0), data, size, i);
            var required := ClustersFor(|data|, size);
            && TableBuilt(fat0, w.fat, w.cs) && DataBuilt(disk0, w.disk, w.cs, data, w.written)
            && (if w.ok then |w.cs| == i && Progress(|data|, size, i, required, w.written)
                             && (i < required ==> |Contents(w.disk, w.cs)| == w.written)
                else |w.cs| < required && FreeCount(w.fat) == 0)
    decreases i
  {
    hide TableBuilt, DataBuilt, Contents, Progress, FreeCount, WellFormed, WriteTurn, Ready, ClustersFor;
    var start := WriteStart(fat0, disk0, hint0);
    StartReady(fat0, disk0, hint0, data);
    if i == 0 {
      ProgressStart(|data|, size);
      BuildStart(fat0, disk0, data);
    } else {
      TurnsBuild(fat0, disk0, hint0, data, size, i - 1);
      var w := WriteTurns(start, data, size, i - 1);
      if w.ok { TurnBuilds(fat0, disk0, w, data, size, i - 1, ClustersFor(|data|, size)); }
    }
  }

  lemma {:induction false} TurnBuilds(fat0: Table, disk0: seq<seq<u8>>, w: WriteState, data: seq<u8>, size: nat,
                                      i: nat, required: nat)
    requires Ready(w, data) && w.ok && TableBuilt(fat0, w.fat, w.cs) && DataBuilt(disk0, w.disk, w.cs, data, w.written)
    requires i < required && |w.cs| == i && Progress(|data|, size, i, required, w.written)
    requires |Contents(w.disk, w.cs)| == w.written
    ensures var v := WriteTurn(w, data, size);
            && TableBuilt(fat0, v.fat, v.cs) && DataBuilt(disk0, v.disk, v.cs, data, v.written)
            && (if v.ok then |v.cs| == i + 1 && Progress(|data|, size, i + 1, required, v.written)
                             && (i + 1 < required ==> |Contents(v.disk, v.cs)| == v.written)
                else |v.cs| < required && FreeCount(v.fat) == 0)
  {
    hide TableBuilt, DataBuilt, Contents, Progress, FreeCount, NextFree, WithLink, Times;
    NextFreeIff(w.fat, w.hint);
    var v := WriteTurn(w, data, size);
    if v.ok {
      var c, n := NextFree(w.fat, w.hint).value, v.written - w.written;
      NewCluster(fat0, w.fat, w.cs, c);
      TableStep(fat0, w.fat, w.cs, c);
      DataStep(disk0, w.disk, w.cs, data, w.written, c, n, size);
      ProgressStep(|data|, size, i, required, w.written, n);
    }
  }

  /** The whole loop: it runs to the end exactly when there are enough free entries. */
  lemma LoopBuilds(fat0: Table, disk0: seq<seq<u8>>, hint0: nat, data: seq<u8>, size: nat)
    requires WellFormed(fat0) && |disk0| == |fat0| && hint0 <= |fat0| && size > 0
    ensures var required := ClustersFor(|data|, size);
            var w := WriteTurns(WriteStart(fat0, disk0, hint0), data, size, required);
            && TableBuilt(fat0, w.fat, w.cs) && DataBuilt(disk0, w.disk, w.cs, data, w.written)
            && (w.ok <==> required <= FreeCount(fat0))
            && (if w.ok then |w.cs| == required >= 1 && w.written == |data| else FreeCount(w.fat) == 0)
  {
    assert ClustersFor(|data|, size) >= 1;
    hide ClustersFor, Times, Ready, TableBuilt, DataBuilt, WriteTurns;
    StartReady(fat0, disk0, hint0, data);
    var required := ClustersFor(|data|, size);
    TurnsBuild(fat0, disk0, hint0, data, size, required);
    var w := WriteTurns(WriteStart(fat0, disk0, hint0), data, size, required);
    TableSizes(fat0, w.fat, w.cs);
  }

  // ----- which clusters the loop takes

  /** Where the search for cluster i of the chain starts. */
  function HintAt(hint0: nat, cs: seq<nat>, i: nat): nat
    requires i <= |cs|
  {
    if i == 0 then hint0 else cs[i - 1] + 1
  }

  /** c is the first entry at or after from, going round, that was free and is not yet taken. */
  ghost predicate PicksNext(fat0: Table, taken: seq<nat>, from: nat, c: nat)
  {
    if from <= c then forall x :: from <= x < c && x < |fat0| ==> fat0[x] != 0 || x in taken
    else (forall x :: from <= x < |fat0| ==> fat0[x] != 0 || x in taken)
         && forall x :: 0 <= x < c && x < |fat0| ==> fat0[x] != 0 || x in taken
  }

  ghost predicate Picked(fat0: Table, hint0: nat, fat: Table, cs: seq<nat>)
  {
    && (forall i {:trigger cs[..i]} :: 0 <= i < |cs| ==> PicksNext(fat0, cs[..i], HintAt(hint0, cs, i), cs[i]))
    && (cs != [] ==> cs[|cs| - 1] < |fat| && fat[cs[|cs| - 1]] == END_MARK)
  }

  lemma {:induction false} PickedMore(fat0: Table, hint0: nat, fat: Table, cs: seq<nat>, c: nat, after: Table)
    requires Picked(fat0, hint0, fat, cs) && PicksNext(fat0, cs, HintAt(hint0, cs, |cs|), c)
    requires c < |after| && after[c] == END_MARK
    ensures Picked(fat0, hint0, after, cs + [c])
  {
    var r := cs + [c];
    hide PicksNext;
    forall i | 0 <= i < |r| ensures PicksNext(fat0, r[..i], HintAt(hint0, r, i), r[i]) {
      if i < |cs| { assert r[..i] == cs[..i]; } else { assert r[..i] == cs; }
    }
  }

  // What the search in the table so far says about the table at the start.
  lemma {:induction false} SearchPicks(fat0: Table, fat: Table, cs: seq<nat>, hint: nat)
    requires TableBuilt(fat0, fat, cs) && hint <= |fat| && NextFree(fat, hint).Some?
    ensures NextFree(fat, hint).value < |fat| && fat[NextFree(fat, hint).value] == 0
    ensures PicksNext(fat0, cs, hint, NextFree(fat, hint).value)
  {
    NextFreeIff(fat, hint);
    TableFacts(fat0, fat, cs);
    hide TableBuilt, WellFormed, IsChain, IsHead, NextFree;
    assert forall x :: 0 <= x < |fat| && fat[x] != 0 ==> fat0[x] != 0 || x in cs;
  }

  lemma {:induction false} TurnsPick(fat0: Table, disk0: seq<seq<u8>>, hint0: nat, data: seq<u8>, size: nat, i: nat)
    requires WellFormed(fat0) && |disk0| == |fat0| && hint0 <= |fat0| && size > 0 && i <= ClustersFor(|data|, size)
    ensures var w := WriteTurns(WriteStart(fat0, disk0, hint0), data, size, i);
            Picked(fat0, hint0, w.fat, w.cs) && w.hint == HintAt(hint0, w.cs, |w.cs|)
    decreases i
  {
    hide TableBuilt, DataBuilt, Contents, Progress, FreeCount, WellFormed, WriteTurn, ClustersFor, Picked;
    StartReady(fat0, disk0, hint0, data);
    if i == 0 {
      PickedNone(fat0, hint0, fat0);
    } else {
      TurnsPick(fat0, disk0, hint0, data, size, i - 1);
      TurnsBuild(fat0, disk0, hint0, data, size, i - 1);
      var w := WriteTurns(WriteStart(fat0, disk0, hint0), data, size, i - 1);
      if w.ok { TurnPicks(fat0, hint0, w, data, size); }
    }
  }

  lemma PickedNone(fat0: Table, hint0: nat, fat: Table)
    ensures Picked(fat0, hint0, fat, [])
  {
  }

  lemma {:induction false} TurnPicks(fat0: Table, hint0: nat, w: WriteState, data: seq<u8>, size: nat)
    requires Ready(w, data) && TableBuilt(fat0, w.fat, w.cs)
    requires Picked(fat0, hint0, w.fat, w.cs) && w.hint == HintAt(hint0, w.cs, |w.cs|)
    ensures var v := WriteTurn(w, data, size);
            Picked(fat0, hint0, v.fat, v.cs) && v.hint == HintAt(hint0, v.cs, |v.cs|)
  {
    hide TableBuilt, Picked, PicksNext;
    var v := WriteTurn(w, data, size);
    if NextFree(w.fat, w.hint).Some? {
      var c := NextFree(w.fat, w.hint).value;
      SearchPicks(fat0, w.fat, w.cs, w.hint);
      NewCluster(fat0, w.fat, w.cs, c);
      assert w.cs != [] ==> w.cs[|w.cs| - 1] in w.cs;
      PickedMore(fat0, hint0, w.fat, w.cs, c, v.fat);
    }
  }

  /** What that means for the clusters of a chain the loop built: each is the first entry, going
      round from just past the one before, that was free and is not in the chain yet; and each is
      linked to the next, the last one marked as the end. */
  lemma {:induction false} PickedIs(fat0: Table, hint0: nat, fat: Table, cs: seq<nat>, i: nat)
    requires Picked(fat0, hint0, fat, cs) && IsChain(fat, cs) && |fat| == |fat0| && i < |cs|
    ensures cs[i] < |fat| && fat[cs[i]] == if i + 1 < |cs| then cs[i + 1] else 0x0FFF_FFFF
    ensures var from := if i == 0 then hint0 else cs[i - 1] + 1;
            if from <= cs[i]
            then forall x :: from <= x < cs[i] ==> fat0[x] != 0 || x in cs[..i]
            else (forall x :: from <= x < |fat0| ==> fat0[x] != 0 || x in cs[..i])
                 && forall x :: 0 <= x < cs[i] ==> fat0[x] != 0 || x in cs[..i]
  {
    assert InUse(fat, cs[i]) && PicksNext(fat0, cs[..i], HintAt(hint0, cs, i), cs[i]);
    assert i + 1 < |cs| ==> fat[cs[i]] == cs[i + 1];
    hide IsChain, Picked;
  }

  /** Byte x of cluster i of a stored file is the byte of the file at that place, or 0 past its end. */
  lemma {:induction false} StoredByte(fat: Table, disk: seq<seq<u8>>, f: File, size: nat, i: nat, x: nat)
    requires Stored(fat, disk, f, size) && forall c :: 0 <= c < |disk| ==> |disk[c]| == size
    requires i < |f.chain| && x < size
    ensures f.chain[i] < |disk|
    ensures 0 <= i * size + x && disk[f.chain[i]][x] == if i * size + x < |f.bytes| then f.bytes[i * size + x] else 0
  {
    ChainInTable(fat, f.chain);
    ContentsAt(disk, f.chain, size, i, x);
    var at, all := i * size + x, Contents(disk, f.chain);
    hide Contents, IsChain, IsHead, ClustersFor;
    assert all == f.bytes + Zeros(|all| - |f.bytes|);
    assert all[at] == if at < |f.bytes| then f.bytes[at] else 0;
  }

  lemma DataKept(disk0: seq<seq<u8>>, disk: seq<seq<u8>>, cs: seq<nat>, data: seq<u8>, written: nat)
    requires DataBuilt(disk0, disk, cs, data, written)
    ensures forall c :: 0 <= c < |disk| && c !in cs ==> disk[c] == disk0[c]
  {
  }

  // Only the last piece can be short.
  lemma ProgressStep(len: nat, size: nat, i: nat, required: nat, written: nat, n: nat)
    requires Progress(len, size, i, required, written) && i < required
    requires n == if len - written > size then size else len - written
    ensures Progress(len, size, i + 1, required, written + n)
    ensures i + 1 < required ==> n == size
  {
  }

  /** Files written before are still on disk. */
  lemma {:induction false} OthersStored(fat0: Table, disk0: seq<seq<u8>>, fat: Table, disk: seq<seq<u8>>, cs: seq<nat>,
                                        data: seq<u8>, written: nat, files: map<nat, File>, size: nat)
    requires TableBuilt(fat0, fat, cs) && DataBuilt(disk0, disk, cs, data, written) && |disk0| == |fat0|
    requires AllStored(fat0, disk0, files, size)
    ensures AllStored(fat, disk, files, size)
    ensures cs != [] ==> cs[0] !in files
  {
    forall f | f in files ensures Stored(fat, disk, files[f], size) {
      StoredKept(fat0, disk0, fat, disk, cs, data, written, files[f], size);
    }
    if cs != [] && cs[0] in files {
      StoredHead(fat0, disk0, files[cs[0]], size);
    }
  }

  lemma StoredHead(fat: Table, disk: seq<seq<u8>>, f: File, size: nat)
    requires Stored(fat, disk, f, size)
    ensures f.chain[0] < |fat| && fat[f.chain[0]] != 0
  {
    assert InUse(fat, f.chain[0]);
  }

  lemma {:induction false} StoredKept(fat0: Table, disk0: seq<seq<u8>>, fat: Table, disk: seq<seq<u8>>, cs: seq<nat>,
                                      data: seq<u8>, written: nat, f: File, size: nat)
    requires TableBuilt(fat0, fat, cs) && DataBuilt(disk0, disk, cs, data, written)
    requires Stored(fat0, disk0, f, size)
    ensures Stored(fat, disk, f, size)
  {
    TableFacts(fat0, fat, cs);
    forall i | 0 <= i < |f.chain| ensures f.chain[i] !in cs && f.chain[i] < |fat| { assert InUse(fat0, f.chain[i]); }
    assert forall c :: c in f.chain ==> c !in cs && c < |fat|;
    ChainKept(fat0, fat, f.chain);
    ContentsKept(disk0, disk, f.chain);
    assert fat0[f.chain[0]] != 0 by { StoredHead(fat0, disk0, f, size); }
    HeadKept(fat0, fat, cs, f.chain[0]);
  }

  // Building a chain elsewhere links to no cluster that was in use before.
  lemma {:induction false} HeadKept(fat0: Table, fat: Table, cs: seq<nat>, h: nat)
    requires TableBuilt(fat0, fat, cs) && h < |fat0| && fat0[h] != 0 && IsHead(fat0, h)
    ensures IsHead(fat, h)
  {
    forall d | HasNext(fat, d) ensures fat[d] != h {
      if d in cs {
        var i :| 0 <= i < |cs| && cs[i] == d;
        if i + 1 < |cs| { assert fat[cs[i]] == cs[i + 1]; }
      } else {
        assert HasNext(fat0, d);
      }
    }
  }

  lemma {:induction false} BuiltIsStored(fat0: Table, disk0: seq<seq<u8>>, fat: Table, disk: seq<seq<u8>>,
                                         cs: seq<nat>, data: seq<u8>, size: nat)
    requires TableBuilt(fat0, fat, cs) && DataBuilt(disk0, disk, cs, data, |data|) && |disk| == |fat|
    requires cs != [] && |cs| == ClustersFor(|data|, size)
    ensures Stored(fat, disk, File(cs, data), size) && Distinct(cs)
  {
    var rank :| Falls(fat, rank);
    ChainDistinct(fat, rank, cs);
    assert data[..|data|] == data;
  }

  lemma ChainInTable(fat: Table, cs: seq<nat>)
    requires IsChain(fat, cs)
    ensures cs != [] && forall i {:trigger cs[i]} :: 0 <= i < |cs| ==> cs[i] < |fat|
  {
  }

  // One step of the walk: on to the next cluster, or past the last.
  lemma InChain(fat: Table, cs: seq<nat>, k: nat)
    requires Links(fat) && IsChain(fat, cs) && k < |cs|
    ensures cs[k] < |fat|
    ensures var next := fat[cs[k]]; next < ENTRY_LIMIT && if k + 1 < |cs| then next == cs[k + 1] < EOC else next >= EOC
  {
    assert InUse(fat, cs[k]) && (k + 1 < |cs| ==> InUse(fat, cs[k + 1]));
  }

  /** The buffer holds as much of the bytes as it has room for. */
  ghost predicate Copied(file: seq<u8>, bytes: seq<u8>)
  {
    if |bytes| <= |file| then file[..|bytes|] == bytes else file == bytes[..|file|]
  }

  lemma CopiedNone(file: seq<u8>, store: seq<seq<u8>>, chain: seq<nat>)
    ensures Contents(store, chain[..0]) == [] && Copied(file, [])
  {
  }

  lemma CopiedMore(file: seq<u8>, file': seq<u8>, bytes: seq<u8>, more: seq<u8>, n: nat)
    requires Copied(file, bytes) && n <= |more|
    requires n == (if |bytes| + |more| <= |file| then |more| else if |bytes| <= |file| then |file| - |bytes| else 0)
    requires if n == 0 then file' == file else file' == file[..|bytes|] + more[..n] + file[|bytes| + n..]
    ensures Copied(file', bytes + more)
  {
  }

  lemma CopiedAll(file: seq<u8>, bytes: seq<u8>)
    requires Copied(file, bytes)
    ensures if |file| <= |bytes| then file == bytes[..|file|] else file[..|bytes|] == bytes
  {
  }

  lemma {:induction false} ContentsNext(disk: seq<seq<u8>>, cs: seq<nat>, k: nat)
    requires k < |cs| && cs[k] < |disk|
    ensures Contents(disk, cs[..k + 1]) == Contents(disk, cs[..k]) + disk[cs[k]]
  {
    assert cs[..k + 1][..k] == cs[..k];
  }

  /** memcpy into a file buffer. */
  method CopyOut(dst: array<u8>, at: nat, src: seq<u8>, n: nat)
    requires n <= |src| && (n > 0 ==> at + n <= dst.Length)
    modifies dst
    ensures if n == 0 then dst[..] == old(dst[..])
            else dst[..] == old(dst[..])[..at] + src[..n] + old(dst[..])[at + n..]
  {
    var i := 0;
    while i < n
      invariant 0 <= i <= n
      invariant forall x :: 0 <= x < dst.Length ==> dst[x] == if at <= x < at + i then src[x - at] else old(dst[x])
    {
      dst[at + i] := src[i];
      i := i + 1;
    }
  }
}
