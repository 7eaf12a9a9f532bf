/** src/fat.c: what the shifted chains of the cache mean for the files themselves. A scan lists,
    for every file, the chain that starts two clusters past the file's first one, and a new file
    gets the least cluster that no list holds. */
module FatReuse {
  import opened Bytes
  import opened Store
  import opened Io
  import opened IoRefinement
  import opened FatLayout
  import opened FatAlloc
  import opened FatWrite
  import opened FatRuns
  import opened FatSizes
  import opened FatCrash
  import opened FatChain
  import opened FatDir
  import opened FatIsolation
  import W = FatWalk
  import F = Fat

  /** `own` are the clusters of the file in slot `j`, as its entry and the table on `d` say. */
  ghost predicate OwnChain(d: Disk, g: Geometry, j: nat, own: seq<U32>)
    requires RootFits(d, g) && j < SCANNED
  {
    IsChain(d, g, FirstClusterOf(SlotEntry(d, g, j)), own)
  }

  /** The byte at `x` outside the new entry is as it was before the create and the writes. */
  ghost predicate Kept(s: IoState, g: Geometry, c: IoState, f1: File, bufs: seq<seq<Byte>>, stack: Entry, x: nat) {
    var t := WriteAll(c, g, f1, bufs, |bufs|, stack).0;
    (EntryAddr(g, f1.rootDirOffset) <= x < EntryAddr(g, f1.rootDirOffset) + 32) ||
    (Wf(s) && Wf(t) && |t.disk| == |s.disk| && x < Size(s.disk) && Peek(View(t), x) == Peek(View(s), x))
  }

  /** No run of non-empty writes of at most a cluster to the new file touches the data in `own`. */
  ghost predicate LeavesAlone(s: IoState, g: Geometry, c: IoState, f1: File, own: seq<U32>) {
    forall bufs: seq<seq<Byte>>, stack, k, x: nat ::
      (forall i :: 0 <= i < |bufs| ==> bufs[i] != []) && |Concat(bufs, |bufs|)| <= ClusterBytes(g) &&
      k in own && ClusterFits(g, k) && InCluster(g, k, x) && x < Size(s.disk) ==>
        Kept(s, g, c, f1, bufs, stack, x)
  }

  lemma NewFileShrinks(s: IoState, g: Geometry, files: seq<File>, f: File, n: nat, m: nat, c: IoState, f1: File)
    requires NewFile(s, g, files, f, n, c, f1) && m <= n
    ensures NewFile(s, g, files, f, m, c, f1)
  {
    hide CreatFile, FindFile, NextSlot, NextCluster, RootPlaced, InChain, ClusterAddr, ClusterFits, EntryAddr;
  }

  lemma OtherClustersKept(s: IoState, g: Geometry, files: seq<File>, f: File, c: IoState, f1: File,
                          bufs: seq<seq<Byte>>, stack: Entry, k: U32, x: nat)
    requires NewFile(s, g, files, f, ClusterBytes(g), c, f1) && k != NextCluster(files)
    requires (forall i :: 0 <= i < |bufs| ==> bufs[i] != []) && |Concat(bufs, |bufs|)| <= ClusterBytes(g)
    requires ClusterFits(g, k) && InCluster(g, k, x) && x < Size(s.disk)
    ensures Kept(s, g, c, f1, bufs, stack, x)
  {
    NewFileNumbers(s, g, files, f, ClusterBytes(g), c, f1);
    NewFileShrinks(s, g, files, f, ClusterBytes(g), |Concat(bufs, |bufs|)|, c, f1);
    assert Wf(s) && ClusterFits(g, f1.currentCluster);
    hide NewFile, WriteAll, Concat, ClusterFits, ClusterAddr, NextCluster, EntryAddr, View, Peek, CreatFile, NewEntry, PokeAll;
    if InCluster(g, f1.currentCluster, x) {
      ClustersDisjoint(g, k, f1.currentCluster, x);
    }
    if !(EntryAddr(g, f1.rootDirOffset) <= x < EntryAddr(g, f1.rootDirOffset) + 32) {
      OnlyOwnBytesChange(s, g, files, f, bufs, stack, c, f1, x);
    }
  }

  /** The first byte written to a new file is in its cluster, and not in its entry. */
  lemma FirstByteWritten(s: IoState, g: Geometry, files: seq<File>, f: File, c: IoState, f1: File, b: Byte, stack: Entry)
    requires NewFile(s, g, files, f, 1, c, f1)
    ensures var x, t := ClusterAddr(g, f1.currentCluster), WriteAll(c, g, f1, [[b]], 1, stack).0;
            && InCluster(g, f1.currentCluster, x) && x < Size(s.disk)
            && !(EntryAddr(g, f1.rootDirOffset) <= x < EntryAddr(g, f1.rootDirOffset) + 32)
            && Wf(t) && |t.disk| == |s.disk| && Peek(View(t), x) == b
  {
    NewFileNumbers(s, g, files, f, 1, c, f1);
    NewFilePlaced(s, g, files, f, 1, c, f1);
    assert ClusterFits(g, f1.currentCluster);
    hide NewFile, NextSlot, NextCluster, InChain, HasSlot, CreatFile, NewEntry, PokeAll, EntryAddr, View, Placed, WriteAll;
    FirstByteLogged(c, g, f1, b, stack);
  }

  lemma ApartFromEntry(g: Geometry, slot: U32, x: nat)
    requires x / 512 != EntryAddr(g, slot) / 512
    ensures !(EntryAddr(g, slot) <= x < EntryAddr(g, slot) + 32)
  {
    EntryInOneSector(g, slot);
    hide EntryAddr;
  }

  lemma LoggedByteAt(d: Disk, e: Disk, a: nat, cur: nat, log: seq<Byte>)
    requires Fits(d, a, 32) && Logged(d, e, a, cur, log) && 0 < |log| && cur < Size(d)
    ensures |e| == |d| && Peek(e, cur) == log[0]
  {
    hide AddSize, EntryAt;
    assert Peek(e, cur) == LoggedByte(d, a, cur, log, cur);
  }

  /** Creating a new file and writing up to a cluster to it leaves the clusters `own` alone if and
      only if the least cluster that no cached list holds is not one of them. */
  lemma LeavesAloneIff(s: IoState, g: Geometry, files: seq<File>, f: File, c: IoState, f1: File, own: seq<U32>, stack: Entry)
    requires NewFile(s, g, files, f, ClusterBytes(g), c, f1)
    ensures LeavesAlone(s, g, c, f1, own) <==> NextCluster(files) !in own
  {
    NewFileNumbers(s, g, files, f, ClusterBytes(g), c, f1);
    assert ClusterFits(g, f1.currentCluster) && Wf(s);
    assert 1 <= ClusterBytes(g) by {
      assert 0 < g.sectorsPerCluster;
    }
    NewFileShrinks(s, g, files, f, ClusterBytes(g), 1, c, f1);
    hide NewFile, WriteAll, Concat, ClusterFits, ClusterAddr, ClusterBytes, InCluster, NextCluster, EntryAddr, View, Peek, CreatFile,
      NewEntry, PokeAll, InChain, HasSlot, NextSlot, Wf;
    if NextCluster(files) in own {
      WriteTouches(s, g, files, f, c, f1, own, stack);
    } else {
      forall bufs: seq<seq<Byte>>, stack, k, x: nat |
        (forall i :: 0 <= i < |bufs| ==> bufs[i] != []) && |Concat(bufs, |bufs|)| <= ClusterBytes(g) &&
        k in own && ClusterFits(g, k) && InCluster(g, k, x) && x < Size(s.disk)
        ensures Kept(s, g, c, f1, bufs, stack, x)
      {
        OtherClustersKept(s, g, files, f, c, f1, bufs, stack, k, x);
      }
    }
  }

  lemma WriteTouches(s: IoState, g: Geometry, files: seq<File>, f: File, c: IoState, f1: File, own: seq<U32>, stack: Entry)
    requires NewFile(s, g, files, f, 1, c, f1) && f1.currentCluster in own && 1 <= ClusterBytes(g)
    ensures !LeavesAlone(s, g, c, f1, own)
  {
    var x := ClusterAddr(g, f1.currentCluster);
    assert Wf(s) && ClusterFits(g, f1.currentCluster) && x < Size(s.disk);
    var b: Byte := if Peek(View(s), x) == 0 then 1 else 0;
    FirstByteWritten(s, g, files, f, c, f1, b, stack);
    var bufs := [[b]];
    assert Concat(bufs, 0) == [] && Concat(bufs, 1) == [] + bufs[0] == [b];
    hide NewFile, WriteAll, Concat, ClusterFits, ClusterAddr, ClusterBytes, InCluster, EntryAddr, View, Peek;
    assert |Concat(bufs, |bufs|)| == 1;
    assert !Kept(s, g, c, f1, bufs, stack, x);
  }

  // ---- the same from the card alone ----

  /** A scan of `d` lists cluster `x`: it is on a chain that starts two clusters past the first one
      of some live entry. */
  ghost predicate Listed(d: Disk, g: Geometry, x: int)
    requires RootFits(d, g)
  {
    exists j: nat, chain :: j in LiveSlots(d, g, 0) && j < SCANNED && IsChain(d, g, WalkStart(SlotEntry(d, g, j)), chain) && x in chain
  }

  /** What a scan with all chains ending leaves in the cache: the live entries, each with the chain
      from two clusters past its first one. */
  ghost predicate ScannedCache(files: seq<File>, d: Disk, g: Geometry)
    requires RootFits(d, g)
  {
    CachesAll(files, d, g) && Offsets(files) == LiveSlots(d, g, 0) && ChainsEnd(d, g)
  }

  lemma SlotOfFile(files: seq<File>, d: Disk, g: Geometry, i: nat)
    requires RootFits(d, g) && ScannedCache(files, d, g) && i < |files|
    ensures var j := files[i].rootDirOffset;
            j < SCANNED && j in LiveSlots(d, g, 0) && IsChain(d, g, WalkStart(SlotEntry(d, g, j)), files[i].fatList)
  {
    var j := files[i].rootDirOffset;
    assert Offsets(files)[i] == j;
    LiveSlotsExact(d, g, 0, j);
    hide SlotEntry, WalkStart, Live, IsChain, LiveSlots;
    assert SlotCached(files[i], d, g, j, true);
  }

  lemma FileOfSlot(files: seq<File>, d: Disk, g: Geometry, j: nat) returns (i: nat)
    requires RootFits(d, g) && ScannedCache(files, d, g) && j in LiveSlots(d, g, 0)
    ensures i < |files| && files[i].rootDirOffset == j
  {
    i :| i < |files| && Offsets(files)[i] == j;
  }

  /** The cached lists hold exactly the clusters that the scan lists. */
  lemma InChainIffListed(files: seq<File>, d: Disk, g: Geometry, x: int)
    requires RootFits(d, g) && ScannedCache(files, d, g)
    ensures InChain(files, x) <==> Listed(d, g, x)
  {
    hide SlotEntry, WalkStart, Live, IsChain, LiveSlots, ScannedCache;
    if InChain(files, x) {
      var i, k :| 0 <= i < |files| && 0 <= k < |files[i].fatList| && files[i].fatList[k] == x;
      SlotOfFile(files, d, g, i);
      assert x in files[i].fatList;
    }
    if Listed(d, g, x) {
      var j: nat, chain :| j in LiveSlots(d, g, 0) && j < SCANNED && IsChain(d, g, WalkStart(SlotEntry(d, g, j)), chain) && x in chain;
      var i := FileOfSlot(files, d, g, j);
      SlotOfFile(files, d, g, i);
      ChainUnique(d, g, WalkStart(SlotEntry(d, g, j)), chain, files[i].fatList);
      var k :| 0 <= k < |chain| && chain[k] == x;
      assert files[i].fatList[k] == x;
    }
  }

  /** The least cluster from 2 on that the scan does not list. */
  ghost predicate LeastUnlisted(d: Disk, g: Geometry, x: int)
    requires RootFits(d, g)
  {
    2 <= x && !Listed(d, g, x) && forall y :: 2 <= y < x ==> Listed(d, g, y)
  }

  /** So with the cache that a scan of `d` builds, the data in the clusters `own`, a file's own chain
      say, survives a new file if and only if none of them is the least one from 2 on that lies on
      no chain two clusters past a live entry's first: a condition on the card alone. */
  lemma OwnDataKeptIff(d: Disk, s: IoState, g: Geometry, files: seq<File>, own: seq<U32>, f: File, c: IoState, f1: File, stack: Entry)
    requires RootFits(d, g) && ScannedCache(files, d, g) && NewFile(s, g, files, f, ClusterBytes(g), c, f1)
    ensures LeavesAlone(s, g, c, f1, own) <==> forall x | x in own :: !LeastUnlisted(d, g, x)
  {
    LeavesAloneIff(s, g, files, f, c, f1, own, stack);
    forall x ensures LeastUnlisted(d, g, x) <==> NextCluster(files) == x {
      ReturnedIffUnlisted(files, d, g, x);
    }
    FreshNumbers(files);
    NewFileNumbers(s, g, files, f, ClusterBytes(g), c, f1);
    hide *;
    assert NextCluster(files) in own ==> exists x :: x in own && LeastUnlisted(d, g, x) by {
      assert LeastUnlisted(d, g, NextCluster(files));
    }
  }

  lemma ReturnedIffUnlisted(files: seq<File>, d: Disk, g: Geometry, x: int)
    requires RootFits(d, g) && ScannedCache(files, d, g)
    ensures LeastUnlisted(d, g, x) <==> NextCluster(files) == x
  {
    ReturnedIff(files, x);
    forall y ensures InChain(files, y) <==> Listed(d, g, y) {
      InChainIffListed(files, d, g, y);
    }
    hide InChain, Listed, NextCluster, ScannedCache;
  }

  // ---- reopened files ----

  /** A create of a cached name: nothing is written, and the log goes where the cache says. */
  ghost predicate Reopened(s: IoState, g: Geometry, files: seq<File>, f: File, c: IoState, f1: File) {
    FindFile(files, f.name, f.ext) < |files| && (c, f1) == CreatFile(s, g, files, f)
  }

  /** All of the file struct: slot, size, cluster and list are the cached ones, the position is where
      that cluster begins, the name is the caller's, and nothing is written. */
  lemma ReopenedFields(s: IoState, g: Geometry, files: seq<File>, f: File, c: IoState, f1: File)
    requires Reopened(s, g, files, f, c, f1)
    ensures var i := FindFile(files, f.name, f.ext);
            && i < |files| && c == s && f1.rootDirOffset == files[i].rootDirOffset && f1.currentCluster == files[i].currentCluster
            && f1.size == files[i].size && f1.fatList == files[i].fatList && f1.name == f.name && f1.ext == f.ext
            && f1.currentByteOffset == f1.startByteOffset == ClusterAddr(g, f1.currentCluster)
  {
    hide FindFile, ClusterAddr;
  }

  /** A new file starts with size 0 and no clusters, under the caller's name. */
  lemma NewFields(s: IoState, g: Geometry, files: seq<File>, f: File, c: IoState, f1: File)
    requires FindFile(files, f.name, f.ext) == |files| && (c, f1) == CreatFile(s, g, files, f)
    ensures f1.size == 0 && f1.fatList == [] && f1.name == f.name && f1.ext == f.ext
  {
    hide FindFile, NextSlot, NextCluster, NewEntry, EntryAddr, ClusterAddr;
  }

  /** What one more cluster makes of a file whose list is `chain`: once both buffers are flushed, every
      walk from `first` ends well and lists the chain and then the cluster. */
  ghost predicate GrownTo(s: IoState, g: Geometry, first: U32, chain: seq<U32>, cluster: U32) {
    var t := FlushIn(FlushOut(F.UpdatedFat(s, g, chain, cluster)).0).0;
    && Wf(t) && IsChain(t.disk, g, first, chain + [cluster])
    && forall list, u, ok :: W.Walk(t, g, first, list, u, ok) ==> ok && list == chain + [cluster]
  }

  lemma GrowsTo(s: IoState, g: Geometry, first: U32, chain: seq<U32>, cluster: U32)
    requires Wf(s) && s.faults == [] && FatFits(s.disk, g, cluster) && FatFits(View(s), g, cluster) && cluster !in chain
    requires if chain == [] then first == cluster else IsChain(View(s), g, first, chain)
    ensures GrownTo(s, g, first, chain, cluster)
  {
    F.ExtendedChainIsWalked(s, g, first, chain, cluster);
    hide IsChain, FatFits, View, W.Walk, F.UpdatedFat, FlushIn, FlushOut;
    var t := FlushIn(FlushOut(F.UpdatedFat(s, g, chain, cluster)).0).0;
    forall list, u, ok | W.Walk(t, g, first, list, u, ok) ensures ok && list == chain + [cluster] {
      W.ChainIsWalked(t, g, first, chain + [cluster], list, u, ok);
    }
  }

  /** A file that a scan has cached can be reopened and extended: fat32_update_fat on it with a cluster
      that is not in the cached list makes that list followed by the cluster what is walked from the
      cached start; on a new file it makes the file's cluster a chain of its own. */
  lemma ExtendedAfterCreate(s: IoState, g: Geometry, files: seq<File>, f: File, c: IoState, f1: File, cluster: U32)
    requires (c, f1) == CreatFile(s, g, files, f) && Wf(c) && c.faults == []
    requires FatFits(c.disk, g, cluster) && FatFits(View(c), g, cluster)
    requires var i := FindFile(files, f.name, f.ext);
             if i == |files| then cluster == f1.currentCluster
             else cluster !in files[i].fatList && RootFits(View(s), g) && files[i].rootDirOffset < SCANNED
                  && Caches(files[i], View(s), g, files[i].rootDirOffset)
    ensures var i := FindFile(files, f.name, f.ext);
            if i == |files| then GrownTo(c, g, f1.currentCluster, f1.fatList, cluster) && f1.fatList == []
            else GrownTo(c, g, files[i].currentCluster, f1.fatList, cluster) && f1.fatList == files[i].fatList
  {
    hide *;
    var i := FindFile(files, f.name, f.ext);
    if i == |files| {
      NewFields(s, g, files, f, c, f1);
      GrowsTo(c, g, f1.currentCluster, [], cluster);
    } else {
      IsReopened(s, g, files, f, c, f1);
      ReopenedFields(s, g, files, f, c, f1);
      CachedChain(files[i], View(s), g, files[i].rootDirOffset);
      GrowsTo(c, g, f1.currentCluster, f1.fatList, cluster);
    }
  }

  lemma CachedChain(f: File, d: Disk, g: Geometry, j: nat)
    requires RootFits(d, g) && j < SCANNED && Caches(f, d, g, j)
    ensures f.fatList != [] && IsChain(d, g, f.currentCluster, f.fatList)
  {
    hide FirstClusterOf, SlotEntry, StrNCpy, SizeOf, FatEntry, IsLast, FatFits;
  }

  /** If a scan of `d` has cached the file, the log does not begin at its first byte, but two
      clusters further on. */
  lemma ReopenStartsElsewhere(d: Disk, s: IoState, g: Geometry, files: seq<File>, f: File, c: IoState, f1: File)
    requires Reopened(s, g, files, f, c, f1) && RootFits(d, g)
    requires var j := files[FindFile(files, f.name, f.ext)].rootDirOffset;
             j < SCANNED && Caches(files[FindFile(files, f.name, f.ext)], d, g, j)
    requires var first := FirstClusterOf(SlotEntry(d, g, f1.rootDirOffset));
             ClusterFits(g, first) && first + 2 < 0x1_0000_0000 && ClusterFits(g, first + 2)
    ensures var first := FirstClusterOf(SlotEntry(d, g, f1.rootDirOffset));
            && f1.currentCluster == first + 2
            && f1.startByteOffset == ClusterAddr(g, first) + 2 * ClusterBytes(g) != ClusterAddr(g, first)
  {
    hide *;
    ReopenedFields(s, g, files, f, c, f1);
    CachedStart(files[FindFile(files, f.name, f.ext)], d, g, f1.rootDirOffset);
    TwoClustersOn(g, FirstClusterOf(SlotEntry(d, g, f1.rootDirOffset)));
  }

  lemma CachedStart(f: File, d: Disk, g: Geometry, j: nat)
    requires RootFits(d, g) && j < SCANNED && Caches(f, d, g, j) && FirstClusterOf(SlotEntry(d, g, j)) + 2 < 0x1_0000_0000
    ensures f.currentCluster == FirstClusterOf(SlotEntry(d, g, j)) + 2
  {
    hide IsChain, FirstClusterOf, SlotEntry, StrNCpy, SizeOf;
  }

  lemma TwoClustersOn(g: Geometry, c: U32)
    requires ClusterFits(g, c) && c + 2 < 0x1_0000_0000 && ClusterFits(g, c + 2)
    ensures ClusterAddr(g, c + 2) == ClusterAddr(g, c) + 2 * ClusterBytes(g) != ClusterAddr(g, c)
  {
    ClusterAddrExact(g, c);
    ClusterAddrExact(g, c + 2);
    assert 0 < ClusterBytes(g);
    hide ClusterAddr, ClusterFits, ClusterBytes;
    assert (c + 2 - 2) * ClusterBytes(g) == (c - 2) * ClusterBytes(g) + 2 * ClusterBytes(g);
  }

  /** Writing up to a cluster to a reopened file leaves the clusters `own` alone, for all buffers, if
      and only if the cluster that the cache names is not one of them. */
  lemma ReopenLeavesAloneIff(s: IoState, g: Geometry, files: seq<File>, f: File, c: IoState, f1: File, own: seq<U32>, stack: Entry)
    requires Reopened(s, g, files, f, c, f1) && ClusterFits(g, f1.currentCluster) && Placed(s, g, f1, ClusterBytes(g))
    ensures LeavesAlone(s, g, c, f1, own) <==> files[FindFile(files, f.name, f.ext)].currentCluster !in own
  {
    ReopenedFields(s, g, files, f, c, f1);
    hide *;
    if f1.currentCluster in own {
      LogTouches(s, g, f1, own, stack);
    } else {
      LogLeavesAlone(s, g, f1, own);
    }
  }

  lemma LogTouches(s: IoState, g: Geometry, f: File, own: seq<U32>, stack: Entry)
    requires ClusterFits(g, f.currentCluster) && Placed(s, g, f, ClusterBytes(g))
    requires f.currentByteOffset == ClusterAddr(g, f.currentCluster) && f.currentCluster in own
    ensures !LeavesAlone(s, g, s, f, own)
  {
    var x := f.currentByteOffset;
    assert Wf(s) && 1 <= ClusterBytes(g) && InCluster(g, f.currentCluster, x) && x < Size(s.disk);
    var b: Byte := if Peek(View(s), x) == 0 then 1 else 0;
    var bufs := [[b]];
    assert Concat(bufs, 0) == [] && Concat(bufs, 1) == [] + bufs[0] == [b];
    hide WriteAll, Concat, ClusterFits, ClusterAddr, ClusterBytes, InCluster, EntryAddr, View, Peek, Placed, LeavesAlone, Wf;
    LessRoom(s, g, f, 1, ClusterBytes(g) - 1);
    FirstByteLogged(s, g, f, b, stack);
    Touched(s, g, s, f, own, bufs, stack, f.currentCluster, x);
  }

  lemma Touched(s: IoState, g: Geometry, c: IoState, f1: File, own: seq<U32>, bufs: seq<seq<Byte>>, stack: Entry, k: U32, x: nat)
    requires (forall i :: 0 <= i < |bufs| ==> bufs[i] != []) && |Concat(bufs, |bufs|)| <= ClusterBytes(g)
    requires k in own && ClusterFits(g, k) && InCluster(g, k, x) && x < Size(s.disk) && !Kept(s, g, c, f1, bufs, stack, x)
    ensures !LeavesAlone(s, g, c, f1, own)
  {
    hide Kept, Concat, ClusterFits, InCluster, ClusterBytes;
  }

  /** The first byte logged is at the position of the file, and not in its entry. */
  lemma FirstByteLogged(s: IoState, g: Geometry, f: File, b: Byte, stack: Entry)
    requires Placed(s, g, f, 1)
    ensures var x, t := f.currentByteOffset, WriteAll(s, g, f, [[b]], 1, stack).0;
            && !(EntryAddr(g, f.rootDirOffset) <= x < EntryAddr(g, f.rootDirOffset) + 32)
            && Wf(t) && |t.disk| == |s.disk| && x < Size(s.disk) && Peek(View(t), x) == b
  {
    var x, a, bufs := f.currentByteOffset, EntryAddr(g, f.rootDirOffset), [[b]];
    assert Concat(bufs, 0) == [] && Concat(bufs, 1) == [] + bufs[0] == [b];
    assert Clear(a, x, 1) && x / 512 != a / 512 && x < Size(s.disk);
    hide EntryAddr, View;
    Conservation(s, g, f, bufs, 1, 0, stack);
    ApartFromEntry(g, f.rootDirOffset, x);
    hide WriteAll, Concat, Clear, Logged;
    LoggedByteAt(View(s), View(WriteAll(s, g, f, bufs, 1, stack).0), a, x, [b]);
  }

  lemma LogLeavesAlone(s: IoState, g: Geometry, f: File, own: seq<U32>)
    requires ClusterFits(g, f.currentCluster) && Placed(s, g, f, ClusterBytes(g))
    requires f.currentByteOffset == ClusterAddr(g, f.currentCluster) && f.currentCluster !in own
    ensures LeavesAlone(s, g, s, f, own)
  {
    hide WriteAll, Concat, ClusterFits, ClusterAddr, ClusterBytes, InCluster, EntryAddr, View, Peek, Placed, Kept, Wf;
    forall bufs: seq<seq<Byte>>, stack, k, x: nat |
      (forall i :: 0 <= i < |bufs| ==> bufs[i] != []) && |Concat(bufs, |bufs|)| <= ClusterBytes(g) &&
      k in own && ClusterFits(g, k) && InCluster(g, k, x) && x < Size(s.disk)
      ensures Kept(s, g, s, f, bufs, stack, x)
    {
      OtherByteKept(s, g, f, bufs, stack, k, x);
    }
  }

  lemma OtherByteKept(s: IoState, g: Geometry, f: File, bufs: seq<seq<Byte>>, stack: Entry, k: U32, x: nat)
    requires ClusterFits(g, f.currentCluster) && Placed(s, g, f, ClusterBytes(g))
    requires f.currentByteOffset == ClusterAddr(g, f.currentCluster) && k != f.currentCluster
    requires (forall i :: 0 <= i < |bufs| ==> bufs[i] != []) && |Concat(bufs, |bufs|)| <= ClusterBytes(g)
    requires ClusterFits(g, k) && InCluster(g, k, x) && x < Size(s.disk)
    ensures Kept(s, g, s, f, bufs, stack, x)
  {
    var a, log := EntryAddr(g, f.rootDirOffset), Concat(bufs, |bufs|);
    LessRoom(s, g, f, |log|, ClusterBytes(g) - |log|);
    hide EntryAddr, View, ClusterFits, Concat, ClusterAddr;
    if InCluster(g, f.currentCluster, x) {
      ClustersDisjoint(g, k, f.currentCluster, x);
    }
    Conservation(s, g, f, bufs, |bufs|, 0, stack);
    hide WriteAll, Clear, EntryAt, AddSize, Peek;
    var t := WriteAll(s, g, f, bufs, |bufs|, stack).0;
    assert Peek(View(t), x) == LoggedByte(View(s), a, f.currentByteOffset, log, x);
  }

  /** The size that a file has after a create, new or reopened, and non-empty writes is the number
      of bytes written since, if and only if the file is new or its size was 0. */
  lemma SizeIsWrittenIff(s: IoState, g: Geometry, files: seq<File>, f: File, bufs: seq<seq<Byte>>, stack: Entry, c: IoState, f1: File)
    requires (c, f1) == CreatFile(s, g, files, f) && Placed(s, g, f1, |Concat(bufs, |bufs|)|)
    requires forall i :: 0 <= i < |bufs| ==> bufs[i] != []
    ensures var (t, f2) := WriteAll(c, g, f1, bufs, |bufs|, stack);
            var a := EntryAddr(g, f1.rootDirOffset);
            && Wf(s) && Wf(t) && a + 32 <= Size(View(s)) == Size(View(t)) && f2.currentByteOffset >= f1.startByteOffset
            && (SizeOf(EntryAt(View(t), a)) == f2.currentByteOffset - f1.startByteOffset <==>
                FindFile(files, f.name, f.ext) == |files| || SizeOf(EntryAt(View(s), a)) == 0)
  {
    hide *;
    var n := |Concat(bufs, |bufs|)|;
    PlacedMeans(s, g, f1, n);
    if FindFile(files, f.name, f.ext) < |files| {
      IsReopened(s, g, files, f, c, f1);
      ReopenedFields(s, g, files, f, c, f1);
      SizeIsPositionIff(s, g, f1, bufs, |bufs|, stack);
    } else {
      CreatStartsLogging(s, g, files, f, n, c, f1);
      LoggingFits(c, g, f1, n, |c.images|, NewEntry(f.name, f.ext, f1.currentCluster)[..28], f1.startByteOffset, []);
      NewIsAsLarge(s, g, files, f, c, f1);
      SizeIsPositionIff(c, g, f1, bufs, |bufs|, stack);
    }
    SameSize(s, WriteAll(c, g, f1, bufs, |bufs|, stack).0);
  }

  lemma IsReopened(s: IoState, g: Geometry, files: seq<File>, f: File, c: IoState, f1: File)
    requires FindFile(files, f.name, f.ext) < |files| && (c, f1) == CreatFile(s, g, files, f)
    ensures Reopened(s, g, files, f, c, f1)
  {
    hide FindFile, CreatFile;
  }

  lemma NewIsAsLarge(s: IoState, g: Geometry, files: seq<File>, f: File, c: IoState, f1: File)
    requires FindFile(files, f.name, f.ext) == |files| && (c, f1) == CreatFile(s, g, files, f)
    requires Wf(s) && s.faults == [] && Fits(s.disk, EntryAddr(g, f1.rootDirOffset), 32)
    ensures |c.disk| == |s.disk|
  {
    CreatNumbers(s, g, files, f);
    hide *;
    CreatExact(s, g, files, f);
  }

  lemma SameSize(s: IoState, t: IoState)
    requires |s.disk| == |t.disk| && Wf(s) && Wf(t)
    ensures Size(View(s)) == Size(View(t))
  {
    hide View;
  }

  // ---- a card on which it goes wrong ----

  const VOLUME: Geometry := Geometry(1, 9, 9, 2, 1)

  /** Sixteen sectors: the table in sector 1 marks clusters 0, 2 and 3 as ends, the root directory in
      sector 9 holds a volume label and a file whose only cluster is 3. */
  function Table(): (d: Disk)
    ensures |d| == 16
  {
    SetFatEntry(SetFatEntry(SetFatEntry(BlankState(16).disk, VOLUME, 0, 0x0FFF_FFF8), VOLUME, 2, END_OF_CHAIN), VOLUME, 3, END_OF_CHAIN)
  }

  function Card(vol: Entry, e: Entry): (d: Disk)
    ensures |d| == 16
  {
    PokeAll(PokeAll(Table(), 4608, vol), 4640, e)
  }

  function ScannedLabel(vol: Entry, stack: File): File {
    W.Cached(vol, [2], true, stack, 0)
  }

  function ScannedFile(e: Entry, stack: File): File {
    W.Cached(e, [5, 0], true, stack, 1)
  }

  /** Where things are on the volume. */
  lemma VolumeFits(d: Disk, c: U32)
    requires |d| == 16 && c < 128
    ensures FatFits(d, VOLUME, c) && FatAddr(VOLUME, c) == 512 + 4 * c && Size(d) == 8192
  {
  }

  lemma VolumeAddresses()
    ensures ClusterAddr(VOLUME, 2) == 4608 && ClusterAddr(VOLUME, 3) == 5120 && ClusterBytes(VOLUME) == 512
    ensures EntryAddr(VOLUME, 0) == 4608 && EntryAddr(VOLUME, 1) == 4640 && EntryAddr(VOLUME, 2) == 4672
    ensures ClusterFits(VOLUME, 2) && ClusterFits(VOLUME, 3) && RootPlaced(VOLUME) && ClusterAddr(VOLUME, 5) == 6144
  {
  }

  lemma BlankEntry(c: U32)
    requires c < 128
    ensures FatFits(BlankState(16).disk, VOLUME, c) && FatEntry(BlankState(16).disk, VOLUME, c) == 0
  {
    var d := BlankState(16).disk;
    assert PeekAll(d, FatAddr(VOLUME, c), 4) == [0, 0, 0, 0];
  }

  /** What the table says about clusters 0, 2, 3 and 5 */
  function Mark(x: U32): U32 {
    if x == 0 then 0x0FFF_FFF8 else if x == 5 then 0 else END_OF_CHAIN
  }

  lemma TableEntry(x: U32)
    requires x in [0, 2, 3, 5]
    ensures FatFits(Table(), VOLUME, x) && FatEntry(Table(), VOLUME, x) == Mark(x)
  {
    BlankEntry(x);
    var b := BlankState(16).disk;
    VolumeFits(b, 0);
    VolumeFits(b, x);
    hide BlankState, SetFatEntry, FatEntry, FatAddr, Size, FatFits;
    var b0 := SetFatEntry(b, VOLUME, 0, 0x0FFF_FFF8);
    VolumeFits(b0, 2);
    VolumeFits(b0, x);
    var b2 := SetFatEntry(b0, VOLUME, 2, END_OF_CHAIN);
    VolumeFits(b2, 3);
    VolumeFits(b2, x);
    VolumeFits(Table(), x);
    SetFatEntryAt(b, VOLUME, 0, 0x0FFF_FFF8, x);
    SetFatEntryAt(b0, VOLUME, 2, END_OF_CHAIN, x);
    SetFatEntryAt(b2, VOLUME, 3, END_OF_CHAIN, x);
  }

  /** Entries in sector 9 do not disturb the table. */
  lemma CardEntries(vol: Entry, e: Entry, c: U32)
    requires c < 128
    ensures FatFits(Card(vol, e), VOLUME, c) && FatFits(Table(), VOLUME, c)
    ensures FatEntry(Card(vol, e), VOLUME, c) == FatEntry(Table(), VOLUME, c)
  {
    hide Table, FromLe32;
    PeekAllFrame(Table(), 4608, vol, FatAddr(VOLUME, c), 4);
    PeekAllFrame(PokeAll(Table(), 4608, vol), 4640, e, FatAddr(VOLUME, c), 4);
  }

  lemma CardSlots(vol: Entry, e: Entry)
    ensures RootFits(Card(vol, e), VOLUME)
    ensures SlotEntry(Card(vol, e), VOLUME, 0) == vol && SlotEntry(Card(vol, e), VOLUME, 1) == e
    ensures SlotEntry(Card(vol, e), VOLUME, 2)[0] == NEVER_USED
  {
    var d := Card(vol, e);
    VolumeAddresses();
    TwoEntries(Table(), vol, e);
    TableIsBlankAt(4672);
    VolumeFits(d, 0);
    FirstOfEntry(d, 4672);
    hide Table, PokeAll, EntryAddr, Peek, PeekAll, ClusterAddr, ClusterFits, RootPlaced, FatFits;
  }

  lemma FirstOfEntry(d: Disk, a: nat)
    requires a + 32 <= Size(d)
    ensures EntryAt(d, a)[0] == Peek(d, a)
  {
  }

  lemma TwoEntries(t: Disk, vol: Entry, e: Entry)
    requires |t| == 16
    ensures var d := PokeAll(PokeAll(t, 4608, vol), 4640, e);
            PeekAll(d, 4608, 32) == vol && PeekAll(d, 4640, 32) == e && Peek(d, 4672) == Peek(t, 4672)
  {
    var d1 := PokeAll(t, 4608, vol);
    PeekAllPokeAll(t, 4608, vol);
    PeekAllFrame(d1, 4640, e, 4608, 32);
    PeekAllPokeAll(d1, 4640, e);
    PeekPokeAll(t, 4608, vol, 4672);
    PeekPokeAll(d1, 4640, e, 4672);
    hide PokeAll, Peek, PeekAll;
  }

  lemma BlankAt(x: nat)
    requires x < 8192
    ensures Peek(BlankState(16).disk, x) == 0
  {
  }

  lemma TableIsBlankAt(x: nat)
    requires 1024 <= x < 8192
    ensures Peek(Table(), x) == 0
  {
    BlankAt(x);
    var b := BlankState(16).disk;
    VolumeFits(b, 0);
    hide BlankState, SetFatEntry, Peek, Size;
    var b0 := SetFatEntry(b, VOLUME, 0, 0x0FFF_FFF8);
    VolumeFits(b0, 2);
    var b2 := SetFatEntry(b0, VOLUME, 2, END_OF_CHAIN);
    VolumeFits(b2, 3);
    ElsewhereKept(b, 0, 0x0FFF_FFF8, x);
    ElsewhereKept(b0, 2, END_OF_CHAIN, x);
    ElsewhereKept(b2, 3, END_OF_CHAIN, x);
  }

  lemma ElsewhereKept(d: Disk, c: U32, v: U32, x: nat)
    requires FatFits(d, VOLUME, c) && c < 128 && 1024 <= x < Size(d)
    ensures Peek(SetFatEntry(d, VOLUME, c, v), x) == Peek(d, x)
  {
    PeekPokeAll(d, FatAddr(VOLUME, c), Le32(v), x);
    hide Le32, PokeAll, Peek;
  }

  lemma OneLink(d: Disk, g: Geometry, c: U32)
    requires FatFits(d, g, c) && IsLast(FatEntry(d, g, c))
    ensures IsChain(d, g, c, [c])
  {
    hide FatEntry, FatFits, IsLast;
  }

  lemma TwoLinks(d: Disk, g: Geometry, c: U32, next: U32)
    requires FatFits(d, g, c) && FatEntry(d, g, c) == next && !IsLast(next) && IsChain(d, g, next, [next])
    ensures IsChain(d, g, c, [c, next])
  {
    hide FatEntry, FatFits, IsLast;
    assert [c, next][1..] == [next];
  }

  lemma CardChains(vol: Entry, e: Entry)
    ensures var d := Card(vol, e);
            IsChain(d, VOLUME, 2, [2]) && IsChain(d, VOLUME, 3, [3]) && IsChain(d, VOLUME, 5, [5, 0])
  {
    var d := Card(vol, e);
    hide Card, Table, FatEntry, FatFits, IsChain;
    TableEntry(0);
    TableEntry(2);
    TableEntry(3);
    TableEntry(5);
    CardEntries(vol, e, 0);
    CardEntries(vol, e, 2);
    CardEntries(vol, e, 3);
    CardEntries(vol, e, 5);
    OneLink(d, VOLUME, 0);
    OneLink(d, VOLUME, 2);
    OneLink(d, VOLUME, 3);
    TwoLinks(d, VOLUME, 5, 0);
  }

  /** One turn of a scan that caches an entry. */
  lemma LiveTurn(s: IoState, g: Geometry, files: seq<File>, file: File, j: nat, e: Entry, list: seq<U32>, u: IoState,
                 t: IoState, after: seq<File>)
    requires j < SCANNED && Live(e) && W.ReadSlot(s, g, j).1 == e && W.ReadSlot(s, g, j).2
    requires W.Walk(W.ReadSlot(s, g, j).0, g, WalkStart(e), list, u, true)
    requires var f := W.Cached(e, list, true, file, j); W.Scan(u, g, files + [f], f, j + 1, t, after)
    ensures W.Scan(s, g, files, file, j, t, after)
  {
    hide W.ReadSlot, W.Walk, W.Cached;
  }

  lemma LastTurn(s: IoState, g: Geometry, files: seq<File>, file: File, j: nat)
    requires j < SCANNED && W.ReadSlot(s, g, j).1[0] == NEVER_USED
    ensures W.Scan(s, g, files, file, j, W.ReadSlot(s, g, j).0, files)
  {
    hide W.ReadSlot;
  }

  /** The read of slot `j` and the walk behind it, on a card that does not fail */
  lemma OpenedTurn(s: IoState, g: Geometry, j: nat, e: Entry, chain: seq<U32>) returns (u: IoState)
    requires Wf(s) && Coherent(s) && s.faults == [] && RootFits(s.disk, g) && j < SCANNED
    requires SlotEntry(s.disk, g, j) == e && IsChain(s.disk, g, WalkStart(e), chain)
    ensures W.ReadSlot(s, g, j).1 == e && W.ReadSlot(s, g, j).2
    ensures W.Walk(W.ReadSlot(s, g, j).0, g, WalkStart(e), chain, u, true)
    ensures Wf(u) && Coherent(u) && u.faults == [] && u.disk == s.disk
  {
    hide W.ReadSlot, W.Walk, SlotEntry, IsChain, WalkStart, RootFits;
    W.SlotRead(s, g, j);
    var s1 := W.ReadSlot(s, g, j).0;
    var list, t, ok := W.WalkAlong(s1, g, WalkStart(e), chain);
    u := t;
  }

  lemma SlotsScanned()
    ensures 2 < SCANNED
  {
  }

  lemma EndRead(s: IoState)
    requires Wf(s) && Coherent(s) && s.faults == [] && RootFits(s.disk, VOLUME) && SlotEntry(s.disk, VOLUME, 2)[0] == NEVER_USED
    ensures W.ReadSlot(s, VOLUME, 2).1[0] == NEVER_USED
  {
    hide W.ReadSlot, SlotEntry;
    W.SlotRead(s, VOLUME, 2);
  }

  lemma CardFiles(vol: Entry, e: Entry, stack: File)
    requires FirstClusterOf(vol) == 0 && FirstClusterOf(e) == 3
    ensures WalkStart(vol) == 2 && WalkStart(e) == 5
    ensures ScannedLabel(vol, stack) == W.Cached(vol, [2], true, stack, 0)
    ensures ScannedFile(e, stack) == W.Cached(e, [5, 0], true, ScannedLabel(vol, stack), 1)
  {
    hide FirstClusterOf, StrNCpy, SizeOf;
  }

  lemma ScanOfTwo(s: IoState, vol: Entry, e: Entry, stack: File) returns (t: IoState)
    requires Wf(s) && Coherent(s) && s.faults == [] && RootFits(s.disk, VOLUME)
    requires SlotEntry(s.disk, VOLUME, 0) == vol && SlotEntry(s.disk, VOLUME, 1) == e && SlotEntry(s.disk, VOLUME, 2)[0] == NEVER_USED
    requires Live(vol) && FirstClusterOf(vol) == 0 && Live(e) && FirstClusterOf(e) == 3
    requires IsChain(s.disk, VOLUME, 2, [2]) && IsChain(s.disk, VOLUME, 5, [5, 0])
    ensures W.Scan(s, VOLUME, [], stack, 0, t, [ScannedLabel(vol, stack), ScannedFile(e, stack)])
  {
    hide *;
    SlotsScanned();
    var f0, f1 := ScannedLabel(vol, stack), ScannedFile(e, stack);
    CardFiles(vol, e, stack);
    var u := OpenedTurn(s, VOLUME, 0, vol, [2]);
    var v := OpenedTurn(u, VOLUME, 1, e, [5, 0]);
    EndRead(v);
    t := W.ReadSlot(v, VOLUME, 2).0;
    assert [] + [f0] == [f0] && [f0] + [f1] == [f0, f1];
    LastTurn(v, VOLUME, [f0, f1], f1, 2);
    LiveTurn(u, VOLUME, [f0], f0, 1, e, [5, 0], v, t, [f0, f1]);
    LiveTurn(s, VOLUME, [], stack, 0, vol, [2], u, t, [f0, f1]);
  }

  /** The scan of that card caches the label as a file in cluster 2, and for the file the list [5, 0]
      and not its chain [3]; the least cluster in no list is 3. */
  lemma ScanOfCard(s: IoState, vol: Entry, e: Entry, stack: File) returns (t: IoState)
    requires Live(vol) && FirstClusterOf(vol) == 0 && Live(e) && FirstClusterOf(e) == 3
    requires s.disk == Card(vol, e) && Wf(s) && Coherent(s) && s.faults == []
    ensures var files := [ScannedLabel(vol, stack), ScannedFile(e, stack)];
            && W.Scan(s, VOLUME, [], stack, 0, t, files)
            && NextCluster(files) == 3 && NextSlot(files) == 2 && InChain(files, 2)
    ensures RootFits(s.disk, VOLUME) && OwnChain(s.disk, VOLUME, 1, [3])
  {
    hide *;
    SlotsScanned();
    CardSlots(vol, e);
    CardChains(vol, e);
    t := ScanOfTwo(s, vol, e, stack);
    CacheNumbers([ScannedLabel(vol, stack), ScannedFile(e, stack)], vol, e, stack);
    IsOwnChain(s.disk, VOLUME, 1, [3]);
  }

  lemma IsOwnChain(d: Disk, g: Geometry, j: nat, own: seq<U32>)
    requires RootFits(d, g) && j < SCANNED && IsChain(d, g, FirstClusterOf(SlotEntry(d, g, j)), own)
    ensures OwnChain(d, g, j, own)
  {
    hide SlotEntry, IsChain, FirstClusterOf;
  }

  lemma CacheNumbers(files: seq<File>, vol: Entry, e: Entry, stack: File)
    requires files == [ScannedLabel(vol, stack), ScannedFile(e, stack)]
    ensures NextCluster(files) == 3 && NextSlot(files) == 2 && InChain(files, 2)
  {
    hide StrNCpy, SizeOf, FirstClusterOf, NextCluster, NextSlot;
    assert files[0].fatList[0] == 2 && files[1].fatList == [5, 0];
    assert files[0].rootDirOffset == 0 && files[1].rootDirOffset == 1;
    assert !InChain(files, 3);
    assert HasSlot(files, 0) && HasSlot(files, 1) && !HasSlot(files, 2);
    LeastCluster(files);
  }

  lemma LeastCluster(files: seq<File>)
    requires InChain(files, 2) && !InChain(files, 3) && HasSlot(files, 0) && HasSlot(files, 1) && !HasSlot(files, 2)
    ensures NextCluster(files) == 3 && NextSlot(files) == 2
  {
    InClusters(files, 2);
    InClusters(files, 3);
    InSlots(files, 0);
    InSlots(files, 1);
    InSlots(files, 2);
    hide InChain, HasSlot, Clusters, Slots;
  }

  /** So on that card every new file overwrites the data of the old one. */
  lemma OwnDataLost(vol: Entry, e: Entry, stack: File, f: File, s: IoState, c: IoState, f1: File)
    requires s.disk == Card(vol, e) && Wf(s) && s.faults == []
    requires var files := [ScannedLabel(vol, stack), ScannedFile(e, stack)];
             FindFile(files, f.name, f.ext) == |files| && (c, f1) == CreatFile(s, VOLUME, files, f)
    ensures f1.currentCluster == 3 && !LeavesAlone(s, VOLUME, c, f1, [3])
  {
    hide *;
    var files := [ScannedLabel(vol, stack), ScannedFile(e, stack)];
    CacheNumbers(files, vol, e, stack);
    NewOnCard(s, files, f, c, f1);
    LeavesAloneIff(s, VOLUME, files, f, c, f1, [3], e);
    NewFileNumbers(s, VOLUME, files, f, ClusterBytes(VOLUME), c, f1);
    assert 3 in [3];
  }

  /** And a log written after reopening the old file there begins at byte 6144 and not at the
      file's first byte 5120, while its length is added to the old size. */
  lemma ReopenOnCard(vol: Entry, e: Entry, stack: File, f: File, s: IoState, c: IoState, f1: File, b: Byte, prior: Entry)
    requires s.disk == Card(vol, e) && Wf(s) && s.faults == []
    requires var files := [ScannedLabel(vol, stack), ScannedFile(e, stack)];
             FindFile(files, f.name, f.ext) == 1 && (c, f1) == CreatFile(s, VOLUME, files, f)
    requires FirstClusterOf(e) == 3
    ensures ClusterAddr(VOLUME, FirstClusterOf(e)) == 5120 && f1.startByteOffset == 6144
    ensures var t := WriteAll(c, VOLUME, f1, [[b]], 1, prior).0;
            && Wf(t) && |t.disk| == |s.disk| == 16 && Peek(View(t), 6144) == b
            && SizeOf(EntryAt(View(t), 4640)) == Wrap32(SizeOf(EntryAt(View(s), 4640)) + 1)
  {
    hide *;
    var files := [ScannedLabel(vol, stack), ScannedFile(e, stack)];
    FileOnCard(vol, e, stack);
    IsReopened(s, VOLUME, files, f, c, f1);
    ReopenedFields(s, VOLUME, files, f, c, f1);
    VolumeAddresses();
    ReopenPlaced(s, f1);
    FirstByteLogged(s, VOLUME, f1, b, prior);
    OneByte(b);
    RunSoFar(s, VOLUME, f1, [[b]], 1, 0, prior);
    SizeAfterAdd(EntryAt(View(s), 4640), 1);
  }

  lemma FileOnCard(vol: Entry, e: Entry, stack: File)
    requires FirstClusterOf(e) == 3
    ensures ScannedFile(e, stack).currentCluster == 5 && ScannedFile(e, stack).rootDirOffset == 1 && |Card(vol, e)| == 16
  {
    hide FirstClusterOf, StrNCpy, SizeOf;
  }

  lemma OneByte(b: Byte)
    ensures |Concat([[b]], 1)| == 1
  {
    assert Concat([[b]], 0) == [];
  }

  lemma ReopenPlaced(s: IoState, f: File)
    requires |s.disk| == 16 && Wf(s) && s.faults == [] && f.rootDirOffset == 1 && f.currentByteOffset == 6144
    ensures Placed(s, VOLUME, f, 1) && 4640 + 32 <= Size(View(s)) && 6144 < Size(View(s))
  {
    hide View;
  }

  lemma NewNumbers(s: IoState, files: seq<File>, f: File)
    requires NextCluster(files) == 3 && NextSlot(files) == 2 && FindFile(files, f.name, f.ext) == |files|
    ensures var f1 := CreatFile(s, VOLUME, files, f).1; f1.rootDirOffset == 2 && f1.currentCluster == 3
  {
    hide NextCluster, NextSlot, FindFile, WriteBytes, NewEntry, ClusterAddr, EntryAddr;
  }

  lemma NewOnCard(s: IoState, files: seq<File>, f: File, c: IoState, f1: File)
    requires |s.disk| == 16 && Wf(s) && s.faults == [] && FindFile(files, f.name, f.ext) == |files|
    requires NextCluster(files) == 3 && NextSlot(files) == 2 && (c, f1) == CreatFile(s, VOLUME, files, f)
    ensures NewFile(s, VOLUME, files, f, ClusterBytes(VOLUME), c, f1)
  {
    hide NextCluster, NextSlot, InChain, FindFile, CreatFile, ClusterAddr, ClusterBytes, EntryAddr, ClusterFits, RootPlaced, FatFits, FatAddr;
    NewNumbers(s, files, f);
    VolumeAddresses();
    VolumeFits(s.disk, 0);
  }
}
