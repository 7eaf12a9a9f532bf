/** src/fat.c: the volume byte by byte. What the layers above say through decoded entries, chains and
    caches, said here of single bytes at addresses on the card (FAT32 File System Specification,
    sections "FAT Data Structure" and "FAT Directory Structure"). */
module FatBytes {
  import opened Bytes
  import opened Store
  import opened Io
  import opened IoRefinement
  import opened FatLayout
  import opened FatAlloc
  import opened FatWrite
  import opened FatRuns
  import opened FatCrash
  import opened FatChain
  import opened FatDir
  import opened FatReuse
  import opened FatIsolation
  import W = FatWalk
  import F = Fat

  // ---- the geometry of the boot sector ----

  lemma Product(m: nat, n: nat)
    ensures 0 <= m * n && (0 < m ==> n <= m * n)
  {
    if 0 < m {
      MulMonotone(1, m, n);
      assert 1 * n == n;
    }
  }

  lemma SectorNumbers(start: U32, bs: BootSector)
    requires start + bs.reservedSectors + bs.numberOfFats * bs.sectorsPerFat < 0x80_0000
    ensures var g := SetContext(start, bs);
            && g.fatBeginSector == start + bs.reservedSectors
            && g.clusterBeginSector == g.fatBeginSector + bs.numberOfFats * bs.sectorsPerFat
            && g.rootCluster == bs.rootCluster && g.sectorsPerCluster == bs.sectorsPerCluster
            && (0 < bs.numberOfFats ==> bs.sectorsPerFat <= bs.numberOfFats * bs.sectorsPerFat)
  {
    Product(bs.numberOfFats, bs.sectorsPerFat);
    NoWrap(start + bs.reservedSectors);
    NoWrap(start + bs.reservedSectors + bs.numberOfFats * bs.sectorsPerFat);
    hide LbaFromCluster, Wrap32;
  }

  lemma AddressNumbers(g: Geometry)
    requires g.fatBeginSector < 0x80_0000 && g.clusterBeginSector < 0x80_0000
    ensures FatAddr(g, 0) == 512 * g.fatBeginSector && ClusterAddr(g, 2) == 512 * g.clusterBeginSector
  {
    assert (2 - 2) * g.sectorsPerCluster * 512 == 0;
  }

  /** The table begins right behind the reserved sectors, and cluster 2 right behind the copies of the
      table; the rest of the geometry is the boot sector's. */
  lemma TablesThenClusters(start: U32, bs: BootSector)
    requires start + bs.reservedSectors + bs.numberOfFats * bs.sectorsPerFat < 0x80_0000
    ensures var g := SetContext(start, bs);
            && FatAddr(g, 0) == 512 * (start + bs.reservedSectors)
            && ClusterAddr(g, 2) == FatAddr(g, 0) + 512 * (bs.numberOfFats * bs.sectorsPerFat)
            && g.rootCluster == bs.rootCluster && g.sectorsPerCluster == bs.sectorsPerCluster
  {
    SectorNumbers(start, bs);
    Product(bs.numberOfFats, bs.sectorsPerFat);
    hide *;
    AddressNumbers(SetContext(start, bs));
  }

  /** So an entry inside the first copy of the table never shares a byte with the data of a cluster. */
  lemma TableClearOfData(start: U32, bs: BootSector, c: U32, k: U32)
    requires start + bs.reservedSectors + bs.numberOfFats * bs.sectorsPerFat < 0x80_0000
    requires 0 < bs.numberOfFats && c < 128 * bs.sectorsPerFat && ClusterFits(SetContext(start, bs), k)
    ensures var g := SetContext(start, bs); FatAddr(g, c) == FatAddr(g, 0) + 4 * c && FatAddr(g, c) + 4 <= ClusterAddr(g, k)
  {
    hide *;
    var g := SetContext(start, bs);
    SectorNumbers(start, bs);
    ClusterBehind(g, k);
    TableEntryAddress(g, c);
    TableEntryAddress(g, 0);
  }

  lemma ClusterBehind(g: Geometry, k: U32)
    requires ClusterFits(g, k)
    ensures 512 * g.clusterBeginSector <= ClusterAddr(g, k)
  {
    ClusterAddrExact(g, k);
    Product(k - 2, ClusterBytes(g));
    hide ClusterAddr, ClusterBytes;
  }

  lemma TableEntryAddress(g: Geometry, c: U32)
    requires 512 * g.fatBeginSector + 4 * c < 0x1_0000_0000
    ensures FatAddr(g, c) == 512 * g.fatBeginSector + 4 * c
  {
  }

  // ---- the table ----

  /** Cluster `i` of the chain leads to the next one, or ends the chain if it is the last. */
  ghost predicate Link(d: Disk, g: Geometry, chain: seq<U32>, i: nat)
    requires i < |chain|
  {
    && FatFits(d, g, chain[i])
    && if i + 1 < |chain| then FatEntry(d, g, chain[i]) == chain[i + 1] && !IsLast(chain[i + 1])
       else IsLast(FatEntry(d, g, chain[i]))
  }

  lemma {:induction false} ChainByLinks(d: Disk, g: Geometry, first: U32, chain: seq<U32>)
    ensures IsChain(d, g, first, chain) <==> chain != [] && chain[0] == first && forall i :: 0 <= i < |chain| ==> Link(d, g, chain, i)
    decreases |chain|
  {
    hide FatFits, FatEntry, IsLast;
    if chain != [] && chain[0] == first {
      assert Link(d, g, chain, 0) ==> FatFits(d, g, first);
      if Link(d, g, chain, 0) && 1 < |chain| {
        var rest := chain[1..];
        ChainByLinks(d, g, chain[1], rest);
        assert forall i :: 0 <= i < |rest| ==> (Link(d, g, rest, i) <==> Link(d, g, chain, i + 1));
        assert forall i :: 1 <= i < |chain| ==> (Link(d, g, rest, i - 1) <==> Link(d, g, chain, i));
      }
    }
  }

  /** The same of the card's bytes: those of the cluster's entry, least significant first, are the next
      cluster, and only the last cluster's, without their upper four bits, are 0x0FFFFFF8 or more. */
  ghost predicate LinkBytes(d: Disk, g: Geometry, chain: seq<U32>, i: nat)
    requires i < |chain|
  {
    var a := 512 * g.fatBeginSector as int + 4 * chain[i] as int;
    && a + 4 <= 0x200_0000 && a + 4 <= Size(d)
    && var v := Peek(d, a) as int + 0x100 * Peek(d, a + 1) as int + 0x1_0000 * Peek(d, a + 2) as int + 0x100_0000 * Peek(d, a + 3) as int;
       if i + 1 < |chain| then v == chain[i + 1] && v % 0x1000_0000 < 0x0FFF_FFF8 else v % 0x1000_0000 >= 0x0FFF_FFF8
  }

  lemma LinkByBytes(d: Disk, g: Geometry, chain: seq<U32>, i: nat)
    requires i < |chain|
    ensures Link(d, g, chain, i) <==> LinkBytes(d, g, chain, i)
  {
    hide Peek;
  }

  /** A chain is what the bytes of the table say, cluster by cluster. */
  lemma ChainByBytes(d: Disk, g: Geometry, first: U32, chain: seq<U32>)
    ensures IsChain(d, g, first, chain) <==> chain != [] && chain[0] == first && forall i :: 0 <= i < |chain| ==> LinkBytes(d, g, chain, i)
  {
    hide IsChain, Link, LinkBytes;
    ChainByLinks(d, g, first, chain);
    forall i | 0 <= i < |chain| ensures Link(d, g, chain, i) <==> LinkBytes(d, g, chain, i) {
      LinkByBytes(d, g, chain, i);
    }
  }

  /** fat32_update_fat writes the new cluster, least significant byte first, into the entry of the last
      one of the list, if there is one, and FF FF FF 0F into its own; no other byte of the view changes. */
  lemma UpdatedTableBytes(s: IoState, g: Geometry, chain: seq<U32>, cluster: U32, x: nat)
    requires Wf(s) && s.faults == [] && FatFits(s.disk, g, cluster) && x < Size(s.disk)
    requires chain != [] ==> FatFits(s.disk, g, chain[|chain| - 1]) && chain[|chain| - 1] != cluster
    ensures var t := F.UpdatedFat(s, g, chain, cluster);
            var own := 512 * g.fatBeginSector as int + 4 * cluster as int;
            var last := if chain == [] then own else 512 * g.fatBeginSector as int + 4 * chain[|chain| - 1] as int;
            && Wf(t) && |t.disk| == |s.disk|
            && Peek(View(t), x) as int ==
               if x == own || x == own + 1 || x == own + 2 then 0xFF else if x == own + 3 then 0x0F
               else if x == last then cluster % 0x100 else if x == last + 1 then cluster / 0x100 % 0x100
               else if x == last + 2 then cluster / 0x1_0000 % 0x100 else if x == last + 3 then cluster / 0x100_0000
               else Peek(View(s), x) as int
  {
    hide *;
    var d, own := View(s), FatAddr(g, cluster);
    F.UpdateFatRefines(s, g, chain, cluster);
    ViewFits(s, g, cluster);
    TableAddress(d, g, cluster);
    if chain == [] {
      ExtendedEmpty(d, g, cluster);
      FourBytes(d, own, 0x0FFF_FFFF, x);
    } else {
      var last := FatAddr(g, chain[|chain| - 1]);
      ViewFits(s, g, chain[|chain| - 1]);
      TableAddress(d, g, chain[|chain| - 1]);
      ExtendedChain(d, g, chain, cluster);
      FourBytes(d, last, cluster, x);
      FourBytes(PokeAll(d, last, Le32(cluster)), own, 0x0FFF_FFFF, x);
    }
  }

  lemma ViewFits(s: IoState, g: Geometry, c: U32)
    requires Wf(s) && FatFits(s.disk, g, c)
    ensures FatFits(View(s), g, c) && Size(View(s)) == Size(s.disk)
  {
  }

  lemma TableAddress(d: Disk, g: Geometry, c: U32)
    requires FatFits(d, g, c)
    ensures FatAddr(g, c) == 512 * g.fatBeginSector as int + 4 * c as int && FatAddr(g, c) + 4 <= Size(d)
  {
  }

  lemma ExtendedEmpty(d: Disk, g: Geometry, cluster: U32)
    requires FatFits(d, g, cluster) && FatAddr(g, cluster) + 4 <= Size(d)
    ensures Extend(d, g, [], cluster) == PokeAll(d, FatAddr(g, cluster), Le32(0x0FFF_FFFF))
  {
    hide PokeAll, FatAddr, Le32, FatFits;
  }

  lemma ExtendedChain(d: Disk, g: Geometry, chain: seq<U32>, cluster: U32)
    requires chain != [] && FatFits(d, g, cluster) && FatFits(d, g, chain[|chain| - 1])
    requires FatAddr(g, cluster) + 4 <= Size(d) && FatAddr(g, chain[|chain| - 1]) + 4 <= Size(d)
    ensures Extend(d, g, chain, cluster) ==
            PokeAll(PokeAll(d, FatAddr(g, chain[|chain| - 1]), Le32(cluster)), FatAddr(g, cluster), Le32(0x0FFF_FFFF))
  {
    hide PokeAll, FatAddr, Le32, FatFits;
  }

  /** A number stored at `a`, least significant byte first */
  lemma FourBytes(d: Disk, a: nat, v: U32, x: nat)
    requires a + 4 <= Size(d) && x < Size(d)
    ensures var e := PokeAll(d, a, Le32(v));
            && Size(e) == Size(d) && |e| == |d|
            && Peek(e, x) as int ==
               if x == a then v % 0x100 else if x == a + 1 then v / 0x100 % 0x100
               else if x == a + 2 then v / 0x1_0000 % 0x100 else if x == a + 3 then v / 0x100_0000
               else Peek(d, x) as int
  {
    PeekPokeAll(d, a, Le32(v), x);
    hide PokeAll, Peek;
  }

  // ---- the root directory ----

  lemma SlotAddress(d: Disk, g: Geometry, j: nat)
    requires RootFits(d, g) && j < 16
    ensures j < SCANNED && EntryAddr(g, j) == 512 * g.rootDirSector as int + 32 * j && 512 * g.rootDirSector as int + 32 * j + 32 <= Size(d)
  {
  }

  lemma SlotByte(d: Disk, g: Geometry, j: nat, i: nat)
    requires RootFits(d, g) && j < 16 && i < 32
    ensures j < SCANNED && SlotEntry(d, g, j)[i] == Peek(d, 512 * g.rootDirSector as int + 32 * j + i)
  {
    SlotAddress(d, g, j);
    hide Peek, EntryAddr;
  }

  /** No slot up to `k` of the directory at `root` begins with 0x00. */
  ghost predicate NoEndUpTo(d: Disk, root: nat, k: nat)
    requires root + 32 * k < Size(d)
  {
    forall x :: root <= x <= root + 32 * k && (x - root) % 32 == 0 ==> Peek(d, x) != 0x00
  }

  /** `first` are the first bytes of the slots. */
  lemma NoEndAt(d: Disk, root: nat, k: nat, first: nat -> Byte)
    requires root + 32 * k < Size(d) && forall i: nat :: i <= k ==> first(i) == Peek(d, root + 32 * i)
    ensures NoEndUpTo(d, root, k) <==> forall i: nat :: i <= k ==> first(i) != 0x00
  {
    hide Peek, Size;
    if forall i: nat :: i <= k ==> first(i) != 0x00 {
      forall x | root <= x <= root + 32 * k && (x - root) % 32 == 0 ensures Peek(d, x) != 0x00 {
        var i: nat := (x - root) / 32;
        assert x == root + 32 * i && i <= k;
        assert first(i) != 0x00;
      }
    }
    if NoEndUpTo(d, root, k) {
      forall i: nat | i <= k ensures first(i) != 0x00 {
        var x := root + 32 * i;
        assert (x - root) % 32 == 0;
        assert Peek(d, x) != 0x00;
      }
    }
  }

  lemma NoEndIff(d: Disk, g: Geometry, k: nat)
    requires RootFits(d, g) && k < 16
    ensures k < SCANNED && 512 * g.rootDirSector as int + 32 * k < Size(d)
    ensures NoEndUpTo(d, 512 * g.rootDirSector as int, k) <==> forall i :: 0 <= i <= k ==> SlotEntry(d, g, i)[0] != NEVER_USED
  {
    var root := 512 * g.rootDirSector as int;
    SlotByte(d, g, k, 0);
    forall i: nat | i <= k ensures i < SCANNED && SlotEntry(d, g, i)[0] == Peek(d, root + 32 * i) {
      SlotByte(d, g, i, 0);
    }
    var first := (i: nat) => if i <= k then SlotEntry(d, g, i)[0] else 0;
    hide SlotEntry, Peek, NoEndUpTo;
    NoEndAt(d, root, k, first);
    assert forall i: nat :: i <= k ==> first(i) == SlotEntry(d, g, i)[0];
  }

  lemma LiveByBytes(d: Disk, g: Geometry, k: nat)
    requires RootFits(d, g) && k < 16
    ensures var a := 512 * g.rootDirSector as int + 32 * k;
            && k < SCANNED && a + 32 <= Size(d)
            && (Live(SlotEntry(d, g, k)) <==> Peek(d, a) != 0x00 && Peek(d, a) != 0xE5 && Peek(d, a + 11) % 16 != 15)
  {
    SlotAddress(d, g, k);
    SlotByte(d, g, k, 0);
    SlotByte(d, g, k, 11);
    hide SlotEntry, Peek, EntryAddr;
  }

  lemma ScannedBySlots(d: Disk, g: Geometry, k: nat)
    requires RootFits(d, g)
    ensures 512 * g.rootDirSector as int + 512 <= Size(d)
    ensures k in LiveSlots(d, g, 0) <==>
            k < 16 && k < SCANNED && Live(SlotEntry(d, g, k)) && forall i :: 0 <= i <= k ==> SlotEntry(d, g, i)[0] != NEVER_USED
  {
    LiveSlotsExact(d, g, 0, k);
    hide SlotEntry, Live, LiveSlots;
  }

  /** The scan lists exactly the slots below 16 whose entry does not begin with 0xE5, is not marked as
      part of a long name (0x0F in the low half of byte 11) and up to which none begins with 0x00. */
  lemma ScannedByBytes(d: Disk, g: Geometry, k: nat)
    requires RootFits(d, g)
    ensures k in LiveSlots(d, g, 0) <==>
            var root := 512 * g.rootDirSector as int;
            && k < 16 && root + 512 <= Size(d)
            && Peek(d, root + 32 * k) != 0xE5 && Peek(d, root + 32 * k + 11) % 16 != 15 && NoEndUpTo(d, root, k)
  {
    hide *;
    var root := 512 * g.rootDirSector as int;
    ScannedBySlots(d, g, k);
    if k < 16 {
      NoEndIff(d, g, k);
      LiveByBytes(d, g, k);
      EndsHere(d, root, k);
    }
  }

  lemma EndsHere(d: Disk, root: nat, k: nat)
    requires root + 32 * k < Size(d)
    ensures NoEndUpTo(d, root, k) ==> Peek(d, root + 32 * k) != 0x00
  {
    hide Peek;
    assert (root + 32 * k - root) % 32 == 0;
  }

  /** A NUL between `a` and `b` */
  ghost predicate NulIn(d: Disk, a: nat, b: nat) {
    exists x :: a <= x <= b && x < Size(d) && Peek(d, x) == 0x00
  }

  /** What the scan caches about the entry in slot `j`, read off its bytes: the name in bytes 0 to 7 and
      the extension in 8 to 10, both up to a NUL, the size in bytes 28 to 31, and as current cluster two
      more than the number in bytes 26, 27, 20 and 21, least significant byte first. */
  lemma CachedByBytes(f: File, d: Disk, g: Geometry, j: nat)
    requires RootFits(d, g) && j < SCANNED && Caches(f, d, g, j)
    ensures var a := 512 * g.rootDirSector as int + 32 * j;
            && a + 32 <= Size(d) && f.rootDirOffset == j
            && f.size == Peek(d, a + 28) as int + 0x100 * Peek(d, a + 29) as int + 0x1_0000 * Peek(d, a + 30) as int + 0x100_0000 * Peek(d, a + 31) as int
            && f.currentCluster == (Peek(d, a + 26) as int + 0x100 * Peek(d, a + 27) as int + 0x1_0000 * Peek(d, a + 20) as int
                                    + 0x100_0000 * Peek(d, a + 21) as int + 2) % 0x1_0000_0000
            && (forall i :: 0 <= i < 8 ==> f.name[i] == if NulIn(d, a, a + i) then 0 else Peek(d, a + i))
            && (forall i :: 0 <= i < 3 ==> f.ext[i] == if NulIn(d, a + 8, a + 8 + i) then 0 else Peek(d, a + 8 + i))
  {
    hide *;
    var e, a := SlotEntry(d, g, j), 512 * g.rootDirSector as int + 32 * j;
    SlotBytes(d, g, j);
    CachesEntry(f, d, g, j);
    CachedNumbers(e);
    CachedField(d, a, NameOf(e));
    CachedField(d, a + 8, ExtOf(e));
  }

  lemma SlotBytes(d: Disk, g: Geometry, j: nat)
    requires RootFits(d, g) && j < SCANNED
    ensures var e, a := SlotEntry(d, g, j), 512 * g.rootDirSector as int + 32 * j;
            && a + 32 <= Size(d) && (forall i :: 0 <= i < 32 ==> e[i] == Peek(d, a + i))
            && |NameOf(e)| == 8 && (forall i :: 0 <= i < 8 ==> NameOf(e)[i] == Peek(d, a + i))
            && |ExtOf(e)| == 3 && (forall i :: 0 <= i < 3 ==> ExtOf(e)[i] == Peek(d, a + 8 + i))
  {
    var e, a := SlotEntry(d, g, j), 512 * g.rootDirSector as int + 32 * j;
    SlotAddress(d, g, j);
    forall i | 0 <= i < 32 ensures e[i] == Peek(d, a + i) {
      SlotByte(d, g, j, i);
    }
    hide SlotEntry, Peek, EntryAddr, RootFits;
  }

  lemma CachesEntry(f: File, d: Disk, g: Geometry, j: nat)
    requires RootFits(d, g) && j < SCANNED && Caches(f, d, g, j)
    ensures var e := SlotEntry(d, g, j);
            && f.rootDirOffset == j && f.size == SizeOf(e) && f.currentCluster == WalkStart(e)
            && f.name == StrNCpy(NameOf(e)) && f.ext == StrNCpy(ExtOf(e))
  {
    hide SlotEntry, IsChain, StrNCpy, SizeOf, WalkStart;
  }

  lemma CachedNumbers(e: Entry)
    ensures SizeOf(e) == e[28] as int + 0x100 * e[29] as int + 0x1_0000 * e[30] as int + 0x100_0000 * e[31] as int
    ensures WalkStart(e) == (e[26] as int + 0x100 * e[27] as int + 0x1_0000 * e[20] as int + 0x100_0000 * e[21] as int + 2) % 0x1_0000_0000
  {
  }

  lemma CachedField(d: Disk, a: nat, field: seq<Byte>)
    requires a + |field| <= Size(d) && forall i :: 0 <= i < |field| ==> field[i] == Peek(d, a + i)
    ensures forall i :: 0 <= i < |field| ==> StrNCpy(field)[i] == if NulIn(d, a, a + i) then 0 else Peek(d, a + i)
  {
    hide Peek, StrNCpy;
    forall i | 0 <= i < |field|
      ensures StrNCpy(field)[i] == if NulIn(d, a, a + i) then 0 else Peek(d, a + i)
    {
      StrNCpyAt(field, i);
      if k :| 0 <= k <= i && field[k] == 0 {
        assert Peek(d, a + k) == 0;
      }
      if x :| a <= x <= a + i && x < Size(d) && Peek(d, x) == 0 {
        assert field[x - a] == 0;
      }
    }
  }

  /** strncpy keeps the bytes up to the first NUL and puts NUL everywhere from there on. */
  lemma {:induction false} StrNCpyAt(s: seq<Byte>, i: nat)
    requires i < |s|
    ensures StrNCpy(s)[i] == if exists k :: 0 <= k <= i && s[k] == 0 then 0 else s[i]
  {
    if s[0] != 0 && i > 0 {
      StrNCpyAt(s[1..], i - 1);
      if k :| 0 <= k <= i && s[k] == 0 {
        assert s[1..][k - 1] == 0;
      }
    } else {
      assert s[0] == 0 || i == 0;
    }
  }

  /** Byte `i` of the entry that a create makes */
  lemma NewEntryByte(name: Name, ext: Ext, cluster: U32, i: nat)
    requires i < 32
    ensures NewEntry(name, ext, cluster)[i] as int ==
            if i < 8 then (if exists k :: 0 <= k <= i && name[k] == 0 then 0 else name[i])
            else if i < 11 then (if exists k :: 0 <= k <= i - 8 && ext[k] == 0 then 0 else ext[i - 8])
            else if i == 20 then cluster / 0x1_0000 % 0x100 else if i == 21 then cluster / 0x100_0000
            else if i == 26 then cluster % 0x100 else if i == 27 then cluster / 0x100 % 0x100
            else 0
  {
    if i < 8 {
      StrNCpyAt(name, i);
    } else if i < 11 {
      StrNCpyAt(ext, i - 8);
    } else {
      HalfBytes(cluster);
    }
    hide StrNCpy;
  }

  lemma HalfBytes(cluster: U32)
    ensures cluster / 0x1_0000 / 0x100 == cluster / 0x100_0000 && cluster % 0x1_0000 % 0x100 == cluster % 0x100
    ensures cluster % 0x1_0000 / 0x100 == cluster / 0x100 % 0x100
  {
    var y := cluster / 0x100;
    assert cluster == 0x100 * y + cluster % 0x100 && y == 0x100 * (cluster / 0x1_0000) + y % 0x100;
  }

  /** A create of a new name writes these 32 bytes into the slot it has found, and no other byte of the
      view: name and extension up to a NUL, the cluster in bytes 26, 27, 20 and 21, zero elsewhere. */
  lemma CreatedBytes(s: IoState, g: Geometry, files: seq<File>, f: File, x: nat)
    requires Wf(s) && s.faults == [] && FindFile(files, f.name, f.ext) == |files| && x < Size(s.disk)
    requires 512 * g.rootDirSector + 32 * NextSlot(files) + 32 <= 0x200_0000
    requires 512 * g.rootDirSector + 32 * NextSlot(files) + 32 <= Size(s.disk) && NextCluster(files) < 0x1_0000_0000
    ensures var t := CreatFile(s, g, files, f).0;
            var a, c := 512 * g.rootDirSector as int + 32 * NextSlot(files), NextCluster(files);
            && Wf(t) && |t.disk| == |s.disk| && 0 <= a
            && Peek(View(t), x) as int ==
               if a <= x < a + 8 then (if exists k :: 0 <= k <= x - a && f.name[k] == 0 then 0 else f.name[x - a])
               else if a + 8 <= x < a + 11 then (if exists k :: 0 <= k <= x - a - 8 && f.ext[k] == 0 then 0 else f.ext[x - a - 8])
               else if x == a + 20 then c / 0x1_0000 % 0x100 else if x == a + 21 then c / 0x100_0000
               else if x == a + 26 then c % 0x100 else if x == a + 27 then c / 0x100 % 0x100
               else if a <= x < a + 32 then 0
               else Peek(View(s), x) as int
  {
    hide *;
    FreshNumbers(files);
    NoWrap(NextSlot(files));
    NoWrap(NextCluster(files));
    var slot, c := NextSlot(files), NextCluster(files);
    var a, e := 512 * g.rootDirSector as int + 32 * slot, NewEntry(f.name, f.ext, c);
    SlotInRange(s.disk, g, slot);
    CreatExact(s, g, files, f);
    SameSizeAs(s.disk, View(s));
    PeekStored(View(s), a, e, x);
    if a <= x < a + 32 {
      NewEntryByte(f.name, f.ext, c, x - a);
    }
  }

  lemma SlotInRange(d: Disk, g: Geometry, slot: int)
    requires 0 <= slot && 512 * g.rootDirSector + 32 * slot + 32 <= 0x200_0000
    ensures slot < 0x1_0000_0000 && EntryAddr(g, slot) == 512 * g.rootDirSector + 32 * slot
    ensures Fits(d, EntryAddr(g, slot), 32) <==> 512 * g.rootDirSector + 32 * slot + 32 <= Size(d)
  {
  }

  lemma PeekStored(d: Disk, a: nat, e: Entry, x: nat)
    requires a + 32 <= Size(d) && x < Size(d)
    ensures var t := PokeAll(d, a, e); Size(t) == Size(d) && Peek(t, x) == if a <= x < a + 32 then e[x - a] else Peek(d, x)
  {
    PeekPokeAll(d, a, e, x);
    hide PokeAll, Peek;
  }

  lemma SameSizeAs(d: Disk, e: Disk)
    ensures |d| == |e| ==> Size(d) == Size(e)
  {
  }

  /** After non-empty writes to a new file, bytes 28 to 31 of its slot are their length, least
      significant byte first, and the log stands at the beginning of its cluster. */
  lemma LoggedBytes(s: IoState, g: Geometry, files: seq<File>, f: File, bufs: seq<seq<Byte>>, stack: Entry, c: IoState, f1: File, i: nat)
    requires NewFile(s, g, files, f, |Concat(bufs, |bufs|)|, c, f1) && (forall k :: 0 <= k < |bufs| ==> bufs[k] != [])
    requires 512 * g.rootDirSector + 32 * NextSlot(files) + 32 <= 0x200_0000 && i < |Concat(bufs, |bufs|)|
    ensures var t, log := WriteAll(c, g, f1, bufs, |bufs|, stack).0, Concat(bufs, |bufs|);
            var a := 512 * g.rootDirSector as int + 32 * NextSlot(files);
            var start := g.clusterBeginSector as int * 512 + (NextCluster(files) - 2) * (g.sectorsPerCluster * 512);
            && Wf(t) && 0 <= a && a + 32 <= Size(View(t)) && 0 <= start && start + |log| <= Size(View(t))
            && Peek(View(t), a + 28) as int + 0x100 * Peek(View(t), a + 29) as int + 0x1_0000 * Peek(View(t), a + 30) as int
               + 0x100_0000 * Peek(View(t), a + 31) as int == |log|
            && Peek(View(t), start + i) == log[i]
  {
    hide *;
    var n, t := |Concat(bufs, |bufs|)|, WriteAll(c, g, f1, bufs, |bufs|, stack).0;
    NewFileMeans(s, g, files, f, n, c, f1);
    NewFileNumbers(s, g, files, f, n, c, f1);
    NewFilePlaced(s, g, files, f, n, c, f1);
    SlotInRange(s.disk, g, NextSlot(files));
    LoggedAt(c, g, f1, bufs, stack, i);
    SizeIsWrittenIff(s, g, files, f, bufs, stack, c, f1);
    SizeBytes(View(t), EntryAddr(g, f1.rootDirOffset));
    ClusterStart(g, f1.currentCluster);
  }

  lemma NewFileMeans(s: IoState, g: Geometry, files: seq<File>, f: File, n: nat, c: IoState, f1: File)
    requires NewFile(s, g, files, f, n, c, f1)
    ensures (c, f1) == CreatFile(s, g, files, f) && FindFile(files, f.name, f.ext) == |files| && ClusterFits(g, f1.currentCluster)
    ensures 0 <= NextSlot(files) && Fits(s.disk, EntryAddr(g, f1.rootDirOffset), 32)
  {
    FreshNumbers(files);
    hide CreatFile, FindFile, ClusterFits, NextSlot, NextCluster, InChain, HasSlot, EntryAddr, ClusterAddr, RootPlaced;
  }

  lemma LoggedAt(s: IoState, g: Geometry, f: File, bufs: seq<seq<Byte>>, stack: Entry, i: nat)
    requires Placed(s, g, f, |Concat(bufs, |bufs|)|) && (forall k :: 0 <= k < |bufs| ==> bufs[k] != [])
    requires i < |Concat(bufs, |bufs|)|
    ensures var (t, f1), log := WriteAll(s, g, f, bufs, |bufs|, stack), Concat(bufs, |bufs|);
            && Wf(t) && f.currentByteOffset + |log| <= Size(View(t)) && f1.currentByteOffset == f.currentByteOffset + |log|
            && Peek(View(t), f.currentByteOffset + i) == log[i]
  {
    var log := Concat(bufs, |bufs|);
    EntryInOneSector(g, f.rootDirOffset);
    Conservation(s, g, f, bufs, |bufs|, 0, stack);
    hide WriteAll, EntryAddr, View, Concat, Peek, AddSize, EntryAt, Clear;
    var t := WriteAll(s, g, f, bufs, |bufs|, stack).0;
    assert Peek(View(t), f.currentByteOffset + i) == LoggedByte(View(s), EntryAddr(g, f.rootDirOffset), f.currentByteOffset, log, f.currentByteOffset + i);
  }

  lemma SizeBytes(d: Disk, a: nat)
    requires a + 32 <= Size(d)
    ensures SizeOf(EntryAt(d, a)) == Peek(d, a + 28) as int + 0x100 * Peek(d, a + 29) as int + 0x1_0000 * Peek(d, a + 30) as int + 0x100_0000 * Peek(d, a + 31) as int
  {
    CachedNumbers(EntryAt(d, a));
    hide Peek, SizeOf;
  }

  lemma ClusterStart(g: Geometry, c: U32)
    requires ClusterFits(g, c)
    ensures 2 <= c && 0 <= ClusterAddr(g, c) == g.clusterBeginSector as int * 512 + (c - 2) * (g.sectorsPerCluster * 512)
  {
    ClusterAddrExact(g, c);
    hide ClusterAddr;
  }

  // ---- a card with entries that the scan passes over ----

  /** On the card with the table of FatReuse and these two entries, slot 2 ends the directory. */
  lemma CardListed(x: Entry, y: Entry, k: nat)
    ensures RootFits(Card(x, y), VOLUME)
    ensures k in LiveSlots(Card(x, y), VOLUME, 0) <==>
            x[0] != 0x00 && ((k == 0 && x[0] != 0xE5 && x[11] % 16 != 15) || (k == 1 && y[0] != 0x00 && y[0] != 0xE5 && y[11] % 16 != 15))
  {
    var d := Card(x, y);
    CardSlots(x, y);
    ScannedBySlots(d, VOLUME, k);
    hide Card, SlotEntry, LiveSlots;
  }

  /** A deleted entry and a part of a long name: the scan comes to its end without caching either, so
      with nothing cached before the next new file gets slot 0. */
  lemma NeitherCached(del: Entry, long: Entry, s: IoState, was: seq<File>, file: File)
    requires del[0] == 0xE5 && long[0] != 0x00 && long[11] == 0x0F
    requires s.disk == Card(del, long) && Wf(s) && Coherent(s)
    ensures W.ScanEnds(s, VOLUME, was, file)
    ensures forall t, after :: W.Scan(s, VOLUME, was, file, 0, t, after) ==> after == was
    ensures NextSlot([]) == 0
  {
    hide *;
    var d := s.disk;
    NothingCached();
    VolumeNumbers(d);
    CardListed(del, long, 0);
    forall k: nat ensures k !in LiveSlots(d, VOLUME, 0) {
      CardListed(del, long, k);
    }
    NoneLive(s, was, file, del, long);
    CardIsSmall(del, long);
    forall t, after | W.Scan(s, VOLUME, was, file, 0, t, after) ensures after == was {
      W.ScanIsExact(s, VOLUME, was, file, t, after);
      NoneAdded(s, t, was, after);
    }
  }

  lemma CardIsSmall(x: Entry, y: Entry)
    ensures W.Small(Card(x, y))
  {
  }

  lemma HasFirst(slots: seq<nat>)
    requires slots != []
    ensures exists k: nat :: k in slots
  {
    assert slots[0] in slots;
  }

  lemma NoneAdded(s: IoState, t: IoState, was: seq<File>, after: seq<File>)
    requires W.Scanned(s, t, VOLUME, was, after) && RootFits(s.disk, VOLUME)
    requires forall k: nat :: k !in LiveSlots(s.disk, VOLUME, 0)
    ensures after == was
  {
    hide CachesAll, LiveSlots, W.OnlyRead, RootFits;
    var slots, added := LiveSlots(s.disk, VOLUME, 0), after[|was|..];
    if slots != [] {
      HasFirst(slots);
    }
    assert |Offsets(added)| == 0;
    assert after == after[..|was|] + added;
  }

  lemma BlankSlot(x: Entry, y: Entry, j: nat)
    requires 2 <= j < 16
    ensures RootFits(Card(x, y), VOLUME) && j < SCANNED && !Live(SlotEntry(Card(x, y), VOLUME, j))
  {
    hide *;
    var d, a := Card(x, y), 4608 + 32 * j;
    CardSlots(x, y);
    VolumeNumbers(d);
    SlotByte(d, VOLUME, j, 0);
    TableIsBlankAt(a);
    BehindEntries(x, y, a);
    BlankIsNotLive(SlotEntry(d, VOLUME, j));
  }

  lemma VolumeNumbers(d: Disk)
    ensures VOLUME.rootDirSector == 9 && 16 == SCANNED && (|d| == 16 ==> Size(d) == 8192)
  {
  }

  lemma BlankIsNotLive(e: Entry)
    ensures e[0] == 0x00 ==> !Live(e)
  {
  }

  lemma BehindEntries(x: Entry, y: Entry, a: nat)
    requires 4672 <= a < 8192
    ensures a < Size(Table()) && a < Size(Card(x, y)) && Peek(Card(x, y), a) == Peek(Table(), a)
  {
    PeekPokeAll(Table(), 4608, x, a);
    PeekPokeAll(PokeAll(Table(), 4608, x), 4640, y, a);
    hide PokeAll, Peek, Table;
  }

  lemma NoneLive(s: IoState, was: seq<File>, file: File, x: Entry, y: Entry)
    requires x[0] == 0xE5 && y[11] == 0x0F && s.disk == Card(x, y) && Wf(s) && Coherent(s)
    ensures W.ScanEnds(s, VOLUME, was, file)
  {
    CardSlots(x, y);
    hide SlotEntry, Card, IsChain, WalkStart, W.Scan, RootFits, Coherent;
    forall j | 0 <= j < SCANNED ensures !Live(SlotEntry(s.disk, VOLUME, j)) {
      if 2 <= j {
        BlankSlot(x, y, j);
      }
    }
    var t, after := W.ChainsEndScanEnds(s, VOLUME, was, file, 0);
  }

  /** A deleted entry in front of a live one: the scan caches slot 1 and nothing else. */
  lemma DeletedIsSkipped(del: Entry, e: Entry, s: IoState, was: seq<File>, file: File, t: IoState, after: seq<File>)
    requires del[0] == 0xE5 && e[0] != 0x00 && e[0] != 0xE5 && e[11] % 16 != 15
    requires s.disk == Card(del, e) && Wf(s) && Coherent(s) && s.faults == [] && W.Scan(s, VOLUME, was, file, 0, t, after)
    ensures |after| == |was| + 1 && after[..|was|] == was && after[|was|].rootDirOffset == 1
  {
    hide *;
    var d := s.disk;
    VolumeNumbers(d);
    CardListed(del, e, 0);
    forall k: nat ensures k in LiveSlots(d, VOLUME, 0) <==> k == 1 {
      CardListed(del, e, k);
    }
    SlotsIncrease(d);
    JustOne(LiveSlots(d, VOLUME, 0));
    CardIsSmall(del, e);
    W.ScanIsExact(s, VOLUME, was, file, t, after);
    OneAdded(s, t, was, after);
  }

  predicate Increasing(slots: seq<nat>) {
    forall p: nat, q: nat :: p < q < |slots| ==> slots[p] < slots[q]
  }

  lemma SlotsIncrease(d: Disk)
    requires RootFits(d, VOLUME)
    ensures Increasing(LiveSlots(d, VOLUME, 0))
  {
    hide LiveSlots, RootFits;
    forall p: nat, q: nat | p < q < |LiveSlots(d, VOLUME, 0)| ensures LiveSlots(d, VOLUME, 0)[p] < LiveSlots(d, VOLUME, 0)[q] {
      LiveSlotsIncrease(d, VOLUME, 0, p, q);
    }
  }

  lemma NotTwice(slots: seq<nat>)
    requires 1 < |slots| && slots[0] == slots[1]
    ensures !Increasing(slots)
  {
  }

  lemma JustOne(slots: seq<nat>)
    requires (forall k: nat :: k in slots <==> k == 1) && Increasing(slots)
    ensures slots == [1]
  {
    hide Increasing;
    assert 1 in slots;
    forall p | 0 <= p < |slots| ensures slots[p] == 1 {
      assert slots[p] in slots;
    }
    if 1 < |slots| {
      NotTwice(slots);
    }
  }

  lemma OneAdded(s: IoState, t: IoState, was: seq<File>, after: seq<File>)
    requires RootFits(s.disk, VOLUME) && W.Scanned(s, t, VOLUME, was, after) && s.faults == [] && LiveSlots(s.disk, VOLUME, 0) == [1]
    ensures |after| == |was| + 1 && after[..|was|] == was && after[|was|].rootDirOffset == 1
  {
    hide CachesAll, LiveSlots, W.OnlyRead, RootFits;
    var added := after[|was|..];
    assert |Offsets(added)| == 1 && Offsets(added)[0] == 1;
  }
}
