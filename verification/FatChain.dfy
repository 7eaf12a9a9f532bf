/** The file allocation table on the card: chains of clusters (FAT32 File System Specification,
    section "FAT Data Structure": 28-bit entries, end of chain from 0x0FFFFFF8 on). */
module FatChain {
  import opened Bytes
  import opened Store
  import opened IoRefinement
  import opened FatLayout

  const END_OF_CHAIN: U32 := 0x0FFF_FFFF

  /** fat32_is_last_cluster */
  predicate IsLast(x: U32) {
    x % 0x1000_0000 >= 0x0FFF_FFF8
  }

  /** The table entry of `c` is on the card, below 2^25. In particular the upper bits of `c` are zero. */
  predicate FatFits(d: Disk, g: Geometry, c: U32) {
    512 * g.fatBeginSector + 4 * c + 4 <= ADDRESSABLE && 512 * g.fatBeginSector + 4 * c + 4 <= Size(d)
  }

  function FatEntry(d: Disk, g: Geometry, c: U32): U32
    requires FatFits(d, g, c)
  {
    FromLe32(PeekAll(d, FatAddr(g, c), 4))
  }

  function SetFatEntry(d: Disk, g: Geometry, c: U32, v: U32): (e: Disk)
    requires FatFits(d, g, c)
    ensures |e| == |d|
  {
    PokeAll(d, FatAddr(g, c), Le32(v))
  }

  lemma SetFatEntryAt(d: Disk, g: Geometry, c: U32, v: U32, x: U32)
    requires FatFits(d, g, c) && FatFits(d, g, x)
    ensures FatEntry(SetFatEntry(d, g, c, v), g, x) == if x == c then v else FatEntry(d, g, x)
  {
    Le32RoundTrip(v, Le32(v));
    hide FromLe32, Le32;
    if x == c {
      PeekAllPokeAll(d, FatAddr(g, c), Le32(v));
    } else {
      PeekAllFrame(d, FatAddr(g, c), Le32(v), FatAddr(g, x), 4);
    }
  }

  /** `chain` is what following the table from `first` visits before an end marker. */
  ghost predicate IsChain(d: Disk, g: Geometry, first: U32, chain: seq<U32>)
    decreases |chain|
  {
    chain != [] && chain[0] == first && FatFits(d, g, first) &&
    var next := FatEntry(d, g, first);
    if IsLast(next) then |chain| == 1 else IsChain(d, g, next, chain[1..])
  }

  /** Following the table is deterministic. */
  lemma {:induction false} ChainUnique(d: Disk, g: Geometry, first: U32, a: seq<U32>, b: seq<U32>)
    requires IsChain(d, g, first, a) && IsChain(d, g, first, b)
    ensures a == b
    decreases |a|
  {
    hide FatEntry, IsLast;
    if !IsLast(FatEntry(d, g, first)) {
      ChainUnique(d, g, FatEntry(d, g, first), a[1..], b[1..]);
    }
    assert a == [a[0]] + a[1..] && b == [b[0]] + b[1..];
  }

  lemma {:induction false} ChainTail(d: Disk, g: Geometry, first: U32, chain: seq<U32>, k: nat)
    requires IsChain(d, g, first, chain) && k < |chain|
    ensures IsChain(d, g, chain[k], chain[k..])
    decreases k
  {
    hide FatEntry, IsLast;
    if k == 0 {
      assert chain[0..] == chain;
    } else {
      ChainTail(d, g, FatEntry(d, g, first), chain[1..], k - 1);
      assert chain[1..][k - 1..] == chain[k..];
    }
  }

  /** A walk that ends has visited no cluster twice: a table with a loop on the way never ends. */
  lemma ChainHasNoRepeats(d: Disk, g: Geometry, first: U32, chain: seq<U32>, i: nat, j: nat)
    requires IsChain(d, g, first, chain) && i < j < |chain|
    ensures chain[i] != chain[j]
  {
    ChainTail(d, g, first, chain, i);
    ChainTail(d, g, first, chain, j);
    hide IsChain;
    var a, b := chain[i..], chain[j..];
    assert |a| != |b|;
    if chain[i] == chain[j] {
      ChainUnique(d, g, chain[i], a, b);
    }
  }

  /** So a walk that ends takes at most as many turns as the table has entries on the card. */
  lemma ChainLength(d: Disk, g: Geometry, first: U32, chain: seq<U32>)
    requires IsChain(d, g, first, chain)
    ensures 4 * |chain| <= Size(d)
  {
    var bound := Size(d) / 4;
    forall i, j | 0 <= i < j < |chain| ensures chain[i] != chain[j] {
      ChainHasNoRepeats(d, g, first, chain, i, j);
    }
    forall i | 0 <= i < |chain| ensures chain[i] < bound {
      ChainTail(d, g, first, chain, i);
    }
    DistinctBelow(chain, bound);
  }

  lemma {:induction false} DistinctBelow(s: seq<U32>, bound: nat)
    requires forall i :: 0 <= i < |s| ==> s[i] < bound
    requires forall i, j :: 0 <= i < j < |s| ==> s[i] != s[j]
    ensures |s| <= bound
    decreases bound
  {
    if s == [] {
    } else if k :| 0 <= k < |s| && s[k] == bound - 1 {
      var t := s[..k] + s[k + 1..];
      forall i, j | 0 <= i < j < |t| ensures t[i] != t[j] {
        assert t[i] == s[if i < k then i else i + 1] && t[j] == s[if j < k then j else j + 1];
      }
      forall i | 0 <= i < |t| ensures t[i] < bound - 1 {
        var m := if i < k then i else i + 1;
        assert t[i] == s[m] && s[m] != s[k];
      }
      DistinctBelow(t, bound - 1);
    } else {
      assert 0 <= s[0] < bound;
      DistinctBelow(s, bound - 1);
    }
  }

  // ---- growing a chain ----

  /** What fat32_update_fat means to do to the table: link the last cluster of the file to the
      new one, if there is a last one, and end the chain there. */
  function Extend(d: Disk, g: Geometry, chain: seq<U32>, cluster: U32): (e: Disk)
    requires FatFits(d, g, cluster) && (chain != [] ==> FatFits(d, g, chain[|chain| - 1]))
    ensures |e| == |d|
  {
    var linked := if chain == [] then d else SetFatEntry(d, g, chain[|chain| - 1], cluster);
    SetFatEntry(linked, g, cluster, END_OF_CHAIN)
  }

  lemma ExtendAt(d: Disk, g: Geometry, chain: seq<U32>, cluster: U32, x: U32)
    requires FatFits(d, g, cluster) && (chain != [] ==> FatFits(d, g, chain[|chain| - 1])) && FatFits(d, g, x)
    ensures FatEntry(Extend(d, g, chain, cluster), g, x) ==
            if x == cluster then END_OF_CHAIN
            else if chain != [] && x == chain[|chain| - 1] then cluster
            else FatEntry(d, g, x)
  {
    var linked := if chain == [] then d else SetFatEntry(d, g, chain[|chain| - 1], cluster);
    hide FatEntry, SetFatEntry;
    SetFatEntryAt(linked, g, cluster, END_OF_CHAIN, x);
    if chain != [] {
      SetFatEntryAt(d, g, chain[|chain| - 1], cluster, x);
    }
  }

  /** `e` agrees with `d` along the chain but for its last entry, which now leads to `cluster`. */
  lemma {:induction false} Relinked(d: Disk, e: Disk, g: Geometry, first: U32, chain: seq<U32>, cluster: U32)
    requires IsChain(d, g, first, chain) && |e| == |d| && FatFits(d, g, cluster)
    requires forall i :: 0 <= i < |chain| - 1 ==> FatFits(d, g, chain[i]) && FatEntry(e, g, chain[i]) == FatEntry(d, g, chain[i])
    requires FatFits(d, g, chain[|chain| - 1]) && FatEntry(e, g, chain[|chain| - 1]) == cluster
    requires FatEntry(e, g, cluster) == END_OF_CHAIN
    ensures IsChain(e, g, first, chain + [cluster])
    decreases |chain|
  {
    hide FatEntry;
    assert IsChain(e, g, cluster, [cluster]);
    var rest := chain[1..];
    assert (chain + [cluster])[1..] == rest + [cluster];
    if IsLast(FatEntry(d, g, first)) {
      assert rest + [cluster] == [cluster];
    } else {
      assert rest[|rest| - 1] == chain[|chain| - 1];
      forall i | 0 <= i < |rest| - 1 ensures FatFits(d, g, rest[i]) && FatEntry(e, g, rest[i]) == FatEntry(d, g, rest[i]) {
        assert rest[i] == chain[i + 1];
      }
      Relinked(d, e, g, FatEntry(d, g, first), rest, cluster);
      assert FatEntry(e, g, chain[0]) == FatEntry(d, g, first);
    }
  }

  /** With a fresh cluster the file's chain becomes the old one and the cluster ... */
  lemma ChainExtended(d: Disk, g: Geometry, first: U32, chain: seq<U32>, cluster: U32)
    requires FatFits(d, g, cluster) && cluster !in chain
    requires if chain == [] then first == cluster else IsChain(d, g, first, chain)
    ensures chain != [] ==> FatFits(d, g, chain[|chain| - 1])
    ensures IsChain(Extend(d, g, chain, cluster), g, first, chain + [cluster])
  {
    if chain == [] {
      ExtendAt(d, g, chain, cluster, cluster);
      assert chain + [cluster] == [cluster];
    } else {
      var last := chain[|chain| - 1];
      ChainTail(d, g, first, chain, |chain| - 1);
      var e := Extend(d, g, chain, cluster);
      hide Extend, FatEntry;
      forall i | 0 <= i < |chain| - 1 ensures FatFits(d, g, chain[i]) && FatEntry(e, g, chain[i]) == FatEntry(d, g, chain[i]) {
        ChainTail(d, g, first, chain, i);
        ChainHasNoRepeats(d, g, first, chain, i, |chain| - 1);
        ExtendAt(d, g, chain, cluster, chain[i]);
      }
      ExtendAt(d, g, chain, cluster, last);
      ExtendAt(d, g, chain, cluster, cluster);
      Relinked(d, e, g, first, chain, cluster);
    }
  }

  lemma {:induction false} SameEntriesSameChain(d: Disk, e: Disk, g: Geometry, first: U32, chain: seq<U32>)
    requires IsChain(d, g, first, chain) && |e| == |d|
    requires forall c | c in chain :: FatFits(d, g, c) && FatEntry(e, g, c) == FatEntry(d, g, c)
    ensures IsChain(e, g, first, chain)
    decreases |chain|
  {
    hide FatEntry, IsLast;
    assert chain[0] in chain;
    if !IsLast(FatEntry(d, g, first)) {
      assert forall c | c in chain[1..] :: c in chain;
      SameEntriesSameChain(d, e, g, FatEntry(d, g, first), chain[1..]);
    }
  }

  /** ... and every chain that shares no cluster with the file stays as it was. */
  lemma OtherChainKept(d: Disk, g: Geometry, chain: seq<U32>, cluster: U32, other: U32, kept: seq<U32>)
    requires FatFits(d, g, cluster) && (chain != [] ==> FatFits(d, g, chain[|chain| - 1]))
    requires IsChain(d, g, other, kept) && cluster !in kept && forall c | c in chain :: c !in kept
    ensures IsChain(Extend(d, g, chain, cluster), g, other, kept)
  {
    var e := Extend(d, g, chain, cluster);
    hide Extend, FatEntry;
    forall c | c in kept ensures FatFits(d, g, c) && FatEntry(e, g, c) == FatEntry(d, g, c) {
      var i :| 0 <= i < |kept| && kept[i] == c;
      ChainTail(d, g, other, kept, i);
      if chain != [] {
        assert chain[|chain| - 1] in chain;
      }
      ExtendAt(d, g, chain, cluster, c);
    }
    SameEntriesSameChain(d, e, g, other, kept);
  }
}
