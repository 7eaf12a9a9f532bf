/** src/fat.c: which directory entries fat32_cache_root_dir caches. */
module FatDir {
  import opened Bytes
  import opened Store
  import opened IoRefinement
  import opened FatLayout
  import opened FatAlloc
  import opened FatWrite
  import opened FatChain

  const SCANNED: nat := 16

  /** fat32_parse_entry: -1 at the entry that ends the directory */
  function ParseEntry(e: Entry): int {
    if e[0] == NEVER_USED then -1 else 0
  }

  /** A file, not a deleted entry and not part of a long file name. */
  predicate Live(e: Entry) {
    e[0] != NEVER_USED && e[0] != DELETED && AttrOf(e) % 0x10 != 0x0F
  }

  /** The scanned slots are on the card, below 2^25. */
  predicate RootFits(d: Disk, g: Geometry) {
    512 * g.rootDirSector + 512 <= ADDRESSABLE && 512 * g.rootDirSector + 512 <= Size(d)
  }

  function SlotEntry(d: Disk, g: Geometry, j: nat): Entry
    requires RootFits(d, g) && j < SCANNED
  {
    EntryAt(d, EntryAddr(g, j))
  }

  /** The slots from `j` on that the scan caches. */
  function LiveSlots(d: Disk, g: Geometry, j: nat): seq<nat>
    requires RootFits(d, g) && j <= SCANNED
    decreases SCANNED - j
  {
    if j == SCANNED || ParseEntry(SlotEntry(d, g, j)) < 0 then []
    else (if Live(SlotEntry(d, g, j)) then [j] else []) + LiveSlots(d, g, j + 1)
  }

  /** Exactly the live entries of the first sixteen slots that no terminator precedes ... */
  lemma {:induction false} LiveSlotsExact(d: Disk, g: Geometry, j: nat, k: nat)
    requires RootFits(d, g) && j <= SCANNED
    ensures k in LiveSlots(d, g, j) <==>
            j <= k < SCANNED && Live(SlotEntry(d, g, k)) && forall i :: j <= i <= k ==> SlotEntry(d, g, i)[0] != NEVER_USED
    decreases SCANNED - j
  {
    hide SlotEntry;
    if j < SCANNED {
      LiveSlotsExact(d, g, j + 1, k);
    }
  }

  predicate Ascending(slots: seq<nat>, from: nat) {
    slots == [] || (from <= slots[0] < SCANNED && Ascending(slots[1..], slots[0] + 1))
  }

  lemma {:induction false} AscendingAt(slots: seq<nat>, from: nat, p: nat)
    requires Ascending(slots, from) && p < |slots|
    ensures from <= slots[p] < SCANNED && forall i :: 0 <= i < p ==> slots[i] < slots[p]
  {
    if p > 0 {
      AscendingAt(slots[1..], slots[0] + 1, p - 1);
      forall i | 0 <= i < p ensures slots[i] < slots[p] {
        assert i > 0 ==> slots[i] == slots[1..][i - 1];
      }
    }
  }

  lemma {:induction false} LiveSlotsAscend(d: Disk, g: Geometry, j: nat)
    requires RootFits(d, g) && j <= SCANNED
    ensures Ascending(LiveSlots(d, g, j), j)
    decreases SCANNED - j
  {
    hide SlotEntry, Live, LiveSlots, RootFits;
    if LiveSlots(d, g, j) != [] {
      NextLive(d, g, j);
      LiveSlotsAscend(d, g, j + 1);
      var rest := LiveSlots(d, g, j + 1);
      assert ([j] + rest)[1..] == rest;
    }
  }

  lemma NextLive(d: Disk, g: Geometry, j: nat)
    requires RootFits(d, g) && j <= SCANNED && LiveSlots(d, g, j) != []
    ensures j < SCANNED && (LiveSlots(d, g, j) == LiveSlots(d, g, j + 1) || LiveSlots(d, g, j) == [j] + LiveSlots(d, g, j + 1))
  {
    hide SlotEntry, Live;
  }

  /** ... in strictly increasing order. */
  lemma LiveSlotsIncrease(d: Disk, g: Geometry, j: nat, p: nat, q: nat)
    requires RootFits(d, g) && j <= SCANNED && p < q < |LiveSlots(d, g, j)|
    ensures j <= LiveSlots(d, g, j)[p] < LiveSlots(d, g, j)[q] < SCANNED
  {
    LiveSlotsAscend(d, g, j);
    AscendingAt(LiveSlots(d, g, j), j, p);
    AscendingAt(LiveSlots(d, g, j), j, q);
    hide LiveSlots, Ascending;
  }

  /** fat32_open_file adds two to the stored first cluster before it walks the chain. */
  function WalkStart(e: Entry): U32 {
    Wrap32(FirstClusterOf(e) + 2)
  }

  /** So a scan looks for a created file's data two clusters past where it was put. */
  lemma ReopenShifts(name: Name, ext: Ext, cluster: U32)
    ensures WalkStart(NewEntry(name, ext, cluster)) == Wrap32(cluster + 2) != cluster
  {
    NewEntryFields(name, ext, cluster);
  }

  /** What the cache holds about the entry in slot `j`. */
  ghost predicate Caches(f: File, d: Disk, g: Geometry, j: nat)
    requires RootFits(d, g) && j < SCANNED
  {
    var e := SlotEntry(d, g, j);
    && f.rootDirOffset == j && f.size == SizeOf(e)
    && f.name == StrNCpy(NameOf(e)) && f.ext == StrNCpy(ExtOf(e))
    && f.currentCluster == WalkStart(e) && IsChain(d, g, WalkStart(e), f.fatList)
  }

  function Offsets(files: seq<File>): (offsets: seq<nat>)
    ensures |offsets| == |files|
  {
    seq(|files|, i requires 0 <= i < |files| => files[i].rootDirOffset)
  }

  ghost predicate ChainEnds(d: Disk, g: Geometry, first: U32) {
    exists chain :: IsChain(d, g, first, chain)
  }

  /** `added` holds what the cache should hold, entry by entry; an entry whose chain does not end
      is cached with whatever the one before it left. */
  ghost predicate CachesAll(added: seq<File>, d: Disk, g: Geometry)
    requires RootFits(d, g)
  {
    forall k :: 0 <= k < |added| ==>
      && added[k].rootDirOffset < SCANNED
      && SlotCached(added[k], d, g, added[k].rootDirOffset, true)
  }

  /** The scan has come to slot `j` and has added `added`; `exact` when no transfer has failed. */
  ghost predicate Scanning(added: seq<File>, d: Disk, g: Geometry, j: nat, exact: bool)
    requires RootFits(d, g) && j <= SCANNED
  {
    LiveSlots(d, g, 0) == Offsets(added) + LiveSlots(d, g, j) && (exact ==> CachesAll(added, d, g))
  }

  lemma ScanStarts(d: Disk, g: Geometry, exact: bool)
    requires RootFits(d, g)
    ensures Scanning([], d, g, 0, exact)
  {
    assert Offsets([]) + LiveSlots(d, g, 0) == LiveSlots(d, g, 0);
  }

  /** What one turn of the scan may add to the cache for slot `j`. */
  ghost predicate SlotCached(f: File, d: Disk, g: Geometry, j: nat, exact: bool)
    requires RootFits(d, g) && j < SCANNED
  {
    f.rootDirOffset == j && (exact && ChainEnds(d, g, WalkStart(SlotEntry(d, g, j))) ==> Caches(f, d, g, j))
  }

  lemma CachesOneMore(added: seq<File>, f: File, d: Disk, g: Geometry, j: nat)
    requires RootFits(d, g) && j < SCANNED && CachesAll(added, d, g) && SlotCached(f, d, g, j, true)
    ensures CachesAll(added + [f], d, g)
  {
    hide Caches, ChainEnds;
  }

  lemma OffsetsAppend(added: seq<File>, f: File)
    ensures Offsets(added + [f]) == Offsets(added) + [f.rootDirOffset]
  {
  }

  /** Taking slot `j`, or passing over it, moves it from what is left to what is added. */
  lemma LiveSlotsTurn(offsets: seq<nat>, d: Disk, g: Geometry, j: nat)
    requires RootFits(d, g) && j < SCANNED && ParseEntry(SlotEntry(d, g, j)) == 0
    ensures offsets + LiveSlots(d, g, j) ==
            (if Live(SlotEntry(d, g, j)) then offsets + [j] else offsets) + LiveSlots(d, g, j + 1)
  {
    hide SlotEntry, Live, ParseEntry;
  }

  lemma ScanStep(added: seq<File>, f: File, d: Disk, g: Geometry, j: nat, exact: bool)
    requires RootFits(d, g) && j < SCANNED && Scanning(added, d, g, j, exact) && ParseEntry(SlotEntry(d, g, j)) == 0
    requires Live(SlotEntry(d, g, j)) ==> SlotCached(f, d, g, j, exact)
    ensures Scanning(added + if Live(SlotEntry(d, g, j)) then [f] else [], d, g, j + 1, exact)
  {
    LiveSlotsTurn(Offsets(added), d, g, j);
    hide SlotEntry, Caches, Live, LiveSlots, CachesAll, Offsets, ParseEntry, ChainEnds;
    if Live(SlotEntry(d, g, j)) {
      OffsetsAppend(added, f);
      if exact {
        CachesOneMore(added, f, d, g, j);
      }
    } else {
      assert added + [] == added;
    }
  }

  lemma AddedSoFar(added: seq<File>, d: Disk, g: Geometry, j: nat, exact: bool)
    requires RootFits(d, g) && j <= SCANNED && Scanning(added, d, g, j, exact)
    ensures Offsets(added) <= LiveSlots(d, g, 0)
    ensures exact && (j == SCANNED || ParseEntry(SlotEntry(d, g, j)) < 0) ==>
              Offsets(added) == LiveSlots(d, g, 0) && CachesAll(added, d, g)
  {
    hide SlotEntry, CachesAll;
  }

  /** Every chain that the scan walks comes to an end; otherwise the scan does not. */
  ghost predicate ChainsEnd(d: Disk, g: Geometry)
    requires RootFits(d, g)
  {
    forall j | 0 <= j < SCANNED && Live(SlotEntry(d, g, j)) :: ChainEnds(d, g, WalkStart(SlotEntry(d, g, j)))
  }
}
