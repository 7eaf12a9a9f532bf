/** src/fat.c: what fat32_get_fat and fat32_cache_root_dir do in any state of the cache, with any
    failures and any table, and what that means when the read buffer is coherent. */
module FatWalk {
  import opened Bytes
  import opened Store
  import opened Io
  import opened IoRefinement
  import opened FatLayout
  import opened FatAlloc
  import opened FatChain
  import opened FatDir

  // ---- the two reads; what the buffer held before does not matter ----

  function ReadTable(s: IoState, g: Geometry, c: U32): (IoState, U32, bool) {
    var (t, out, ok) := ReadBytes(s, FatAddr(g, c), [0, 0, 0, 0], 4);
    (t, FromLe32(out), ok)
  }

  function ReadSlot(s: IoState, g: Geometry, j: nat): (IoState, Entry, bool)
    requires j < SCANNED
  {
    ReadBytes(s, EntryAddr(g, j), seq(32, _ => 0), 32)
  }

  lemma {:induction false} AnyBuffer(s: IoState, offset: U32, a: seq<Byte>, b: seq<Byte>, n: nat)
    requires n <= |a| == |b|
    ensures var (t, x, ok) := ReadBytes(s, offset, a, n);
            var (u, y, ok2) := ReadBytes(s, offset, b, n);
            t == u && ok == ok2 && (ok ==> x[..n] == y[..n])
  {
    hide FetchByte;
    if n != 0 {
      AnyBuffer(s, offset, a, b, n - 1);
    }
  }

  lemma AnyTableBuffer(s: IoState, g: Geometry, c: U32, buf: seq<Byte>)
    requires |buf| == 4
    ensures var (t, out, ok) := ReadBytes(s, FatAddr(g, c), buf, |buf|);
            t == ReadTable(s, g, c).0 && ok == ReadTable(s, g, c).2 && (ok ==> FromLe32(out) == ReadTable(s, g, c).1)
  {
    var zeros := [0, 0, 0, 0];
    AnyBuffer(s, FatAddr(g, c), buf, zeros, 4);
    var x, y := ReadBytes(s, FatAddr(g, c), buf, 4).1, ReadBytes(s, FatAddr(g, c), zeros, 4).1;
    hide ReadBytes, FromLe32, FatAddr;
    assert x[..4] == x && y[..4] == y;
  }

  lemma AnySlotBuffer(s: IoState, g: Geometry, j: nat, buf: seq<Byte>)
    requires |buf| == 32 && j < SCANNED
    ensures var (t, out, ok) := ReadBytes(s, EntryAddr(g, j), buf, |buf|);
            t == ReadSlot(s, g, j).0 && ok == ReadSlot(s, g, j).2 && (ok ==> out == ReadSlot(s, g, j).1)
  {
    var zeros := seq(32, _ => 0);
    AnyBuffer(s, EntryAddr(g, j), buf, zeros, 32);
    var x, y := ReadBytes(s, EntryAddr(g, j), buf, 32).1, ReadBytes(s, EntryAddr(g, j), zeros, 32).1;
    hide ReadBytes, EntryAddr;
    assert x[..32] == x && y[..32] == y;
  }

  // ---- fat32_get_fat ----

  /** From state `s` the walk lists `list` and stops in state `t`, at an end marker if `ok` and at
      a failed read otherwise. */
  ghost predicate Walk(s: IoState, g: Geometry, curr: U32, list: seq<U32>, t: IoState, ok: bool)
    decreases |list|
  {
    var (s1, next, read) := ReadTable(s, g, curr);
    if !read then list == [] && t == s1 && !ok
    else
      && list != [] && list[0] == curr
      && if IsLast(next) then |list| == 1 && t == s1 && ok else Walk(s1, g, next, list[1..], t, ok)
  }

  /** The source's loop comes to an end. */
  ghost predicate WalkEnds(s: IoState, g: Geometry, first: U32) {
    exists list, t, ok :: Walk(s, g, first, list, t, ok)
  }

  /** One turn of the loop */
  lemma WalkTurn(s: IoState, g: Geometry, curr: U32, list: seq<U32>, t: IoState, ok: bool)
    requires Walk(s, g, curr, list, t, ok)
    ensures var (s1, next, read) := ReadTable(s, g, curr);
            if !read then list == [] && t == s1 && !ok
            else list != [] && list == [curr] + list[1..]
                 && if IsLast(next) then list[1..] == [] && t == s1 && ok else Walk(s1, g, next, list[1..], t, ok)
  {
    hide ReadTable, IsLast;
  }

  lemma {:induction false} WalkIsUnique(s: IoState, g: Geometry, c: U32, a: seq<U32>, t: IoState, ok: bool,
                                        b: seq<U32>, u: IoState, ok2: bool)
    requires Walk(s, g, c, a, t, ok) && Walk(s, g, c, b, u, ok2)
    ensures a == b && t == u && ok == ok2
    decreases |a|
  {
    hide ReadTable, IsLast;
    var (s1, next, read) := ReadTable(s, g, c);
    if read {
      if !IsLast(next) {
        WalkIsUnique(s1, g, next, a[1..], t, ok, b[1..], u, ok2);
      }
      assert a == [a[0]] + a[1..] && b == [b[0]] + b[1..];
    }
  }

  // ---- from a coherent read buffer ----

  /** Only the read buffer and the coming transfers differ, and the buffer is still coherent. */
  ghost predicate OnlyRead(s: IoState, t: IoState) {
    && t == s.(inBuf := t.inBuf, inAddr := t.inAddr, faults := t.faults) && Wf(t) && Coherent(t)
    && (s.faults == [] ==> t.faults == [])
  }

  lemma OnlyReadTwice(s: IoState, t: IoState, u: IoState)
    requires OnlyRead(s, t) && OnlyRead(t, u)
    ensures OnlyRead(s, u) && u.disk == s.disk && Wf(u) && Coherent(u) && (s.faults == [] ==> t.faults == [] && u.faults == [])
  {
  }

  lemma CoherentReadAll(s: IoState, addr: U32, buf: seq<Byte>)
    requires Wf(s) && Coherent(s) && addr + |buf| <= ADDRESSABLE && addr + |buf| <= Size(s.disk)
    ensures var (t, out, ok) := ReadBytes(s, addr, buf, |buf|);
            && OnlyRead(s, t) && (ok ==> out == PeekAll(s.disk, addr, |buf|)) && (s.faults == [] ==> ok)
  {
    CoherentRead(s, addr, buf, |buf|);
    var (t, out, ok) := ReadBytes(s, addr, buf, |buf|);
    assert OnlyRead(s, t);
    hide *;
    if ok {
      SameAsPeeked(s.disk, addr, out);
    }
  }

  lemma SameAsPeeked(d: Disk, a: nat, out: seq<Byte>)
    requires a + |out| <= Size(d) && forall i :: 0 <= i < |out| ==> out[i] == Peek(d, a + i)
    ensures out == PeekAll(d, a, |out|)
  {
    hide Peek;
  }

  lemma TableRead(s: IoState, g: Geometry, c: U32)
    requires Wf(s) && Coherent(s) && FatFits(s.disk, g, c)
    ensures var (t, next, ok) := ReadTable(s, g, c);
            && OnlyRead(s, t) && (ok ==> next == FatEntry(s.disk, g, c)) && (s.faults == [] ==> ok)
  {
    hide ReadBytes, FromLe32;
    CoherentReadAll(s, FatAddr(g, c), [0, 0, 0, 0]);
  }

  lemma SlotRead(s: IoState, g: Geometry, j: nat)
    requires Wf(s) && Coherent(s) && RootFits(s.disk, g) && j < SCANNED
    ensures var (t, e, ok) := ReadSlot(s, g, j);
            && OnlyRead(s, t) && (ok ==> e == SlotEntry(s.disk, g, j)) && (s.faults == [] ==> ok)
  {
    hide ReadBytes;
    CoherentReadAll(s, EntryAddr(g, j), seq(32, _ => 0));
  }

  /** All of a card of at most 32 MB is below 2^25. */
  predicate Small(d: Disk) {
    |d| <= 0x1_0000
  }

  lemma {:induction false} SmallCardRead(s: IoState, offset: U32, buf: seq<Byte>, n: nat)
    requires Wf(s) && Coherent(s) && Small(s.disk) && n <= |buf|
    ensures OnlyRead(s, ReadBytes(s, offset, buf, n).0)
  {
    hide FetchByte;
    if n != 0 {
      SmallCardRead(s, offset, buf, n - 1);
      var (s1, _, ok) := ReadBytes(s, offset, buf, n - 1);
      SmallCardFetch(s1, Wrap32(offset + (n - 1)));
    }
  }

  lemma SmallCardFetch(s: IoState, offset: U32)
    requires Wf(s) && Coherent(s) && Small(s.disk)
    ensures OnlyRead(s, FetchByte(s, offset).0)
  {
  }

  /** On a small card no walk whatever makes the read buffer incoherent. */
  lemma {:induction false} SmallCardWalk(s: IoState, g: Geometry, curr: U32, list: seq<U32>, t: IoState, ok: bool)
    requires Wf(s) && Coherent(s) && Small(s.disk) && Walk(s, g, curr, list, t, ok)
    ensures OnlyRead(s, t)
    decreases |list|
  {
    var (s1, next, read) := ReadTable(s, g, curr);
    SmallCardRead(s, FatAddr(g, curr), [0, 0, 0, 0], 4);
    hide ReadTable, IsLast, ReadBytes;
    if read && !IsLast(next) {
      SmallCardWalk(s1, g, next, list[1..], t, ok);
      OnlyReadTwice(s, s1, t);
    }
  }

  /** A chain that ends is walked; only a failed transfer keeps the walk from its end. */
  lemma {:induction false} WalkAlong(s: IoState, g: Geometry, first: U32, chain: seq<U32>)
      returns (list: seq<U32>, t: IoState, ok: bool)
    requires Wf(s) && Coherent(s) && IsChain(s.disk, g, first, chain)
    ensures Walk(s, g, first, list, t, ok) && OnlyRead(s, t) && (ok ==> list == chain) && (s.faults == [] ==> ok)
    decreases |chain|
  {
    hide ReadTable, FatEntry, IsLast;
    TableRead(s, g, first);
    var (s1, next, read) := ReadTable(s, g, first);
    if !read {
      list, t, ok := [], s1, false;
    } else if IsLast(next) {
      list, t, ok := chain, s1, true;
    } else {
      list, t, ok := WalkAlong(s1, g, next, chain[1..]);
      OnlyReadTwice(s, s1, t);
      assert [first] + chain[1..] == chain;
      list := [first] + list;
      assert list[1..] == list[1..];
    }
  }

  /** So from a coherent read buffer fat32_get_fat lists exactly the chain, if there is one. */
  lemma ChainIsWalked(s: IoState, g: Geometry, first: U32, chain: seq<U32>, list: seq<U32>, t: IoState, ok: bool)
    requires Wf(s) && Coherent(s) && IsChain(s.disk, g, first, chain) && Walk(s, g, first, list, t, ok)
    ensures OnlyRead(s, t) && (ok ==> list == chain) && (s.faults == [] ==> ok)
  {
    var l, u, o := WalkAlong(s, g, first, chain);
    WalkIsUnique(s, g, first, list, t, ok, l, u, o);
  }

  /** And on a small card it succeeds for no other reason, as long as no entry address wraps
      around (the upper four bits of a cluster number are zero). */
  lemma {:induction false} SuccessIsChain(s: IoState, g: Geometry, first: U32, list: seq<U32>, t: IoState)
    requires Wf(s) && Coherent(s) && Small(s.disk) && Walk(s, g, first, list, t, true)
    requires forall c | c in list :: 512 * g.fatBeginSector + 4 * c < 0x1_0000_0000
    ensures IsChain(s.disk, g, first, list)
    decreases |list|
  {
    hide ReadTable, IsLast, FatEntry, FatFits;
    var (s1, next, _) := ReadTable(s, g, first);
    assert list[0] in list;
    ReadFits(s, g, first);
    TableRead(s, g, first);
    if !IsLast(next) {
      assert forall c | c in list[1..] :: c in list;
      SuccessIsChain(s1, g, next, list[1..], t);
    }
  }

  /** A read of an entry that succeeds is of an entry on the card. */
  lemma ReadFits(s: IoState, g: Geometry, c: U32)
    requires Wf(s) && Small(s.disk) && ReadTable(s, g, c).2 && 512 * g.fatBeginSector + 4 * c < 0x1_0000_0000
    ensures FatFits(s.disk, g, c)
  {
    var a := 512 * g.fatBeginSector + 4 * c;
    assert a == FatAddr(g, c);
    FirstByteRead(s, a, [0, 0, 0, 0], 4);
    hide ReadBytes, FatAddr, ReadTable;
    var k := 128 * g.fatBeginSector + c;
    assert a == 4 * k && k / 128 < |s.disk|;
  }

  lemma {:induction false} FirstByteRead(s: IoState, offset: U32, buf: seq<Byte>, n: nat)
    requires Wf(s) && 0 < n <= |buf| && ReadBytes(s, offset, buf, n).2
    ensures offset / 512 < |s.disk|
  {
    if n > 1 {
      FirstByteRead(s, offset, buf, n - 1);
    } else {
      assert ReadBytes(s, offset, buf, 0) == (s, buf, true);
    }
  }

  // ---- fat32_cache_root_dir ----

  /** The struct on the stack after the entry `e` of slot `j`; a failed open leaves all but the slot. */
  function Cached(e: Entry, list: seq<U32>, listed: bool, was: File, j: nat): File
    requires j < SCANNED
  {
    (if listed then File(StrNCpy(NameOf(e)), StrNCpy(ExtOf(e)), SizeOf(e), 0, 0, 0, WalkStart(e), list) else was)
    .(rootDirOffset := j)
  }

  /** From state `s`, with `files` cached and `file` on the stack, the scan from slot `j` on stops
      in state `t` with `after` cached. */
  ghost predicate Scan(s: IoState, g: Geometry, files: seq<File>, file: File, j: nat, t: IoState, after: seq<File>)
    requires j <= SCANNED
    decreases SCANNED - j
  {
    if j == SCANNED then t == s && after == files
    else
      var (s1, e, ok) := ReadSlot(s, g, j);
      if !ok || ParseEntry(e) < 0 then t == s1 && after == files
      else if !Live(e) then Scan(s1, g, files, file, j + 1, t, after)
      else
        exists list, u, listed ::
          && Walk(s1, g, WalkStart(e), list, u, listed)
          && Scan(u, g, files + [Cached(e, list, listed, file, j)], Cached(e, list, listed, file, j), j + 1, t, after)
  }

  /** The source's loop comes to an end. */
  ghost predicate ScanEnds(s: IoState, g: Geometry, files: seq<File>, file: File) {
    exists t, after :: Scan(s, g, files, file, 0, t, after)
  }

  /** The scan from state `s0` has come to slot `j`, the cache having grown from `was` to `now`. */
  ghost predicate ScanState(s0: IoState, s: IoState, g: Geometry, was: seq<File>, now: seq<File>, j: nat) {
    && OnlyRead(s0, s) && RootFits(s0.disk, g) && j <= SCANNED
    && |was| <= |now| && now[..|was|] == was
    && Scanning(now[|was|..], s0.disk, g, j, s0.faults == [])
  }

  /** The cache has grown by the live entries in order; by all of them if no transfer failed, and
      then with the fields and the chain of every entry whose chain ends. */
  ghost predicate Scanned(s0: IoState, s: IoState, g: Geometry, was: seq<File>, now: seq<File>) {
    && OnlyRead(s0, s) && RootFits(s0.disk, g) && |was| <= |now| && now[..|was|] == was
    && var added := now[|was|..];
       && Offsets(added) <= LiveSlots(s0.disk, g, 0)
       && (s0.faults == [] ==> Offsets(added) == LiveSlots(s0.disk, g, 0) && CachesAll(added, s0.disk, g))
  }

  lemma ScanPauses(s0: IoState, s: IoState, g: Geometry, was: seq<File>, now: seq<File>, j: nat)
    requires ScanState(s0, s, g, was, now, j)
    requires s0.faults == [] ==> j == SCANNED || ParseEntry(SlotEntry(s0.disk, g, j)) < 0
    ensures Scanned(s0, s, g, was, now)
  {
    AddedSoFar(now[|was|..], s0.disk, g, j, s0.faults == []);
  }

  lemma ScanTurn(s0: IoState, s: IoState, t: IoState, g: Geometry, was: seq<File>, before: seq<File>, f: File, j: nat)
    requires ScanState(s0, s, g, was, before, j) && j < SCANNED && OnlyRead(s, t)
    requires var e := SlotEntry(s0.disk, g, j); ParseEntry(e) == 0 && (Live(e) ==> SlotCached(f, s0.disk, g, j, s0.faults == []))
    ensures ScanState(s0, t, g, was, if Live(SlotEntry(s0.disk, g, j)) then before + [f] else before, j + 1)
  {
    OnlyReadTwice(s0, s, t);
    hide Scanning, SlotEntry, Live, OnlyRead, RootFits, SlotCached, ParseEntry;
    var added := before[|was|..];
    ScanStep(added, f, s0.disk, g, j, s0.faults == []);
    var after := if Live(SlotEntry(s0.disk, g, j)) then before + [f] else before;
    assert after[|was|..] == added + if Live(SlotEntry(s0.disk, g, j)) then [f] else [];
  }

  /** Opening the entry of slot `j` keeps the buffer coherent, and if its chain ends, lists it. */
  lemma OpenTurn(s0: IoState, s: IoState, g: Geometry, j: nat, list: seq<U32>, u: IoState, listed: bool, file: File)
    requires OnlyRead(s0, s) && RootFits(s0.disk, g) && j < SCANNED && Live(SlotEntry(s0.disk, g, j))
    requires Walk(s, g, WalkStart(SlotEntry(s0.disk, g, j)), list, u, listed)
    requires Small(s0.disk) || ChainsEnd(s0.disk, g)
    ensures OnlyRead(s, u) && SlotCached(Cached(SlotEntry(s0.disk, g, j), list, listed, file, j), s0.disk, g, j, s0.faults == [])
  {
    var first := WalkStart(SlotEntry(s0.disk, g, j));
    hide SlotEntry, WalkStart, Walk, IsChain, Live, StrNCpy, NameOf, ExtOf, SizeOf;
    if chain :| IsChain(s0.disk, g, first, chain) {
      ChainIsWalked(s, g, first, chain, list, u, listed);
    } else {
      SmallCardWalk(s, g, first, list, u, listed);
    }
  }

  lemma {:induction false} ScanGoesOn(s0: IoState, s: IoState, g: Geometry, was: seq<File>, before: seq<File>, file: File, j: nat,
                                      t: IoState, after: seq<File>)
    requires ScanState(s0, s, g, was, before, j) && Scan(s, g, before, file, j, t, after)
    requires Small(s0.disk) || ChainsEnd(s0.disk, g)
    ensures Scanned(s0, t, g, was, after)
    decreases SCANNED - j
  {
    hide SlotEntry, Live, Walk, Cached, ReadSlot, ParseEntry, Scanned, ChainsEnd, Small, Scanning, SlotCached;
    if j == SCANNED {
      ScanPauses(s0, s, g, was, before, j);
    } else {
      SlotRead(s, g, j);
      var (s1, e, ok) := ReadSlot(s, g, j);
      ScanRests(s0, s, s1, g, was, before, j);
      if !ok || ParseEntry(e) < 0 {
        ScanPauses(s0, s1, g, was, before, j);
      } else if !Live(e) {
        ParseIsZero(e);
        ScanTurn(s0, s, s1, g, was, before, file, j);
        ScanGoesOn(s0, s1, g, was, before, file, j + 1, t, after);
      } else {
        var list, u, listed :| Walk(s1, g, WalkStart(e), list, u, listed)
          && Scan(u, g, before + [Cached(e, list, listed, file, j)], Cached(e, list, listed, file, j), j + 1, t, after);
        ParseIsZero(e);
        OpenTurn(s0, s1, g, j, list, u, listed, file);
        ScanTurn(s0, s1, u, g, was, before, Cached(e, list, listed, file, j), j);
        ScanGoesOn(s0, u, g, was, before + [Cached(e, list, listed, file, j)], Cached(e, list, listed, file, j), j + 1, t, after);
      }
    }
  }

  lemma ScanRests(s0: IoState, s: IoState, t: IoState, g: Geometry, was: seq<File>, now: seq<File>, j: nat)
    requires ScanState(s0, s, g, was, now, j) && OnlyRead(s, t)
    ensures ScanState(s0, t, g, was, now, j) && OnlyRead(s0, t) && s.disk == s0.disk
  {
    OnlyReadTwice(s0, s, t);
    hide Scanning;
  }

  lemma ParseIsZero(e: Entry)
    ensures ParseEntry(e) < 0 || ParseEntry(e) == 0
  {
  }

  /** From a coherent read buffer, on a small card or when every chain ends, the scan caches
      exactly the live entries in order. */
  lemma ScanIsExact(s: IoState, g: Geometry, was: seq<File>, file: File, t: IoState, after: seq<File>)
    requires Wf(s) && Coherent(s) && RootFits(s.disk, g) && Scan(s, g, was, file, 0, t, after)
    requires Small(s.disk) || ChainsEnd(s.disk, g)
    ensures Scanned(s, t, g, was, after)
  {
    assert was[|was|..] == [] && was[..|was|] == was;
    ScanStarts(s.disk, g, s.faults == []);
    ScanGoesOn(s, s, g, was, was, file, 0, t, after);
    hide Scanned, Scan;
  }

  /** If every chain ends, so does the scan. */
  lemma {:induction false} ChainsEndScanEnds(s: IoState, g: Geometry, files: seq<File>, file: File, j: nat)
      returns (t: IoState, after: seq<File>)
    requires Wf(s) && Coherent(s) && RootFits(s.disk, g) && ChainsEnd(s.disk, g) && j <= SCANNED
    ensures Scan(s, g, files, file, j, t, after)
    decreases SCANNED - j
  {
    hide SlotEntry, Live, Walk, Cached, ReadSlot, ParseEntry, ChainsEnd, WalkStart;
    if j == SCANNED {
      return s, files;
    }
    SlotRead(s, g, j);
    var (s1, e, ok) := ReadSlot(s, g, j);
    if !ok || ParseEntry(e) < 0 {
      t, after := s1, files;
    } else if !Live(e) {
      t, after := ChainsEndScanEnds(s1, g, files, file, j + 1);
    } else {
      var chain := SlotChain(s.disk, g, j);
      var list, u, listed := WalkAlong(s1, g, WalkStart(e), chain);
      t, after := ChainsEndScanEnds(u, g, files + [Cached(e, list, listed, file, j)], Cached(e, list, listed, file, j), j + 1);
    }
  }

  lemma SlotChain(d: Disk, g: Geometry, j: nat) returns (chain: seq<U32>)
    requires RootFits(d, g) && ChainsEnd(d, g) && j < SCANNED && Live(SlotEntry(d, g, j))
    ensures IsChain(d, g, WalkStart(SlotEntry(d, g, j)), chain)
  {
    hide SlotEntry, WalkStart, IsChain, Live;
    assert ChainEnds(d, g, WalkStart(SlotEntry(d, g, j)));
    chain :| IsChain(d, g, WalkStart(SlotEntry(d, g, j)), chain);
  }
}
