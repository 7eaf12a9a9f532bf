/** The two copies of a directory entry, on the card and in the view, over runs of writes of
    any length, empty ones included. */
module FatSizes {
  import opened Bytes
  import opened Store
  import opened Io
  import opened FatLayout
  import opened FatAlloc
  import opened FatWrite
  import opened FatRuns

  /** After one write of any length the card has the entry the view had before; the view has the
      sum, counted from the card's old entry in the stale case. */
  lemma EntriesAfterWrite(s: IoState, g: Geometry, f: File, buf: seq<Byte>, stack: Entry)
    requires Placed(s, g, f, |buf|)
    ensures var a := EntryAddr(g, f.rootDirOffset);
            var t := WriteFile(s, g, f, buf, stack).0;
            && Wf(t) && |t.disk| == |s.disk| && t.inAddr == t.outAddr == a / 512
            && EntryAt(t.disk, a) == EntryAt(View(s), a)
            && EntryAt(View(t), a) == AddSize(EntryAt(if StaleCase(s, a, |buf|) then s.disk else View(s), a), |buf|)
  {
    var a := EntryAddr(g, f.rootDirOffset);
    EntryInOneSector(g, f.rootDirOffset);
    WriteFileExact(s, g, f, buf, stack);
    var t := WriteFile(s, g, f, buf, stack).0;
    PokeElsewhere(View(s), a, f.currentByteOffset, buf);
    SameSectorSameEntry(t.disk, View(s), a);
    hide WriteFile, EntryAddr, View, AddSize, PokeAll;
    PeekAllPokeAll(t.disk, a, AddSize(EntryAt(if StaleCase(s, a, |buf|) then s.disk else View(s), a), |buf|));
  }

  /** A write adds its length to the size that callers see, if and only if it is not an empty
      write made while both buffers hold the directory sector and the card's size is behind. */
  lemma WriteCountsIff(s: IoState, g: Geometry, f: File, buf: seq<Byte>, stack: Entry)
    requires Placed(s, g, f, |buf|)
    ensures var a := EntryAddr(g, f.rootDirOffset);
            var t := WriteFile(s, g, f, buf, stack).0;
            && Wf(t) && |t.disk| == |s.disk|
            && (SizeOf(EntryAt(View(t), a)) == Wrap32(SizeOf(EntryAt(View(s), a)) + |buf|) <==>
                !(StaleCase(s, a, |buf|) && SizeOf(EntryAt(s.disk, a)) != SizeOf(EntryAt(View(s), a))))
  {
    hide WriteFile, EntryAddr, View, EntryAt, AddSize, SizeOf, Wrap32, Clear;
    var a := EntryAddr(g, f.rootDirOffset);
    EntriesAfterWrite(s, g, f, buf, stack);
    CountsIff(EntryAt(s.disk, a), EntryAt(View(s), a), StaleCase(s, a, |buf|), |buf|);
  }

  lemma CountsIff(card: Entry, view: Entry, stale: bool, n: nat)
    requires stale ==> n == 0
    ensures SizeOf(AddSize(if stale then card else view, n)) == Wrap32(SizeOf(view) + n) <==>
            !(stale && SizeOf(card) != SizeOf(view))
  {
    SizeAfterAdd(card, n);
    SizeAfterAdd(view, n);
    hide SizeOf, AddSize;
  }

  lemma SizeAfterAdd(e: Entry, n: nat)
    ensures SizeOf(AddSize(e, n)) == Wrap32(SizeOf(e) + n)
  {
    WithSizeFields(e, Wrap32(SizeOf(e) + n), 0);
  }

  /** Entry on the card and entry in the view after the first `n` writes. */
  function EntryRun(card: Entry, view: Entry, bufs: seq<seq<Byte>>, n: nat): (Entry, Entry)
    requires n <= |bufs|
  {
    if n == 0 then (card, view)
    else
      var (c, v) := EntryRun(card, view, bufs, n - 1);
      if bufs[n - 1] == [] then (v, c) else (v, AddSize(v, |bufs[n - 1]|))
  }

  /** Both buffers hold the directory sector, and the two copies of the entry are `entries`. */
  ghost predicate TwoCopies(s: IoState, a: nat, sectors: nat, entries: (Entry, Entry)) {
    && Wf(s) && |s.disk| == sectors && Fits(s.disk, a, 32) && s.inAddr == s.outAddr == a / 512
    && entries == (EntryAt(s.disk, a), EntryAt(View(s), a))
  }

  lemma TwoCopiesStep(s: IoState, g: Geometry, f: File, buf: seq<Byte>, room: nat, stack: Entry, sectors: nat, entries: (Entry, Entry))
    requires var a := EntryAddr(g, f.rootDirOffset);
             Placed(s, g, f, |buf| + room) && TwoCopies(s, a, sectors, entries)
    ensures var a := EntryAddr(g, f.rootDirOffset);
            var (t, f1) := WriteFile(s, g, f, buf, stack);
            && Placed(t, g, f1, room) && f1.rootDirOffset == f.rootDirOffset
            && TwoCopies(t, a, sectors,
                         if buf == [] then (entries.1, entries.0) else (entries.1, AddSize(entries.1, |buf|)))
  {
    hide WriteFile, EntryAddr, View, EntryAt, Placed, AddSize;
    LessRoom(s, g, f, |buf|, room);
    EntriesAfterWrite(s, g, f, buf, stack);
    WriteFileStep(s, g, f, buf, room, stack);
    AddSizeTwice(entries.0, 0, 0);
  }

  /** Every run of writes moves the two copies as EntryRun says: a non-empty write commits the
      view to the card, an empty one exchanges the two. */
  lemma {:induction false} EntriesOverRuns(s: IoState, g: Geometry, f: File, bufs: seq<seq<Byte>>, n: nat, room: nat, stack: Entry)
    requires n <= |bufs| && Placed(s, g, f, |Concat(bufs, n)| + room)
    requires s.inAddr == s.outAddr == EntryAddr(g, f.rootDirOffset) / 512
    ensures var a := EntryAddr(g, f.rootDirOffset);
            var (t, f1) := WriteAll(s, g, f, bufs, n, stack);
            && Placed(t, g, f1, room) && f1.rootDirOffset == f.rootDirOffset
            && TwoCopies(t, a, |s.disk|, EntryRun(EntryAt(s.disk, a), EntryAt(View(s), a), bufs, n))
  {
    var a := EntryAddr(g, f.rootDirOffset);
    assert Wf(s) && Fits(View(s), a, 32) && Fits(s.disk, a, 32);
    var entries := (EntryAt(s.disk, a), EntryAt(View(s), a));
    assert TwoCopies(s, a, |s.disk|, entries);
    hide WriteFile, EntryAddr, View, EntryAt, Placed, Wf, Fits, TwoCopies, AddSize;
    if n != 0 {
      EntriesOverRuns(s, g, f, bufs, n - 1, |bufs[n - 1]| + room, stack);
      var (s1, f1) := WriteAll(s, g, f, bufs, n - 1, stack);
      TwoCopiesStep(s1, g, f1, bufs[n - 1], room, stack, |s.disk|, EntryRun(entries.0, entries.1, bufs, n - 1));
    }
  }

  /** So an empty write right after a non-empty one takes its size update back. */
  lemma EmptyWriteLosesSize(s: IoState, g: Geometry, f: File, buf: seq<Byte>, stack: Entry)
    requires buf != [] && Placed(s, g, f, |buf|)
    requires s.inAddr == s.outAddr == EntryAddr(g, f.rootDirOffset) / 512
    ensures var a := EntryAddr(g, f.rootDirOffset);
            var t := WriteAll(s, g, f, [buf, []], 2, stack).0;
            Wf(t) && |t.disk| == |s.disk| && EntryAt(View(t), a) == EntryAt(View(s), a)
  {
    var bufs := [buf, []];
    assert Concat(bufs, 1) == [] + buf;
    assert Concat(bufs, 2) == Concat(bufs, 1) + [];
    EntriesOverRuns(s, g, f, bufs, 2, 0, stack);
    var a := EntryAddr(g, f.rootDirOffset);
    var c, v := EntryAt(s.disk, a), EntryAt(View(s), a);
    assert EntryRun(c, v, bufs, 0) == (c, v);
    assert EntryRun(c, v, bufs, 1) == (v, AddSize(v, |buf|));
  }

  /** After a run of non-empty writes the size equals the distance that the position has moved if and
      only if it was zero at the start. */
  lemma SizeIsPositionIff(s: IoState, g: Geometry, f: File, bufs: seq<seq<Byte>>, n: nat, stack: Entry)
    requires n <= |bufs| && Placed(s, g, f, |Concat(bufs, n)|) && forall i :: 0 <= i < n ==> bufs[i] != []
    ensures var (t, f1) := WriteAll(s, g, f, bufs, n, stack);
            var a := EntryAddr(g, f.rootDirOffset);
            && Wf(t) && |t.disk| == |s.disk| && f1.currentByteOffset >= f.currentByteOffset
            && (SizeOf(EntryAt(View(t), a)) == f1.currentByteOffset - f.currentByteOffset <==> SizeOf(EntryAt(View(s), a)) == 0)
  {
    hide WriteAll, EntryAddr, EntryAt, SizeOf, AddSize, Logged, Concat, View, Clear;
    var a, log := EntryAddr(g, f.rootDirOffset), Concat(bufs, n);
    EntryInOneSector(g, f.rootDirOffset);
    Conservation(s, g, f, bufs, n, 0, stack);
    var t := WriteAll(s, g, f, bufs, n, stack).0;
    LoggedEntry(View(s), View(t), a, f.currentByteOffset, log);
    SizeAfterAdd(EntryAt(View(s), a), |log|);
    WrapsBackIff(SizeOf(EntryAt(View(s), a)), |log|);
  }

  lemma WrapsBackIff(x: U32, n: nat)
    requires n < 0x1_0000_0000
    ensures Wrap32(x + n) == n <==> x == 0
  {
  }
}
