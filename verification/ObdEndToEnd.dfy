/** From the bytes the vehicle prints to the list of supported PIDs. */
module ObdEndToEnd {
  import opened Bytes
  import opened CStr
  import opened Hex
  import opened Fifo
  import opened Elm
  import I = FifoInterrupt
  import opened Obd

  /** The answer to "0100" for a support mask, as printed: `lead`, then 41, then the digits of
      00 and of the mask with any harmless characters around each, then the prompt. */
  function Answer(mask: U32, lead: seq<Byte>, gaps: seq<seq<Byte>>): seq<Byte>
    requires |gaps| == 11
  {
    lead + PrintHex(0x41) + Weave(PrintAll([0] + Be32(mask)), gaps) + [PROMPT]
  }

  /** Nothing stops the reader or misleads the search: no prompt, NUL or hexadecimal digit in a
      gap, no prompt, NUL or "41" before the answer, no failure message, and it fits. */
  ghost predicate Legible(mask: U32, lead: seq<Byte>, gaps: seq<seq<Byte>>) {
    && |gaps| == 11 && Harmless(gaps) && (forall i :: 0 <= i < 11 ==> PROMPT !in gaps[i])
    && NUL !in lead && PROMPT !in lead && Find(lead + PrintHex(0x41), PrintHex(0x41)) == |lead|
    && Find(Answer(mask, lead, gaps), NO_DATA) < 0 && Find(Answer(mask, lead, gaps), NO_CONNECT) < 0
    && |Answer(mask, lead, gaps)| < RESPONSE_SIZE
  }

  lemma Be32RoundTrip(x: U32)
    ensures FromBe32(Be32(x)) == x
  {
    var y, z := x / 0x100, x / 0x1_0000;
    assert x == 0x100 * y + x % 0x100 && y == 0x100 * z + y % 0x100 && z == 0x100 * (z / 0x100) + z % 0x100;
    assert z / 0x100 == x / 0x100_0000 && y / 0x100 == z;
  }

  lemma DigitsAreNoPrompt(s: seq<Byte>)
    requires AllHex(s)
    ensures PROMPT !in s && NUL !in s
  {
  }

  lemma {:induction false} WovenHasNo(c: Byte, p: seq<Byte>, gaps: seq<seq<Byte>>)
    requires |gaps| == |p| + 1 && c !in p && forall i :: 0 <= i < |gaps| ==> c !in gaps[i]
    ensures c !in Weave(p, gaps)
    decreases |p|
  {
    if p != [] {
      WovenHasNo(c, p[..|p| - 1], gaps[..|p|]);
    }
  }

  /** An earlier match of a two-character needle would already be a match in front of it. */
  lemma {:induction false} FirstMatchStays(front: seq<Byte>, needle: seq<Byte>, rest: seq<Byte>)
    requires |needle| == 2 && Find(front + needle, needle) == |front|
    ensures Find(front + needle + rest, needle) == |front|
  {
    var s, t := front + needle, front + needle + rest;
    forall j | 0 <= j < |front| ensures !(needle <= t[j..]) {
      assert !(needle <= s[j..]);
      assert t[j..][..2] == s[j..][..2];
    }
    assert t[|front|..][..2] == needle;
    var i := Find(t, needle);
    assert needle <= t[|front|..];
  }

  lemma AnswerParts(mask: U32, lead: seq<Byte>, gaps: seq<seq<Byte>>)
    requires Legible(mask, lead, gaps)
    ensures var w := Weave(PrintAll([0] + Be32(mask)), gaps);
            NUL !in w && PROMPT !in w && NUL !in PrintHex(0x41) && PROMPT !in PrintHex(0x41)
  {
    var p := PrintAll([0] + Be32(mask));
    PrintIsHex([0] + Be32(mask));
    DigitsAreNoPrompt(p);
    hide PrintAll, Weave, Find;
    WovenHasNo(PROMPT, p, gaps);
    CompactWoven(p, gaps);
  }

  /** elm_read takes the answer to its prompt and nothing of what follows it. */
  lemma AnswerIsRead(mask: U32, lead: seq<Byte>, gaps: seq<seq<Byte>>, more: seq<Byte>)
    requires Legible(mask, lead, gaps)
    ensures var a := Answer(mask, lead, gaps);
            StopsAt(a + more, RESPONSE_SIZE, |a|) && Text((a + more)[..|a|]) == a
  {
    hide *;
    AnswerEnds(mask, lead, gaps);
    var a := Answer(mask, lead, gaps);
    var body := a[..|a| - 1];
    ReadToPrompt(body, more);
    assert a == body + [62];
    assert (a + more)[..|a|] == a;
  }

  lemma AnswerEnds(mask: U32, lead: seq<Byte>, gaps: seq<seq<Byte>>)
    requires Legible(mask, lead, gaps)
    ensures |gaps| == 11
    ensures var a := Answer(mask, lead, gaps);
            && 0 < |a| < RESPONSE_SIZE && a[|a| - 1] == 62 && 0 !in a[..|a| - 1] && 62 !in a[..|a| - 1]
  {
    AnswerParts(mask, lead, gaps);
    var body := lead + PrintHex(0x41) + Weave(PrintAll([0] + Be32(mask)), gaps);
    assert Answer(mask, lead, gaps)[..|Answer(mask, lead, gaps)| - 1] == body;
    hide Weave, PrintAll, PrintHex, Find;
  }

  /** A text without NUL and prompt, and then a prompt, is read as it is. */
  lemma ReadToPrompt(body: seq<Byte>, more: seq<Byte>)
    requires 0 !in body && 62 !in body && |body| + 1 < RESPONSE_SIZE
    ensures var a := body + [62]; StopsAt(a + more, RESPONSE_SIZE, |a|) && Text(a) == a
  {
    var a := body + [62];
    assert (a + more)[..|a|] == a;
    NoNulText(a);
    assert a[|body|] == PROMPT;
    hide Text;
    forall j | 0 < j < |a| ensures !Complete((a + more)[..j]) {
      assert (a + more)[..j] == body[..j];
      NoNulText(body[..j]);
    }
  }

  lemma AnswerDigits(b: Byte, bs: seq<Byte>, gaps: seq<seq<Byte>>)
    requires |gaps| == 2 * |bs| + 1 && Harmless(gaps)
    ensures Compact(PrintHex(b) + Weave(PrintAll(bs), gaps) + [PROMPT]) == PrintAll([b] + bs)
  {
    var pre, w := PrintHex(b), Weave(PrintAll(bs), gaps);
    PrintIsHex(bs);
    CompactWoven(PrintAll(bs), gaps);
    PrintedSequence(b, bs);
    assert pre[..1][..0] == [] && Compact(pre[..1]) == pre[..1] && Compact(pre) == pre;
    hide PrintAll, PrintHex, Weave;
    CompactConcat(pre + w, [PROMPT]);
    CompactConcat(pre, w);
    CompactGap([PROMPT]);
    hide Compact;
    assert PrintAll([b] + bs) + [] == PrintAll([b] + bs);
  }

  lemma AnswerFound(mask: U32, lead: seq<Byte>, gaps: seq<seq<Byte>>)
    requires Legible(mask, lead, gaps)
    ensures var a := Answer(mask, lead, gaps);
            && Find(a, PrintHex(0x41)) == |lead|
            && a[|lead|..] == PrintHex(0x41) + Weave(PrintAll([0] + Be32(mask)), gaps) + [PROMPT]
  {
    hide PrintAll, Weave, Find, PrintHex, Harmless;
    var pre, w := PrintHex(0x41), Weave(PrintAll([0] + Be32(mask)), gaps);
    SplitAnswer(lead, pre, w + [PROMPT]);
    Regroup(lead, pre, w, [PROMPT]);
  }

  lemma Regroup(a: seq<Byte>, b: seq<Byte>, c: seq<Byte>, d: seq<Byte>)
    ensures a + b + c + d == a + b + (c + d) && b + c + d == b + (c + d)
  {
  }

  lemma SplitAnswer(lead: seq<Byte>, pre: seq<Byte>, s: seq<Byte>)
    requires |pre| == 2 && Find(lead + pre, pre) == |lead|
    ensures Find(lead + pre + s, pre) == |lead| && (lead + pre + s)[|lead|..] == pre + s
  {
    FirstMatchStays(lead, pre, s);
  }

  /** The decoder gets back exactly the six bytes that were printed. */
  lemma AnswerIsDecoded(mask: U32, lead: seq<Byte>, gaps: seq<seq<Byte>>)
    requires Legible(mask, lead, gaps)
    ensures Decode(Answer(mask, lead, gaps), GET_DEVS) == Some([0x41, 0] + Be32(mask))
  {
    hide *;
    var bs := [0] + Be32(mask);
    PreambleOfGetDevs();
    LegibleMeans(mask, lead, gaps);
    AnswerFound(mask, lead, gaps);
    AnswerDigits(0x41, bs, gaps);
    DecodePrinted([0x41] + bs);
    assert [0x41] + bs == [0x41, 0] + Be32(mask);
    DecodeFrom(Answer(mask, lead, gaps), GET_DEVS, |lead|);
  }

  lemma DecodeFrom(text: seq<Byte>, cmd: seq<Byte>, i: nat)
    requires IsCommand(cmd) && Find(text, NO_DATA) < 0 && Find(text, NO_CONNECT) < 0 && Find(text, Preamble(cmd)) == i
    requires i <= |text| && |Compact(text[i..])| % 2 == 0
    ensures Decode(text, cmd) == Some(DecodePairs(Compact(text[i..])))
  {
    hide Find, Compact, DecodePairs, Preamble, IsCommand;
  }

  /** For every command of a mode below 0xC0 and all data bytes: an answer printed as the mode plus 0x40
      and the data decodes to just these bytes. */
  lemma PrintedAnswerDecodes(cmd: seq<Byte>, mode: Byte, bs: seq<Byte>)
    requires IsCommand(cmd) && 16 * HexValue(cmd[..4][0]) + HexValue(cmd[..4][1]) == mode && mode < 0xC0
    ensures Decode(PrintAll([mode + 0x40] + bs), cmd) == Some([mode + 0x40] + bs)
  {
    hide *;
    var first: Byte := mode + 0x40;
    var all := [first] + bs;
    PreambleOf(cmd, mode);
    PrintIsHex(all);
    MessagesAreNoDigits(PrintAll(all));
    PrintedSequence(first, bs);
    DecodePrinted(all);
    assert |PrintAll(all)| % 2 == 0 by {
      assert |PrintAll(all)| == 2 * |all|;
    }
    PrintedAnswer(cmd, PrintAll(all), PrintHex(first), PrintAll(bs));
  }

  lemma PreambleOf(cmd: seq<Byte>, mode: Byte)
    requires IsCommand(cmd) && 16 * HexValue(cmd[..4][0]) + HexValue(cmd[..4][1]) == mode && mode < 0xC0
    ensures Preamble(cmd) == PrintHex(mode + 0x40)
  {
    hide PrintHex, HexValue, IsCommand;
  }

  lemma MessagesAreNoDigits(text: seq<Byte>)
    requires AllHex(text)
    ensures |NO_DATA| > 0 && NO_DATA[0] !in text && |NO_CONNECT| > 0 && NO_CONNECT[0] !in text
  {
  }

  /** An answer of fourteen bytes overruns the thirteen-byte array that the display loop passes. */
  lemma LongAnswerOverruns(bs: seq<Byte>)
    requires |bs| == 13
    ensures var text := PrintAll([0x41] + bs);
            |text| <= RESPONSE_SIZE && Decode(text, GET_DEVS) == Some([0x41] + bs)
    ensures !forall mem: seq<Byte> | |mem| == 32 :: Overlaid([0x41] + bs, mem)[13..] == mem[13..]
  {
    ModeOfGetDevs();
    PrintedAnswerDecodes(GET_DEVS, 1, bs);
    ArrayKeptIff([0x41] + bs, 13, 32);
    hide Decode, PrintAll, Overlaid;
  }

  lemma ModeOfGetDevs()
    ensures IsCommand(GET_DEVS) && 16 * HexValue(GET_DEVS[..4][0]) + HexValue(GET_DEVS[..4][1]) == 1
  {
  }

  lemma PrintedAnswer(cmd: seq<Byte>, text: seq<Byte>, pre: seq<Byte>, rest: seq<Byte>)
    requires IsCommand(cmd) && text == pre + rest && AllHex(text) && |text| % 2 == 0
    requires Preamble(cmd) == pre && |NO_DATA| > 0 && NO_DATA[0] !in text && |NO_CONNECT| > 0 && NO_CONNECT[0] !in text
    ensures Decode(text, cmd) == Some(DecodePairs(text))
  {
    hide *;
    NotFound(text, NO_DATA);
    NotFound(text, NO_CONNECT);
    HexIsCompact(text);
    assert text[0..] == text;
    FindAt(text, pre, 0);
    DecodeFrom(text, cmd, 0);
  }

  lemma {:induction false} HexIsCompact(s: seq<Byte>)
    requires AllHex(s)
    ensures Compact(s) == s
  {
    if s != [] {
      HexIsCompact(s[..|s| - 1]);
    }
  }

  lemma PreambleOfGetDevs()
    ensures IsCommand(GET_DEVS) && Preamble(GET_DEVS) == PrintHex(0x41)
  {
  }

  lemma LegibleMeans(mask: U32, lead: seq<Byte>, gaps: seq<seq<Byte>>)
    requires Legible(mask, lead, gaps)
    ensures |gaps| == 11 && Harmless(gaps) && Find(Answer(mask, lead, gaps), NO_DATA) < 0 && Find(Answer(mask, lead, gaps), NO_CONNECT) < 0
  {
    hide Answer, Find, Harmless;
  }

  lemma {:induction false} PrintedSequence(b: Byte, bs: seq<Byte>)
    ensures PrintAll([b] + bs) == PrintHex(b) + PrintAll(bs)
    decreases |bs|
  {
    var all := [b] + bs;
    if bs == [] {
      assert all[..0] == [] && PrintAll(all[..0]) == [];
    } else {
      PrintedSequence(b, bs[..|bs| - 1]);
      assert all[..|all| - 1] == [b] + bs[..|bs| - 1];
      assert PrintHex(b) + (PrintAll(bs[..|bs| - 1]) + PrintHex(bs[|bs| - 1])) ==
             PrintHex(b) + PrintAll(bs[..|bs| - 1]) + PrintHex(bs[|bs| - 1]);
    }
  }

  /** End to end: for every support mask and every legible layout of the printed answer, read
      from any stream that begins with it, the list built is exactly the PIDs i in 1..31 whose
      bit 32 - i of the mask is set, in descending order. */
  lemma EndToEnd(mask: U32, lead: seq<Byte>, gaps: seq<seq<Byte>>, more: seq<Byte>, k: nat, stack: seq<Byte>)
    requires Legible(mask, lead, gaps) && StopsAt(Answer(mask, lead, gaps) + more, RESPONSE_SIZE, k)
    ensures var decoded := Decode(Text((Answer(mask, lead, gaps) + more)[..k]), GET_DEVS);
            && decoded.Some? && |decoded.value| == 6
            && FromBe32((decoded.value + stack)[2..6]) == mask
    ensures forall p: Byte :: p in Supported(mask, 31) <==> 1 <= p <= 31 && Bit(mask, 32 - p)
    ensures forall i, j :: 0 <= i < j < |Supported(mask, 31)| ==> Supported(mask, 31)[i] > Supported(mask, 31)[j]
  {
    hide *;
    LegibleMeans(mask, lead, gaps);
    AnswerIsRead(mask, lead, gaps, more);
    StopIsUnique(Answer(mask, lead, gaps) + more, RESPONSE_SIZE, k, |Answer(mask, lead, gaps)|);
    AnswerIsDecoded(mask, lead, gaps);
    Be32RoundTrip(mask);
    BehindPreamble(Be32(mask), stack);
    forall p: Byte ensures p in Supported(mask, 31) <==> 1 <= p <= 31 && Bit(mask, 32 - p) {
      SupportedExact(mask, 31, p);
    }
    forall i, j | 0 <= i < j < |Supported(mask, 31)| ensures Supported(mask, 31)[i] > Supported(mask, 31)[j] {
      SupportedDescends(mask, 31, i, j);
    }
  }

  lemma BehindPreamble(data: seq<Byte>, stack: seq<Byte>)
    requires |data| == 4
    ensures var v := [0x41, 0] + data; |v| == 6 && |v + stack| >= 6 && (v + stack)[2..6] == data
  {
  }

  lemma MaskBytes(data: seq<Byte>)
    requires |data| == 4
    ensures Be32(FromBe32(data)) == data
  {
    BytesAbove(data[0], data[1], data[2], data[3], FromBe32(data));
    var x := FromBe32(data);
    LowByte(0x100 * data[0] as int + data[1] as int, data[2]);
    LowByte(0x1_0000 * data[0] as int + 0x100 * data[1] as int + data[2] as int, data[3]);
    hide FromBe32;
    LowByte(data[0], data[1]);
  }

  lemma LowByte(hi: nat, m: Byte)
    ensures (0x100 * hi + m) % 0x100 == m
  {
  }

  lemma PowersOfTwo()
    ensures Pow2(0) == 1 && Pow2(1) == 2 && Pow2(2) == 4 && Pow2(3) == 8 && Pow2(4) == 16 && Pow2(5) == 32 && Pow2(6) == 64 && Pow2(7) == 128
    ensures Pow2(8) == 0x100 && Pow2(16) == 0x1_0000 && Pow2(24) == 0x100_0000
  {
    assert Pow2(8) == 256 && Pow2(16) == 0x1_0000 && Pow2(24) == 0x100_0000;
  }

  /** PID p, from 1 to 31, is the bit number (p - 1) % 8 from the top, with value 128, 64, ..., 1, of data
      byte (p - 1) / 8. */
  predicate Named(data: seq<Byte>, p: Byte)
    requires |data| == 4
  {
    1 <= p <= 31 && data[(p - 1) / 8] / [128, 64, 32, 16, 8, 4, 2, 1][(p - 1) % 8] % 2 == 1
  }

  lemma SupportedByBytes(m3: Byte, m2: Byte, m1: Byte, m0: Byte, p: Byte)
    ensures p in Supported(FromBe32([m3, m2, m1, m0]), 31) <==> Named([m3, m2, m1, m0], p)
  {
    var mask := FromBe32([m3, m2, m1, m0]);
    SupportedExact(mask, 31, p);
    if 1 <= p <= 31 {
      var q, r := (p - 1) / 8, (p - 1) % 8;
      assert 32 - p == (7 - r) + 8 * (3 - q);
      BitOfByte(m3, m2, m1, m0, q, 7 - r);
      PowersOfTwo();
      assert [128, 64, 32, 16, 8, 4, 2, 1][r] == Pow2(7 - r);
    }
    hide *;
  }

  lemma DivHalf(x: nat, d: nat)
    requires 0 < d
    ensures x / (2 * d) == x / d / 2
  {
    var q := x / d;
    var h := q / 2;
    assert q * d <= x < q * d + d;
    assert q == 2 * h || q == 2 * h + 1;
    assert 2 * h * d == h * (2 * d) && (2 * h + 1) * d == h * (2 * d) + d;
    DivIs(x, 2 * d, h);
  }

  lemma {:induction false} DivPowers(x: nat, a: nat, b: nat)
    ensures x / Pow2(a + b) == x / Pow2(b) / Pow2(a)
  {
    if a != 0 {
      DivPowers(x, a - 1, b);
      DivHalf(x, Pow2(a - 1 + b));
      DivHalf(x / Pow2(b), Pow2(a - 1));
    }
  }

  lemma ByteAbove(m3: Byte, m2: Byte, m1: Byte, m0: Byte, q: nat)
    requires q < 4
    ensures exists hi: nat :: FromBe32([m3, m2, m1, m0]) / Pow2(8 * (3 - q)) == 0x100 * hi + [m3, m2, m1, m0][q]
  {
    var x := FromBe32([m3, m2, m1, m0]);
    PowersOfTwo();
    BytesAbove(m3, m2, m1, m0, x);
    hide Pow2, FromBe32;
    match q {
      case 0 => assert x / Pow2(24) == 0x100 * 0 + m3;
      case 1 => assert x / Pow2(16) == 0x100 * (m3 as int) + m2;
      case 2 => assert x / Pow2(8) == 0x100 * (0x100 * m3 as int + m2 as int) + m1;
      case 3 => assert x / Pow2(0) == 0x100 * (0x1_0000 * m3 as int + 0x100 * m2 as int + m1 as int) + m0;
    }
  }

  lemma BytesAbove(m3: Byte, m2: Byte, m1: Byte, m0: Byte, x: U32)
    requires x == 0x100_0000 * m3 as int + 0x1_0000 * m2 as int + 0x100 * m1 as int + m0 as int
    ensures x == 0x100 * (0x1_0000 * m3 as int + 0x100 * m2 as int + m1 as int) + m0
    ensures x / 0x100 == 0x100 * (0x100 * m3 as int + m2 as int) + m1
    ensures x / 0x1_0000 == 0x100 * (m3 as int) + m2 && x / 0x100_0000 == m3
  {
  }

  /** What stands above a byte does not change its bits. */
  lemma LowBit(hi: nat, m: Byte, k: nat)
    requires k < 8
    ensures (0x100 * hi + m) / Pow2(k) % 2 == m / Pow2(k) % 2
  {
    PowersOfTwo();
    hide Pow2;
    match k {
      case 0 => Shifted(hi, m, 1, 256);
      case 1 => Shifted(hi, m, 2, 128);
      case 2 => Shifted(hi, m, 4, 64);
      case 3 => Shifted(hi, m, 8, 32);
      case 4 => Shifted(hi, m, 16, 16);
      case 5 => Shifted(hi, m, 32, 8);
      case 6 => Shifted(hi, m, 64, 4);
      case 7 => Shifted(hi, m, 128, 2);
    }
  }

  lemma Shifted(hi: nat, m: Byte, d: nat, c: nat)
    requires (d, c) in [(1, 256), (2, 128), (4, 64), (8, 32), (16, 16), (32, 8), (64, 4), (128, 2)]
    ensures (0x100 * hi + m) / d % 2 == m / d % 2
  {
    assert 0x100 * hi == c * hi * d;
    AddedMultiple(c * hi, d, m);
    EvenAdded(c / 2 * hi, m / d);
    assert 2 * (c / 2 * hi) == c * hi;
  }

  lemma EvenAdded(a: nat, b: nat)
    ensures (2 * a + b) % 2 == b % 2
  {
  }

  lemma BitOfByte(m3: Byte, m2: Byte, m1: Byte, m0: Byte, q: nat, k: nat)
    requires q < 4 && k < 8
    ensures Bit(FromBe32([m3, m2, m1, m0]), k + 8 * (3 - q)) <==> [m3, m2, m1, m0][q] / Pow2(k) % 2 == 1
  {
    var x := FromBe32([m3, m2, m1, m0]);
    ByteAbove(m3, m2, m1, m0, q);
    hide Pow2, FromBe32;
    var hi: nat :| x / Pow2(8 * (3 - q)) == 0x100 * hi + [m3, m2, m1, m0][q];
    DivPowers(x, k, 8 * (3 - q));
    LowBit(hi, [m3, m2, m1, m0][q], k);
  }

  /** The answer as it is printed: "41", "00" and the data with anything around their digits, and '>' */
  function Printed(data: seq<Byte>, lead: seq<Byte>, gaps: seq<seq<Byte>>): seq<Byte>
    requires |data| == 4 && |gaps| == 11
  {
    lead + [52, 49] + Weave(PrintAll([0] + data), gaps) + [62]
  }

  /** End to end in bytes: of the answer 41 00 and four data bytes in any legible layout the pipeline
      decodes these six bytes, and lists exactly the PIDs that the data name. */
  lemma EndToEndByBytes(data: seq<Byte>, lead: seq<Byte>, gaps: seq<seq<Byte>>, more: seq<Byte>, k: nat)
    requires |data| == 4 && |gaps| == 11 && Legible(FromBe32(data), lead, gaps) && StopsAt(Printed(data, lead, gaps) + more, 64, k)
    ensures GET_DEVS == Chars("0100\r") && IsCommand(GET_DEVS) && Decode(Text((Printed(data, lead, gaps) + more)[..k]), GET_DEVS) == Some([0x41, 0] + data)
    ensures forall p: Byte :: p in Supported(FromBe32(data), 31) <==> Named(data, p)
  {
    hide *;
    Literals();
    MaskBytes(data);
    AnswerBytes(FromBe32(data), lead, gaps);
    BytesDecoded(FromBe32(data), lead, gaps, more, k);
    assert [data[0], data[1], data[2], data[3]] == data;
    forall p: Byte ensures p in Supported(FromBe32(data), 31) <==> Named(data, p) {
      SupportedByBytes(data[0], data[1], data[2], data[3], p);
    }
  }

  lemma BytesDecoded(mask: U32, lead: seq<Byte>, gaps: seq<seq<Byte>>, more: seq<Byte>, k: nat)
    requires |gaps| == 11 && Legible(mask, lead, gaps) && StopsAt(Answer(mask, lead, gaps) + more, RESPONSE_SIZE, k)
    ensures IsCommand(GET_DEVS) && Decode(Text((Answer(mask, lead, gaps) + more)[..k]), GET_DEVS) == Some([0x41, 0] + Be32(mask))
  {
    hide *;
    ModeOfGetDevs();
    var a := Answer(mask, lead, gaps);
    AnswerIsRead(mask, lead, gaps, more);
    StopIsUnique(a + more, RESPONSE_SIZE, k, |a|);
    AnswerIsDecoded(mask, lead, gaps);
  }

  lemma AnswerBytes(mask: U32, lead: seq<Byte>, gaps: seq<seq<Byte>>)
    requires |gaps| == 11
    ensures Answer(mask, lead, gaps) == Printed(Be32(mask), lead, gaps)
    ensures RESPONSE_SIZE == 64
  {
    assert PrintHex(0x41) == [52, 49];
    hide Weave, PrintAll, PrintHex;
  }

  /** A stream that begins with the answer, or a ring with room for it and all that follows,
      makes the reader finish with the answer read. */
  lemma AnswerIsHeard(mask: U32, lead: seq<Byte>, gaps: seq<seq<Byte>>, start: seq<Byte>, latched: bool,
                      arrivals: seq<seq<Byte>>, stream: seq<Byte>, k: nat, done: bool)
    requires Legible(mask, lead, gaps) && Heard(stream, start, latched, arrivals, done)
    requires if done then StopsAt(stream, RESPONSE_SIZE, k) else k == |stream| && Unfinished(stream, k)
    requires Answer(mask, lead, gaps) <= stream ||
             (RoomForAll(start, latched, arrivals) && Answer(mask, lead, gaps) <= start + Arrived(arrivals, |arrivals|))
    ensures done && Answer(mask, lead, gaps) <= stream
  {
    var a, all := Answer(mask, lead, gaps), start + Arrived(arrivals, |arrivals|);
    if RoomForAll(start, latched, arrivals) {
      HeardPrefix(stream, start, latched, arrivals, done);
    }
    hide *;
    if a <= stream {
      AnswerEndsRead(mask, lead, gaps, stream);
    } else {
      PrefixesOfOne(a, stream, all);
      PartIsNotEnough(mask, lead, gaps, |stream|, k);
    }
  }

  lemma AnswerEndsRead(mask: U32, lead: seq<Byte>, gaps: seq<seq<Byte>>, stream: seq<Byte>)
    requires Legible(mask, lead, gaps) && Answer(mask, lead, gaps) <= stream
    ensures !Unfinished(stream, |stream|)
  {
    var a := Answer(mask, lead, gaps);
    AnswerFits(mask, lead, gaps);
    AnswerIsRead(mask, lead, gaps, stream[|a|..]);
    hide *;
    assert a + stream[|a|..] == stream;
    NotUnfinished(stream, RESPONSE_SIZE, |a|, |stream|);
  }

  lemma PartIsNotEnough(mask: U32, lead: seq<Byte>, gaps: seq<seq<Byte>>, n: nat, k: nat)
    requires Legible(mask, lead, gaps) && n < |Answer(mask, lead, gaps)|
    ensures !StopsAt(Answer(mask, lead, gaps)[..n], RESPONSE_SIZE, k)
  {
    var a := Answer(mask, lead, gaps);
    AnswerFits(mask, lead, gaps);
    AnswerIsRead(mask, lead, gaps, []);
    hide *;
    assert a + [] == a;
    NotStopped(a, RESPONSE_SIZE, n, k);
  }

  lemma HeardPrefix(stream: seq<Byte>, start: seq<Byte>, latched: bool, arrivals: seq<seq<Byte>>, done: bool)
    requires Heard(stream, start, latched, arrivals, done) && RoomForAll(start, latched, arrivals)
    ensures stream <= start + Arrived(arrivals, |arrivals|)
    ensures !done ==> stream == start + Arrived(arrivals, |arrivals|)
  {
    var t: nat :| t <= |arrivals| && TakenFrom(stream[|start|..], arrivals, t) && (!done ==> t == |arrivals|)
                  && (RoomForAll(start, latched, arrivals) ==> stream == start + Arrived(arrivals, t));
    hide TakenFrom, Arrived;
    ArrivedGrows(arrivals, t, |arrivals|);
  }

  lemma PrefixesOfOne(a: seq<Byte>, b: seq<Byte>, all: seq<Byte>)
    requires a <= all && b <= all && !(a <= b)
    ensures |b| < |a| && b == a[..|b|]
  {
    var n := if |a| <= |b| then |a| else |b|;
    assert b[..n] == all[..n] == a[..n];
    assert a[..|a|] == a && b[..|b|] == b;
  }

  lemma NotUnfinished(stream: seq<Byte>, len: nat, n: nat, k: nat)
    requires StopsAt(stream, len, n) && 0 < n < len && n <= k
    ensures !Unfinished(stream, k)
  {
    hide Complete;
  }

  lemma NotStopped(stream: seq<Byte>, len: nat, n: nat, k: nat)
    requires StopsAt(stream, len, |stream|) && n < |stream| < len
    ensures !StopsAt(stream[..n], len, k)
  {
    hide Complete;
    if k <= n {
      assert stream[..n][..k] == stream[..k];
    }
  }

  lemma AnswerFits(mask: U32, lead: seq<Byte>, gaps: seq<seq<Byte>>)
    requires Legible(mask, lead, gaps)
    ensures 0 < |Answer(mask, lead, gaps)| < RESPONSE_SIZE
  {
    hide Weave, PrintAll, Find;
  }

  /** The same when interrupts fall inside fifo_read_byte as well: under every interleaving that fills
      the ring in no window, if the reader stops, it has read the answer and no more. */
  lemma AnswerUnderInterrupts(mask: U32, lead: seq<Byte>, gaps: seq<seq<Byte>>, m: I.Machine, events: seq<I.Event>, n: nat)
    requires Legible(mask, lead, gaps) && I.Inv(m) && m.consumed == [] && n <= |events| && I.RoomInEveryWindow(m, events, n)
    requires var r := I.After(m, events, n);
             Answer(mask, lead, gaps) <= r.accepted && StopsAt(r.consumed, RESPONSE_SIZE, |r.consumed|)
    ensures I.After(m, events, n).consumed == Answer(mask, lead, gaps)
    ensures IsCommand(GET_DEVS) && Decode(Text(I.After(m, events, n).consumed), GET_DEVS) == Some([0x41, 0] + Be32(mask))
  {
    hide *;
    I.InvInRange(m);
    LegibleMeans(mask, lead, gaps);
    ReadUnderInterrupts(m, events, n, RESPONSE_SIZE);
    StoppedWithAnswer(mask, lead, gaps, I.After(m, events, n).accepted, I.After(m, events, n).consumed);
  }

  lemma StoppedWithAnswer(mask: U32, lead: seq<Byte>, gaps: seq<seq<Byte>>, accepted: seq<Byte>, consumed: seq<Byte>)
    requires Legible(mask, lead, gaps) && Answer(mask, lead, gaps) <= accepted && consumed <= accepted
    requires StopsAt(accepted, RESPONSE_SIZE, |consumed|)
    ensures consumed == Answer(mask, lead, gaps) && IsCommand(GET_DEVS) && Decode(Text(consumed), GET_DEVS) == Some([0x41, 0] + Be32(mask))
  {
    hide *;
    ModeOfGetDevs();
    LegibleMeans(mask, lead, gaps);
    var a := Answer(mask, lead, gaps);
    AnswerIsRead(mask, lead, gaps, accepted[|a|..]);
    assert a + accepted[|a|..] == accepted;
    StopIsUnique(accepted, RESPONSE_SIZE, |consumed|, |a|);
    AnswerIsDecoded(mask, lead, gaps);
    assert consumed == accepted[..|consumed|];
  }

  /** initialize_obd on a vehicle that prints the answer: the list it builds is the one that
      EndToEnd describes. */
  method InitializeOnAnswer(ctx: ObdCtx, arrivals: seq<seq<Byte>>,
                            ghost mask: U32, ghost lead: seq<Byte>, ghost gaps: seq<seq<Byte>>)
      returns (done: bool, r: int, ghost stream: seq<Byte>)
    requires ctx.elm.fifo.Valid() && Legible(mask, lead, gaps)
    modifies ctx.elm.fifo, ctx.elm.fifo.buf, ctx.elm.uart, ctx.linkedList
    ensures Answer(mask, lead, gaps) <= stream ||
            (RoomForAll(old(ctx.elm.fifo.Contents()), old(ctx.elm.fifo.status) == FULL, arrivals)
             && Answer(mask, lead, gaps) <= old(ctx.elm.fifo.Contents()) + Arrived(arrivals, |arrivals|)) ==>
              && done && r == 0 && ctx.linkedList.Valid() && ctx.linkedList.contents == Supported(mask, 31)
              && Answer(mask, lead, gaps) <= stream && ctx.elm.fifo.Valid()
              && ctx.elm.fifo.Contents() == stream[|Answer(mask, lead, gaps)|..]
  {
    ghost var a, start, latched := Answer(mask, lead, gaps), ctx.elm.fifo.Contents(), ctx.elm.fifo.status == FULL;
    hide *;
    ghost var k, dat;
    done, r, stream, k, dat := ctx.Initialize(arrivals);
    if a <= stream || (RoomForAll(start, latched, arrivals) && a <= start + Arrived(arrivals, |arrivals|)) {
      AnswerIsHeard(mask, lead, gaps, start, latched, arrivals, stream, k, done);
      AnswerIsBuilt(mask, lead, gaps, stream, k, dat);
    }
  }

  lemma AnswerIsBuilt(mask: U32, lead: seq<Byte>, gaps: seq<seq<Byte>>, stream: seq<Byte>, k: nat, dat: seq<Byte>)
    requires Legible(mask, lead, gaps) && Answer(mask, lead, gaps) <= stream && StopsAt(stream, RESPONSE_SIZE, k)
    ensures var decoded := Decode(Text(stream[..k]), GET_DEVS);
            && k == |Answer(mask, lead, gaps)| && decoded.Some?
            && (|dat| == RESPONSE_SIZE && decoded.value <= dat ==> FromBe32(dat[2..6]) == mask)
  {
    var a := Answer(mask, lead, gaps);
    var more := stream[|a|..];
    assert a + more == stream;
    AnswerFits(mask, lead, gaps);
    AnswerIsRead(mask, lead, gaps, more);
    AnswerIsDecoded(mask, lead, gaps);
    hide Decode, Answer, StopsAt, Legible, FromBe32, Text, Be32;
    StopIsUnique(stream, RESPONSE_SIZE, k, |a|);
    assert stream[..k] == (a + more)[..|a|];
    MaskFromBytes(mask, dat);
  }

  lemma MaskFromBytes(mask: U32, dat: seq<Byte>)
    ensures [0x41, 0] + Be32(mask) <= dat ==> |dat[2..6]| == 4 && FromBe32(dat[2..6]) == mask
  {
    Be32RoundTrip(mask);
    hide FromBe32;
    var v := [0x41, 0] + Be32(mask);
    if v <= dat {
      assert dat[2..6] == v[2..6] == Be32(mask);
    }
  }

  /** In particular every layout with nothing but white space around the digits is legible. */
  lemma WhiteSpaceIsLegible(mask: U32, lead: seq<Byte>, gaps: seq<seq<Byte>>)
    requires |gaps| == 11 && |Answer(mask, lead, gaps)| < RESPONSE_SIZE
    requires forall j :: 0 <= j < |lead| ==> IsSpace(lead[j])
    requires forall i, j :: 0 <= i < 11 && 0 <= j < |gaps[i]| ==> IsSpace(gaps[i][j])
    ensures Legible(mask, lead, gaps)
  {
    var a := Answer(mask, lead, gaps);
    NoMessage(mask, lead, gaps);
    SpacesAreHarmless(lead, gaps);
    FoundBehindSpaces(lead);
    hide PrintAll, PrintHex, Weave, Answer, Find, Harmless, IsSpace;
    NotFound(a, NO_DATA);
    NotFound(a, NO_CONNECT);
  }

  lemma SpacesAreHarmless(lead: seq<Byte>, gaps: seq<seq<Byte>>)
    requires forall j :: 0 <= j < |lead| ==> IsSpace(lead[j])
    requires forall i, j :: 0 <= i < |gaps| && 0 <= j < |gaps[i]| ==> IsSpace(gaps[i][j])
    ensures Harmless(gaps) && (forall i :: 0 <= i < |gaps| ==> PROMPT !in gaps[i]) && NUL !in lead && PROMPT !in lead
  {
  }

  lemma NoMessage(mask: U32, lead: seq<Byte>, gaps: seq<seq<Byte>>)
    requires |gaps| == 11 && (forall j :: 0 <= j < |lead| ==> IsSpace(lead[j]))
    requires forall i, j :: 0 <= i < 11 && 0 <= j < |gaps[i]| ==> IsSpace(gaps[i][j])
    ensures NO_DATA[0] !in Answer(mask, lead, gaps) && NO_CONNECT[0] !in Answer(mask, lead, gaps)
  {
    var p := PrintAll([0] + Be32(mask));
    PrintIsHex([0] + Be32(mask));
    hide PrintAll, Weave;
    WovenHasNo(NO_DATA[0], p, gaps);
    WovenHasNo(NO_CONNECT[0], p, gaps);
  }

  lemma FoundBehindSpaces(lead: seq<Byte>)
    requires forall j :: 0 <= j < |lead| ==> IsSpace(lead[j])
    ensures Find(lead + PrintHex(0x41), PrintHex(0x41)) == |lead|
  {
    var pre := PrintHex(0x41);
    NoSpaceIsFour(lead);
    assert pre[0] == 52;
    hide Find, PrintHex, IsSpace;
    forall j | 0 <= j < |lead| ensures !(pre <= (lead + pre)[j..]) {
      NotHere(lead, pre, j);
    }
    assert (lead + pre)[|lead|..] == pre;
    FindAt(lead + pre, pre, |lead|);
  }

  lemma NoSpaceIsFour(lead: seq<Byte>)
    requires forall j :: 0 <= j < |lead| ==> IsSpace(lead[j])
    ensures forall j :: 0 <= j < |lead| ==> lead[j] != 52
  {
  }

  lemma NotHere(lead: seq<Byte>, pre: seq<Byte>, j: nat)
    requires pre != [] && j < |lead| && lead[j] != pre[0]
    ensures !(pre <= (lead + pre)[j..])
  {
    assert (lead + pre)[j..][0] == lead[j];
  }

  lemma FindAt(hay: seq<Byte>, needle: seq<Byte>, i: nat)
    requires i <= |hay| && needle <= hay[i..] && forall j :: 0 <= j < i ==> !(needle <= hay[j..])
    ensures Find(hay, needle) == i
  {
    hide Find;
    var k := Find(hay, needle);
  }

  lemma {:induction false} NotFound(hay: seq<Byte>, needle: seq<Byte>)
    requires needle != [] && needle[0] !in hay
    ensures Find(hay, needle) < 0
  {
    if hay != [] {
      assert hay[0] in hay;
      NotFound(hay[1..], needle);
    }
  }
}
