/** Bytes as pairs of hexadecimal digits: the printer of src/uart.c, and the compaction and
    decoding of src/obd.c that read such text back. */
module Hex {
  import opened Bytes
  import opened CStr

  // ---- printing (src/uart.c) ----

  function Digit(v: int): Byte
    requires 0 <= v < 16
  {
    if v < 10 then 48 + v else 65 + v - 10
  }

  function PrintHex(n: Byte): (s: seq<Byte>)
    ensures |s| == 2
  {
    [Digit(n / 16), Digit(n % 16)]
  }

  function PrintAll(bs: seq<Byte>): (s: seq<Byte>)
    ensures |s| == 2 * |bs|
  {
    if bs == [] then [] else PrintAll(bs[..|bs| - 1]) + PrintHex(bs[|bs| - 1])
  }

  /** The four bytes of a uint32_t, most significant first */
  function Be32(x: U32): (b: seq<Byte>)
    ensures |b| == 4
  {
    [x / 0x100_0000, x / 0x1_0000 % 0x100, x / 0x100 % 0x100, x % 0x100]
  }

  /** A serial port: what has been sent on it. */
  class Uart {
    ghost var sent: seq<Byte>

    constructor ()
      ensures sent == []
    {
      sent := [];
    }

    method WriteChar(c: Byte)
      modifies this
      ensures sent == old(sent) + [c]
    {
      sent := sent + [c];
    }

    /** uart_write_str */
    method WriteStr(s: seq<Byte>)
      modifies this
      ensures sent == old(sent) + Text(s)
    {
      var i := 0;
      while i < |s| && s[i] != NUL
        invariant i <= |Text(s)| && sent == old(sent) + Text(s)[..i]
      {
        WriteChar(s[i]);
        i := i + 1;
      }
      assert i == |Text(s)|;
    }

    /** uart_write_hex: the second digit is taken after n <<= 4 on eight bits */
    method WriteHex(n: Byte)
      modifies this
      ensures sent == old(sent) + PrintHex(n)
    {
      ghost var before, digits := sent, PrintHex(n);
      Shifted(n);
      var high, shifted := n / 16 % 16, n * 16 % 0x100;
      var low := shifted / 16 % 16;
      WriteChar(if high < 10 then 48 + high else 65 + high - 10);
      WriteChar(if low < 10 then 48 + low else 65 + low - 10);
      hide PrintHex;
      assert before + [digits[0]] + [digits[1]] == before + digits;
    }

    /** uart_write_32: every argument is cut to its low eight bits */
    method Write32(val: U32)
      modifies this
      ensures sent == old(sent) + PrintAll(Be32(val))
    {
      PrintWord(val, sent);
      hide PrintHex, PrintAll, Be32;
      WriteHex(val / 0x100_0000 % 0x100);
      WriteHex(val / 0x1_0000 % 0x100);
      WriteHex(val / 0x100 % 0x100);
      WriteHex(val % 0x100);
    }
  }

  lemma Shifted(n: Byte)
    ensures n / 16 % 16 == n / 16 && n * 16 % 0x100 / 16 % 16 == n % 16
  {
    TopDigitLost(n / 16, n % 16);
    assert n * 16 == 0x100 * (n / 16) + 16 * (n % 16);
  }

  lemma TopDigitLost(h: int, l: int)
    requires 0 <= h < 16 && 0 <= l < 16
    ensures (0x100 * h + 16 * l) % 0x100 == 16 * l && 16 * l / 16 == l
  {
  }

  lemma PrintAppend(bs: seq<Byte>, b: Byte)
    ensures PrintAll(bs + [b]) == PrintAll(bs) + PrintHex(b)
  {
    assert (bs + [b])[..|bs|] == bs;
  }

  lemma PrintWord(val: U32, sent: seq<Byte>)
    ensures sent + PrintAll(Be32(val)) ==
            sent + PrintHex(val / 0x100_0000 % 0x100) + PrintHex(val / 0x1_0000 % 0x100) + PrintHex(val / 0x100 % 0x100) + PrintHex(val % 0x100)
  {
    PrintFour(Be32(val), sent);
    Be32Digits(val);
    hide *;
  }

  lemma Be32Digits(val: U32)
    ensures var b := Be32(val);
            b[0] == val / 0x100_0000 % 0x100 && b[1] == val / 0x1_0000 % 0x100 && b[2] == val / 0x100 % 0x100 && b[3] == val % 0x100
  {
  }

  lemma PrintFour(b: seq<Byte>, sent: seq<Byte>)
    requires |b| == 4
    ensures sent + PrintAll(b) == sent + PrintHex(b[0]) + PrintHex(b[1]) + PrintHex(b[2]) + PrintHex(b[3])
  {
    assert PrintAll([]) == [];
    hide PrintHex, PrintAll;
    PrintAppend([], b[0]);
    PrintAppend([b[0]], b[1]);
    PrintAppend([b[0], b[1]], b[2]);
    PrintAppend([b[0], b[1], b[2]], b[3]);
    assert [] + [b[0]] == [b[0]] && [b[0]] + [b[1]] == [b[0], b[1]] && [b[0], b[1]] + [b[2]] == [b[0], b[1], b[2]];
    assert [b[0], b[1], b[2]] + [b[3]] == b;
    Assoc(sent, PrintHex(b[0]), PrintHex(b[1]), PrintHex(b[2]), PrintHex(b[3]));
  }

  lemma Assoc(s: seq<Byte>, a: seq<Byte>, b: seq<Byte>, c: seq<Byte>, d: seq<Byte>)
    ensures s + ([] + a + b + c + d) == s + a + b + c + d
  {
    assert [] + a == a;
    assert s + (a + b) == s + a + b;
    assert s + (a + b + c) == s + (a + b) + c;
    assert s + (a + b + c + d) == s + (a + b + c) + d;
  }

  /** The two digits as characters */
  lemma PrintedCharacters(n: Byte)
    ensures PrintHex(n) == ["0123456789ABCDEF"[n / 16] as int, "0123456789ABCDEF"[n % 16] as int]
  {
    DigitCharacter(n / 16);
    DigitCharacter(n % 16);
    hide Digit;
  }

  lemma DigitCharacter(v: int)
    requires 0 <= v < 16
    ensures Digit(v) == "0123456789ABCDEF"[v] as int
  {
  }

  /** The eight digits that uart_write_32 sends, the highest one first */
  lemma PrintedWord(val: U32)
    ensures PrintAll(Be32(val)) ==
            ["0123456789ABCDEF"[val / 0x1000_0000] as int, "0123456789ABCDEF"[val / 0x100_0000 % 16] as int,
             "0123456789ABCDEF"[val / 0x10_0000 % 16] as int, "0123456789ABCDEF"[val / 0x1_0000 % 16] as int,
             "0123456789ABCDEF"[val / 0x1000 % 16] as int, "0123456789ABCDEF"[val / 0x100 % 16] as int,
             "0123456789ABCDEF"[val / 0x10 % 16] as int, "0123456789ABCDEF"[val % 16] as int]
  {
    hide *;
    var b := Be32(val);
    PrintFour(b, []);
    PrintedCharacters(b[0]);
    PrintedCharacters(b[1]);
    PrintedCharacters(b[2]);
    PrintedCharacters(b[3]);
    WordDigits(val);
    assert [] + PrintAll(b) == PrintAll(b);
  }

  lemma WordDigits(val: U32)
    ensures var b := Be32(val);
            && b[0] / 16 == val / 0x1000_0000 && b[0] % 16 == val / 0x100_0000 % 16
            && b[1] / 16 == val / 0x10_0000 % 16 && b[1] % 16 == val / 0x1_0000 % 16
            && b[2] / 16 == val / 0x1000 % 16 && b[2] % 16 == val / 0x100 % 16
            && b[3] / 16 == val / 0x10 % 16 && b[3] % 16 == val % 16
  {
    Be32Digits(val);
    ByteDigits(val / 0x100_0000);
    ByteDigits(val / 0x1_0000);
    ByteDigits(val / 0x100);
    ByteDigits(val);
    Sixteenths(val);
    hide *;
  }

  lemma ByteDigits(x: nat)
    ensures x % 0x100 / 16 == x / 16 % 16 && x % 0x100 % 16 == x % 16
  {
    TwoDigits(x / 0x100, x % 0x100 / 16, x % 0x100 % 16);
  }

  lemma TwoDigits(q: nat, h: nat, l: nat)
    requires h < 16 && l < 16
    ensures var x := 0x100 * q + 16 * h + l; x / 16 % 16 == h && x % 16 == l
  {
    var x := 0x100 * q + 16 * h + l;
    assert x == 16 * (16 * q + h) + l;
    assert x / 16 == 16 * q + h;
  }

  lemma Sixteenths(val: U32)
    ensures val / 0x100_0000 / 16 == val / 0x1000_0000 && val / 0x1000_0000 % 16 == val / 0x1000_0000
    ensures val / 0x1_0000 / 16 == val / 0x10_0000 && val / 0x100 / 16 == val / 0x1000
  {
  }

  // ---- reading back (src/obd.c) ----

  predicate IsSpace(c: Byte) {
    c == 32 || 9 <= c <= 13
  }

  predicate IsHexDigit(c: Byte) {
    48 <= c <= 57 || 65 <= c <= 70 || 97 <= c <= 102
  }

  function HexValue(c: Byte): (v: int)
    requires IsHexDigit(c)
    ensures 0 <= v < 16
  {
    if c <= 57 then c - 48 else if c <= 70 then c - 65 + 10 else c - 97 + 10
  }

  /** The digits of both cases, and their values */
  lemma HexDigitIff(c: Byte)
    ensures IsHexDigit(c) <==> exists k :: 0 <= k < 22 && "0123456789ABCDEFabcdef"[k] as int == c
    ensures IsHexDigit(c) ==> c == "0123456789ABCDEF"[HexValue(c)] as int || c == "0123456789abcdef"[HexValue(c)] as int
  {
    if IsHexDigit(c) {
      var k := if c <= 57 then c - 48 else if c <= 70 then c - 55 else c - 81;
      assert "0123456789ABCDEFabcdef"[k] as int == c;
    }
  }

  predicate AllHex(s: seq<Byte>) {
    forall i :: 0 <= i < |s| ==> IsHexDigit(s[i])
  }

  /** The hexadecimal digits of `s` in order. */
  function Compact(s: seq<Byte>): (t: seq<Byte>)
    ensures AllHex(t) && |t| <= |s| && NUL !in t
  {
    if s == [] then []
    else
      var t := Compact(s[..|s| - 1]);
      if IsHexDigit(s[|s| - 1]) then t + [s[|s| - 1]] else t
  }

  /** strtol in base 16 on the pairs of digits */
  function DecodePairs(s: seq<Byte>): (bs: seq<Byte>)
    requires AllHex(s) && |s| % 2 == 0
    ensures |bs| == |s| / 2
  {
    seq<Byte>(|s| / 2, i requires 0 <= i < |s| / 2 => 16 * HexValue(s[2 * i]) + HexValue(s[2 * i + 1]))
  }

  /** The loop of obd_fmt_resp at index `i` of a buffer that held `was`, `n` digits moved. */
  ghost predicate Compacting(now: seq<Byte>, was: seq<Byte>, n: nat, i: nat) {
    && |now| == |was| && n <= i <= |Text(was)| < |was|
    && now[..n] == Compact(Text(was)[..i])
    && (forall j :: i <= j < |was| ==> now[j] == was[j])
    && (forall j :: 0 <= j < i ==> now[j] != NUL)
  }

  lemma CompactingStarts(was: seq<Byte>)
    requires NUL in was
    ensures Compacting(was, was, 0, 0)
  {
    TextStops(was);
  }

  /** strlen does not move while the loop overwrites digits with digits. */
  lemma CompactingLength(now: seq<Byte>, was: seq<Byte>, n: nat, i: nat)
    requires Compacting(now, was, n, i)
    ensures NUL in now && |Text(now)| == |Text(was)|
  {
    var len := |Text(was)|;
    forall j | 0 <= j < len ensures now[j] != NUL {
      assert was[j] == Text(was)[j] != NUL;
    }
    hide Compact, Text;
    TextEnds(now, len);
  }

  lemma CompactingStep(now: seq<Byte>, was: seq<Byte>, n: nat, i: nat)
    requires Compacting(now, was, n, i) && i < |Text(was)|
    ensures if IsHexDigit(now[i]) then Compacting(now[n := now[i]], was, n + 1, i + 1)
            else Compacting(now, was, n, i + 1)
  {
    hide Compact, Text, IsHexDigit;
    var text, c := Text(was), now[i];
    CompactNext(text, i);
    assert c == was[i] == text[i] && text[i] in text;
    if IsHexDigit(c) {
      DigitMoved(now, was, n, i);
    }
  }

  lemma DigitMoved(now: seq<Byte>, was: seq<Byte>, n: nat, i: nat)
    requires Compacting(now, was, n, i) && i < |Text(was)| && now[i] != NUL
    requires Compact(Text(was)[..i + 1]) == Compact(Text(was)[..i]) + [now[i]]
    ensures Compacting(now[n := now[i]], was, n + 1, i + 1)
  {
    hide Compact, Text;
    assert now[n := now[i]][..n + 1] == now[..n] + [now[i]];
  }

  lemma {:induction false} TextTerminated(s: seq<Byte>)
    requires |Text(s)| < |s|
    ensures s[|Text(s)|] == NUL
  {
    if s[0] != NUL {
      TextTerminated(s[1..]);
    }
  }

  lemma CompactingEnds(now: seq<Byte>, was: seq<Byte>, n: nat)
    requires Compacting(now, was, n, |Text(was)|)
    ensures NUL in now[n := NUL] && Text(now[n := NUL]) == Compact(Text(was))
    ensures now[n := NUL][|Text(was)|..] == was[|Text(was)|..]
  {
    hide Compact, Text;
    TextTerminated(was);
    var text, end := Text(was), now[n := NUL];
    assert text[..|text|] == text;
    assert end[n] == NUL && end[..n] == now[..n];
    TextEnds(end, n);
  }

  /** One character of the string at `start` */
  method Store(str: array<Byte>, start: nat, n: nat, c: Byte)
    requires start + n < str.Length
    modifies str
    ensures str[start..] == old(str[start..])[n := c] && str[..start] == old(str[..start])
  {
    str[start + n] := c;
  }

  /** One turn of the loop of obd_fmt_resp: white space is passed over, a digit moves to its place. */
  method KeepDigit(str: array<Byte>, start: nat, n: nat, i: nat, ghost was: seq<Byte>) returns (m: nat)
    requires start + i < str.Length && n <= i < |Text(was)| && Compacting(str[start..], was, n, i)
    modifies str
    ensures str[..start] == old(str[..start])
    ensures m <= i + 1 && |str[start..]| == |was| && Compacting(str[start..], was, m, i + 1)
  {
    hide *;
    var c := str[start + i];
    assert c == str[start..][i];
    CompactingStep(str[start..], was, n, i);
    SpaceIsNoDigit(c);
    CompactingSize(str[start..], was, n, i);
    m := n;
    if IsSpace(c) {
    } else if IsHexDigit(c) {
      Store(str, start, n, c);
      m := n + 1;
    }
  }

  lemma CompactingSize(now: seq<Byte>, was: seq<Byte>, n: nat, i: nat)
    requires Compacting(now, was, n, i)
    ensures |now| == |was|
  {
    hide Compact, Text;
  }

  /** obd_fmt_resp on the string at `start`: keep the hexadecimal digits, in place. */
  method FmtResp(str: array<Byte>, start: nat) returns (r: int)
    requires start < str.Length && NUL in str[start..]
    modifies str
    ensures str[..start] == old(str[..start])
    ensures NUL in str[start..]
    ensures var t := Compact(Text(old(str[start..])));
            Text(str[start..]) == t && r == if |t| % 2 == 1 then -1 else 0
    ensures var end := |Text(old(str[start..]))|;
            end < str.Length - start && str[start..][end..] == old(str[start..][end..])
  {
    ghost var was := str[start..];
    var n, i := 0, 0;
    CompactingStarts(was);
    TextStops(was);
    var len := StrLen(str, start);
    hide Compact, Text, Compacting, IsSpace, IsHexDigit;
    while i < len
      invariant str[..start] == old(str[..start])
      invariant n <= i <= len == |Text(was)| < |was| && Compacting(str[start..], was, n, i)
    {
      n := KeepDigit(str, start, n, i, was);
      i := i + 1;
      CompactingLength(str[start..], was, n, i);
      len := StrLen(str, start);
    }
    CompactingEnds(str[start..], was, n);
    Store(str, start, n, NUL);
    var m := StrLen(str, start);
    r := if m % 2 == 1 then -1 else 0;
  }

  lemma SpaceIsNoDigit(c: Byte)
    ensures !(IsSpace(c) && IsHexDigit(c))
  {
  }

  lemma CompactNext(s: seq<Byte>, i: nat)
    requires i < |s|
    ensures Compact(s[..i + 1]) == if IsHexDigit(s[i]) then Compact(s[..i]) + [s[i]] else Compact(s[..i])
  {
    assert s[..i + 1][..i] == s[..i];
  }

  lemma TextEnds(s: seq<Byte>, n: nat)
    requires n < |s| && s[n] == NUL && NUL !in s[..n]
    ensures NUL in s && Text(s) == s[..n]
  {
    hide Text;
    TextOf(s[..n], s[n + 1..]);
    assert s == s[..n] + [NUL] + s[n + 1..];
  }

  // ---- the round trip ----

  lemma {:induction false} PrintAllAt(bs: seq<Byte>, i: nat)
    requires i < |bs|
    ensures PrintAll(bs)[2 * i] == Digit(bs[i] / 16) && PrintAll(bs)[2 * i + 1] == Digit(bs[i] % 16)
    decreases |bs|
  {
    var last := |bs| - 1;
    if i < last {
      PrintAllAt(bs[..last], i);
    } else {
      assert bs[last] as int * 16 % 0x100 / 16 == bs[last] % 16;
    }
  }

  lemma PrintIsHex(bs: seq<Byte>)
    ensures AllHex(PrintAll(bs))
  {
    forall i | 0 <= i < 2 * |bs| ensures IsHexDigit(PrintAll(bs)[i]) {
      PrintAllAt(bs, i / 2);
      assert i == 2 * (i / 2) || i == 2 * (i / 2) + 1;
    }
  }

  lemma DecodePrinted(bs: seq<Byte>)
    ensures AllHex(PrintAll(bs)) && DecodePairs(PrintAll(bs)) == bs
  {
    PrintIsHex(bs);
    forall i | 0 <= i < |bs| ensures DecodePairs(PrintAll(bs))[i] == bs[i] {
      PrintAllAt(bs, i);
      hide PrintAll;
    }
  }

  /** Lower-case digits are read as upper-case ones. */
  lemma DecodeEitherCase(bs: seq<Byte>, s: seq<Byte>)
    requires |s| == 2 * |bs| && forall i :: 0 <= i < |s| ==> s[i] == PrintAll(bs)[i] || (65 <= PrintAll(bs)[i] <= 70 && s[i] == PrintAll(bs)[i] + 32)
    ensures AllHex(s) && DecodePairs(s) == bs
  {
    hide *;
    var p := PrintAll(bs);
    PrintIsHex(bs);
    DecodePrinted(bs);
    SameValues(p, s);
    SamePairs(p, s);
  }

  lemma SameValues(p: seq<Byte>, s: seq<Byte>)
    requires AllHex(p) && |s| == |p| && forall i :: 0 <= i < |s| ==> s[i] == p[i] || (65 <= p[i] <= 70 && s[i] == p[i] + 32)
    ensures AllHex(s) && forall i :: 0 <= i < |s| ==> HexValue(s[i]) == HexValue(p[i])
  {
  }

  lemma SamePairs(p: seq<Byte>, s: seq<Byte>)
    requires AllHex(p) && AllHex(s) && |s| == |p| && |s| % 2 == 0 && forall i :: 0 <= i < |s| ==> HexValue(s[i]) == HexValue(p[i])
    ensures DecodePairs(s) == DecodePairs(p)
  {
    hide IsHexDigit, HexValue;
    forall i | 0 <= i < |s| / 2 ensures DecodePairs(s)[i] == DecodePairs(p)[i] {
      assert HexValue(s[2 * i]) == HexValue(p[2 * i]) && HexValue(s[2 * i + 1]) == HexValue(p[2 * i + 1]);
    }
  }

  /** Text with the characters of `p` in order and arbitrary characters around them. */
  function Weave(p: seq<Byte>, gaps: seq<seq<Byte>>): seq<Byte>
    requires |gaps| == |p| + 1
    decreases |p|
  {
    if p == [] then gaps[0]
    else Weave(p[..|p| - 1], gaps[..|p|]) + [p[|p| - 1]] + gaps[|p|]
  }

  /** No gap holds a hexadecimal digit or a NUL. */
  predicate Harmless(gaps: seq<seq<Byte>>) {
    forall i, j :: 0 <= i < |gaps| && 0 <= j < |gaps[i]| ==> !IsHexDigit(gaps[i][j]) && gaps[i][j] != NUL
  }

  lemma {:induction false} CompactConcat(s: seq<Byte>, t: seq<Byte>)
    ensures Compact(s + t) == Compact(s) + Compact(t)
    decreases |t|
  {
    if t == [] {
      assert s + t == s;
    } else {
      var last := |t| - 1;
      assert (s + t)[..|s + t| - 1] == s + t[..last];
      CompactConcat(s, t[..last]);
    }
  }

  lemma {:induction false} CompactGap(gap: seq<Byte>)
    requires forall j :: 0 <= j < |gap| ==> !IsHexDigit(gap[j])
    ensures Compact(gap) == []
    decreases |gap|
  {
    if gap != [] {
      CompactGap(gap[..|gap| - 1]);
    }
  }

  lemma {:induction false} CompactWoven(p: seq<Byte>, gaps: seq<seq<Byte>>)
    requires |gaps| == |p| + 1 && AllHex(p) && Harmless(gaps)
    ensures Compact(Weave(p, gaps)) == p && NUL !in Weave(p, gaps)
    decreases |p|
  {
    var n := |p|;
    CompactGap(gaps[n]);
    if n > 0 {
      CompactWoven(p[..n - 1], gaps[..n]);
      CompactTurn(Weave(p[..n - 1], gaps[..n]), p[n - 1], gaps[n]);
      assert p == p[..n - 1] + [p[n - 1]];
    }
    hide Compact, IsHexDigit;
  }

  lemma CompactTurn(front: seq<Byte>, digit: Byte, gap: seq<Byte>)
    requires IsHexDigit(digit) && forall j :: 0 <= j < |gap| ==> !IsHexDigit(gap[j])
    ensures Compact(front + [digit] + gap) == Compact(front) + [digit]
  {
    assert [digit][..0] == [] && Compact([digit]) == [digit];
    hide Compact, IsHexDigit;
    CompactGap(gap);
    CompactConcat(front, [digit]);
    CompactConcat(front + [digit], gap);
    assert Compact(front) + [digit] + [] == Compact(front) + [digit];
  }

  /** Printing bytes, putting any harmless characters between the digits, compacting and
      decoding gives the bytes back. */
  lemma HexRoundTrip(bs: seq<Byte>, gaps: seq<seq<Byte>>)
    requires |gaps| == 2 * |bs| + 1 && Harmless(gaps)
    ensures var t := Compact(Text(Weave(PrintAll(bs), gaps))); |t| % 2 == 0 && DecodePairs(t) == bs
  {
    PrintIsHex(bs);
    CompactWoven(PrintAll(bs), gaps);
    NoNulText(Weave(PrintAll(bs), gaps));
    DecodePrinted(bs);
  }

  lemma {:induction false} NoNulText(s: seq<Byte>)
    requires NUL !in s
    ensures Text(s) == s
  {
    if s != [] {
      NoNulText(s[1..]);
    }
  }
}
