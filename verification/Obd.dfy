/** src/obd.c: one command to the vehicle, its decoded answer, and the list of supported PIDs. */
module Obd {
  import opened Bytes
  import opened CStr
  import opened Hex
  import opened Fifo
  import opened Elm
  import L = List

  datatype Option<T> = None | Some(value: T)

  /** "NO DATA" and "UNABLE TO CONNECT" */
  const NO_DATA: seq<Byte> := [78, 79, 32, 68, 65, 84, 65]
  const NO_CONNECT: seq<Byte> := [85, 78, 65, 66, 76, 69, 32, 84, 79, 32, 67, 79, 78, 78, 69, 67, 84]

  /** "0100\r" */
  const GET_DEVS: seq<Byte> := [48, 49, 48, 48, 13]

  const CMD_LEN: nat := 5
  const RESPONSE_SIZE: nat := 64

  /** A command is four hexadecimal digits and a carriage return. */
  predicate IsCommand(cmd: seq<Byte>) {
    |cmd| == CMD_LEN && NUL !in cmd && AllHex(cmd[..4])
  }

  /** The two characters that begin the answer: the mode plus 0x40, cut to two digits. */
  function Preamble(cmd: seq<Byte>): seq<Byte>
    requires IsCommand(cmd)
  {
    var w := 0x40 + 16 * HexValue(cmd[..4][0]) + HexValue(cmd[..4][1]);
    PrintHex(if w < 0x100 then w else w / 16)
  }

  /** What obd_command makes of the answer `text`. */
  function Decode(text: seq<Byte>, cmd: seq<Byte>): Option<seq<Byte>>
    requires IsCommand(cmd)
  {
    if Find(text, NO_DATA) >= 0 || Find(text, NO_CONNECT) >= 0 then None
    else
      var i := Find(text, Preamble(cmd));
      if i < 0 then None
      else
        var digits := Compact(text[i..]);
        if |digits| % 2 == 1 then None else Some(DecodePairs(digits))
  }

  /** The characters of a string of the source */
  function Chars(s: string): seq<Byte>
    requires forall i :: 0 <= i < |s| ==> s[i] < 128 as char
  {
    seq<Byte>(|s|, i requires 0 <= i < |s| => s[i] as int)
  }

  predicate Contains(text: seq<Byte>, needle: seq<Byte>) {
    exists i :: 0 <= i <= |text| && needle <= text[i..]
  }

  lemma Literals()
    ensures NO_DATA == Chars("NO DATA") && NO_CONNECT == Chars("UNABLE TO CONNECT") && GET_DEVS == Chars("0100\r")
  {
  }

  lemma FoundIff(text: seq<Byte>, needle: seq<Byte>)
    ensures Find(text, needle) >= 0 <==> Contains(text, needle)
  {
    hide Find;
    var i := Find(text, needle);
  }

  /** An answer decodes if and only if it holds neither message of failure, the preamble does occur, and
      the digits from its first occurrence on are even in number; they are then the bytes. */
  lemma DecodesIff(text: seq<Byte>, cmd: seq<Byte>, bs: seq<Byte>)
    requires IsCommand(cmd)
    ensures Decode(text, cmd) == Some(bs) <==>
            && !Contains(text, Chars("NO DATA")) && !Contains(text, Chars("UNABLE TO CONNECT"))
            && exists i: nat :: FirstAt(text, Preamble(cmd), i) && |Compact(text[i..])| % 2 == 0 && bs == DecodePairs(Compact(text[i..]))
  {
    Literals();
    FoundIff(text, NO_DATA);
    FoundIff(text, NO_CONNECT);
    var i := Find(text, Preamble(cmd));
    if i >= 0 {
      assert FirstAt(text, Preamble(cmd), i);
    }
    forall j: nat | FirstAt(text, Preamble(cmd), j) ensures j == i {
    }
    hide Find, Compact, DecodePairs, Preamble, Chars, Contains;
  }

  /** The first place where `needle` occurs */
  predicate FirstAt(text: seq<Byte>, needle: seq<Byte>, i: nat) {
    i <= |text| && needle <= text[i..] && forall j :: 0 <= j < i ==> !(needle <= text[j..])
  }

  /** The preamble is the mode, a number of two digits, plus 0x40 in two digits again; where that takes
      three digits, the first two of them. */
  lemma PreambleIs(cmd: seq<Byte>, mode: Byte)
    requires IsCommand(cmd) && 16 * HexValue(cmd[..4][0]) + HexValue(cmd[..4][1]) == mode
    ensures mode < 0xC0 ==> Preamble(cmd) == ["0123456789ABCDEF"[mode / 16 + 4] as int, "0123456789ABCDEF"[mode % 16] as int]
    ensures mode >= 0xC0 ==> Preamble(cmd) == ["1"[0] as int, "0123456789ABCDEF"[mode / 16 - 12] as int]
  {
    if mode < 0xC0 {
      PrintedCharacters(mode + 0x40);
    } else {
      PrintedCharacters((mode + 0x40) / 16);
    }
    hide PrintHex, HexValue, IsCommand;
  }

  function FromBe32(b: seq<Byte>): U32
    requires |b| == 4
  {
    0x100_0000 * b[0] as int + 0x1_0000 * b[1] as int + 0x100 * b[2] as int + b[3] as int
  }

  function Pow2(k: nat): (p: nat)
    ensures p > 0
  {
    if k == 0 then 1 else 2 * Pow2(k - 1)
  }

  lemma TopBit()
    ensures Pow2(31) == 0x8000_0000
  {
    assert Pow2(8) == 256 && Pow2(16) == 0x1_0000 && Pow2(24) == 0x100_0000;
  }

  predicate Bit(x: U32, k: nat) {
    x / Pow2(k) % 2 == 1
  }

  /** PIDs up to `n` whose bit is set, highest first; the top bit belongs to PID 1. */
  function Supported(res: U32, n: nat): seq<Byte>
    requires n < 32
  {
    if n == 0 then []
    else (if Bit(res, 32 - n) then [n] else []) + Supported(res, n - 1)
  }

  /** The list holds exactly the PIDs 1 to n whose bit 32 - i is set ... */
  lemma {:induction false} SupportedExact(res: U32, n: nat, p: Byte)
    requires n < 32
    ensures p in Supported(res, n) <==> 1 <= p <= n && Bit(res, 32 - p)
  {
    if n != 0 {
      SupportedExact(res, n - 1, p);
      hide Bit;
    }
  }

  /** ... in strictly descending order. */
  lemma {:induction false} SupportedDescends(res: U32, n: nat, i: nat, j: nat)
    requires n < 32 && i < j < |Supported(res, n)|
    ensures Supported(res, n)[i] > Supported(res, n)[j]
  {
    hide Bit;
    var rest := Supported(res, n - 1);
    if Bit(res, 32 - n) {
      if i == 0 {
        SupportedExact(res, n - 1, rest[j - 1]);
      } else {
        SupportedDescends(res, n - 1, i - 1, j - 1);
      }
    } else {
      SupportedDescends(res, n - 1, i, j);
    }
  }

  /** `pids` are the operations that bytes 2 to 5 of the answer buffer name, once the answer `text`
      has been decoded into its beginning. */
  ghost predicate Listed(text: seq<Byte>, dat: seq<Byte>, pids: seq<Byte>) {
    && |dat| == RESPONSE_SIZE && Decode(text, GET_DEVS).Some? && Decode(text, GET_DEVS).value <= dat
    && pids == Supported(FromBe32(dat[2..6]), 31)
  }

  /** struct obd_ctx; the list nodes are the PIDs of the commands, obd_cmds[i] having PID i. */
  class ObdCtx {
    const elm: ElmCtx
    const linkedList: L.List<Byte>

    constructor (elm: ElmCtx)
      ensures this.elm == elm && fresh(linkedList) && linkedList.Valid()
    {
      this.elm := elm;
      linkedList := new L.List<Byte>();
    }

    /** obd_set_supported_ops */
    method SetSupportedOps(res: U32)
      modifies linkedList
      ensures linkedList.Valid() && linkedList.contents == Supported(res, 31)
    {
      linkedList.Reset();
      var mask: U32 := 0x8000_0000;
      TopBit();
      var i := 1;
      while i < 0x20
        invariant 1 <= i <= 32 && mask == Pow2(32 - i)
        invariant linkedList.Valid() && linkedList.contents == Supported(res, i - 1)
      {
        if res / mask % 2 == 1 {
          linkedList.PushHead(i);
        }
        mask := mask / 2;
        i := i + 1;
      }
    }

    /** The part of obd_command after the answer is in `buf`. `dat` is the memory from the output
        pointer on: up to 32 bytes of it are written, whatever the size of the caller's array at its
        beginning, since obd_command does not look at its size argument. */
    method DecodeAnswer(cmd: seq<Byte>, buf: array<Byte>, dat: array<Byte>) returns (r: int)
      requires IsCommand(cmd) && NUL in buf[..] && buf.Length <= RESPONSE_SIZE + 1 && dat.Length >= 32 && dat != buf
      modifies buf, dat
      ensures match Decode(Text(old(buf[..])), cmd)
              case None => r == -1 && dat[..] == old(dat[..])
              case Some(bs) => r == 0 && |bs| <= 32 && dat[..] == bs + old(dat[..])[|bs|..]
      ensures var end := |Text(old(buf[..]))|; end < buf.Length && buf[..][end..] == old(buf[..][end..])
    {
      var text := Text(buf[..]);
      TextStops(buf[..]);
      if Find(text, NO_DATA) >= 0 || Find(text, NO_CONNECT) >= 0 {
        return -1;
      }
      var data := Find(text, Preamble(cmd));
      if data < 0 {
        return -1;
      }
      TextTail(buf[..], data);
      assert buf[..][data..] == buf[data..];
      hide Text, Compact, Find, DecodePairs, Preamble;
      DropTwice(buf[..], data, |text|);
      r := DecodeString(buf, data, dat);
      DropTwice(buf[..], data, |text|);
    }

    /** obd_command from the beginning of the answer on */
    method DecodeString(buf: array<Byte>, start: nat, dat: array<Byte>) returns (r: int)
      requires start < buf.Length <= RESPONSE_SIZE + 1 && NUL in buf[start..] && dat.Length >= 32 && dat != buf
      modifies buf, dat
      ensures var digits := Compact(Text(old(buf[start..])));
              if |digits| % 2 == 1 then r == -1 && dat[..] == old(dat[..])
              else r == 0 && |digits| <= 64 && dat[..] == DecodePairs(digits) + old(dat[..])[|digits| / 2..]
      ensures var end := |Text(old(buf[start..]))|;
              end < buf.Length - start && buf[..][start..][end..] == old(buf[..][start..][end..])
    {
      hide Text, Compact, DecodePairs;
      assert buf[..][start..] == buf[start..];
      r := FmtResp(buf, start);
      assert buf[..][start..] == buf[start..];
      if r == 0 {
        var digits := Text(buf[start..]);
        DecodeInto(digits, dat);
      }
    }

    /** The loop of obd_command that turns pairs of digits into bytes. */
    method DecodeInto(digits: seq<Byte>, dat: array<Byte>)
      requires AllHex(digits) && |digits| % 2 == 0 && |digits| / 2 <= dat.Length
      modifies dat
      ensures dat[..] == DecodePairs(digits) + old(dat[..])[|digits| / 2..]
    {
      for i := 0 to |digits| / 2
        invariant dat[..i] == DecodePairs(digits)[..i] && dat[i..] == old(dat[..])[i..]
      {
        dat[i] := 16 * HexValue(digits[2 * i]) + HexValue(digits[2 * i + 1]);
        assert dat[..i + 1] == dat[..i] + [dat[i]];
      }
      assert dat[..] == dat[..|digits| / 2] + dat[|digits| / 2..];
    }

    /** obd_command. `buf` is the stack: the answer buffer of 64 bytes and the cell behind it; `dat`
        is the memory from the output pointer on. */
    method Command(cmd: seq<Byte>, buf: array<Byte>, dat: array<Byte>, arrivals: seq<seq<Byte>>)
        returns (done: bool, r: int, ghost stream: seq<Byte>, ghost k: nat)
      requires elm.fifo.Valid() && dat.Length >= 32 && dat != elm.fifo.buf && (|cmd| == CMD_LEN ==> IsCommand(cmd))
      requires buf.Length == RESPONSE_SIZE + 1 && buf != elm.fifo.buf && buf != dat
      modifies elm.fifo, elm.fifo.buf, elm.uart, dat, buf
      ensures elm.fifo.Valid()
      ensures buf[RESPONSE_SIZE] == if |cmd| == CMD_LEN && k == RESPONSE_SIZE then NUL else old(buf[RESPONSE_SIZE])
      ensures |cmd| != CMD_LEN ==> done && r == -1 && dat[..] == old(dat[..])
      ensures |cmd| == CMD_LEN ==>
                && Heard(stream, old(elm.fifo.Contents()), old(elm.fifo.status) == FULL, arrivals, done)
                && elm.uart.sent == old(elm.uart.sent) + cmd
      ensures |cmd| == CMD_LEN && !done ==> k == |stream| && Unfinished(stream, k)
      ensures |cmd| == CMD_LEN && done ==>
                && StopsAt(stream, RESPONSE_SIZE, k) && elm.fifo.Contents() == stream[k..]
                && match Decode(Text(stream[..k]), cmd)
                   case None => r == -1 && dat[..] == old(dat[..])
                   case Some(bs) => r == 0 && |bs| <= 32 && dat[..] == bs + old(dat[..])[|bs|..]
    {
      stream, k, done := [], 0, true;
      if |cmd| != CMD_LEN {
        return true, -1, [], 0;
      }
      hide Decode, Text, Items, Consistent, StopsAt, Unfinished, Heard;
      NoNulText(cmd);
      var n;
      done, n, stream, k := elm.Command(cmd, buf, RESPONSE_SIZE, arrivals);
      if !done {
        return false, -1, stream, k;
      }
      AnswerText(stream, elm.fifo.Contents(), buf[..], RESPONSE_SIZE, k);
      r := DecodeAnswer(cmd, buf, dat);
    }

    /** initialize_obd; `dat` is the answer buffer at the end. */
    method Initialize(arrivals: seq<seq<Byte>>)
        returns (done: bool, r: int, ghost stream: seq<Byte>, ghost k: nat, ghost dat: seq<Byte>)
      requires elm.fifo.Valid()
      modifies elm.fifo, elm.fifo.buf, elm.uart, linkedList
      ensures elm.fifo.Valid() && |dat| == RESPONSE_SIZE
      ensures Heard(stream, old(elm.fifo.Contents()), old(elm.fifo.status) == FULL, arrivals, done)
      ensures elm.uart.sent == old(elm.uart.sent) + GET_DEVS
      ensures !done ==> k == |stream| && Unfinished(stream, k)
      ensures done ==> StopsAt(stream, RESPONSE_SIZE, k) && elm.fifo.Contents() == stream[k..]
      ensures done ==> (r == 0 <==> Decode(Text(stream[..k]), GET_DEVS).Some?)
      ensures done && r == 0 ==> linkedList.Valid() && Listed(Text(stream[..k]), dat, linkedList.contents)
    {
      hide Decode, Text, Items, Consistent, StopsAt, Supported, Unfinished, Heard;
      var answer := new Byte[64];
      var buf := new Byte[65];
      done, r, stream, k := Command(GET_DEVS, buf, answer, arrivals);
      dat := answer[..];
      if !done || r < 0 {
        return;
      }
      var res := FromBe32(answer[2..6]);
      SetSupportedOps(res);
      r := 0;
    }
  }

  /** The memory from the output pointer on, once `bs` has been decoded into it. */
  function Overlaid(bs: seq<Byte>, mem: seq<Byte>): seq<Byte>
    requires |bs| <= |mem|
  {
    bs + mem[|bs|..]
  }

  /** The cells behind an array of `n` bytes at the beginning keep what they hold, whatever that is,
      if and only if no more than `n` bytes are decoded. */
  lemma ArrayKeptIff(bs: seq<Byte>, n: nat, size: nat)
    requires |bs| <= size && n <= size
    ensures (forall mem: seq<Byte> | |mem| == size :: Overlaid(bs, mem)[n..] == mem[n..]) <==> |bs| <= n
  {
    forall mem: seq<Byte> | |mem| == size && |bs| <= n ensures Overlaid(bs, mem)[n..] == mem[n..] {
    }
    if |bs| > n {
      var b: Byte := if bs[n] == 0 then 1 else 0;
      var mem := seq(size, _ => b);
      assert Overlaid(bs, mem)[n..][0] == bs[n] != mem[n..][0];
    }
  }

  /** So obd_command writes behind an output array of `n` bytes if and only if the answer decodes and
      has more than 2n hexadecimal digits from the preamble on. */
  lemma OutputOverrunIff(text: seq<Byte>, cmd: seq<Byte>, n: nat)
    requires IsCommand(cmd) && |text| <= RESPONSE_SIZE && n <= 32 && Decode(text, cmd).Some?
    ensures var bs, i := Decode(text, cmd).value, Find(text, Preamble(cmd));
            && |bs| <= 32 && 0 <= i <= |text|
            && ((forall mem: seq<Byte> | |mem| == 32 :: Overlaid(bs, mem)[n..] == mem[n..]) <==> |Compact(text[i..])| <= 2 * n)
  {
    hide Find, Compact, DecodePairs, Preamble, Overlaid;
    ArrayKeptIff(Decode(text, cmd).value, n, 32);
  }

  lemma DropTwice(s: seq<Byte>, i: nat, j: nat)
    requires i <= j <= |s|
    ensures s[i..][j - i..] == s[j..]
  {
  }

  lemma {:induction false} TextTail(s: seq<Byte>, i: nat)
    requires NUL in s && i <= |Text(s)|
    ensures i < |s| && NUL in s[i..] && Text(s[i..]) == Text(s)[i..]
    decreases i
  {
    TextStops(s);
    assert s[i..][|Text(s)| - i] == NUL;
    if i == 0 {
      assert s[0..] == s;
    } else {
      TextStops(s[1..]);
      TextTail(s[1..], i - 1);
      assert s[1..][i - 1..] == s[i..];
    }
  }

  lemma AnswerText(stream: seq<Byte>, rest: seq<Byte>, buf: seq<Byte>, len: nat, k: nat)
    requires Stored(stream, rest, buf, len, k) && 0 < len
    ensures NUL in buf && Text(buf) == Text(stream[..k])
  {
    assert buf == buf[..k] + [NUL] + buf[k + 1..];
    TextUpToNul(buf[..k], buf[k + 1..]);
  }
}
