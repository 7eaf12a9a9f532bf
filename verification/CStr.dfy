/** NUL-terminated strings in byte buffers, and the library functions the source calls on them. */
module CStr {
  import opened Bytes

  const NUL: Byte := 0

  /** The string that starts at the beginning of `s`. */
  function Text(s: seq<Byte>): (t: seq<Byte>)
    ensures t <= s && NUL !in t
    ensures |t| < |s| ==> s[|t|] == NUL
  {
    if s == [] || s[0] == NUL then [] else [s[0]] + Text(s[1..])
  }

  lemma {:induction false} TextOf(t: seq<Byte>, rest: seq<Byte>)
    requires NUL !in t
    ensures Text(t + [NUL] + rest) == t
  {
    if t == [] {
      assert (t + [NUL] + rest)[0] == NUL;
    } else {
      TextOf(t[1..], rest);
      assert (t + [NUL] + rest)[1..] == t[1..] + [NUL] + rest;
    }
  }

  /** strlen of the string at `start`, counted as the library does */
  method StrLen(buf: array<Byte>, start: nat) returns (n: nat)
    requires start < buf.Length && NUL in buf[start..]
    ensures n == |Text(buf[start..])| && start + n < buf.Length
  {
    n := 0;
    TextStops(buf[start..]);
    while buf[start + n] != NUL
      invariant start + n < buf.Length && n <= |Text(buf[start..])|
      decreases buf.Length - n
    {
      n := n + 1;
    }
  }

  lemma {:induction false} TextStops(s: seq<Byte>)
    requires NUL in s
    ensures |Text(s)| < |s|
  {
    if s[0] != NUL {
      TextStops(s[1..]);
    }
  }

  /** strstr: the first place where `needle` occurs, or -1 for NULL */
  function Find(hay: seq<Byte>, needle: seq<Byte>): (i: int)
    ensures -1 <= i <= |hay|
    ensures i >= 0 ==> needle <= hay[i..]
    ensures forall j :: 0 <= j <= |hay| && (i < 0 || j < i) ==> !(needle <= hay[j..])
  {
    if needle <= hay then
      assert hay[0..] == hay;
      0
    else if hay == [] then -1
    else
      var k := Find(hay[1..], needle);
      assert forall j :: 1 <= j <= |hay| ==> hay[j..] == hay[1..][j - 1..];
      if k < 0 then -1 else k + 1
  }
}
