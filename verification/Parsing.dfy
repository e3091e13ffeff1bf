/** Readers for the fields of a canonical byte string. Each returns the field and what follows it. */
module Parsing {
  import opened Wrappers
  import opened Bits

  function Take(bs: seq<byte>, n: nat): Option<(seq<byte>, seq<byte>)> {
    if n <= |bs| then Some((bs[..n], bs[n..])) else None
  }

  lemma TakeOf(a: seq<byte>, rest: seq<byte>)
    ensures Take(a + rest, |a|) == Some((a, rest))
  {
  }

  /** A fixed tag. */
  function TakeTag(bs: seq<byte>, tag: seq<byte>): Option<seq<byte>> {
    if tag <= bs then Some(bs[|tag|..]) else None
  }

  lemma TakeTagOf(tag: seq<byte>, rest: seq<byte>)
    ensures TakeTag(tag + rest, tag) == Some(rest)
  {
  }

  lemma UntakeShort(bs: seq<byte>)
    requires TakeShort(bs).Some?
    ensures var (s, rest) := TakeShort(bs).value;
      |s| <= 255 && bs == Short(s) + rest
  {
    assert bs == [bs[0]] + bs[1..];
  }

  /** What was taken, put back in front, is the input. */
  lemma Untake(bs: seq<byte>, n: nat, tag: seq<byte>)
    ensures Take(bs, n).Some? ==> |Take(bs, n).value.0| == n && bs == Take(bs, n).value.0 + Take(bs, n).value.1
    ensures TakeTag(bs, tag).Some? ==> bs == tag + TakeTag(bs, tag).value
    ensures TakeShort(bs).Some? ==>
      |TakeShort(bs).value.0| <= 255 && bs == Short(TakeShort(bs).value.0) + TakeShort(bs).value.1
    ensures TakeLong(bs).Some? ==>
      |TakeLong(bs).value.0| < 0x1_0000_0000 && bs == Long(TakeLong(bs).value.0) + TakeLong(bs).value.1
  {
    hide TakeLong, Long, TakeShort, Short;
    if TakeShort(bs).Some? {
      UntakeShort(bs);
    }
    if TakeLong(bs).Some? {
      UntakeLong(bs);
    }
  }

  lemma LengthFits(len: seq<byte>)
    requires |len| == 4
    ensures FromLe(len) < 0x1_0000_0000
  {
    LeOfFrom(len);
    Pow2Words();
  }

  lemma UntakeLong(bs: seq<byte>)
    requires TakeLong(bs).Some?
    ensures var (s, rest) := TakeLong(bs).value;
      |s| < 0x1_0000_0000 && bs == Long(s) + rest
  {
    hide LeBytes, FromLe;
    var (len, tail) := Take(bs, 4).value;
    LeOfFrom(len);
    LengthFits(len);
    var (s, rest) := TakeLong(bs).value;
    assert tail == s + rest && bs == len + tail;
    AppendAssoc(len, s, rest);
  }

  /** A string behind a one-byte length. */
  function TakeShort(bs: seq<byte>): Option<(seq<byte>, seq<byte>)> {
    if bs == [] then None else Take(bs[1..], bs[0])
  }

  function Short(s: seq<byte>): (r: seq<byte>)
    requires |s| <= 255
    ensures |r| == |s| + 1
  {
    [|s|] + s
  }

  lemma TakeShortOf(s: seq<byte>, rest: seq<byte>)
    requires |s| <= 255
    ensures TakeShort(Short(s) + rest) == Some((s, rest))
  {
    var bs := Short(s) + rest;
    assert bs[0] == |s| && bs[1..] == s + rest;
  }

  /** A string behind a four-byte little-endian length. */
  function TakeLong(bs: seq<byte>): Option<(seq<byte>, seq<byte>)> {
    var (len, rest) :- Take(bs, 4);
    Take(rest, FromLe(len))
  }

  function Long(s: seq<byte>): seq<byte>
    requires |s| < 0x1_0000_0000
  {
    LeBytes(|s|, 4) + s
  }

  lemma TakeLongOf(s: seq<byte>, rest: seq<byte>)
    requires |s| < 0x1_0000_0000
    ensures TakeLong(Long(s) + rest) == Some((s, rest))
  {
    Pow2Words();
    FromLeOf(|s|, 4);
    AppendAssoc(LeBytes(|s|, 4), s, rest);
    TakeOf(LeBytes(|s|, 4), s + rest);
    TakeOf(s, rest);
  }
}
