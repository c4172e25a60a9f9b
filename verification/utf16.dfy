/**
 Little-endian UTF-16, as used for device paths on the redirection channel.

 `DecodeLe` is the permissive decoder the observer applies to raw path bytes:
 code units are read two bytes at a time, low byte first; a high surrogate
 followed by a low surrogate yields one supplementary character; every
 ill-formed unit is dropped and decoding carries on with the next unit
 (a lone low surrogate, a high surrogate not followed by a low one, a high
 surrogate at the very end, and a trailing odd byte).

 `EncodeLe` is its inverse on well-formed text and exists to state that the
 decoder loses nothing a well-behaved client sends.
 */
module Utf16 {
  import opened Bytes

  predicate IsHighSurrogate(u: int) { 0xD800 <= u < 0xDC00 }

  predicate IsLowSurrogate(u: int) { 0xDC00 <= u < 0xE000 }

  /** The 16-bit code unit stored low byte first in `lo`, `hi`. */
  function CodeUnit(lo: byte, hi: byte): (u: int)
    ensures 0 <= u < 0x1_0000
    ensures u % 0x100 == lo as int && u / 0x100 == hi as int
  {
    hi as int * 0x100 + lo as int
  }

  /** The two bytes, low byte first, of code unit `u`. */
  function UnitBytes(u: int): (bs: seq<byte>)
    requires 0 <= u < 0x1_0000
    ensures |bs| == 2 && CodeUnit(bs[0], bs[1]) == u
  {
    [(u % 0x100) as byte, (u / 0x100) as byte]
  }

  /** The character whose scalar value is the surrogate pair `high`, `low`. */
  function Combine(high: int, low: int): (c: char)
    requires IsHighSurrogate(high) && IsLowSurrogate(low)
    ensures 0x1_0000 <= c as int < 0x11_0000
    ensures (c as int - 0x1_0000) / 0x400 == high - 0xD800
    ensures (c as int - 0x1_0000) % 0x400 == low - 0xDC00
  {
    (0x1_0000 + (high - 0xD800) * 0x400 + (low - 0xDC00)) as char
  }

  /** UTF-16LE decoding with errors="ignore". */
  function DecodeLe(bs: seq<byte>): (s: string)
    ensures |s| <= |bs| / 2
    decreases |bs|
  {
    if |bs| < 2 then ""
    else
      var u := CodeUnit(bs[0], bs[1]);
      if !IsHighSurrogate(u) && !IsLowSurrogate(u) then [u as char] + DecodeLe(bs[2..])
      else if IsLowSurrogate(u) || |bs| < 4 then DecodeLe(bs[2..])
      else
        var u2 := CodeUnit(bs[2], bs[3]);
        if IsLowSurrogate(u2) then [Combine(u, u2)] + DecodeLe(bs[4..])
        else DecodeLe(bs[2..])
  }

  /** A low surrogate with no high surrogate before it is dropped. */
  lemma DecodeDropsLoneLow(u: int, rest: seq<byte>)
    requires IsLowSurrogate(u)
    ensures DecodeLe(UnitBytes(u) + rest) == DecodeLe(rest)
  {
    assert (UnitBytes(u) + rest)[2..] == rest;
  }

  /** A high surrogate followed by a unit that is not a low surrogate is
      dropped, and that unit is decoded afresh. */
  lemma DecodeDropsUnpairedHigh(u: int, v: int, rest: seq<byte>)
    requires IsHighSurrogate(u) && 0 <= v < 0x1_0000 && !IsLowSurrogate(v)
    ensures DecodeLe(UnitBytes(u) + UnitBytes(v) + rest) == DecodeLe(UnitBytes(v) + rest)
  {
    var bs := UnitBytes(u) + UnitBytes(v) + rest;
    assert CodeUnit(bs[2], bs[3]) == v;
    assert bs[2..] == UnitBytes(v) + rest;
  }

  /** A high surrogate with fewer than two bytes after it is dropped along
      with them. */
  lemma DecodeDropsFinalHigh(u: int, tail: seq<byte>)
    requires IsHighSurrogate(u) && |tail| < 2
    ensures DecodeLe(UnitBytes(u) + tail) == ""
  {
    assert (UnitBytes(u) + tail)[2..] == tail;
  }

  /** A trailing odd byte is dropped: it never completes a code unit. */
  lemma {:induction false} DecodeDropsOddByte(bs: seq<byte>, b: byte)
    requires |bs| % 2 == 0
    ensures DecodeLe(bs + [b]) == DecodeLe(bs)
    decreases |bs|
  {
    var xs := bs + [b];
    if |bs| >= 2 {
      var u := CodeUnit(bs[0], bs[1]);
      assert CodeUnit(xs[0], xs[1]) == u;
      assert xs[2..] == bs[2..] + [b];
      DecodeDropsOddByte(bs[2..], b);
      if IsHighSurrogate(u) && |bs| >= 4 {
        assert CodeUnit(xs[2], xs[3]) == CodeUnit(bs[2], bs[3]);
        assert xs[4..] == bs[4..] + [b];
        DecodeDropsOddByte(bs[4..], b);
      }
    }
  }

  /** UTF-16LE encoding of one character: one code unit, or a surrogate pair. */
  function EncodeChar(c: char): (bs: seq<byte>)
    ensures |bs| == 2 || |bs| == 4
  {
    var n := c as int;
    if n < 0x1_0000 then UnitBytes(n)
    else
      var m := n - 0x1_0000;
      UnitBytes(0xD800 + m / 0x400) + UnitBytes(0xDC00 + m % 0x400)
  }

  /** UTF-16LE encoding of a string, without byte-order mark. */
  function EncodeLe(s: string): (bs: seq<byte>)
    ensures 2 * |s| <= |bs| <= 4 * |s|
  {
    if |s| == 0 then [] else EncodeChar(s[0]) + EncodeLe(s[1..])
  }

  /** Decoding the encoding of one character yields that character and then
      decodes the remainder independently. */
  lemma DecodeEncodeChar(c: char, rest: seq<byte>)
    ensures DecodeLe(EncodeChar(c) + rest) == [c] + DecodeLe(rest)
  {
    var bs := EncodeChar(c) + rest;
    var n := c as int;
    if n < 0x1_0000 {
      assert bs[2..] == rest;
      assert CodeUnit(bs[0], bs[1]) == n;
    } else {
      var m := n - 0x1_0000;
      var high := 0xD800 + m / 0x400;
      var low := 0xDC00 + m % 0x400;
      assert CodeUnit(bs[0], bs[1]) == high;
      assert CodeUnit(bs[2], bs[3]) == low;
      assert bs[4..] == rest;
      assert Combine(high, low) as int == n;
    }
  }

  /** The decoder inverts the encoder: no character of a path survives
      encoding and decoding changed, dropped or reordered. */
  lemma {:induction false} DecodeEncode(s: string)
    ensures DecodeLe(EncodeLe(s)) == s
  {
    if |s| > 0 {
      DecodeEncodeChar(s[0], EncodeLe(s[1..]));
      DecodeEncode(s[1..]);
      assert [s[0]] + s[1..] == s;
    }
  }

  /** Encoding is a homomorphism from concatenation of strings to
      concatenation of byte sequences. */
  lemma {:induction false} EncodeConcat(a: string, b: string)
    ensures EncodeLe(a + b) == EncodeLe(a) + EncodeLe(b)
  {
    if |a| > 0 {
      assert (a + b)[1..] == a[1..] + b;
      EncodeConcat(a[1..], b);
    } else {
      assert a + b == b;
    }
  }
}
